/** The bus the renderer streams through: the panel's address-window command
    and the SPI controller's one-channel DMA transfer with its completion
    wait. The hardware is replaced by a log of what reached the panel and
    the buffer the DMA channel is reading from. */
module Transport {
  import opened Display

  /** What reached the panel: a pixel window (column/row address set and
      RAM write) or one scanline of RGB565 pixels. */
  datatype BusOp = Window(x0: int, y0: int, x1: int, y1: int) | Scanline(pixels: seq<Color>)

  /** The number of pixels the scanlines of a bus log carry. */
  function PixelCount(ops: seq<BusOp>): nat {
    if ops == [] then 0
    else PixelCount(ops[..|ops| - 1]) + (if ops[|ops| - 1].Scanline? then |ops[|ops| - 1].pixels| else 0)
  }

  lemma {:induction false} PixelCountAppend(a: seq<BusOp>, b: seq<BusOp>)
    ensures PixelCount(a + b) == PixelCount(a) + PixelCount(b)
    decreases |b|
  {
    if b == [] {
      assert a + b == a;
    } else {
      var ab := a + b;
      assert ab[..|ab| - 1] == a + b[..|b| - 1];
      assert ab[|ab| - 1] == b[|b| - 1];
      PixelCountAppend(a, b[..|b| - 1]);
    }
  }

  /** One more scanline adds its pixels. */
  lemma PixelCountScanline(ops: seq<BusOp>, px: seq<Color>)
    ensures PixelCount(ops + [Scanline(px)]) == PixelCount(ops) + |px|
  {
    assert (ops + [Scanline(px)])[..|ops|] == ops;
  }

  class Panel {
    /** The buffer an unfinished DMA transfer is still reading, if any. */
    var inFlight: array?<Color>
    /** Everything sent to the panel, in order. */
    ghost var log: seq<BusOp>
    /** The buffer each DMA transfer was started from, in order. */
    ghost var sources: seq<array<Color>>

    constructor ()
      ensures inFlight == null && log == [] && sources == []
    {
      inFlight := null;
      log := [];
      sources := [];
    }

    /** setAddrWindow: synchronous command and data bytes, so the DMA
        channel must be idle. */
    method SetAddrWindow(x0: int, y0: int, x1: int, y1: int)
      requires inFlight == null
      modifies this
      ensures inFlight == null && sources == old(sources)
      ensures log == old(log) + [Window(x0, y0, x1, y1)]
    {
      log := log + [Window(x0, y0, x1, y1)];
    }

    /** SPI.waitForDMA: returns once the channel is idle and the transmit
        register has drained. */
    method WaitForDMA()
      modifies this
      ensures inFlight == null
      ensures log == old(log) && sources == old(sources)
    {
      inFlight := null;
    }

    /** SPI.sendBufferDMA: reprograms and starts the single DMA channel, so
        no transfer may still be running; the channel then reads the first
        length pixels of data until the next wait. */
    method SendBufferDMA(data: array<Color>, length: nat)
      requires inFlight == null
      requires length <= data.Length
      modifies this
      ensures inFlight == data
      ensures log == old(log) + [Scanline(data[..length])]
      ensures sources == old(sources) + [data]
    {
      inFlight := data;
      log := log + [Scanline(data[..length])];
      sources := sources + [data];
    }
  }
}
