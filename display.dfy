/** Types, macros and constants of the ST7735 text display header:
    the attribute and colour packing macros, the half-open rectangle,
    the geometric glyph codes of the 6x8 font and the buffer cell. */
module Display {

  /** An unsigned 8-bit value used as a number (character codes). */
  type byte = x: int | 0 <= x < 0x100
  /** uint16_t */
  type u16 = x: int | 0 <= x < 0x1_0000
  /** uint32_t */
  type u32 = x: int | 0 <= x < 0x1_0000_0000

  /** color_t: an RGB565 panel colour word. */
  type Color = bv16

  /** ATTR(fg, bg): the foreground palette index goes to the low nibble,
      the background index to the high nibble; higher input bits are dropped. */
  function Attr(fg: bv8, bg: bv8): (at: bv8)
    ensures at & 0x0f == fg & 0x0f
    ensures at >> 4 == bg & 0x0f
  {
    (fg & 0x0f) | ((bg & 0x0f) << 4)
  }

  /** The palette index the renderer takes a foreground colour from (`at & 0x0f`). */
  function FgIndex(at: bv8): (i: nat)
    ensures i < 16
  {
    (at & 0x0f) as int
  }

  /** The palette index the renderer takes a background colour from (`at >> 4`). */
  function BgIndex(at: bv8): (i: nat)
    ensures i < 16
  {
    (at >> 4) as int
  }

  /** Decoding an attribute the way the renderer does recovers the two
      indices given to ATTR, each reduced to its low nibble. */
  lemma AttrRoundTrip(fg: bv8, bg: bv8)
    ensures FgIndex(Attr(fg, bg)) == (fg & 0x0f) as int
    ensures BgIndex(Attr(fg, bg)) == (bg & 0x0f) as int
    ensures fg < 16 && bg < 16 ==> FgIndex(Attr(fg, bg)) == fg as int && BgIndex(Attr(fg, bg)) == bg as int
  {
  }

  /** Every attribute byte is ATTR of its own two decoded indices. */
  lemma AttrComplete(at: bv8)
    ensures Attr(at & 0x0f, at >> 4) == at
  {
  }

  /** RGB565(r, g, b): the top 5 bits of red in bits 15..11, the top 6 bits
      of green in bits 10..5 and the top 5 bits of blue in bits 4..0. */
  function Rgb565(r: bv8, g: bv8, b: bv8): (c: Color)
    ensures c >> 11 == (r >> 3) as bv16
    ensures (c >> 5) & 0x3f == (g >> 2) as bv16
    ensures c & 0x1f == (b >> 3) as bv16
  {
    ((r as bv16 & 0xF8) << 8) | ((g as bv16 & 0xFC) << 3) | (b as bv16 >> 3)
  }

  /** A few of the named colour constants are RGB565 of the full-scale triples. */
  lemma NamedColors()
    ensures Rgb565(0, 0, 0) == 0x0000        // BLACK
    ensures Rgb565(0xff, 0, 0) == 0xF800     // RED
    ensures Rgb565(0, 0xff, 0) == 0x07E0     // GREEN
    ensures Rgb565(0, 0, 0xff) == 0x001F     // BLUE
    ensures Rgb565(0xff, 0xff, 0xff) == 0xFFFF  // WHITE
  {
  }

  /** rect_t: a rectangle containing (x0, y0) but not (x1, y1). */
  datatype Rect = Rect(x0: int, y0: int, x1: int, y1: int) {
    predicate Contains(x: int, y: int) {
      x0 <= x < x1 && y0 <= y < y1
    }
    predicate IsEmpty() {
      x1 <= x0 || y1 <= y0
    }
  }

  /** A non-empty rect_t holds its first corner and not its second one,
      and it holds a cell exactly when it is non-empty. */
  lemma RectHalfOpen(r: Rect)
    ensures !r.IsEmpty() ==> r.Contains(r.x0, r.y0) && !r.Contains(r.x1, r.y1)
    ensures !r.IsEmpty() <==> exists x, y :: r.Contains(x, y)
  {
    if !r.IsEmpty() {
      assert r.Contains(r.x0, r.y0);
    }
  }

  // Geometric characters of the 6x8 font used by the widgets.
  const EMPTY: byte := 32
  const FRAME_E1: byte := 178
  const FRAME_NE1: byte := 190
  const FRAME_SW1: byte := 191
  const FRAME_N1: byte := 195
  const FRAME_S1: byte := 195
  const FRAME_SE1: byte := 216
  const FRAME_W1: byte := 178
  const FRAME_NW1: byte := 217
  const FULL: byte := 218
  const HALF_W: byte := 220

  /** Character codes written by the number and frame widgets. */
  const SPACE: byte := 32   // ' '
  const POINT: byte := 46   // '.'
  const ZERO: byte := 48    // '0'

  /** One cell of m_buf: a character code and an attribute byte. */
  datatype Cell = Cell(ch: byte, at: bv8)
}
