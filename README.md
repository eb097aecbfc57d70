# ST7735 text framebuffer and rotary-knob decoder

This project models two parts of an Arduino Due front panel firmware and
proves properties of the models.

**`TextFrameBuffer`** is a character-cell framebuffer for an ST7735 TFT panel.
- The buffer is an H x W grid of (character, attribute) cells, plus a current
  attribute.
- A dirty rectangle records which cells changed since the last render.
- The mutators are `putChAt`, `bar`, `frame`, `textOut`, `decimalOut` and `hbar`.
- `render` expands the dirty cells into RGB565 scanlines through a bitmap font
  and a 16-entry palette. It streams them to the panel by DMA, using two
  scanline buffers that alternate.

**`CKnob`** decodes a quadrature rotary encoder with a push button.
- An interrupt handler samples the three pins and latches step and push events.
- `query` hands those events to the main loop once and clears them.

Files:
- `display.dfy` (module `Display`): the header's `ATTR` and `RGB565` macros,
  `rect_t`, the glyph codes, and the cell type.
- `dirty.dfy` (module `Dirty`): the clamp-then-union algebra of
  `dirty_update` and the empty sentinel of `dirty_clean`.
- `widgets.dfy` (module `Widgets`): what `textOut`, `decimalOut`, `frame`
  and `hbar` put on the screen, stated as values.
- `transport.dfy` (module `Transport`): the panel window command and the
  one-channel DMA transfer. It has a ghost log of everything sent and the
  buffer still in flight.
- `textbuffer.dfy` (module `TextBuffer`): class `TextFrameBuffer` with an
  `array2<Cell>` and its mutators, proved against the `Widgets` values. It
  also holds `render`, proved against a specification of the bus traffic.
- `knob.dfy` (module `RotaryKnob`): the handler as a step function on
  `KnobState`, and class `Knob` whose methods are proved against it.

The panel geometry, the font bitmap and the palette are not fixed here: they
are constructor parameters of `TextFrameBuffer`. `Geometry()` requires a
scanline buffer of `ST7735_TFTWIDTH` pixels to hold a full row of cells.

## Behaviour worth noting

- `dirty_update` never checks for an empty input: a zero-width rectangle
  still widens the dirty box (`Dirty.ZeroWidthStillWidens`).
- `decimalOut` always writes a digit at the units place and at every
  fractional place. With four integer places, two fractional places and no
  leading zeros, 0 shows as `"   0.00"` and 1234 as `"  12.34"`, seven
  columns wide (`Widgets.DecimalExamples`). Left of the units place a blank
  stands exactly where the value has no more digits (`Widgets.DecimalBlanks`).
- A step is counted only while its pending bit is clear. Two clockwise
  detents before a query therefore report +1 (`RotaryKnob.QuadratureCycles`).
- A changing to high while B is low, with no left step pending, counts a
  left step; B changing to high while A is low, with no right step pending,
  counts a right step. Falling edges count nothing. So A leading B gives -1,
  and B leading A gives +1 (`RotaryKnob.TurnRight`, `RotaryKnob.TurnLeft`).
- knob.hpp:15 describes `BIT_PUSH` as "pushed or released". The handler sets
  it only when the button goes down (`RotaryKnob.ReleaseOnly`).
- `frame` writes its edge and corner glyphs whatever the rectangle. On an
  empty or inverted one such as `frame(3, 0, 3, 2)` it still puts the four
  corner glyphs in columns 2 and 3, outside the rectangle and outside the
  zero-width box it dirties (`Widgets.FrameInverted`).

## Model

| member | source | states |
|---|---|---|
| Display.Attr | source/ST7735.hpp:31 | the low nibble of ATTR(fg, bg) is fg's low nibble and the high nibble is bg's low nibble |
| Display.FgIndex | source/ST7735.cpp:549 | the foreground palette index `at & 0x0f` is below 16 |
| Display.BgIndex | source/ST7735.cpp:550 | the background palette index `at >> 4` is below 16 |
| Display.AttrRoundTrip | source/ST7735.hpp:31 | decoding ATTR(fg, bg) as render does gives back fg and bg reduced to 4 bits, and exactly fg and bg when they are below 16 |
| Display.AttrComplete | source/ST7735.hpp:31 | every attribute byte is ATTR of its own two decoded indices |
| Display.Rgb565 | source/ST7735.hpp:34 | bits 15..11, 10..5 and 4..0 of RGB565(r, g, b) hold the top 5, 6 and 5 bits of r, g and b |
| Display.NamedColors | source/ST7735.hpp:51-79 | BLACK, RED, GREEN, BLUE and WHITE are RGB565 of the full-scale triples |
| Display.RectHalfOpen | source/ST7735.hpp:44-47 | a non-empty rect_t contains (x0, y0) but not (x1, y1), and it contains some cell exactly when it is non-empty |
| Dirty.Constrain | source/ST7735.cpp:517-520 | constrain lands in [lo, hi], is the identity inside it and saturates at each end |
| Dirty.Clamp | source/ST7735.cpp:517-520 | the clamped rectangle lies in [0,W] x [0,H] and equals the input when the input already does |
| Dirty.Union | source/ST7735.cpp:521-524 | the min/max union encloses both rectangles and is enclosed by every rectangle enclosing both |
| Dirty.Empty | source/ST7735.cpp:505-512 | the clean sentinel is empty and every in-bounds rectangle encloses it, so the first update makes the box exactly its clamped input |
| Dirty.Grow | source/ST7735.cpp:514-525 | the new dirty box is the least rectangle enclosing the old one and the clamped input, and stays in bounds |
| Dirty.GrowCoversCells | source/ST7735.cpp:514-525 | every on-screen cell of an updated rectangle is inside the new dirty box |
| Dirty.GrowEmpty | source/ST7735.cpp:505-525 | growing the clean sentinel gives exactly the clamped input |
| Dirty.GrowIdempotent | source/ST7735.cpp:514-525 | updating twice with the same rectangle equals updating once |
| Dirty.ZeroWidthStillWidens | source/ST7735.cpp:514-525 | a zero-width input still changes the clean sentinel, because there is no emptiness check |
| Dirty.GrowAll | source/ST7735.cpp:514-525 | any sequence of updates keeps an in-bounds dirty box in bounds |
| Dirty.GrowAllEncloses | source/ST7735.cpp:514-525 | after any sequence of updates the dirty box encloses the starting box and every clamped input |
| Dirty.GrowAllAttained | source/ST7735.cpp:514-525 | after any sequence of updates each coordinate of the dirty box is the starting box's or some clamped input's |
| Dirty.GrowAllIsBoundingBox | source/ST7735.cpp:514-525 | after any sequence of updates the dirty box is the exact bounding box of the starting box and the clamped inputs |
| Widgets.StrLen | source/ST7735.cpp:408-416 | the string length stops at the first NUL, or at the end of the sequence |
| Widgets.TextSpan | source/ST7735.cpp:405-424 | textOut writes exactly the columns that are on screen, right of x, before the terminator and within the length budget, starting at max(x, 0) |
| Widgets.TextSpanClipsBothEdges | source/ST7735.hpp:183 | with the default length 65535, a 10-character string at column -3 on an 8-column row lands on columns 0..6 |
| Widgets.DigitChar | source/ST7735.cpp:436-437 | the character of a place is a blank exactly when no digits remain, the place is left of the units place and leading zeros are off; otherwise it is the digit v % 10 |
| Widgets.DecimalWidth | source/ST7735.cpp:430 | the field is ndigits + ndecimal wide exactly when there is no point |
| Widgets.PlaceIndex | source/ST7735.cpp:434-442 | the position of a place's character lies inside the field |
| Widgets.FieldFromBlank | source/ST7735.cpp:434-443 | place p of the remaining field is a blank exactly when leading zeros are off, p is left of the units place and the remaining value is below 10^(p - q) |
| Widgets.FieldFromNoBlank | source/ST7735.cpp:436-437 | with leading zeros the remaining field has no blank |
| Widgets.DecimalBlanks | source/ST7735.cpp:434-443 | with leadzero no character is a blank; without it the character of place p is a blank exactly when p > ndecimal and val < 10^p |
| Widgets.FieldFrom | source/ST7735.cpp:434-443 | the remaining places give one character each, plus one point when the last fractional place is still to come |
| Widgets.DecimalField | source/ST7735.cpp:430-443 | the field is exactly ndigits + ndecimal (+1 for the point) characters wide, the width of x+1 .. cx |
| Widgets.FieldFromStep | source/ST7735.cpp:435-442 | each loop step writes the digit or blank of its place at cx, then the point when the fractional places are done |
| Widgets.ReadBackFieldFrom | source/ST7735.cpp:434-443 | reading back the digits of the remaining places gives the remaining value when it fits in them |
| Widgets.DecimalReadBack | source/ST7735.hpp:185-195 | reading back the digits written, skipping point and blanks, gives val whenever val < 10^(ndigits+ndecimal) |
| Widgets.PointInFieldFrom | source/ST7735.cpp:439-442 | the point is at position n - ndecimal of the remaining field and nowhere else, with only digits to its right |
| Widgets.DecimalPointPosition | source/ST7735.cpp:436-442 | with ndecimal > 0 the point follows exactly the ndigits integer places, and every place right of it is a digit |
| Widgets.DecimalDirty | source/ST7735.cpp:430-432 | the dirtied rectangle holds exactly the columns x .. cx - 1 of row y |
| Widgets.DecimalDirtyMissesLastDigit | source/ST7735.cpp:430-432 | the dirtied rectangle [x, cx) leaves out written column cx and takes in unwritten column x |
| Widgets.DecimalDirtyCorrectedIsField | source/ST7735.cpp:430-442 | the corrected rectangle holds exactly the written columns x+1 .. cx |
| Widgets.DecimalExamples | source/ST7735.cpp:427-444 | 1234 (4, 2, blanks) shows "  12.34", 0 shows "   0.00", and 7 (3, 0, zeros) shows "007" |
| Widgets.FrameGlyph | source/ST7735.cpp:459-477 | a position gets a non-blank glyph exactly when it is on one of the rectangle's edge rows or columns |
| Widgets.FrameOutline | source/ST7735.cpp:459-477 | a frame cell is blank exactly when strictly inside, and the four corners carry NW, NE, SW and SE on frames at least 2 x 2 |
| Widgets.RowsPass | source/ST7735.cpp:463-466 | the row loop up to column x keeps every attribute and changes only cells of the top and bottom rows in columns x0 .. x-1 |
| Widgets.ColumnsPass | source/ST7735.cpp:467-470 | the column loop down to row y keeps every attribute and changes only cells of the columns x0 and x1-1 in rows y0 .. y-1 |
| Widgets.CornersPass | source/ST7735.cpp:471-474 | the corner writes keep every attribute and change only the four corner cells |
| Widgets.FrameCell | source/ST7735.cpp:458-477 | after frame a cell has attribute m_at exactly when it is inside the rectangle, and keeps its old attribute otherwise |
| Widgets.FrameCellOnBox | source/ST7735.cpp:458-477 | on a non-empty rectangle the four steps of frame give FrameGlyph with the new attribute inside the rectangle and the old cell outside |
| Widgets.FrameCellFootprint | source/ST7735.cpp:458-477 | on any rectangle, frame changes only cells inside it, on its edge rows and columns, or at its four corners |
| Widgets.FrameInverted | source/ST7735.cpp:458-477 | frame(3, 0, 3, 2) has no cells, yet it writes NW and SW glyphs in column 3 and NE and SE glyphs in column 2, keeping the old attributes |
| Widgets.HBarCellsAt | source/ST7735.cpp:484-500 | cell k of the bar is FULL, then one HALF_W for an odd count, then EMPTY |
| Widgets.HBarCells | source/ST7735.cpp:482-500 | the bar is halfchars / 2 full cells, one half cell for an odd count, and half the uint8 remainder in empty cells wide |
| Widgets.HBarGlyph | source/ST7735.cpp:484-500 | cell k shows min(2, max(0, halfchars - 2k)) half-characters |
| Widgets.HBarShowsHalfchars | source/ST7735.hpp:213-218 | the bar shows exactly halfchars half-characters (FULL 2, HALF_W 1, EMPTY 0) |
| Widgets.HBarWidth | source/ST7735.cpp:482-500 | within capacity the bar takes at most ceil(maxhalfchars/2) cells, and exactly maxhalfchars/2 when that is even |
| Widgets.HBarWrapsWhenOverfull | source/ST7735.cpp:482 | past capacity the uint8 difference wraps: one half on a capacity-0 bar asks for 127 empty cells |
| Transport.Panel.SetAddrWindow | source/ST7735.cpp:536-537 | the window command is appended to the bus log, and it requires an idle DMA channel |
| Transport.Panel.constructor | source/ST7735.cpp:536-537 | the transport abstraction starts in its idle state, with no transfer in flight and an empty bus log, so the synchronous setAddrWindow that opens render may run |
| Transport.Panel.WaitForDMA | source/ST7735.cpp:569 | after the wait no transfer is in flight |
| Transport.Panel.SendBufferDMA | source/ST7735.cpp:570 | a transfer requires an idle channel, logs the pixels it sends, and leaves its buffer in flight |
| TextBuffer.DecimalOutLosesLastDigit | source/ST7735.cpp:430-432 | on a clean buffer, decimalOut's dirty box misses the last digit written, and the corrected box holds it |
| TextBuffer.TextFrameBuffer.constructor | source/ST7735.cpp:379-388 | every cell is zero, the attribute is ATTR(7, 0) and the whole buffer is dirty |
| TextBuffer.TextFrameBuffer.TextAttr | source/ST7735.cpp:390-394 | sets the current attribute |
| TextBuffer.TextFrameBuffer.DirtyClean | source/ST7735.cpp:505-512 | the dirty box becomes the sentinel (W, H, 0, 0) |
| TextBuffer.TextFrameBuffer.DirtyUpdate | source/ST7735.cpp:514-525 | the dirty box becomes Grow of the old box and the argument |
| TextBuffer.TextFrameBuffer.PutChAt | source/ST7735.cpp:396-402 | exactly cell (x, y) gets (ch, at), and the box grows by [x,x+1) x [y,y+1) |
| TextBuffer.TextFrameBuffer.Bar | source/ST7735.cpp:446-456 | exactly the cells of [x0,x1) x [y0,y1) get (ch, at), and the box grows by that rectangle |
| TextBuffer.TextFrameBuffer.Frame | source/ST7735.cpp:458-477 | on any rectangle whose four corner cells are in the buffer, every cell becomes FrameCell of its old value: bar, row loop, column loop, corners in order. On a non-empty rectangle exactly its cells get the frame glyph of their position with attribute m_at. The box grows by the rectangle |
| TextBuffer.TextFrameBuffer.FrameRows | source/ST7735.cpp:463-466 | for x0 <= x < x1 the top row gets FRAME_N1 and the bottom row FRAME_S1, which wins on a one-row box; attributes and other cells are kept; nothing happens when x1 <= x0 |
| TextBuffer.TextFrameBuffer.FrameColumns | source/ST7735.cpp:467-470 | for y0 <= y < y1 column x0 gets FRAME_E1 and column x1-1 FRAME_W1, which wins when they coincide; nothing happens when y1 <= y0 |
| TextBuffer.TextFrameBuffer.FrameCorners | source/ST7735.cpp:471-474 | the four corner cells get NW, NE, SW, SE in that order, the later write winning where corners coincide, attributes kept |
| TextBuffer.TextFrameBuffer.PutRowPair | source/ST7735.cpp:464-465 | one pass of the row loop sets FRAME_N1 then FRAME_S1 in column x, keeps the attributes and changes nothing else |
| TextBuffer.TextFrameBuffer.PutColumnPair | source/ST7735.cpp:468-469 | one pass of the column loop sets FRAME_E1 then FRAME_W1 in row y, keeps the attributes and changes nothing else |
| TextBuffer.TextFrameBuffer.PutGlyph | source/ST7735.cpp:471-474 | `m_buf[y][x][0] = ch` changes the character of cell (x, y), keeps its attribute and changes nothing else |
| TextBuffer.TextFrameBuffer.CornersInside | source/ST7735.cpp:471-474 | the four corner cells frame writes unconditionally lie in the buffer |
| TextBuffer.TextFrameBuffer.TextOut | source/ST7735.cpp:404-424 | exactly the TextSpan columns of row y get the string's characters with m_at; the box grows by them, and not at all when nothing is written |
| TextBuffer.TextFrameBuffer.SkipLeft | source/ST7735.cpp:408-412 | the skip loop passes over min(-x, string length, length budget) characters when x < 0, and none otherwise |
| TextBuffer.TextFrameBuffer.WriteRun | source/ST7735.cpp:415-422 | the write loop fills the columns from x + k0 up to the end of TextSpan with s[c - x] and m_at, and nothing else |
| TextBuffer.TextFrameBuffer.DecimalOut | source/ST7735.cpp:426-444 | columns x+1 .. cx of row y get the decimal field with m_at, nothing else changes, and the box grows by [x, cx) |
| TextBuffer.TextFrameBuffer.WriteDecimal | source/ST7735.cpp:433-443 | the right-to-left loop leaves the field in columns x+1 .. cx and changes no other cell |
| TextBuffer.TextFrameBuffer.DecimalPlace | source/ST7735.cpp:435-442 | one pass writes the character of its place at cx, and the point left of it after the last fractional place, and leaves the next field prefix |
| TextBuffer.TextFrameBuffer.DecimalOutCorrected | source/ST7735.cpp:430-444 | the same cells as decimalOut, with every written column inside the new dirty box |
| TextBuffer.TextFrameBuffer.HBar | source/ST7735.cpp:479-502 | exactly the bar's cells from x0 on get its glyphs (HBarGlyph, which HBarCellsAt ties to HBarCells) with m_at, and the box grows by the written columns |
| TextBuffer.TextFrameBuffer.HBarFill | source/ST7735.cpp:484-495 | halfchars / 2 FULL cells then one HALF_W for an odd count, ending at x0 + halfchars / 2 + halfchars % 2 |
| TextBuffer.TextFrameBuffer.HBarRest | source/ST7735.cpp:496-501 | rest / 2 EMPTY cells after the filled part, and nothing else |
| TextBuffer.TextFrameBuffer.Pixel | source/ST7735.cpp:548-564 | each pixel is the foreground colour of the cell's attribute or its background colour |
| TextBuffer.TextFrameBuffer.CellPixels | source/ST7735.cpp:548-565 | a cell gives FONTWIDTH pixels per font line |
| TextBuffer.TextFrameBuffer.ScanlineOf | source/ST7735.cpp:547-566 | a scanline over columns [x0, x1) has (x1 - x0) * FONTWIDTH pixels |
| TextBuffer.TextFrameBuffer.FillCell | source/ST7735.cpp:548-565 | the cell's pixels are appended after position p, and the pixels before it are kept |
| TextBuffer.TextFrameBuffer.FillScanline | source/ST7735.cpp:546-566 | the buffer starts with the scanline of the row's dirty columns, and it must not be the buffer in flight |
| TextBuffer.TextFrameBuffer.SendRow | source/ST7735.cpp:543-571 | the row's FONTHEIGHT scanlines are sent in order, with the alternation kept |
| TextBuffer.TextFrameBuffer.SendLine | source/ST7735.cpp:546-570 | one scanline is filled into the buffer not in flight and sent after the previous transfer, keeping the alternation |
| TextBuffer.TextFrameBuffer.SendRows | source/ST7735.cpp:541-572 | every scanline of every cell row of the region is sent, top to bottom, with the alternation kept |
| TextBuffer.TextFrameBuffer.Render | source/ST7735.cpp:527-577 | the bus gets the window and every scanline of the old dirty box (nothing when it is empty), consecutive transfers use different buffers, no transfer is left in flight, and the box ends clean |
| TextBuffer.TextFrameBuffer.WindowOf | source/ST7735.cpp:536-537 | the window is a window command spanning (x1 - x0) * FONTWIDTH by (y1 - y0) * FONTHEIGHT pixels |
| TextBuffer.TextFrameBuffer.RowLines | source/ST7735.cpp:543-571 | a cell row gives jj scanline commands for its first jj font lines |
| TextBuffer.TextFrameBuffer.Lines | source/ST7735.cpp:541-572 | the rows of the region give only scanline commands |
| TextBuffer.TextFrameBuffer.RenderOps | source/ST7735.cpp:527-577 | render sends nothing exactly when the dirty box is empty, and otherwise one window command followed only by scanlines |
| TextBuffer.TextFrameBuffer.ScanlinePixel | source/ST7735.cpp:547-565 | pixel (x - x0) * FONTWIDTH + k of a scanline is pixel k of cell x's font line |
| TextBuffer.TextFrameBuffer.RowLinesAt | source/ST7735.cpp:543-571 | a cell row gives FONTHEIGHT scanlines in font-line order |
| TextBuffer.TextFrameBuffer.RowLinesPixels | source/ST7735.cpp:543-571 | a cell row's scanlines carry FONTHEIGHT * (x1 - x0) * FONTWIDTH pixels |
| TextBuffer.TextFrameBuffer.LinesLength | source/ST7735.cpp:541-572 | the dirty rows give (y1 - y0) * FONTHEIGHT scanlines |
| TextBuffer.TextFrameBuffer.LineAt | source/ST7735.cpp:541-572 | scanline (y - y0) * FONTHEIGHT + jj is font line jj of cell row y |
| TextBuffer.TextFrameBuffer.LinesPixels | source/ST7735.cpp:541-572 | all the scanlines together carry (y1 - y0) * FONTHEIGHT * (x1 - x0) * FONTWIDTH pixels |
| TextBuffer.TextFrameBuffer.RenderFillsWindow | source/ST7735.cpp:536-572 | render sends the window (x0·FW, y0·FH, x1·FW-1, y1·FH-1) first, then exactly as many pixels as the window holds |
| TextBuffer.TextFrameBuffer.RenderShowsCell | source/ST7735.cpp:548-565 | each sent pixel is the palette foreground where the cell's font bit is set, and the background elsewhere |
| TextBuffer.TextFrameBuffer.CleanRenderSendsNothing | source/ST7735.cpp:530 | a clean dirty box sends nothing, so a second render without mutations does no bus work |
| RotaryKnob.Consistent | source/knob.hpp:54-56 | a counter consistent with the pending bits lies in -1 .. 1 |
| RotaryKnob.Direction | source/knob.cpp:21-31 | a pending mask stands for a movement in -1 .. 1, zero exactly when both or neither step bits are set |
| RotaryKnob.Step | source/knob.cpp:15-39 | after the handler the level flags follow the pins, no pending bit is lost, no bit beyond the three event bits is set, and the counter stays consistent with the pending bits |
| RotaryKnob.StepA | source/knob.cpp:18-25 | the A block sets the A level, keeps every pending bit, sets no bit beyond the three event bits and keeps the counter consistent |
| RotaryKnob.StepB | source/knob.cpp:26-33 | the B block sets the B level, keeps every pending bit, sets no bit beyond the three event bits and keeps the counter consistent |
| RotaryKnob.StepPush | source/knob.cpp:34-38 | the push block sets down to the inverted pin, keeps every pending bit, sets no bit beyond the three event bits and keeps the counter consistent |
| RotaryKnob.Run | source/knob.cpp:15-39 | after a sequence of interrupts the level flags follow the last sample, and no samples leave the state as it was |
| RotaryKnob.StepKeepsOffset | source/knob.cpp:21-31 | each handler run changes rel and the movement of the pending bits by the same amount |
| RotaryKnob.RunKeepsOffset | source/knob.cpp:15-39 | from any state with only event bits pending, any number of interrupts keeps the mask below 8 and rel within one of its offset |
| RotaryKnob.StaleCounterBound | source/knob.cpp:72 | after the as-written configure on a counter in -1 .. 1, any interrupts leave rel = old counter + the pending movement, so rel stays within -2 .. 2 |
| RotaryKnob.RunConsistent | source/knob.cpp:21-31 | any number of interrupts keeps rel equal to (RIGHT pending) - (LEFT pending), so rel stays in -1 .. 1 |
| RotaryKnob.RunKeepsPending | source/knob.cpp:23-37 | no pending bit is cleared by any number of interrupts |
| RotaryKnob.QuadratureCycles | source/knob.cpp:18-33 | B leading A gives one right step, A leading B one left step, two cycles still one step, and A and B rising together only a left step |
| RotaryKnob.PendingBits | source/knob.hpp:12-16 | the three pending bits are distinct single bits, together 7 |
| RotaryKnob.Knob.constructor | source/knob.cpp:89-93 | all levels, the counter and the pending mask start at zero |
| RotaryKnob.Knob.Interrupt | source/knob.cpp:15-39 | the handler's new state is Step of the old state and the sampled pins |
| RotaryKnob.Knob.FollowA | source/knob.cpp:18-25 | the A block: follow pin A, count a left step on A high with B low unless one is pending |
| RotaryKnob.Knob.FollowB | source/knob.cpp:26-33 | the B block, after A: follow pin B, count a right step on B high with A low unless one is pending |
| RotaryKnob.Knob.FollowPush | source/knob.cpp:34-38 | down follows the inverted pin, and the push bit is set only on going down |
| RotaryKnob.Knob.Query | source/knob.cpp:75-87 | nothing pending: returns 0 and writes nothing. Otherwise: returns the old mask, writes pressed = 1 or relative = rel only when that event is pending and asked for, and clears both. The mask is below 8 whenever only event bits were pending, which the handler and both configures keep; a consistent state stays consistent, and then relative equals the mask's direction |
| RotaryKnob.Knob.Configure | source/knob.cpp:72 | the pending mask is cleared and the counter is kept: the mask stays within the event bits, the counter is left offset by its old value, and the state is consistent only if that was 0 |
| RotaryKnob.Knob.ConfigureCorrected | source/knob.cpp:72 | the pending mask and the counter are both cleared, which always leaves a consistent state |
| RotaryKnob.TurnRight | source/knob.cpp:26-33 | one B-leading cycle then a query gives BIT_RIGHT and +1 |
| RotaryKnob.TurnLeft | source/knob.cpp:18-25 | one A-leading cycle then a query gives BIT_LEFT and -1 |
| RotaryKnob.PressRelease | source/knob.cpp:78-86 | press and release give BIT_PUSH with pressed 1 and no relative, and a second query gives 0 |
| RotaryKnob.ReleaseOnly | source/knob.cpp:34-38 | a release after a reported push is no event |
| RotaryKnob.ConfigureDuringEdge | source/knob.cpp:53-72 | an A edge handled during configure, then a right step, reports BIT_RIGHT with relative 0 |
| RotaryKnob.ConfigureDuringEdgeDoubles | source/knob.cpp:53-72 | an A edge handled during configure, then a left step, reports BIT_LEFT with relative -2 |
| RotaryKnob.ConfigureDuringEdgeCorrected | source/knob.cpp:72 | the same sequence with the corrected configure reports +1 |

## Left out

- source/SPI.cpp and source/SPI.hpp are not part of this model. The DMA
  channel and the SPI register programming are replaced by `Transport.Panel`:
  a ghost log of what reached the panel, and the buffer still in flight.
- The `Adafruit_ST7735` primitives, the panel boot sequence and its `Rcmd`
  table, and the pin setup are left out. They only produce hardware traffic.
- The chip-select and register-select pin writes inside `render` are left
  out. `setAddrWindow`'s own SPI traffic is one `Window` entry in the log.
- `TextBuffer.TextFrameBuffer.Render`: `sendBufferDMA` gets a byte count,
  (x1 - x0) * FONTWIDTH * 2. The model passes the pixel count instead and logs
  that many pixels.
- `TextBuffer.TextFrameBuffer.Render`: states that consecutive transfers use
  different buffers, but not that the first scanline uses `scanline[1]`. The
  two buffers are local to the method.
- Coordinates are unbounded integers, so the int16 `coord_t` overflow is not
  modelled. Instead, `putChAt`, `bar`, `frame`, `decimalOut` and `hbar`, which
  do no clipping, require the cells they write to be inside the buffer. For
  `frame` these are its four corner cells, whatever the rectangle.
- Strings are sequences of bytes. The end of the sequence stands for the NUL
  terminator, and reads past a missing terminator are not modelled.
- The geometry constants, the font bitmap and the palette come from headers
  and data files that are not shown. They are constructor parameters.
- The `s_singleton` pointers, `get()` and the `knob_interrupt` trampoline
  are left out. They only route calls to the single object.
- The knob's port and mask fields, and the pin, filter and interrupt setup in
  `configure`, are left out. `Interrupt` takes the three sampled levels as
  arguments.
- Concurrency and `volatile` between `interrupt` and `query` are not
  modelled: each call is one atomic step. The one interleaving examined is
  an interrupt that arrives before `configure` clears the pending mask.
- `m_rel` is an unbounded integer rather than an int32. From a consistent
  state it stays within -1 .. 1. After the as-written `configure` drops the
  pending bits but not the counter, it reaches at most 2 in absolute value
  (`RotaryKnob.StaleCounterBound`), so no int32 overflow can occur either way.
- DecimalOut: requires ndigits + ndecimal < 256. The loop counter `place` is
  a uint8 (ST7735.cpp:433-434), so on a wider field it wraps before reaching
  ndigits + ndecimal and the loop never ends. That non-terminating case is
  not modelled; `DecimalOutCorrected` and `WriteDecimal` carry the same bound.

## Findings

| source | as written | input that shows it | evidently intended | confidence | as-written member | corrected member |
|---|---|---|---|---|---|---|
| source/ST7735.cpp:430-432 | decimalOut writes columns x+1 .. cx but dirties [x, cx) | decimalOut(0, 0, 5, 1, 0, false) on a clean buffer writes '5' to column 1 and dirties only column 0, so render never sends the digit | dirty [x+1, cx+1), the columns written | high; not executed | TextBuffer.DecimalOutLosesLastDigit | TextBuffer.TextFrameBuffer.DecimalOutCorrected |
| source/knob.cpp:72 | configure clears m_pending but keeps m_rel | the handler runs on A high, B low after line 53 and before line 72 (rel -1, pending cleared); then B rises with A low; query returns BIT_RIGHT with relative 0; had A risen again instead, it would return BIT_LEFT with relative -2, so m_rel can reach -2 or 2 | clear m_rel together with m_pending | medium; not executed | RotaryKnob.ConfigureDuringEdge | RotaryKnob.Knob.ConfigureCorrected |
