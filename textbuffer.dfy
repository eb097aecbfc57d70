/** The character-cell text framebuffer built on the ST7735 driver: an
    H x W grid of (character, attribute) cells, the dirty rectangle the
    mutators widen, and the renderer that streams the dirty part to the
    panel through two alternating scanline buffers. */
module TextBuffer {
  import opened Display
  import opened Dirty
  import opened Widgets
  import opened Transport

  /** a <= b implies a * c <= b * c for c >= 0. */
  lemma {:induction false} MulMono(a: int, b: int, c: nat)
    requires a <= b
    ensures a * c <= b * c
  {
    if c > 0 {
      MulMono(a, b, c - 1);
      assert a * c == a * (c - 1) + a;
      assert b * c == b * (c - 1) + b;
    }
  }

  /** One more row of b: (a + 1) * b == a * b + b. The caller passes its own
      term for a + 1 as c, pinned by the precondition, so the product in the
      conclusion is the very term the caller's goal mentions and the solver
      need not rewrite products itself. */
  lemma MulSucc(a: int, b: int, c: int)
    requires c == a + 1
    ensures c * b == a * b + b
  {
  }

  /** Scaling a difference: x1 * c - x0 * c == (x1 - x0) * c, with the
      caller's term for x1 - x0 passed as d and pinned by the precondition,
      for the same reason as in MulSucc. */
  lemma MulSub(x1: int, x0: int, c: int, d: int)
    requires d == x1 - x0
    ensures x1 * c - x0 * c == d * c
  {
  }

  /** Regrouping the pixels of a window: b * (h * (a * w)) == (a * w) * (b * h). */
  lemma MulRegroup(a: int, b: int, w: int, h: int)
    ensures b * (h * (a * w)) == (a * w) * (b * h)
  {
  }

  /** On a clean buffer, the dirty rectangle decimalOut leaves behind does
      not hold the rightmost digit it has just written, so the next render
      leaves that cell stale; the corrected rectangle holds it. */
  lemma DecimalOutLosesLastDigit(x: int, y: int, ndigits: nat, ndecimal: nat, w: nat, h: nat)
    requires ndigits + ndecimal > 0 && 0 <= y < h && 0 <= x + 1 && x + DecimalWidth(ndigits, ndecimal) < w
    ensures !Grow(Empty(w, h), DecimalDirty(x, y, ndigits, ndecimal), w, h).Contains(x + DecimalWidth(ndigits, ndecimal), y)
    ensures Grow(Empty(w, h), DecimalDirtyCorrected(x, y, ndigits, ndecimal), w, h).Contains(x + DecimalWidth(ndigits, ndecimal), y)
  {
    GrowEmpty(DecimalDirty(x, y, ndigits, ndecimal), w, h);
    GrowEmpty(DecimalDirtyCorrected(x, y, ndigits, ndecimal), w, h);
  }

  class TextFrameBuffer {
    /** ST7735_SCRWIDTH and ST7735_SCRHEIGHT: columns and rows of cells. */
    const W: nat
    const H: nat
    /** FONTWIDTH and FONTHEIGHT: pixels per cell. */
    const FontWidth: nat
    const FontHeight: nat
    /** ST7735_TFTWIDTH: the capacity of each scanline buffer in pixels. */
    const TftWidth: nat
    /** The bitmap font: FontHeight row bytes per character code, bit k of a
        row byte lights pixel k. */
    const font: seq<bv8>
    /** s_palette: per index a (foreground, background) colour pair. */
    const palette: seq<(Color, Color)>
    /** The panel and bus the renderer writes to. */
    const panel: Panel
    /** m_buf, indexed [row, column]. */
    const buf: array2<Cell>
    /** m_dirty */
    var dirty: Rect
    /** m_at: the attribute the text and widget mutators write. */
    var at: bv8

    /** The fixed geometry: buffer and font sizes, table sizes, and a
        scanline buffer wide enough for a full row of cells. */
    predicate Geometry() {
      buf.Length0 == H && buf.Length1 == W && 0 < W && 0 < H
      && 5 <= FontWidth <= 8 && 0 < FontHeight && W * FontWidth <= TftWidth
      && |font| == 256 * FontHeight && |palette| == 16
    }

    ghost predicate Valid()
      reads this
    {
      Geometry() && InBounds(dirty, W, H)
    }

    /** TextFrameBuffer(): every cell zero, attribute ATTR(7, 0), and the
        whole buffer dirty so that the first render paints all of it. */
    constructor (w: nat, h: nat, fontWidth: nat, fontHeight: nat, tftWidth: nat,
                 font: seq<bv8>, palette: seq<(Color, Color)>, panel: Panel)
      requires 0 < w && 0 < h && 5 <= fontWidth <= 8 && 0 < fontHeight && w * fontWidth <= tftWidth
      requires |font| == 256 * fontHeight && |palette| == 16
      ensures Valid() && fresh(buf)
      ensures W == w && H == h && FontWidth == fontWidth && FontHeight == fontHeight
      ensures TftWidth == tftWidth && this.font == font && this.palette == palette && this.panel == panel
      ensures forall i, j :: 0 <= i < H && 0 <= j < W ==> buf[i, j] == Cell(0, 0)
      ensures at == Attr(7, 0)
      ensures dirty == Rect(0, 0, W, H)
    {
      W, H, FontWidth, FontHeight, TftWidth := w, h, fontWidth, fontHeight, tftWidth;
      this.font, this.palette, this.panel := font, palette, panel;
      buf := new Cell[h, w]((i, j) => Cell(0, 0));
      dirty := Empty(w, h);
      new;
      TextAttr(Attr(7, 0));
      DirtyClean();
      DirtyUpdate(0, 0, W, H);
    }

    /** textAttr */
    method TextAttr(a: bv8)
      modifies this`at
      ensures at == a
    {
      at := a;
    }

    /** dirty_clean: nothing pending. */
    method DirtyClean()
      modifies this`dirty
      ensures dirty == Empty(W, H)
    {
      dirty := Rect(W, H, 0, 0);
    }

    /** dirty_update: clamp the input to the buffer, then take the union. */
    method DirtyUpdate(x0: int, y0: int, x1: int, y1: int)
      requires Valid()
      modifies this`dirty
      ensures Valid()
      ensures dirty == Grow(old(dirty), Rect(x0, y0, x1, y1), W, H)
    {
      var cx0 := Constrain(x0, 0, W);
      var cx1 := Constrain(x1, 0, W);
      var cy0 := Constrain(y0, 0, H);
      var cy1 := Constrain(y1, 0, H);
      dirty := Rect(if dirty.x0 <= cx0 then dirty.x0 else cx0,
                    if dirty.y0 <= cy0 then dirty.y0 else cy0,
                    if dirty.x1 >= cx1 then dirty.x1 else cx1,
                    if dirty.y1 >= cy1 then dirty.y1 else cy1);
    }

    /** putChAt: one cell, no clipping. */
    method PutChAt(x: int, y: int, ch: byte, a: bv8)
      requires Valid() && 0 <= x < W && 0 <= y < H
      modifies buf, this`dirty
      ensures Valid()
      ensures forall i, j :: 0 <= i < H && 0 <= j < W ==>
        buf[i, j] == if i == y && j == x then Cell(ch, a) else old(buf[i, j])
      ensures dirty == Grow(old(dirty), Rect(x, y, x + 1, y + 1), W, H)
    {
      buf[y, x] := Cell(ch, a);
      DirtyUpdate(x, y, x + 1, y + 1);
    }

    /** textOut: the characters of s up to its terminator and at most length
        of them, from column x of row y; columns left of the screen are
        skipped, the rest is cut at the right edge, and a row off the
        screen or nothing left to write changes nothing. */
    method TextOut(x: int, y: int, s: seq<byte>, length: u16 := 65535)
      requires Valid()
      modifies buf, this`dirty
      ensures Valid()
      ensures forall i, j :: 0 <= i < H && 0 <= j < W ==>
        buf[i, j] == if i == y && TextColumn(j, x, s, length, W) then Cell(s[j - x], at) else old(buf[i, j])
      ensures var span := TextSpan(x, s, length, W);
        dirty == if 0 <= y < H && span.0 < span.1
                 then Grow(old(dirty), Rect(span.0, y, span.1, y + 1), W, H) else old(dirty)
    {
      if x >= W || y < 0 || y >= H {
        return;
      }
      var k := SkipLeft(x, s, length);
      var len := length - k;
      if len == 0 || k == |s| || s[k] == 0 {
        assert forall c :: !TextColumn(c, x, s, length, W);
        return;
      }
      var x0 := x + k;
      var cx := WriteRun(x, y, s, length, k);
      DirtyUpdate(x0, y, cx, y + 1);
    }

    /** The first loop of textOut: the characters that fall left of the
        screen are passed over, as long as the string and the length budget
        last. */
    static method SkipLeft(x: int, s: seq<byte>, length: u16) returns (k: nat)
      ensures var n := if x < 0 then -x else 0;
        k == if n <= StrLen(s) && n <= length then n else if StrLen(s) <= length then StrLen(s) else length as nat
    {
      var cx, len := x, length;
      k := 0;
      while cx < 0 && k < |s| && s[k] != 0 && len > 0
        invariant 0 <= k <= |s| && cx == x + k && len == length - k
        invariant k <= StrLen(s) && (x < 0 ==> k <= -x) && (x >= 0 ==> k == 0)
      {
        cx, k, len := cx + 1, k + 1, len - 1;
      }
    }

    /** The second loop of textOut: from column x + k0 on, character s[c - x]
        goes to column c until the right edge, the terminator or the end of
        the length budget; returns the column after the last one written. */
    method WriteRun(x: int, y: int, s: seq<byte>, length: u16, k0: nat) returns (cx: int)
      requires Geometry() && 0 <= y < H && 0 <= x + k0 && k0 <= StrLen(s) && k0 <= length
      modifies buf
      ensures cx == if x + k0 < TextSpan(x, s, length, W).1 then TextSpan(x, s, length, W).1 else x + k0
      ensures forall i, j :: 0 <= i < H && 0 <= j < W ==>
        buf[i, j] == if i == y && x + k0 <= j < cx then Cell(s[j - x], at) else old(buf[i, j])
    {
      ghost var hi := TextSpan(x, s, length, W).1;
      var k, len := k0, length - k0;
      cx := x + k0;
      while cx < W && k < |s| && s[k] != 0 && len > 0
        invariant k0 <= k <= StrLen(s) && cx == x + k && len == length - k
        invariant cx <= if x + k0 < hi then hi else x + k0
        invariant forall i, j :: 0 <= i < H && 0 <= j < W ==>
          buf[i, j] == if i == y && x + k0 <= j < cx then Cell(s[j - x], at) else old(buf[i, j])
      {
        buf[y, cx] := Cell(s[k], at);
        cx, k, len := cx + 1, k + 1, len - 1;
      }
    }

    /** decimalOut: val in a field of ndigits integer and ndecimal fractional
        places with a point between them, written right to left from column
        x + DecimalWidth down to column x + 1 without clipping; the place
        counter is a uint8, so the field has fewer than 256 places. The
        rectangle dirtied is DecimalDirty, one column left of the field. */
    method DecimalOut(x: int, y: int, val: u32, ndigits: u16, ndecimal: u16, leadzero: bool)
      requires Valid()
      requires ndigits + ndecimal < 256
      requires ndigits + ndecimal > 0 ==> 0 <= y < H && 0 <= x + 1 && x + DecimalWidth(ndigits, ndecimal) < W
      modifies buf, this`dirty
      ensures Valid()
      ensures forall i, j :: 0 <= i < H && 0 <= j < W ==>
        buf[i, j] == if i == y && x < j <= x + DecimalWidth(ndigits, ndecimal)
                     then Cell(DecimalField(val, ndigits, ndecimal, leadzero)[j - x - 1], at) else old(buf[i, j])
      ensures dirty == Grow(old(dirty), DecimalDirty(x, y, ndigits, ndecimal), W, H)
    {
      var cx := x + ndigits + ndecimal + (if ndecimal > 0 then 1 else 0);
      DirtyUpdate(x, y, cx, y + 1);
      WriteDecimal(x, y, val, ndigits, ndecimal, leadzero);
    }

    /** decimalOut with the dirty rectangle over the columns it writes,
        x + 1 .. x + DecimalWidth: every written cell is then pending. */
    method DecimalOutCorrected(x: int, y: int, val: u32, ndigits: u16, ndecimal: u16, leadzero: bool)
      requires Valid()
      requires ndigits + ndecimal < 256
      requires ndigits + ndecimal > 0 ==> 0 <= y < H && 0 <= x + 1 && x + DecimalWidth(ndigits, ndecimal) < W
      modifies buf, this`dirty
      ensures Valid()
      ensures forall i, j :: 0 <= i < H && 0 <= j < W ==>
        buf[i, j] == if i == y && x < j <= x + DecimalWidth(ndigits, ndecimal)
                     then Cell(DecimalField(val, ndigits, ndecimal, leadzero)[j - x - 1], at) else old(buf[i, j])
      ensures dirty == Grow(old(dirty), DecimalDirtyCorrected(x, y, ndigits, ndecimal), W, H)
      ensures forall j :: x < j <= x + DecimalWidth(ndigits, ndecimal) ==> dirty.Contains(j, y)
    {
      var cx := x + ndigits + ndecimal + (if ndecimal > 0 then 1 else 0);
      DirtyUpdate(x + 1, y, cx + 1, y + 1);
      WriteDecimal(x, y, val, ndigits, ndecimal, leadzero);
      forall j | x < j <= x + DecimalWidth(ndigits, ndecimal)
        ensures dirty.Contains(j, y)
      {
        GrowCoversCells(old(dirty), DecimalDirtyCorrected(x, y, ndigits, ndecimal), W, H, j, y);
      }
    }

    /** The write loop of decimalOut: place by place from the units end,
        a digit or blank, and the point once the fractional places are done. */
    method WriteDecimal(x: int, y: int, val: u32, ndigits: u16, ndecimal: u16, leadzero: bool)
      requires Geometry()
      requires ndigits + ndecimal < 256
      requires ndigits + ndecimal > 0 ==> 0 <= y < H && 0 <= x + 1 && x + DecimalWidth(ndigits, ndecimal) < W
      modifies buf
      ensures forall i, j :: 0 <= i < H && 0 <= j < W ==>
        buf[i, j] == if i == y && x < j <= x + DecimalWidth(ndigits, ndecimal)
                     then Cell(DecimalField(val, ndigits, ndecimal, leadzero)[j - x - 1], at) else old(buf[i, j])
    {
      ghost var n := ndigits + ndecimal;
      ghost var f := DecimalField(val, ndigits, ndecimal, leadzero);
      var cx := x + ndigits + ndecimal + (if ndecimal > 0 then 1 else 0);
      var place: byte := 0;
      var v: nat := val;
      while place < ndigits + ndecimal
        invariant 0 <= place <= n && x <= cx <= x + |f|
        invariant f[..cx - x] == FieldFrom(v, place, n, ndecimal, leadzero)
        invariant forall i, j :: 0 <= i < H && 0 <= j < W ==>
          buf[i, j] == if i == y && cx < j <= x + |f| then Cell(f[j - x - 1], at) else old(buf[i, j])
        modifies buf
      {
        cx := DecimalPlace(x, y, f, cx, v, place, n, ndecimal, leadzero);
        v := v / 10;
        place := place + 1;
      }
    }

    /** One pass of the decimalOut loop: the character of this place at
        column cx, and the point left of it once the fractional places are
        done; returns the next column to write. */
    method DecimalPlace(x: int, y: int, ghost f: seq<byte>, cx: int, v: nat, place: nat, ghost n: nat,
                        ndecimal: nat, leadzero: bool) returns (cx': int)
      requires Geometry() && 0 <= y < H && 0 <= x + 1 && x + |f| < W
      requires place < n && x < cx <= x + |f| && f[..cx - x] == FieldFrom(v, place, n, ndecimal, leadzero)
      modifies buf
      ensures x <= cx' < cx && f[..cx' - x] == FieldFrom(v / 10, place + 1, n, ndecimal, leadzero)
      ensures forall i, j :: 0 <= i < H && 0 <= j < W ==>
        buf[i, j] == if i == y && cx' < j <= cx then Cell(f[j - x - 1], at) else old(buf[i, j])
    {
      FieldFromStep(f, cx - x, v, place, n, ndecimal, leadzero);
      buf[y, cx] := Cell(DigitChar(v, place, ndecimal, leadzero), at);
      cx' := cx - 1;
      if place + 1 == ndecimal {
        buf[y, cx'] := Cell(POINT, at);
        cx' := cx' - 1;
      }
    }

    /** bar: fill [x0,x1) x [y0,y1) with one character and attribute; the
        rectangle is not clipped, so a non-empty one must lie in the buffer. */
    method Bar(x0: int, y0: int, x1: int, y1: int, ch: byte, a: bv8)
      requires Valid()
      requires x0 < x1 && y0 < y1 ==> 0 <= x0 && x1 <= W && 0 <= y0 && y1 <= H
      modifies buf, this`dirty
      ensures Valid()
      ensures forall i, j :: 0 <= i < H && 0 <= j < W ==>
        buf[i, j] == if Rect(x0, y0, x1, y1).Contains(j, i) then Cell(ch, a) else old(buf[i, j])
      ensures dirty == Grow(old(dirty), Rect(x0, y0, x1, y1), W, H)
    {
      DirtyUpdate(x0, y0, x1, y1);
      var y := y0;
      while y < y1
        invariant y0 <= y <= (if y0 < y1 then y1 else y0)
        invariant forall i, j :: 0 <= i < H && 0 <= j < W ==>
          buf[i, j] == if y0 <= i < y && x0 <= j < x1 then Cell(ch, a) else old(buf[i, j])
        modifies buf
      {
        var x := x0;
        while x < x1
          invariant x0 <= x <= (if x0 < x1 then x1 else x0)
          invariant forall i, j :: 0 <= i < H && 0 <= j < W ==>
            buf[i, j] == if (y0 <= i < y && x0 <= j < x1) || (i == y && x0 <= j < x) then Cell(ch, a) else old(buf[i, j])
          modifies buf
        {
          buf[y, x] := Cell(ch, a);
          x := x + 1;
        }
        y := y + 1;
      }
    }

    /** frame: a blank box with attribute m_at whose outermost ring carries
        the frame glyphs. Nothing is checked: the source writes the corner
        cells (x0, y0), (x1-1, y0), (x0, y1-1) and (x1-1, y1-1) whatever the
        rectangle, so those four must be in the buffer; every other cell it
        writes lies between them. */
    method Frame(x0: int, y0: int, x1: int, y1: int)
      requires Valid()
      requires CornersInside(Rect(x0, y0, x1, y1))
      modifies buf, this`dirty
      ensures Valid()
      ensures forall i, j :: 0 <= i < H && 0 <= j < W ==>
        buf[i, j] == FrameCell(Rect(x0, y0, x1, y1), at, old(buf[i, j]), j, i)
      ensures x0 < x1 && y0 < y1 ==> forall i, j :: 0 <= i < H && 0 <= j < W ==>
        buf[i, j] == if Rect(x0, y0, x1, y1).Contains(j, i)
                     then Cell(FrameGlyph(Rect(x0, y0, x1, y1), j, i), at) else old(buf[i, j])
      ensures dirty == Grow(old(dirty), Rect(x0, y0, x1, y1), W, H)
    {
      var r := Rect(x0, y0, x1, y1);
      Bar(x0, y0, x1, y1, SPACE, at);
      label Blank:
      FrameRows(r);
      label Rows:
      FrameColumns(r);
      label Columns:
      FrameCorners(r);
      DirtyUpdate(x0, y0, x1, y1);
      GrowIdempotent(old(dirty), r, W, H);
      forall i, j | 0 <= i < H && 0 <= j < W
        ensures buf[i, j] == FrameCell(r, at, old(buf[i, j]), j, i)
      {
        var b := old@Blank(buf[i, j]);
        assert b == if r.Contains(j, i) then Cell(SPACE, at) else old(buf[i, j]);
        assert old@Rows(buf[i, j]) == RowsPass(r, r.x1, b, j, i);
        assert old@Columns(buf[i, j]) == ColumnsPass(r, r.y1, old@Rows(buf[i, j]), j, i);
      }
      if x0 < x1 && y0 < y1 {
        forall i, j | 0 <= i < H && 0 <= j < W
          ensures buf[i, j] == if r.Contains(j, i) then Cell(FrameGlyph(r, j, i), at) else old(buf[i, j])
        {
          FrameCellOnBox(r, at, old(buf[i, j]), j, i);
        }
      }
    }

    /** hbar: halfchars half-character units as full and half glyphs, then
        empty glyphs for the rest of maxhalfchars (a uint8 difference), from
        column x0 of row y0 without clipping; the columns written are then
        dirtied. */
    method HBar(x0: int, y0: int, halfchars: byte, maxhalfchars: byte)
      requires Valid()
      requires |HBarCells(halfchars, maxhalfchars)| > 0 ==>
        0 <= x0 && x0 + |HBarCells(halfchars, maxhalfchars)| <= W && 0 <= y0 < H
      modifies buf, this`dirty
      ensures Valid()
      ensures forall i, j :: 0 <= i < H && 0 <= j < W ==>
        buf[i, j] == if i == y0 && x0 <= j < x0 + |HBarCells(halfchars, maxhalfchars)|
                     then Cell(HBarGlyph(halfchars, j - x0), at) else old(buf[i, j])
      ensures dirty == Grow(old(dirty), Rect(x0, y0, x0 + |HBarCells(halfchars, maxhalfchars)|, y0 + 1), W, H)
    {
      var rest: byte := (maxhalfchars - halfchars) % 256;
      var x := HBarFill(x0, y0, halfchars);
      x := HBarRest(x0, y0, x, halfchars, rest);
      DirtyUpdate(x0, y0, x, y0 + 1);
    }

    /** The first loop of hbar and the half glyph after it: halfchars / 2
        full cells, then a half cell if halfchars is odd. */
    method HBarFill(x0: int, y0: int, halfchars: byte) returns (x: int)
      requires Geometry()
      requires halfchars > 0 ==> 0 <= y0 < H && 0 <= x0 && x0 + halfchars / 2 + halfchars % 2 <= W
      modifies buf
      ensures x == x0 + halfchars / 2 + halfchars % 2
      ensures forall i, j :: 0 <= i < H && 0 <= j < W ==>
        buf[i, j] == if i == y0 && x0 <= j < x then Cell(HBarGlyph(halfchars, j - x0), at) else old(buf[i, j])
    {
      var half := halfchars;
      x := x0;
      while half >= 2
        invariant 0 <= half <= halfchars && halfchars - half == 2 * (x - x0)
        invariant forall i, j :: 0 <= i < H && 0 <= j < W ==>
          buf[i, j] == if i == y0 && x0 <= j < x then Cell(HBarGlyph(halfchars, j - x0), at) else old(buf[i, j])
      {
        buf[y0, x] := Cell(FULL, at);
        half := half - 2;
        x := x + 1;
      }
      if half > 0 {
        buf[y0, x] := Cell(HALF_W, at);
        x := x + 1;
      }
    }

    /** The second loop of hbar: rest / 2 empty cells from column x1, where
        the full and half cells end. */
    method HBarRest(x0: int, y0: int, x1: int, halfchars: byte, rest: byte) returns (x: int)
      requires Geometry() && x1 == x0 + halfchars / 2 + halfchars % 2
      requires rest >= 2 ==> 0 <= y0 < H && 0 <= x1 && x1 + rest / 2 <= W
      modifies buf
      ensures x == x1 + rest / 2
      ensures forall i, j :: 0 <= i < H && 0 <= j < W ==>
        buf[i, j] == if i == y0 && x1 <= j < x then Cell(HBarGlyph(halfchars, j - x0), at) else old(buf[i, j])
    {
      var left := rest;
      x := x1;
      while left >= 2
        invariant 0 <= left <= rest && rest - left == 2 * (x - x1)
        invariant forall i, j :: 0 <= i < H && 0 <= j < W ==>
          buf[i, j] == if i == y0 && x1 <= j < x then Cell(HBarGlyph(halfchars, j - x0), at) else old(buf[i, j])
      {
        buf[y0, x] := Cell(EMPTY, at);
        left := left - 2;
        x := x + 1;
      }
    }

    // -------------------------------------------------------------------------
    // render

    /** Pixel k of font line jj of a cell: the foreground colour of its
        attribute where bit k of the font byte is set, the background colour
        elsewhere. */
    function Pixel(c: Cell, jj: nat, k: nat): (px: Color)
      requires Geometry() && jj < FontHeight && k < FontWidth
      ensures px == palette[FgIndex(c.at)].0 || px == palette[BgIndex(c.at)].1
    {
      MulMono(c.ch, 255, FontHeight);
      var line := font[c.ch * FontHeight + jj];
      if line & ((1 as bv8) << k) != 0 then palette[FgIndex(c.at)].0 else palette[BgIndex(c.at)].1
    }

    /** The FontWidth pixels of font line jj of a cell, left to right. */
    function CellPixels(c: Cell, jj: nat): (px: seq<Color>)
      requires Geometry() && jj < FontHeight
      ensures |px| == FontWidth
    {
      seq(FontWidth, k requires 0 <= k < FontWidth => Pixel(c, jj, k))
    }

    /** Pixel line jj of cell row y over the columns [x0, x1). */
    function ScanlineOf(y: int, jj: nat, x0: int, x1: int): (px: seq<Color>)
      requires Geometry() && 0 <= y < H && jj < FontHeight && 0 <= x0 && x1 <= W
      reads buf
      ensures |px| == if x0 < x1 then (x1 - x0) * FontWidth else 0
      decreases x1 - x0
    {
      if x1 <= x0 then [] else ScanlineOf(y, jj, x0, x1 - 1) + CellPixels(buf[y, x1 - 1], jj)
    }

    /** The scanlines 0 .. jj-1 of cell row y of the region r. */
    function RowLines(r: Rect, y: int, jj: nat): (ls: seq<BusOp>)
      requires Geometry() && 0 <= r.x0 && r.x1 <= W && 0 <= y < H && jj <= FontHeight
      reads buf
      ensures |ls| == jj && forall i :: 0 <= i < jj ==> ls[i].Scanline?
    {
      if jj == 0 then [] else RowLines(r, y, jj - 1) + [Scanline(ScanlineOf(y, jj - 1, r.x0, r.x1))]
    }

    /** All scanlines of the cell rows r.y0 .. y-1 of the region r. */
    function Lines(r: Rect, y: int): (ls: seq<BusOp>)
      requires Geometry() && InBounds(r, W, H) && y <= H
      reads buf
      ensures forall i :: 0 <= i < |ls| ==> ls[i].Scanline?
      decreases y - r.y0
    {
      if y <= r.y0 then [] else Lines(r, y - 1) + RowLines(r, y - 1, FontHeight)
    }

    /** The pixel window of the region r: its cells scaled to font pixels,
        with inclusive end coordinates. */
    function WindowOf(r: Rect): (w: BusOp)
      requires Geometry()
      ensures w.Window?
      ensures w.x1 - w.x0 + 1 == (r.x1 - r.x0) * FontWidth && w.y1 - w.y0 + 1 == (r.y1 - r.y0) * FontHeight
    {
      MulSub(r.x1, r.x0, FontWidth, r.x1 - r.x0);
      MulSub(r.y1, r.y0, FontHeight, r.y1 - r.y0);
      Window(r.x0 * FontWidth, r.y0 * FontHeight, r.x1 * FontWidth - 1, r.y1 * FontHeight - 1)
    }

    /** What render sends for the dirty region r: nothing when r is empty,
        else the window and then every scanline of it, top to bottom. */
    function RenderOps(r: Rect): (ops: seq<BusOp>)
      requires Geometry() && InBounds(r, W, H)
      reads buf
      ensures ops == [] <==> r.IsEmpty()
      ensures ops != [] ==> ops[0] == WindowOf(r) && forall i :: 0 < i < |ops| ==> ops[i].Scanline?
    {
      if r.x1 > r.x0 && r.y1 > r.y0 then [WindowOf(r)] + Lines(r, r.y1) else []
    }

    /** The inner loops of render for one scanline: for each cell of the
        row, its font byte for line jj and its two palette colours, then one
        pixel per font column. The buffer filled must not be the one the DMA
        channel is still sending. */
    method FillScanline(dst: array<Color>, y: int, jj: nat, x0: int, x1: int)
      requires Geometry() && 0 <= y < H && jj < FontHeight && 0 <= x0 < x1 <= W
      requires dst.Length == TftWidth && dst != panel.inFlight
      modifies dst
      ensures dst[..(x1 - x0) * FontWidth] == ScanlineOf(y, jj, x0, x1)
    {
      var p := 0;
      var x := x0;
      while x < x1
        invariant x0 <= x <= x1 && p == (x - x0) * FontWidth && p <= dst.Length
        invariant dst[..p] == ScanlineOf(y, jj, x0, x)
      {
        MulMono(x - x0 + 1, W, FontWidth);
        MulSucc(x - x0, FontWidth, x - x0 + 1);
        FillCell(dst, p, buf[y, x], jj);
        p := p + FontWidth;
        x := x + 1;
      }
    }

    /** The pixels of one cell: font byte, palette lookups, one pixel per
        font column from bit 0 up. */
    method FillCell(dst: array<Color>, p: nat, c: Cell, jj: nat)
      requires Geometry() && jj < FontHeight && p + FontWidth <= dst.Length
      modifies dst
      ensures dst[..p + FontWidth] == old(dst[..p]) + CellPixels(c, jj)
    {
      MulMono(c.ch, 255, FontHeight);
      var line := font[c.ch * FontHeight + jj];
      var fg := palette[FgIndex(c.at)].0;
      var bg := palette[BgIndex(c.at)].1;
      var k := 0;
      while k < FontWidth
        invariant 0 <= k <= FontWidth
        invariant dst[..p] == old(dst[..p])
        invariant forall i :: 0 <= i < k ==> dst[p + i] == Pixel(c, jj, i)
      {
        dst[p + k] := if line & ((1 as bv8) << k) != 0 then fg else bg;
        k := k + 1;
      }
      assert dst[..p + FontWidth] == dst[..p] + CellPixels(c, jj);
    }

    /** The double-buffering discipline of render after the transfers from
        index n0 of the source log on: a running transfer reads the buffer
        filled last, the last transfer came from it, and no two consecutive
        transfers share a buffer. */
    ghost predicate DoubleBuffered(n0: nat, scan0: array<Color>, scan1: array<Color>, nbuf: int)
      reads panel
    {
      (nbuf == 0 || nbuf == 1)
      && (panel.inFlight == null || panel.inFlight == (if nbuf == 0 then scan0 else scan1))
      && n0 <= |panel.sources|
      && (|panel.sources| > n0 ==> panel.sources[|panel.sources| - 1] == (if nbuf == 0 then scan0 else scan1))
      && (forall i :: n0 <= i < |panel.sources| - 1 ==> panel.sources[i] != panel.sources[i + 1])
    }

    /** The scanline loop of render for cell row y: flip buffers, fill, wait
        for the previous transfer, send. */
    method SendRow(r: Rect, y: int, scan0: array<Color>, scan1: array<Color>, nbuf: int, ghost n0: nat)
      returns (nbuf': int)
      requires Geometry() && InBounds(r, W, H) && r.x0 < r.x1 && 0 <= y < H
      requires scan0 != scan1 && scan0.Length == TftWidth && scan1.Length == TftWidth
      requires DoubleBuffered(n0, scan0, scan1, nbuf)
      modifies panel, scan0, scan1
      ensures DoubleBuffered(n0, scan0, scan1, nbuf')
      ensures panel.log == old(panel.log) + RowLines(r, y, FontHeight)
    {
      nbuf' := nbuf;
      var jj := 0;
      while jj < FontHeight
        invariant 0 <= jj <= FontHeight
        invariant panel.log == old(panel.log) + RowLines(r, y, jj)
        invariant DoubleBuffered(n0, scan0, scan1, nbuf')
      {
        nbuf' := SendLine(r, y, jj, scan0, scan1, nbuf', n0);
        jj := jj + 1;
      }
    }

    /** The cell-row loop of render: every scanline of every row of the
        region r, top to bottom, through the alternating buffers. */
    method SendRows(r: Rect, scan0: array<Color>, scan1: array<Color>, ghost n0: nat) returns (nbuf: int)
      requires Geometry() && InBounds(r, W, H) && r.x0 < r.x1 && r.y0 < r.y1
      requires scan0 != scan1 && scan0.Length == TftWidth && scan1.Length == TftWidth
      requires DoubleBuffered(n0, scan0, scan1, 0)
      modifies panel, scan0, scan1
      ensures DoubleBuffered(n0, scan0, scan1, nbuf)
      ensures panel.log == old(panel.log) + Lines(r, r.y1)
    {
      nbuf := 0;
      var y := r.y0;
      assert panel.log == old(panel.log) + Lines(r, y);
      while y < r.y1
        invariant r.y0 <= y <= r.y1
        invariant panel.log == old(panel.log) + Lines(r, y)
        invariant DoubleBuffered(n0, scan0, scan1, nbuf)
      {
        nbuf := SendRow(r, y, scan0, scan1, nbuf, n0);
        assert Lines(r, y + 1) == Lines(r, y) + RowLines(r, y, FontHeight);
        y := y + 1;
      }
    }

    /** One pass of the scanline loop: flip buffers, fill the one the DMA
        channel is not reading, wait for the previous transfer, send. */
    method SendLine(r: Rect, y: int, jj: nat, scan0: array<Color>, scan1: array<Color>, nbuf: int, ghost n0: nat)
      returns (nbuf': int)
      requires Geometry() && InBounds(r, W, H) && r.x0 < r.x1 && 0 <= y < H && jj < FontHeight
      requires scan0 != scan1 && scan0.Length == TftWidth && scan1.Length == TftWidth
      requires DoubleBuffered(n0, scan0, scan1, nbuf)
      modifies panel, scan0, scan1
      ensures DoubleBuffered(n0, scan0, scan1, nbuf')
      ensures panel.log == old(panel.log) + [Scanline(ScanlineOf(y, jj, r.x0, r.x1))]
    {
      nbuf' := 1 - nbuf;
      var dst := if nbuf' == 0 then scan0 else scan1;
      FillScanline(dst, y, jj, r.x0, r.x1);
      panel.WaitForDMA();
      MulMono(r.x1 - r.x0, W, FontWidth);
      panel.SendBufferDMA(dst, (r.x1 - r.x0) * FontWidth);
    }

    /** render: when the dirty region is non-empty, set the panel window to
        it and stream its scanlines through two alternating buffers, each
        filled while the other is being sent and sent only after the previous
        transfer completed; wait for the last transfer; in every case the
        buffer is clean afterwards. */
    method Render()
      requires Valid() && panel.inFlight == null
      modifies this`dirty, panel
      ensures Valid() && dirty == Empty(W, H)
      ensures panel.inFlight == null
      ensures panel.log == old(panel.log) + RenderOps(old(dirty))
      ensures forall i :: |old(panel.sources)| <= i < |panel.sources| - 1 ==> panel.sources[i] != panel.sources[i + 1]
    {
      var r := dirty;
      if r.x1 > r.x0 && r.y1 > r.y0 {
        var scan0 := new Color[TftWidth];
        var scan1 := new Color[TftWidth];
        var nbuf := 0;
        ghost var n0 := |panel.sources|;
        panel.SetAddrWindow(r.x0 * FontWidth, r.y0 * FontHeight, r.x1 * FontWidth - 1, r.y1 * FontHeight - 1);
        nbuf := SendRows(r, scan0, scan1, n0);
        panel.WaitForDMA();
        assert RenderOps(r) == [WindowOf(r)] + Lines(r, r.y1);
      }
      DirtyClean();
    }

    /** Pixel k of cell x in a scanline is the font pixel of that cell. */
    lemma {:induction false} ScanlinePixel(y: int, jj: nat, x0: int, x1: int, x: int, k: nat)
      requires Geometry() && 0 <= y < H && jj < FontHeight && 0 <= x0 <= x < x1 <= W && k < FontWidth
      ensures (x - x0) * FontWidth + k < |ScanlineOf(y, jj, x0, x1)|
      ensures ScanlineOf(y, jj, x0, x1)[(x - x0) * FontWidth + k] == Pixel(buf[y, x], jj, k)
      decreases x1 - x
    {
      var prefix := ScanlineOf(y, jj, x0, x1 - 1);
      assert ScanlineOf(y, jj, x0, x1) == prefix + CellPixels(buf[y, x1 - 1], jj);
      if x == x1 - 1 {
        assert |prefix| == (x - x0) * FontWidth;
      } else {
        ScanlinePixel(y, jj, x0, x1 - 1, x, k);
      }
    }

    /** The first jj scanlines of a cell row: jj of them, in font-line order. */
    lemma {:induction false} RowLinesAt(r: Rect, y: int, jj: nat, i: nat)
      requires Geometry() && 0 <= r.x0 && r.x1 <= W && 0 <= y < H && jj <= FontHeight
      ensures |RowLines(r, y, jj)| == jj
      ensures i < jj ==> RowLines(r, y, jj)[i] == Scanline(ScanlineOf(y, i, r.x0, r.x1))
    {
      if jj > 0 {
        RowLinesAt(r, y, jj - 1, i);
      }
    }

    /** The scanlines of one cell row carry jj full scanlines of pixels. */
    lemma {:induction false} RowLinesPixels(r: Rect, y: int, jj: nat, len: nat)
      requires Geometry() && 0 <= r.x0 < r.x1 <= W && 0 <= y < H && jj <= FontHeight
      requires len == (r.x1 - r.x0) * FontWidth
      ensures PixelCount(RowLines(r, y, jj)) == jj * len
    {
      if jj > 0 {
        var prev := RowLines(r, y, jj - 1);
        RowLinesPixels(r, y, jj - 1, len);
        var px := ScanlineOf(y, jj - 1, r.x0, r.x1);
        assert RowLines(r, y, jj) == prev + [Scanline(px)];
        PixelCountScanline(prev, px);
        MulSucc(jj - 1, len, jj);
        assert PixelCount(RowLines(r, y, jj)) == (jj - 1) * len + len;
      }
    }

    /** Cell rows r.y0 .. y-1 give FontHeight scanlines each. */
    lemma {:induction false} LinesLength(r: Rect, y: int)
      requires Geometry() && InBounds(r, W, H) && r.y0 <= y <= r.y1
      ensures |Lines(r, y)| == (y - r.y0) * FontHeight
      decreases y - r.y0
    {
      if y > r.y0 {
        LinesLength(r, y - 1);
        RowLinesAt(r, y - 1, FontHeight, 0);
        MulSucc(y - 1 - r.y0, FontHeight, y - r.y0);
      }
    }

    /** Scanline (yy - r.y0) * FontHeight + jj of the region is font line jj
        of cell row yy. */
    lemma {:induction false} LineAt(r: Rect, y: int, yy: int, jj: nat, line: nat)
      requires Geometry() && InBounds(r, W, H) && r.y0 <= yy < y <= r.y1 && jj < FontHeight
      requires line == (yy - r.y0) * FontHeight + jj
      ensures line < |Lines(r, y)|
      ensures Lines(r, y)[line] == Scanline(ScanlineOf(yy, jj, r.x0, r.x1))
      decreases y - r.y0
    {
      var prev, row := Lines(r, y - 1), RowLines(r, y - 1, FontHeight);
      assert Lines(r, y) == prev + row;
      if yy == y - 1 {
        LinesLength(r, y - 1);
        RowLinesAt(r, y - 1, FontHeight, jj);
        assert line == |prev| + jj;
      } else {
        LineAt(r, y - 1, yy, jj, line);
      }
    }

    /** The scanlines of cell rows r.y0 .. y-1 carry FontHeight full
        scanlines of pixels per row. */
    lemma {:induction false} LinesPixels(r: Rect, y: int, len: nat, m: nat)
      requires Geometry() && InBounds(r, W, H) && r.x0 < r.x1 && r.y0 <= y <= r.y1
      requires len == (r.x1 - r.x0) * FontWidth && m == FontHeight * len
      ensures PixelCount(Lines(r, y)) == (y - r.y0) * m
      decreases y - r.y0
    {
      if y > r.y0 {
        var prev, row := Lines(r, y - 1), RowLines(r, y - 1, FontHeight);
        LinesPixels(r, y - 1, len, m);
        RowLinesPixels(r, y - 1, FontHeight, len);
        assert Lines(r, y) == prev + row;
        PixelCountAppend(prev, row);
        MulSucc(y - 1 - r.y0, m, y - r.y0);
        assert PixelCount(Lines(r, y)) == (y - 1 - r.y0) * m + m;
      }
    }

    /** What render sends for a non-empty region: the window of its cells in
        font pixels, then FontHeight scanlines per cell row that together
        carry exactly as many pixels as the window holds. */
    lemma RenderFillsWindow(r: Rect)
      requires Geometry() && InBounds(r, W, H) && r.x0 < r.x1 && r.y0 < r.y1
      ensures |RenderOps(r)| == 1 + (r.y1 - r.y0) * FontHeight
      ensures RenderOps(r)[0] == WindowOf(r)
      ensures PixelCount(RenderOps(r)) ==
        (WindowOf(r).x1 - WindowOf(r).x0 + 1) * (WindowOf(r).y1 - WindowOf(r).y0 + 1)
    {
      var lines := Lines(r, r.y1);
      var a, b := r.x1 - r.x0, r.y1 - r.y0;
      LinesLength(r, r.y1);
      LinesPixels(r, r.y1, a * FontWidth, FontHeight * (a * FontWidth));
      assert RenderOps(r) == [WindowOf(r)] + lines;
      PixelCountAppend([WindowOf(r)], lines);
      assert PixelCount([WindowOf(r)]) == 0 by {
        assert [WindowOf(r)][..0] == [];
      }
      MulSub(r.x1, r.x0, FontWidth, a);
      MulSub(r.y1, r.y0, FontHeight, b);
      MulRegroup(a, b, FontWidth, FontHeight);
    }

    /** Pixel k of the scanline for font line jj of cell (x, y) is the
        font-and-palette colour of that cell: scanline number
        (y - r.y0) * FontHeight + jj after the window, pixel number
        (x - r.x0) * FontWidth + k in it. */
    lemma RenderShowsCell(r: Rect, x: int, y: int, jj: nat, k: nat, line: nat, px: nat)
      requires Geometry() && InBounds(r, W, H) && r.Contains(x, y) && jj < FontHeight && k < FontWidth
      requires line == (y - r.y0) * FontHeight + jj && px == (x - r.x0) * FontWidth + k
      ensures 1 + line < |RenderOps(r)| && RenderOps(r)[1 + line].Scanline?
      ensures px < |RenderOps(r)[1 + line].pixels|
      ensures RenderOps(r)[1 + line].pixels[px] == Pixel(buf[y, x], jj, k)
    {
      var lines := Lines(r, r.y1);
      LineAt(r, r.y1, y, jj, line);
      ScanlinePixel(y, jj, r.x0, r.x1, x, k);
      assert RenderOps(r) == [WindowOf(r)] + lines;
      assert RenderOps(r)[1 + line] == lines[line];
    }

    /** A clean buffer renders nothing. */
    lemma CleanRenderSendsNothing()
      requires Geometry()
      ensures RenderOps(Empty(W, H)) == []
    {
    }

    /** The four corner cells of r lie in the buffer. */
    predicate CornersInside(r: Rect) {
      0 <= r.x0 < W && 0 < r.x1 <= W && 0 <= r.y0 < H && 0 < r.y1 <= H
    }

    /** The first loop of frame: the top and bottom rows, column by column. */
    method FrameRows(r: Rect)
      requires Geometry() && CornersInside(r)
      modifies buf
      ensures forall i, j :: 0 <= i < H && 0 <= j < W ==> buf[i, j] == RowsPass(r, r.x1, old(buf[i, j]), j, i)
    {
      var x := r.x0;
      while x < r.x1
        invariant r.x0 <= x && (x <= r.x1 || x == r.x0)
        invariant forall i, j :: 0 <= i < H && 0 <= j < W ==> buf[i, j] == RowsPass(r, x, old(buf[i, j]), j, i)
      {
        PutRowPair(r, x);
        x := x + 1;
      }
    }

    /** One pass of the first loop of frame: the top and then the bottom cell of column x. */
    method PutRowPair(r: Rect, x: int)
      requires Geometry() && CornersInside(r) && r.x0 <= x < r.x1
      modifies buf
      ensures forall i, j :: 0 <= i < H && 0 <= j < W ==>
        buf[i, j] == if j == x && i == r.y1 - 1 then old(buf[i, j]).(ch := FRAME_S1)
                     else if j == x && i == r.y0 then old(buf[i, j]).(ch := FRAME_N1)
                     else old(buf[i, j])
    {
      buf[r.y0, x] := buf[r.y0, x].(ch := FRAME_N1);
      buf[r.y1 - 1, x] := buf[r.y1 - 1, x].(ch := FRAME_S1);
    }

    /** The second loop of frame: the left and right columns, row by row. */
    method FrameColumns(r: Rect)
      requires Geometry() && CornersInside(r)
      modifies buf
      ensures forall i, j :: 0 <= i < H && 0 <= j < W ==> buf[i, j] == ColumnsPass(r, r.y1, old(buf[i, j]), j, i)
    {
      var y := r.y0;
      while y < r.y1
        invariant r.y0 <= y && (y <= r.y1 || y == r.y0)
        invariant forall i, j :: 0 <= i < H && 0 <= j < W ==> buf[i, j] == ColumnsPass(r, y, old(buf[i, j]), j, i)
      {
        PutColumnPair(r, y);
        y := y + 1;
      }
    }

    /** One pass of the second loop of frame: the left and then the right cell of row y. */
    method PutColumnPair(r: Rect, y: int)
      requires Geometry() && CornersInside(r) && r.y0 <= y < r.y1
      modifies buf
      ensures forall i, j :: 0 <= i < H && 0 <= j < W ==>
        buf[i, j] == if i == y && j == r.x1 - 1 then old(buf[i, j]).(ch := FRAME_W1)
                     else if i == y && j == r.x0 then old(buf[i, j]).(ch := FRAME_E1)
                     else old(buf[i, j])
    {
      buf[y, r.x0] := buf[y, r.x0].(ch := FRAME_E1);
      buf[y, r.x1 - 1] := buf[y, r.x1 - 1].(ch := FRAME_W1);
    }

    /** The four corner writes of frame, in the source's order. */
    method FrameCorners(r: Rect)
      requires Geometry() && CornersInside(r)
      modifies buf
      ensures forall i, j :: 0 <= i < H && 0 <= j < W ==> buf[i, j] == CornersPass(r, 4, old(buf[i, j]), j, i)
    {
      PutGlyph(r.x0, r.y0, FRAME_NW1);
      PutGlyph(r.x1 - 1, r.y0, FRAME_NE1);
      PutGlyph(r.x0, r.y1 - 1, FRAME_SW1);
      PutGlyph(r.x1 - 1, r.y1 - 1, FRAME_SE1);
    }

    /** m_buf[y][x][0] = ch: the character of one cell, its attribute kept. */
    method PutGlyph(x: int, y: int, ch: byte)
      requires Geometry() && 0 <= x < W && 0 <= y < H
      modifies buf
      ensures forall i, j :: 0 <= i < H && 0 <= j < W ==>
        buf[i, j] == if i == y && j == x then old(buf[i, j]).(ch := ch) else old(buf[i, j])
    {
      buf[y, x] := buf[y, x].(ch := ch);
    }
  }
}
