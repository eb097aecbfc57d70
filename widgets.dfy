/** What the text, decimal-number and bar widgets of the text framebuffer
    put on one row, stated as values independent of the loops that write
    them. */
module Widgets {
  import opened Display

  // ---------------------------------------------------------------------------
  // textOut

  /** Length of the C string held in s: up to its first NUL byte, or all of s
      when it holds none (the end of s stands for the terminator). */
  function StrLen(s: seq<byte>): (n: nat)
    ensures n <= |s|
    ensures forall i :: 0 <= i < n ==> s[i] != 0
    ensures n < |s| ==> s[n] == 0
  {
    if s == [] || s[0] == 0 then 0 else 1 + StrLen(s[1..])
  }

  /** Column c shows character s[c - x] of a string written from column x:
      c is on screen, right of x, before the terminator and within the
      length budget. */
  predicate TextColumn(c: int, x: int, s: seq<byte>, length: nat, w: nat) {
    0 <= c < w && x <= c && c - x < StrLen(s) && c - x < length
  }

  /** The columns [lo, hi) that textOut(x, y, s, length) writes on a row
      that is inside the buffer of width w: column c receives s[c - x]
      provided c is on screen, the string has not ended and the length
      budget is not spent. */
  function TextSpan(x: int, s: seq<byte>, length: nat, w: nat): (span: (int, int))
    ensures span.0 == (if x < 0 then 0 else x)
    ensures forall c :: span.0 <= c < span.1 <==> TextColumn(c, x, s, length, w)
  {
    var lo := if x < 0 then 0 else x;
    var hi := if w < x + StrLen(s) then w else x + StrLen(s);
    (lo, if hi < x + length then hi else x + length)
  }

  /** A ten-character string written from column -3 into a row eight cells
      wide lands on columns 0..6: the first three characters are skipped. */
  lemma TextSpanClipsBothEdges()
    ensures TextSpan(-3, [65, 66, 67, 68, 69, 70, 71, 72, 73, 74], 65535, 8) == (0, 7)
  {
    var s: seq<byte> := [65, 66, 67, 68, 69, 70, 71, 72, 73, 74];
    assert StrLen(s) == 10;
  }

  // ---------------------------------------------------------------------------
  // decimalOut

  /** 10^k */
  function Pow10(k: nat): (p: nat)
    ensures p >= 1
  {
    if k == 0 then 1 else 10 * Pow10(k - 1)
  }

  /** The character decimalOut writes for place p while the remaining value
      is v: a digit if a significant digit remains, if p is at or right of
      the units place, or if leading zeros are asked for; a blank otherwise. */
  function DigitChar(v: nat, p: nat, ndecimal: nat, leadzero: bool): (c: byte)
    ensures c == SPACE <==> v == 0 && p > ndecimal && !leadzero
    ensures c != SPACE ==> ZERO <= c < ZERO + 10 && c - ZERO == v % 10
  {
    if v > 0 || p <= ndecimal || leadzero then ZERO + v % 10 else SPACE
  }

  /** The characters, left to right, that decimalOut writes for places
      p .. n-1 when the remaining value is v: the field of places p+1 ..,
      then the point if place p is the last fractional place, then the
      character of place p. */
  function FieldFrom(v: nat, p: nat, n: nat, ndecimal: nat, leadzero: bool): (f: seq<byte>)
    ensures |f| == (if p < n then n - p else 0) + (if p < ndecimal <= n then 1 else 0)
    decreases n - p
  {
    if p >= n then []
    else FieldFrom(v / 10, p + 1, n, ndecimal, leadzero)
         + (if p + 1 == ndecimal then [POINT] else [])
         + [DigitChar(v, p, ndecimal, leadzero)]
  }

  /** The whole field decimalOut writes in the columns x+1 .. cx. */
  function DecimalField(val: nat, ndigits: nat, ndecimal: nat, leadzero: bool): (f: seq<byte>)
    ensures |f| == DecimalWidth(ndigits, ndecimal)
  {
    FieldFrom(val, 0, ndigits + ndecimal, ndecimal, leadzero)
  }

  /** cx - x: ndigits + ndecimal digits and a point when ndecimal > 0. */
  function DecimalWidth(ndigits: nat, ndecimal: nat): (w: nat)
    ensures w == ndigits + ndecimal <==> ndecimal == 0
  {
    ndigits + ndecimal + (if ndecimal > 0 then 1 else 0)
  }

  /** One step of decimalOut's loop on a field whose unwritten prefix is
      FieldFrom(v, p, ..): its last character is the digit (or blank) of
      place p, preceded by the point when p + 1 is the fractional count. */
  lemma FieldFromStep(f: seq<byte>, k: nat, v: nat, p: nat, n: nat, ndecimal: nat, leadzero: bool)
    requires p < n && k <= |f| && f[..k] == FieldFrom(v, p, n, ndecimal, leadzero)
    ensures k >= 1 && f[k - 1] == DigitChar(v, p, ndecimal, leadzero)
    ensures p + 1 == ndecimal ==> k >= 2 && f[k - 2] == POINT && f[..k - 2] == FieldFrom(v / 10, p + 1, n, ndecimal, leadzero)
    ensures p + 1 != ndecimal ==> f[..k - 1] == FieldFrom(v / 10, p + 1, n, ndecimal, leadzero)
  {
    var rest := FieldFrom(v / 10, p + 1, n, ndecimal, leadzero);
    var mid: seq<byte> := if p + 1 == ndecimal then [POINT] else [];
    assert f[..k] == rest + mid + [DigitChar(v, p, ndecimal, leadzero)];
    assert f[..k - 1] == f[..k][..k - 1];
    if p + 1 == ndecimal {
      assert f[..k - 2] == f[..k][..k - 2];
    }
  }

  predicate IsDigit(c: byte) {
    ZERO <= c < ZERO + 10
  }

  /** Reading a field back: its digit characters as a decimal number, with
      the point and the blanks skipped. */
  function ReadBack(s: seq<byte>): nat {
    if s == [] then 0
    else if IsDigit(s[|s| - 1]) then 10 * ReadBack(s[..|s| - 1]) + (s[|s| - 1] - ZERO)
    else ReadBack(s[..|s| - 1])
  }

  lemma {:induction false} ReadBackAppend(a: seq<byte>, b: seq<byte>)
    requires forall i :: 0 <= i < |b| ==> !IsDigit(b[i])
    ensures ReadBack(a + b) == ReadBack(a)
    decreases |b|
  {
    if b != [] {
      var ab := a + b;
      assert ab[..|ab| - 1] == a + b[..|b| - 1];
      assert ab[|ab| - 1] == b[|b| - 1];
      assert !IsDigit(b[|b| - 1]);
      assert ReadBack(ab) == ReadBack(ab[..|ab| - 1]);
      ReadBackAppend(a, b[..|b| - 1]);
    } else {
      assert a + b == a;
    }
  }

  lemma {:induction false} ReadBackFieldFrom(v: nat, p: nat, n: nat, ndecimal: nat, leadzero: bool)
    requires p <= n && v < Pow10(n - p)
    ensures ReadBack(FieldFrom(v, p, n, ndecimal, leadzero)) == v
    decreases n - p
  {
    if p < n {
      var rest := FieldFrom(v / 10, p + 1, n, ndecimal, leadzero);
      var mid: seq<byte> := if p + 1 == ndecimal then [POINT] else [];
      var d := DigitChar(v, p, ndecimal, leadzero);
      var f := FieldFrom(v, p, n, ndecimal, leadzero);
      assert f == rest + mid + [d];
      assert f[..|f| - 1] == rest + mid;
      assert Pow10(n - p) == 10 * Pow10(n - (p + 1));
      assert v / 10 < Pow10(n - (p + 1));
      ReadBackFieldFrom(v / 10, p + 1, n, ndecimal, leadzero);
      ReadBackAppend(rest, mid);
      if IsDigit(d) {
        assert d == ZERO + v % 10;
        assert ReadBack(f) == 10 * (v / 10) + v % 10;
      } else {
        assert v == 0;
      }
    }
  }

  /** Reading back the digits decimalOut writes gives val whenever val has
      at most ndigits + ndecimal digits: the value shown is val / 10^ndecimal
      with the point placed by DecimalPointPosition. */
  lemma DecimalReadBack(val: nat, ndigits: nat, ndecimal: nat, leadzero: bool)
    requires val < Pow10(ndigits + ndecimal)
    ensures ReadBack(DecimalField(val, ndigits, ndecimal, leadzero)) == val
  {
    ReadBackFieldFrom(val, 0, ndigits + ndecimal, ndecimal, leadzero);
  }

  lemma {:induction false} PointInFieldFrom(v: nat, p: nat, n: nat, ndecimal: nat, leadzero: bool)
    requires p <= n && ndecimal <= n
    ensures forall i :: 0 <= i < |FieldFrom(v, p, n, ndecimal, leadzero)| ==>
      (FieldFrom(v, p, n, ndecimal, leadzero)[i] == POINT <==> p < ndecimal && i == n - ndecimal)
    ensures forall i :: 0 <= i < |FieldFrom(v, p, n, ndecimal, leadzero)| && i > n - ndecimal ==>
      IsDigit(FieldFrom(v, p, n, ndecimal, leadzero)[i])
    decreases n - p
  {
    if p < n {
      var rest := FieldFrom(v / 10, p + 1, n, ndecimal, leadzero);
      var mid: seq<byte> := if p + 1 == ndecimal then [POINT] else [];
      var d := DigitChar(v, p, ndecimal, leadzero);
      var f := FieldFrom(v, p, n, ndecimal, leadzero);
      assert f == rest + mid + [d];
      PointInFieldFrom(v / 10, p + 1, n, ndecimal, leadzero);
      forall i | 0 <= i < |f|
        ensures f[i] == POINT <==> p < ndecimal && i == n - ndecimal
        ensures i > n - ndecimal ==> IsDigit(f[i])
      {
        if i < |rest| {
          assert f[i] == rest[i];
        } else if i < |rest| + |mid| {
          assert f[i] == POINT;
        } else {
          assert f[i] == d;
        }
      }
    }
  }

  /** With ndecimal > 0 the point stands right after the ndigits integer
      places and nowhere else, and every place right of it is a digit;
      with ndecimal == 0 there is no point. */
  lemma DecimalPointPosition(val: nat, ndigits: nat, ndecimal: nat, leadzero: bool)
    ensures var f := DecimalField(val, ndigits, ndecimal, leadzero);
      forall i :: 0 <= i < |f| ==>
        (f[i] == POINT <==> ndecimal > 0 && i == ndigits) &&
        (i > ndigits ==> IsDigit(f[i]))
  {
    PointInFieldFrom(val, 0, ndigits + ndecimal, ndecimal, leadzero);
  }

  /** Where the character of place p stands in a field of n places: the
      places left of it, plus the point when p is a fractional place. */
  function PlaceIndex(n: nat, ndecimal: nat, p: nat): (k: nat)
    requires p < n
    ensures k < n + (if 0 < ndecimal <= n then 1 else 0)
  {
    n - 1 - p + (if p < ndecimal <= n then 1 else 0)
  }

  /** Place p (p >= q) of the field written from place q with remaining
      value v is a blank exactly when leading zeros are off, p is left of
      the units place and v has no digit at place p. */
  lemma {:induction false} FieldFromBlank(v: nat, q: nat, n: nat, ndecimal: nat, leadzero: bool, p: nat)
    requires q <= p < n
    ensures PlaceIndex(n, ndecimal, p) < |FieldFrom(v, q, n, ndecimal, leadzero)|
    ensures FieldFrom(v, q, n, ndecimal, leadzero)[PlaceIndex(n, ndecimal, p)] == SPACE <==>
      !leadzero && p > ndecimal && v < Pow10(p - q)
    decreases p - q
  {
    var rest := FieldFrom(v / 10, q + 1, n, ndecimal, leadzero);
    var mid: seq<byte> := if q + 1 == ndecimal then [POINT] else [];
    var f := FieldFrom(v, q, n, ndecimal, leadzero);
    assert f == rest + mid + [DigitChar(v, q, ndecimal, leadzero)];
    if p == q {
      assert PlaceIndex(n, ndecimal, p) == |f| - 1;
    } else {
      FieldFromBlank(v / 10, q + 1, n, ndecimal, leadzero, p);
      assert f[PlaceIndex(n, ndecimal, p)] == rest[PlaceIndex(n, ndecimal, p)];
      assert Pow10(p - q) == 10 * Pow10(p - (q + 1));
      assert v / 10 < Pow10(p - (q + 1)) <==> v < Pow10(p - q);
    }
  }

  /** With leading zeros decimalOut writes no blank at all. */
  lemma {:induction false} FieldFromNoBlank(v: nat, q: nat, n: nat, ndecimal: nat)
    ensures forall i :: 0 <= i < |FieldFrom(v, q, n, ndecimal, true)| ==> FieldFrom(v, q, n, ndecimal, true)[i] != SPACE
    decreases n - q
  {
    if q < n {
      var rest := FieldFrom(v / 10, q + 1, n, ndecimal, true);
      var mid: seq<byte> := if q + 1 == ndecimal then [POINT] else [];
      var f := FieldFrom(v, q, n, ndecimal, true);
      assert f == rest + mid + [DigitChar(v, q, ndecimal, true)];
      FieldFromNoBlank(v / 10, q + 1, n, ndecimal);
      forall i | 0 <= i < |f|
        ensures f[i] != SPACE
      {
        if i < |rest| {
          assert f[i] == rest[i];
        }
      }
    }
  }

  /** Leading zeros against blanks: with leadzero no character of the field
      is a blank; without it, the character of place p is a blank exactly
      when p is left of the units place and val < 10^p, i.e. val has no
      digit there or further left. */
  lemma DecimalBlanks(val: nat, ndigits: nat, ndecimal: nat, leadzero: bool)
    ensures var f := DecimalField(val, ndigits, ndecimal, leadzero);
      leadzero ==> forall i :: 0 <= i < |f| ==> f[i] != SPACE
    ensures var f := DecimalField(val, ndigits, ndecimal, leadzero);
      forall p :: 0 <= p < ndigits + ndecimal ==>
        PlaceIndex(ndigits + ndecimal, ndecimal, p) < |f| &&
        (f[PlaceIndex(ndigits + ndecimal, ndecimal, p)] == SPACE <==> !leadzero && p > ndecimal && val < Pow10(p))
  {
    var n := ndigits + ndecimal;
    var f := DecimalField(val, ndigits, ndecimal, leadzero);
    assert f == FieldFrom(val, 0, n, ndecimal, leadzero);
    if leadzero {
      FieldFromNoBlank(val, 0, n, ndecimal);
    }
    forall p | 0 <= p < n
      ensures PlaceIndex(n, ndecimal, p) < |f|
      ensures f[PlaceIndex(n, ndecimal, p)] == SPACE <==> !leadzero && p > ndecimal && val < Pow10(p)
    {
      FieldFromBlank(val, 0, n, ndecimal, leadzero, p);
    }
  }

  /** The rectangle decimalOut passes to dirty_update: [x, cx) on row y. */
  function DecimalDirty(x: int, y: int, ndigits: nat, ndecimal: nat): (d: Rect)
    ensures forall c, r :: d.Contains(c, r) <==> r == y && x <= c < x + DecimalWidth(ndigits, ndecimal)
  {
    Rect(x, y, x + DecimalWidth(ndigits, ndecimal), y + 1)
  }

  /** The rectangle of the columns decimalOut actually writes, x+1 .. cx. */
  function DecimalDirtyCorrected(x: int, y: int, ndigits: nat, ndecimal: nat): Rect {
    Rect(x + 1, y, x + DecimalWidth(ndigits, ndecimal) + 1, y + 1)
  }

  /** As written, the rectangle decimalOut dirties is shifted one column
      left of the field: it leaves out the rightmost digit, which is
      written, and takes in column x, which is not. */
  lemma DecimalDirtyMissesLastDigit(x: int, y: int, ndigits: nat, ndecimal: nat)
    requires ndigits + ndecimal > 0
    ensures !DecimalDirty(x, y, ndigits, ndecimal).Contains(x + DecimalWidth(ndigits, ndecimal), y)
    ensures DecimalDirty(x, y, ndigits, ndecimal).Contains(x, y)
  {
  }

  /** The corrected rectangle holds exactly the cells of the field. */
  lemma DecimalDirtyCorrectedIsField(x: int, y: int, ndigits: nat, ndecimal: nat, c: int, r: int)
    ensures DecimalDirtyCorrected(x, y, ndigits, ndecimal).Contains(c, r) <==>
      r == y && x < c <= x + DecimalWidth(ndigits, ndecimal)
  {
  }

  /** 1234 with four integer and two fractional places and blank leading
      positions shows as "  12.34"; zero shows as "   0.00": the units
      place always gets a digit. */
  lemma DecimalExamples()
    ensures DecimalField(1234, 4, 2, false) == [SPACE, SPACE, ZERO + 1, ZERO + 2, POINT, ZERO + 3, ZERO + 4]
    ensures DecimalField(0, 4, 2, false) == [SPACE, SPACE, SPACE, ZERO, POINT, ZERO, ZERO]
    ensures DecimalField(7, 3, 0, true) == [ZERO, ZERO, ZERO + 7]
  {
  }

  // ---------------------------------------------------------------------------
  // frame

  /** The character frame(r) leaves at cell (x, y) of r: corners over
      vertical edges over horizontal edges over the blank interior, in the
      order the source overwrites them. */
  function FrameGlyph(r: Rect, x: int, y: int): (g: byte)
    ensures g != SPACE <==> x == r.x0 || x == r.x1 - 1 || y == r.y0 || y == r.y1 - 1
  {
    var left, right, top, bottom := x == r.x0, x == r.x1 - 1, y == r.y0, y == r.y1 - 1;
    if right && bottom then FRAME_SE1
    else if left && bottom then FRAME_SW1
    else if right && top then FRAME_NE1
    else if left && top then FRAME_NW1
    else if right then FRAME_W1
    else if left then FRAME_E1
    else if bottom then FRAME_S1
    else if top then FRAME_N1
    else SPACE
  }

  /** Inside a frame only the outermost ring of cells is drawn: a cell is
      blank exactly when it is strictly inside; on a frame at least two
      cells wide and high each corner gets its own glyph. */
  lemma FrameOutline(r: Rect, x: int, y: int)
    requires r.Contains(x, y)
    ensures FrameGlyph(r, x, y) == SPACE <==> r.x0 < x < r.x1 - 1 && r.y0 < y < r.y1 - 1
    ensures r.x1 - r.x0 >= 2 && r.y1 - r.y0 >= 2 ==>
      FrameGlyph(r, r.x0, r.y0) == FRAME_NW1 && FrameGlyph(r, r.x1 - 1, r.y0) == FRAME_NE1 &&
      FrameGlyph(r, r.x0, r.y1 - 1) == FRAME_SW1 && FrameGlyph(r, r.x1 - 1, r.y1 - 1) == FRAME_SE1
  {
  }

  /** A cell after the first loop of frame has run up to column x: the top
      row gets FRAME_N1 and the bottom row FRAME_S1 in the columns
      x0 .. x-1, the bottom one last; only the character changes. */
  function RowsPass(r: Rect, x: int, c: Cell, j: int, i: int): (d: Cell)
    ensures d.at == c.at
    ensures d != c ==> (i == r.y0 || i == r.y1 - 1) && r.x0 <= j < x
  {
    if i == r.y1 - 1 && r.x0 <= j < x then c.(ch := FRAME_S1)
    else if i == r.y0 && r.x0 <= j < x then c.(ch := FRAME_N1)
    else c
  }

  /** A cell after the second loop of frame has run down to row y: the
      column x0 gets FRAME_E1 and the column x1-1 FRAME_W1 in the rows
      y0 .. y-1, the right one last. */
  function ColumnsPass(r: Rect, y: int, c: Cell, j: int, i: int): (d: Cell)
    ensures d.at == c.at
    ensures d != c ==> (j == r.x0 || j == r.x1 - 1) && r.y0 <= i < y
  {
    if j == r.x1 - 1 && r.y0 <= i < y then c.(ch := FRAME_W1)
    else if j == r.x0 && r.y0 <= i < y then c.(ch := FRAME_E1)
    else c
  }

  /** A cell after the first n of the corner writes of frame, in the
      source's order NW, NE, SW, SE. */
  function CornersPass(r: Rect, n: nat, c: Cell, j: int, i: int): (d: Cell)
    ensures d.at == c.at
    ensures d != c ==> (j == r.x0 || j == r.x1 - 1) && (i == r.y0 || i == r.y1 - 1)
  {
    if n >= 4 && j == r.x1 - 1 && i == r.y1 - 1 then c.(ch := FRAME_SE1)
    else if n >= 3 && j == r.x0 && i == r.y1 - 1 then c.(ch := FRAME_SW1)
    else if n >= 2 && j == r.x1 - 1 && i == r.y0 then c.(ch := FRAME_NE1)
    else if n >= 1 && j == r.x0 && i == r.y0 then c.(ch := FRAME_NW1)
    else c
  }

  /** Cell (j, i) after frame(r) with attribute a, when it held c before:
      the blank bar, then the two loops, then the corners. The source runs
      these steps on any rectangle, empty or inverted ones included. */
  function FrameCell(r: Rect, a: bv8, c: Cell, j: int, i: int): (d: Cell)
    ensures d.at == if r.Contains(j, i) then a else c.at
  {
    var b := if r.Contains(j, i) then Cell(SPACE, a) else c;
    CornersPass(r, 4, ColumnsPass(r, r.y1, RowsPass(r, r.x1, b, j, i), j, i), j, i)
  }

  /** On a non-empty rectangle frame draws the box of FrameGlyph with
      attribute a and leaves every cell outside the rectangle alone. */
  lemma FrameCellOnBox(r: Rect, a: bv8, c: Cell, j: int, i: int)
    requires r.x0 < r.x1 && r.y0 < r.y1
    ensures FrameCell(r, a, c, j, i) == if r.Contains(j, i) then Cell(FrameGlyph(r, j, i), a) else c
  {
  }

  /** Whatever the rectangle, frame changes a cell only inside it, on its
      edge rows in the columns x0 .. x1-1, on its edge columns in the rows
      y0 .. y1-1, or at its four corner cells. */
  lemma FrameCellFootprint(r: Rect, a: bv8, c: Cell, j: int, i: int)
    ensures FrameCell(r, a, c, j, i) != c ==>
      r.Contains(j, i)
      || ((i == r.y0 || i == r.y1 - 1) && (r.x0 <= j < r.x1 || j == r.x0 || j == r.x1 - 1))
      || ((j == r.x0 || j == r.x1 - 1) && (r.y0 <= i < r.y1 || i == r.y0 || i == r.y1 - 1))
  {
  }

  /** frame(3, 0, 3, 2) has no cells, yet its column loop and corner writes
      put the four corner glyphs, crossed over, in columns 2 and 3 of rows
      0 and 1, keeping the old attributes. */
  lemma FrameInverted(a: bv8, c: Cell)
    ensures var r := Rect(3, 0, 3, 2);
      FrameCell(r, a, c, 3, 0) == c.(ch := FRAME_NW1) && FrameCell(r, a, c, 2, 0) == c.(ch := FRAME_NE1) &&
      FrameCell(r, a, c, 3, 1) == c.(ch := FRAME_SW1) && FrameCell(r, a, c, 2, 1) == c.(ch := FRAME_SE1)
  {
  }

  // ---------------------------------------------------------------------------
  // hbar

  function Repeat(c: byte, k: nat): (s: seq<byte>)
    ensures |s| == k && forall i :: 0 <= i < k ==> s[i] == c
  {
    if k == 0 then [] else [c] + Repeat(c, k - 1)
  }

  /** What hbar writes left to right: halfchars/2 full cells, a half cell if
      halfchars is odd, then half of what is left of maxhalfchars in empty
      cells; the remainder is taken in uint8 arithmetic as the source does. */
  function HBarCells(halfchars: nat, maxhalfchars: nat): (c: seq<byte>)
    ensures |c| == halfchars / 2 + halfchars % 2 + ((maxhalfchars - halfchars) % 256) / 2
  {
    Repeat(FULL, halfchars / 2)
    + (if halfchars % 2 == 1 then [HALF_W] else [])
    + Repeat(EMPTY, ((maxhalfchars - halfchars) % 256) / 2)
  }

  /** The glyph of cell k of the bar: full while two halves remain, then
      one half glyph for an odd count, then empty. */
  function HBarGlyph(halfchars: nat, k: nat): (g: byte)
    ensures Halves(g) == if 2 * k + 2 <= halfchars then 2 else if 2 * k + 1 == halfchars then 1 else 0
  {
    if k < halfchars / 2 then FULL
    else if k == halfchars / 2 && halfchars % 2 == 1 then HALF_W
    else EMPTY
  }

  lemma HBarCellsAt(halfchars: nat, maxhalfchars: nat)
    ensures forall k :: 0 <= k < |HBarCells(halfchars, maxhalfchars)| ==>
      HBarCells(halfchars, maxhalfchars)[k] == HBarGlyph(halfchars, k)
  {
  }

  /** Half-character units a bar glyph shows. */
  function Halves(c: byte): nat {
    if c == FULL then 2 else if c == HALF_W then 1 else 0
  }

  function FilledHalves(s: seq<byte>): nat {
    if s == [] then 0 else Halves(s[0]) + FilledHalves(s[1..])
  }

  lemma {:induction false} FilledHalvesAppend(a: seq<byte>, b: seq<byte>)
    ensures FilledHalves(a + b) == FilledHalves(a) + FilledHalves(b)
    decreases |a|
  {
    if a != [] {
      var ab := a + b;
      assert ab[0] == a[0];
      assert ab[1..] == a[1..] + b;
      assert FilledHalves(ab) == Halves(a[0]) + FilledHalves(a[1..] + b);
      FilledHalvesAppend(a[1..], b);
    } else {
      assert a + b == b;
    }
  }

  lemma {:induction false} FilledHalvesRepeat(c: byte, k: nat)
    ensures FilledHalves(Repeat(c, k)) == k * Halves(c)
  {
    if k > 0 {
      assert Repeat(c, k)[1..] == Repeat(c, k - 1);
      FilledHalvesRepeat(c, k - 1);
    }
  }

  /** The bar shows exactly halfchars half-characters. */
  lemma HBarShowsHalfchars(halfchars: nat, maxhalfchars: nat)
    ensures FilledHalves(HBarCells(halfchars, maxhalfchars)) == halfchars
  {
    var full := Repeat(FULL, halfchars / 2);
    var half: seq<byte> := if halfchars % 2 == 1 then [HALF_W] else [];
    var empty := Repeat(EMPTY, ((maxhalfchars - halfchars) % 256) / 2);
    FilledHalvesAppend(full + half, empty);
    FilledHalvesAppend(full, half);
    FilledHalvesRepeat(FULL, halfchars / 2);
    FilledHalvesRepeat(EMPTY, ((maxhalfchars - halfchars) % 256) / 2);
  }

  /** Within its capacity the bar never takes more than ceil(maxhalfchars/2)
      cells, and exactly maxhalfchars/2 cells when maxhalfchars is even. */
  lemma HBarWidth(halfchars: nat, maxhalfchars: nat)
    requires halfchars <= maxhalfchars < 256
    ensures 2 * |HBarCells(halfchars, maxhalfchars)| <= maxhalfchars + 1
    ensures maxhalfchars % 2 == 0 ==> |HBarCells(halfchars, maxhalfchars)| == maxhalfchars / 2
  {
  }

  /** Past its capacity the uint8 remainder wraps: one half-character too many
      on an empty bar of capacity 0 asks for 127 more empty cells. */
  lemma HBarWrapsWhenOverfull()
    ensures |HBarCells(1, 0)| == 1 + 127
  {
  }
}
