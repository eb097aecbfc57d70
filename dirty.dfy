/** The dirty tracker of the text framebuffer: the empty sentinel set by
    dirty_clean and the clamp-then-union step of dirty_update, on a buffer
    of w columns and h rows. */
module Dirty {
  import opened Display

  /** Arduino's constrain(v, lo, hi). */
  function Constrain(v: int, lo: int, hi: int): (r: int)
    requires lo <= hi
    ensures lo <= r <= hi
    ensures lo <= v <= hi ==> r == v
    ensures v < lo ==> r == lo
    ensures hi < v ==> r == hi
  {
    if v < lo then lo else if v > hi then hi else v
  }

  /** The "nothing pending" sentinel written by dirty_clean. */
  function Empty(w: nat, h: nat): (e: Rect)
    ensures e.IsEmpty()
    ensures forall r: Rect :: InBounds(r, w, h) ==> Encloses(r, e)
  {
    Rect(w, h, 0, 0)
  }

  /** Every corner coordinate lies inside [0,w] x [0,h]. */
  predicate InBounds(r: Rect, w: nat, h: nat) {
    0 <= r.x0 <= w && 0 <= r.x1 <= w && 0 <= r.y0 <= h && 0 <= r.y1 <= h
  }

  /** a covers b coordinate-wise. */
  predicate Encloses(a: Rect, b: Rect) {
    a.x0 <= b.x0 && a.y0 <= b.y0 && b.x1 <= a.x1 && b.y1 <= a.y1
  }

  /** The first four lines of dirty_update: each coordinate clamped to the buffer. */
  function Clamp(r: Rect, w: nat, h: nat): (c: Rect)
    ensures InBounds(c, w, h)
    ensures InBounds(r, w, h) ==> c == r
  {
    Rect(Constrain(r.x0, 0, w), Constrain(r.y0, 0, h), Constrain(r.x1, 0, w), Constrain(r.y1, 0, h))
  }

  /** The coordinate-wise min/max union of two rectangles. */
  function Union(a: Rect, b: Rect): (u: Rect)
    ensures Encloses(u, a) && Encloses(u, b)
    ensures forall e: Rect :: Encloses(e, a) && Encloses(e, b) ==> Encloses(e, u)
  {
    Rect(if a.x0 <= b.x0 then a.x0 else b.x0, if a.y0 <= b.y0 then a.y0 else b.y0,
         if a.x1 >= b.x1 then a.x1 else b.x1, if a.y1 >= b.y1 then a.y1 else b.y1)
  }

  /** The new m_dirty after dirty_update(r): the least rectangle enclosing
      both the old one and the clamped input. There is no emptiness test,
      so an input of zero width or height still widens the box. */
  function Grow(d: Rect, r: Rect, w: nat, h: nat): (g: Rect)
    ensures Encloses(g, d) && Encloses(g, Clamp(r, w, h))
    ensures forall e: Rect :: Encloses(e, d) && Encloses(e, Clamp(r, w, h)) ==> Encloses(e, g)
    ensures InBounds(d, w, h) ==> InBounds(g, w, h)
  {
    Union(d, Clamp(r, w, h))
  }

  /** Every cell the input rectangle names inside the buffer is inside the
      grown rectangle: a mutation is never lost by the tracker. */
  lemma GrowCoversCells(d: Rect, r: Rect, w: nat, h: nat, x: int, y: int)
    requires r.Contains(x, y) && 0 <= x < w && 0 <= y < h
    ensures Grow(d, r, w, h).Contains(x, y)
  {
  }

  /** Growing the sentinel gives exactly the clamped input. */
  lemma GrowEmpty(r: Rect, w: nat, h: nat)
    ensures Grow(Empty(w, h), r, w, h) == Clamp(r, w, h)
  {
  }

  /** Growing twice by the same rectangle is growing once. */
  lemma GrowIdempotent(d: Rect, r: Rect, w: nat, h: nat)
    ensures Grow(Grow(d, r, w, h), r, w, h) == Grow(d, r, w, h)
  {
  }

  /** A zero-width input still widens the sentinel (no emptiness check). */
  lemma ZeroWidthStillWidens(w: nat, h: nat)
    requires 2 <= w && 1 <= h
    ensures Grow(Empty(w, h), Rect(1, 0, 1, 1), w, h) == Rect(1, 0, 1, 1) != Empty(w, h)
  {
  }

  /** The dirty rectangle after a sequence of dirty_update calls. */
  function GrowAll(d: Rect, rs: seq<Rect>, w: nat, h: nat): (g: Rect)
    ensures InBounds(d, w, h) ==> InBounds(g, w, h)
    decreases |rs|
  {
    if rs == [] then d else GrowAll(Grow(d, rs[0], w, h), rs[1..], w, h)
  }

  /** After any sequence of updates the tracked rectangle encloses the
      starting one and every clamped input. */
  lemma {:induction false} GrowAllEncloses(d: Rect, rs: seq<Rect>, w: nat, h: nat)
    ensures Encloses(GrowAll(d, rs, w, h), d)
    ensures forall i :: 0 <= i < |rs| ==> Encloses(GrowAll(d, rs, w, h), Clamp(rs[i], w, h))
    decreases |rs|
  {
    if rs != [] {
      var d' := Grow(d, rs[0], w, h);
      var g := GrowAll(d, rs, w, h);
      GrowAllEncloses(d', rs[1..], w, h);
      assert g == GrowAll(d', rs[1..], w, h);
      forall i | 0 <= i < |rs|
        ensures Encloses(g, Clamp(rs[i], w, h))
      {
        if i > 0 {
          assert rs[i] == rs[1..][i - 1];
        }
      }
    }
  }

  /** Each coordinate of the tracked rectangle is that of the starting one
      or of one of the clamped inputs: nothing is widened beyond them. */
  lemma {:induction false} GrowAllAttained(d: Rect, rs: seq<Rect>, w: nat, h: nat)
    ensures var g := GrowAll(d, rs, w, h);
      (g.x0 == d.x0 || exists i :: 0 <= i < |rs| && g.x0 == Clamp(rs[i], w, h).x0) &&
      (g.y0 == d.y0 || exists i :: 0 <= i < |rs| && g.y0 == Clamp(rs[i], w, h).y0) &&
      (g.x1 == d.x1 || exists i :: 0 <= i < |rs| && g.x1 == Clamp(rs[i], w, h).x1) &&
      (g.y1 == d.y1 || exists i :: 0 <= i < |rs| && g.y1 == Clamp(rs[i], w, h).y1)
    decreases |rs|
  {
    if rs != [] {
      var d' := Grow(d, rs[0], w, h);
      var g := GrowAll(d, rs, w, h);
      GrowAllAttained(d', rs[1..], w, h);
      assert g == GrowAll(d', rs[1..], w, h);
      if g.x0 != d.x0 && g.x0 != d'.x0 {
        var i :| 0 <= i < |rs[1..]| && g.x0 == Clamp(rs[1..][i], w, h).x0;
        assert g.x0 == Clamp(rs[i + 1], w, h).x0;
      }
      if g.y0 != d.y0 && g.y0 != d'.y0 {
        var i :| 0 <= i < |rs[1..]| && g.y0 == Clamp(rs[1..][i], w, h).y0;
        assert g.y0 == Clamp(rs[i + 1], w, h).y0;
      }
      if g.x1 != d.x1 && g.x1 != d'.x1 {
        var i :| 0 <= i < |rs[1..]| && g.x1 == Clamp(rs[1..][i], w, h).x1;
        assert g.x1 == Clamp(rs[i + 1], w, h).x1;
      }
      if g.y1 != d.y1 && g.y1 != d'.y1 {
        var i :| 0 <= i < |rs[1..]| && g.y1 == Clamp(rs[1..][i], w, h).y1;
        assert g.y1 == Clamp(rs[i + 1], w, h).y1;
      }
      if g.x0 == d'.x0 && g.x0 != d.x0 { assert g.x0 == Clamp(rs[0], w, h).x0; }
      if g.y0 == d'.y0 && g.y0 != d.y0 { assert g.y0 == Clamp(rs[0], w, h).y0; }
      if g.x1 == d'.x1 && g.x1 != d.x1 { assert g.x1 == Clamp(rs[0], w, h).x1; }
      if g.y1 == d'.y1 && g.y1 != d.y1 { assert g.y1 == Clamp(rs[0], w, h).y1; }
    }
  }

  /** The tracked rectangle is the exact bounding box of the starting one
      and the clamped inputs: it encloses them all, and each of its four
      coordinates is attained by one of them. */
  lemma GrowAllIsBoundingBox(d: Rect, rs: seq<Rect>, w: nat, h: nat)
    ensures Encloses(GrowAll(d, rs, w, h), d)
    ensures forall i :: 0 <= i < |rs| ==> Encloses(GrowAll(d, rs, w, h), Clamp(rs[i], w, h))
    ensures var g := GrowAll(d, rs, w, h);
      (g.x0 == d.x0 || exists i :: 0 <= i < |rs| && g.x0 == Clamp(rs[i], w, h).x0) &&
      (g.y0 == d.y0 || exists i :: 0 <= i < |rs| && g.y0 == Clamp(rs[i], w, h).y0) &&
      (g.x1 == d.x1 || exists i :: 0 <= i < |rs| && g.x1 == Clamp(rs[i], w, h).x1) &&
      (g.y1 == d.y1 || exists i :: 0 <= i < |rs| && g.y1 == Clamp(rs[i], w, h).y1)
  {
    GrowAllEncloses(d, rs, w, h);
    GrowAllAttained(d, rs, w, h);
  }
}
