/** The quadrature decoder of the rotary encoder with push button: the pin
    levels the interrupt handler samples, the state it keeps between
    interrupts, and the query that hands the pending events to the main
    loop and clears them. */
module RotaryKnob {

  /** The pending bits of knob_pending_bit_t. */
  const BIT_LEFT: bv8 := 0x01
  const BIT_RIGHT: bv8 := 0x02
  const BIT_PUSH: bv8 := 0x04

  datatype Option<T> = None | Some(value: T)

  /** The levels the handler reads: encoder pins A and B, and the push
      button pin, which is pulled up and reads low while the knob is down. */
  datatype Pins = Pins(a: bool, b: bool, p: bool)

  /** m_ahigh, m_bhigh, m_down, m_rel and m_pending. */
  datatype KnobState = KnobState(aHigh: bool, bHigh: bool, down: bool, rel: int, pending: bv8)

  /** The counter agrees with the pending bits: only the three event bits
      are used, and rel is +1 for a pending right step, -1 for a pending
      left step, 0 when both or neither are pending. */
  predicate Consistent(s: KnobState)
    ensures Consistent(s) ==> -1 <= s.rel <= 1
  {
    s.pending < 8 && s.rel == Direction(s.pending)
  }

  /** The movement a pending mask stands for. */
  function Direction(mask: bv8): (d: int)
    ensures -1 <= d <= 1
    ensures d == 0 <==> (mask & BIT_RIGHT == 0) == (mask & BIT_LEFT == 0)
  {
    (if mask & BIT_RIGHT != 0 then 1 else 0) - (if mask & BIT_LEFT != 0 then 1 else 0)
  }

  /** How far the counter is from the movement its pending bits stand for:
      0 in a consistent state, and whatever configure left in rel after it
      cleared the pending bits. */
  function Offset(s: KnobState): int {
    s.rel - Direction(s.pending)
  }

  /** The A block of the handler: follow pin A and count a left step when
      A changes to high while B is low and no left step is pending yet. */
  function StepA(s: KnobState, a: bool): (t: KnobState)
    ensures t.aHigh == a && t.bHigh == s.bHigh && t.down == s.down
    ensures t.pending & s.pending == s.pending
    ensures s.pending < 8 ==> t.pending < 8
    ensures Consistent(s) ==> Consistent(t)
  {
    if s.aHigh != a && s.pending & BIT_LEFT == 0 && a && !s.bHigh
    then s.(aHigh := a, rel := s.rel - 1, pending := s.pending | BIT_LEFT)
    else s.(aHigh := a)
  }

  /** The B block: follow pin B and count a right step when B changes to
      high while A, as just updated, is low and no right step is pending. */
  function StepB(s: KnobState, b: bool): (t: KnobState)
    ensures t.aHigh == s.aHigh && t.bHigh == b && t.down == s.down
    ensures t.pending & s.pending == s.pending
    ensures s.pending < 8 ==> t.pending < 8
    ensures Consistent(s) ==> Consistent(t)
  {
    if s.bHigh != b && s.pending & BIT_RIGHT == 0 && b && !s.aHigh
    then s.(bHigh := b, rel := s.rel + 1, pending := s.pending | BIT_RIGHT)
    else s.(bHigh := b)
  }

  /** The push block: down follows the inverted button pin, and a push is
      counted when the button goes down; a release is not. */
  function StepPush(s: KnobState, p: bool): (t: KnobState)
    ensures t.aHigh == s.aHigh && t.bHigh == s.bHigh && t.down == !p
    ensures t.pending & s.pending == s.pending
    ensures s.pending < 8 ==> t.pending < 8
    ensures Consistent(s) ==> Consistent(t)
  {
    if !p && !s.down then s.(down := true, pending := s.pending | BIT_PUSH)
    else s.(down := !p)
  }

  /** One run of the interrupt handler on the sampled levels: the edge
      flags follow the pins, each step or push is counted at most once
      until the next query, and rel moves by the steps counted. */
  function Step(s: KnobState, pins: Pins): (t: KnobState)
    ensures t.aHigh == pins.a && t.bHigh == pins.b && t.down == !pins.p
    ensures t.pending & s.pending == s.pending
    ensures s.pending < 8 ==> t.pending < 8
    ensures Consistent(s) ==> Consistent(t)
  {
    StepPush(StepB(StepA(s, pins.a), pins.b), pins.p)
  }

  /** The state after the handler has run on each sample in turn. */
  function Run(s: KnobState, samples: seq<Pins>): (t: KnobState)
    ensures samples == [] ==> t == s
    ensures samples != [] ==> var last := samples[|samples| - 1];
      t.aHigh == last.a && t.bHigh == last.b && t.down == !last.p
    decreases |samples|
  {
    if samples == [] then s else Run(Step(s, samples[0]), samples[1..])
  }

  /** However many interrupts arrive between two queries, the counter stays
      in step with the pending bits, so it never leaves -1 .. 1: at most one
      step per direction is reported per query. */
  lemma {:induction false} RunConsistent(s: KnobState, samples: seq<Pins>)
    requires Consistent(s)
    ensures Consistent(Run(s, samples))
    ensures -1 <= Run(s, samples).rel <= 1
    decreases |samples|
  {
    if samples != [] {
      RunConsistent(Step(s, samples[0]), samples[1..]);
    }
  }

  /** One run of the handler moves rel and the pending movement together:
      a left step takes one off both, a right step adds one to both, a push
      touches neither. */
  lemma StepKeepsOffset(s: KnobState, pins: Pins)
    ensures Offset(Step(s, pins)) == Offset(s)
  {
    var sa := StepA(s, pins.a);
    var sb := StepB(sa, pins.b);
    assert Offset(sa) == Offset(s);
    assert Offset(sb) == Offset(sa);
  }

  /** Any number of interrupts keeps the pending mask within the three
      event bits and keeps the counter's offset from the pending movement,
      so rel never leaves Offset(s) - 1 .. Offset(s) + 1. */
  lemma {:induction false} RunKeepsOffset(s: KnobState, samples: seq<Pins>)
    requires s.pending < 8
    ensures Run(s, samples).pending < 8
    ensures Offset(Run(s, samples)) == Offset(s)
    ensures Offset(s) - 1 <= Run(s, samples).rel <= Offset(s) + 1
    decreases |samples|
  {
    if samples != [] {
      StepKeepsOffset(s, samples[0]);
      RunKeepsOffset(Step(s, samples[0]), samples[1..]);
    }
  }

  /** After configure as written, on a state whose counter was within
      -1 .. 1, the pending bits are clear but the counter may not be; from
      there any number of interrupts leaves |rel| at most 2, and a query
      hands out rel = old counter + the direction of the new mask. */
  lemma StaleCounterBound(s: KnobState, samples: seq<Pins>)
    requires s.pending == 0 && -1 <= s.rel <= 1
    ensures Run(s, samples).pending < 8
    ensures -2 <= Run(s, samples).rel <= 2
    ensures Run(s, samples).rel == s.rel + Direction(Run(s, samples).pending)
  {
    RunKeepsOffset(s, samples);
  }

  /** Pending events are never lost between queries: every bit set after
      some prefix of the samples is still set at the end. */
  lemma {:induction false} RunKeepsPending(s: KnobState, samples: seq<Pins>)
    ensures Run(s, samples).pending & s.pending == s.pending
    decreases |samples|
  {
    if samples != [] {
      var t := Step(s, samples[0]);
      RunKeepsPending(t, samples[1..]);
      assert Run(s, samples).pending & t.pending == t.pending;
    }
  }

  /** With B leading A through a full detent cycle from rest the handler
      counts one right step, and with A leading one left step; a second
      cycle before the query adds nothing; when A and B rise in the same
      sample, A is handled first and only the left step counts. */
  lemma QuadratureCycles(s: KnobState)
    requires s == KnobState(false, false, false, 0, 0)
    ensures Run(s, [Pins(false, true, true), Pins(true, true, true), Pins(true, false, true), Pins(false, false, true)])
      == KnobState(false, false, false, 1, BIT_RIGHT)
    ensures Run(s, [Pins(true, false, true), Pins(true, true, true), Pins(false, true, true), Pins(false, false, true)])
      == KnobState(false, false, false, -1, BIT_LEFT)
    ensures Run(s, [Pins(false, true, true), Pins(true, true, true), Pins(true, false, true), Pins(false, false, true),
                    Pins(false, true, true), Pins(true, true, true), Pins(true, false, true), Pins(false, false, true)])
      == KnobState(false, false, false, 1, BIT_RIGHT)
    ensures Step(s, Pins(true, true, true)) == KnobState(true, true, false, -1, BIT_LEFT)
  {
  }

  /** The three pending bits are distinct single bits. */
  lemma PendingBits()
    ensures BIT_LEFT & BIT_RIGHT == 0 && BIT_LEFT & BIT_PUSH == 0 && BIT_RIGHT & BIT_PUSH == 0
    ensures BIT_LEFT | BIT_RIGHT | BIT_PUSH == 7
  {
  }

  class Knob {
    var aHigh: bool
    var bHigh: bool
    var down: bool
    var rel: int
    var pending: bv8

    function State(): KnobState
      reads this
    {
      KnobState(aHigh, bHigh, down, rel, pending)
    }

    /** CKnob(): every field zero. */
    constructor ()
      ensures State() == KnobState(false, false, false, 0, 0)
    {
      aHigh, bHigh, down, rel, pending := false, false, false, 0, 0;
    }

    /** interrupt: the handler run on the levels a, b and p of the three pins. */
    method Interrupt(a: bool, b: bool, p: bool)
      modifies this
      ensures State() == Step(old(State()), Pins(a, b, p))
    {
      FollowA(a);
      FollowB(b);
      FollowPush(p);
    }

    method FollowA(a: bool)
      modifies this
      ensures State() == StepA(old(State()), a)
    {
      if a != aHigh {
        aHigh := !aHigh;
        if pending & BIT_LEFT == 0 && aHigh && !bHigh {
          rel := rel - 1;
          pending := pending | BIT_LEFT;
        }
      }
    }

    method FollowB(b: bool)
      modifies this
      ensures State() == StepB(old(State()), b)
    {
      if b != bHigh {
        bHigh := !bHigh;
        if pending & BIT_RIGHT == 0 && bHigh && !aHigh {
          rel := rel + 1;
          pending := pending | BIT_RIGHT;
        }
      }
    }

    method FollowPush(p: bool)
      modifies this
      ensures State() == StepPush(old(State()), p)
    {
      if p == down {
        down := !down;
        if down {
          pending := pending | BIT_PUSH;
        }
      }
    }

    /** query: nothing when no event is pending; otherwise the pending mask,
        a pressed flag of 1 when a push is pending and the caller asked for
        it, the counter when a step is pending and the caller asked for it,
        and both the counter and the mask cleared. A None output is one the
        caller's variable keeps its old value for. */
    method Query(wantPressed: bool, wantRelative: bool)
      returns (mask: bv8, pressed: Option<int>, relative: Option<int>)
      modifies this
      ensures old(pending) == 0 ==> mask == 0 && pressed == None && relative == None && State() == old(State())
      ensures old(pending) != 0 ==>
        mask == old(pending)
        && pressed == (if wantPressed && old(pending) & BIT_PUSH != 0 then Some(1) else None)
        && relative == (if wantRelative && old(pending) & (BIT_LEFT | BIT_RIGHT) != 0 then Some(old(rel)) else None)
        && State() == old(State()).(rel := 0, pending := 0)
      ensures old(pending) < 8 ==> mask < 8 && pending < 8
      ensures old(Consistent(State())) ==> Consistent(State())
      ensures old(Consistent(State())) && relative.Some? ==> relative.value == Direction(mask)
    {
      pressed, relative := None, None;
      if pending == 0 {
        return 0, pressed, relative;
      }
      if pending & BIT_PUSH != 0 && wantPressed {
        pressed := Some(1);
      }
      if pending & (BIT_LEFT | BIT_RIGHT) != 0 && wantRelative {
        relative := Some(rel);
      }
      rel := 0;
      mask := pending;
      pending := 0;
    }

    /** configure: the pin setup is hardware only; the last statement drops
        whatever was pending while the handlers were being attached, but
        leaves the counter as it is. */
    method Configure()
      modifies this
      ensures State() == old(State()).(pending := 0)
      ensures pending < 8 && Offset(State()) == old(rel)
      ensures old(rel) == 0 ==> Consistent(State())
    {
      pending := 0;
    }

    /** configure with the counter dropped together with the pending bits. */
    method ConfigureCorrected()
      modifies this
      ensures State() == old(State()).(rel := 0, pending := 0)
      ensures Consistent(State())
    {
      rel := 0;
      pending := 0;
    }
  }

  /** One clockwise detent cycle, then a query: a right step of +1. */
  method TurnRight() returns (mask: bv8, relative: Option<int>)
    ensures mask == BIT_RIGHT && relative == Some(1)
  {
    var k := new Knob();
    k.Interrupt(false, true, true);
    k.Interrupt(true, true, true);
    k.Interrupt(true, false, true);
    k.Interrupt(false, false, true);
    var pressed;
    mask, pressed, relative := k.Query(true, true);
  }

  /** One counter-clockwise detent cycle, then a query: a left step of -1. */
  method TurnLeft() returns (mask: bv8, relative: Option<int>)
    ensures mask == BIT_LEFT && relative == Some(-1)
  {
    var k := new Knob();
    k.Interrupt(true, false, true);
    k.Interrupt(true, true, true);
    k.Interrupt(false, true, true);
    k.Interrupt(false, false, true);
    var pressed;
    mask, pressed, relative := k.Query(true, true);
  }

  /** Press and release before a query: one push is reported, and the
      counter is not handed out because no step is pending. A second query
      finds nothing: each event is reported once. */
  method PressRelease() returns (mask: bv8, pressed: Option<int>, relative: Option<int>, again: bv8)
    ensures mask == BIT_PUSH && pressed == Some(1) && relative == None && again == 0
  {
    var k := new Knob();
    k.Interrupt(false, false, false);
    k.Interrupt(false, false, true);
    mask, pressed, relative := k.Query(true, true);
    var p2, r2;
    again, p2, r2 := k.Query(true, true);
  }

  /** A push reported by one query is followed by a release: the release
      is no event, so the next query finds nothing. */
  method ReleaseOnly() returns (first: bv8, second: bv8)
    ensures first == BIT_PUSH && second == 0
  {
    var k := new Knob();
    k.Interrupt(false, false, false);
    var pressed, relative;
    first, pressed, relative := k.Query(true, true);
    k.Interrupt(false, false, true);
    second, pressed, relative := k.Query(true, true);
  }

  /** An A edge handled while configure runs is dropped from the pending
      bits but stays in the counter; the next right step then reports
      BIT_RIGHT with a movement of 0. */
  method ConfigureDuringEdge() returns (mask: bv8, relative: Option<int>)
    ensures mask == BIT_RIGHT && relative == Some(0)
  {
    var k := new Knob();
    k.Interrupt(true, false, true);
    k.Configure();
    k.Interrupt(false, true, true);
    var pressed;
    mask, pressed, relative := k.Query(true, true);
  }

  /** The stale counter can also double a step: an A edge handled while
      configure runs, then a full left step, reports BIT_LEFT with a
      movement of -2, a value no consistent state can hand out. */
  method ConfigureDuringEdgeDoubles() returns (mask: bv8, relative: Option<int>)
    ensures mask == BIT_LEFT && relative == Some(-2)
  {
    var k := new Knob();
    k.Interrupt(true, false, true);
    k.Configure();
    k.Interrupt(false, false, true);
    k.Interrupt(true, false, true);
    var pressed;
    mask, pressed, relative := k.Query(true, true);
  }

  /** The same sequence with the corrected configure reports +1. */
  method ConfigureDuringEdgeCorrected() returns (mask: bv8, relative: Option<int>)
    ensures mask == BIT_RIGHT && relative == Some(1)
  {
    var k := new Knob();
    k.Interrupt(true, false, true);
    k.ConfigureCorrected();
    k.Interrupt(false, true, true);
    var pressed;
    mask, pressed, relative := k.Query(true, true);
  }
}
