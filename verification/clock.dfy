/** internal/clock/clock.go: an offsettable, freezable wall clock. The machine's own time is an
    argument (`wall`) of every operation. */
module Clocks {

  datatype Setting = Setting(offset: int, frozen: bool, frozenAt: int)

  /** A clock together with the real time it runs against. */
  datatype Moment = Moment(clock: Setting, wall: int)

  function NowAt(m: Moment): int {
    if m.clock.frozen then m.clock.frozenAt else m.wall + m.clock.offset
  }

  /** Control operations, plus the passage of real time. */
  datatype Event = SetOffset(seconds: int) | Advance(seconds: int) | Freeze | Unfreeze | Tick(seconds: int)

  function Step(m: Moment, e: Event): Moment {
    var c := m.clock;
    match e
    case SetOffset(s) => m.(clock := c.(offset := s, frozen := false))
    case Advance(s) => m.(clock := if c.frozen then c.(frozenAt := c.frozenAt + s) else c.(offset := c.offset + s))
    case Freeze => if c.frozen then m else m.(clock := c.(frozen := true, frozenAt := m.wall + c.offset))
    case Unfreeze => if c.frozen then m.(clock := c.(frozen := false, offset := c.frozenAt - m.wall)) else m
    case Tick(s) => m.(wall := m.wall + s)
  }

  function Run(m: Moment, es: seq<Event>): Moment
    decreases |es|
  {
    if es == [] then m else Run(Step(m, es[0]), es[1..])
  }

  class Clock {
    var offset: int
    var frozen: bool
    var frozenAt: int

    function View(): Setting
      reads this
    {
      Setting(offset, frozen, frozenAt)
    }

    constructor ()
      ensures View() == Setting(0, false, 0)
    {
      offset, frozen, frozenAt := 0, false, 0;
    }

    method Now(wall: int) returns (now: int)
      ensures now == NowAt(Moment(View(), wall))
    {
      if frozen {
        return frozenAt;
      }
      return wall + offset;
    }

    method SetOffset(seconds: int)
      modifies this
      ensures forall wall :: Moment(View(), wall) == Step(Moment(old(View()), wall), Event.SetOffset(seconds))
    {
      offset := seconds;
      frozen := false;
    }

    method Advance(seconds: int)
      modifies this
      ensures forall wall :: Moment(View(), wall) == Step(Moment(old(View()), wall), Event.Advance(seconds))
    {
      if frozen {
        frozenAt := frozenAt + seconds;
        return;
      }
      offset := offset + seconds;
    }

    method Freeze(wall: int)
      modifies this
      ensures Moment(View(), wall) == Step(Moment(old(View()), wall), Event.Freeze)
    {
      if frozen {
        return;
      }
      frozenAt := wall + offset;
      frozen := true;
    }

    method Unfreeze(wall: int)
      modifies this
      ensures Moment(View(), wall) == Step(Moment(old(View()), wall), Event.Unfreeze)
    {
      if !frozen {
        return;
      }
      offset := frozenAt - wall;
      frozen := false;
    }

    /** The reported offset is the one that would show the reported time on a running clock. */
    method State(wall: int) returns (shift: int, isFrozen: bool, now: int)
      ensures isFrozen == frozen && now == NowAt(Moment(View(), wall))
      ensures NowAt(Step(Moment(View(), wall), Event.SetOffset(shift))) == now
    {
      if frozen {
        return frozenAt - wall, true, frozenAt;
      }
      return offset, false, wall + offset;
    }
  }

  /** Exactly when one event does not move the controlled time backwards. */
  lemma StepForwardIff(m: Moment, e: Event)
    ensures NowAt(Step(m, e)) >= NowAt(m) <==>
            match e
            case Freeze => true
            case Unfreeze => true
            case Advance(s) => s >= 0
            case Tick(s) => m.clock.frozen || s >= 0
            case SetOffset(s) =>
              if m.clock.frozen then m.wall + s >= m.clock.frozenAt else s >= m.clock.offset
    ensures e.Freeze? || e.Unfreeze? ==> NowAt(Step(m, e)) == NowAt(m)
  {}

  /** The seconds a run adds, read off the events alone: real time counts only while the clock
      is not frozen, advances always count. */
  function Elapsed(frozen: bool, es: seq<Event>): int
    decreases |es|
  {
    if es == [] then 0
    else match es[0]
      case Advance(s) => s + Elapsed(frozen, es[1..])
      case Tick(s) => (if frozen then 0 else s) + Elapsed(frozen, es[1..])
      case Freeze => Elapsed(true, es[1..])
      case _ => Elapsed(false, es[1..])
  }

  /** Freezing and thawing neither lose nor invent time, however often they alternate. */
  lemma {:induction false} TimeIsConserved(m: Moment, es: seq<Event>)
    requires forall e :: e in es ==> !e.SetOffset?
    ensures NowAt(Run(m, es)) == NowAt(m) + Elapsed(m.clock.frozen, es)
    decreases |es|
  {
    if es != [] {
      assert es[0] in es;
      TimeIsConserved(Step(m, es[0]), es[1..]);
    }
  }

  /** Freeze, Unfreeze, advances that are not negative, and real time that does not run back. */
  predicate Forward(e: Event) {
    match e
    case SetOffset(_) => false
    case Advance(s) => s >= 0
    case Tick(s) => s >= 0
    case _ => true
  }

  lemma {:induction false} ForwardRuns(m: Moment, es: seq<Event>)
    requires forall e :: e in es ==> Forward(e)
    ensures NowAt(m) <= NowAt(Run(m, es))
    decreases |es|
  {
    if es != [] {
      assert es[0] in es;
      ForwardRuns(Step(m, es[0]), es[1..]);
    }
  }
}
