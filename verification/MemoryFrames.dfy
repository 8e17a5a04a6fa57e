/**
 Counting allocations in nested measurements: a fixed array of frames, of which all those in use
 count every event, and the merging of frames measured one after the other.
 */
module MemoryFrames {
  import opened Arithmetic

  const MAX_MEASURE_DEPTH := 8

  datatype Event = Alloc(size: nat) | Dealloc(size: nat) | Realloc(oldSize: nat, newSize: nat)

  datatype Frame = Frame(
    allocationCount: nat,
    reallocationCount: nat,
    totalAllocatedBytes: nat,
    totalReallocatedBytes: nat,
    currentLiveBytes: int,
    peakLiveBytes: nat)
  {
    function OnAlloc(size: nat): Frame {
      var live := currentLiveBytes + size;
      this.(allocationCount := allocationCount + 1,
            totalAllocatedBytes := totalAllocatedBytes + size,
            currentLiveBytes := live,
            peakLiveBytes := Max(peakLiveBytes, Max(live, 0)))
    }

    function OnDealloc(size: nat): Frame {
      this.(currentLiveBytes := currentLiveBytes - size)
    }

    function OnRealloc(oldSize: nat, newSize: nat): Frame {
      var live := currentLiveBytes + (newSize - oldSize);
      this.(reallocationCount := reallocationCount + 1,
            totalReallocatedBytes := totalReallocatedBytes + newSize,
            currentLiveBytes := live,
            peakLiveBytes := Max(peakLiveBytes, Max(live, 0)))
    }

    function On(e: Event): Frame {
      match e
      case Alloc(size) => OnAlloc(size)
      case Dealloc(size) => OnDealloc(size)
      case Realloc(oldSize, newSize) => OnRealloc(oldSize, newSize)
    }

    function MergeSequential(other: Frame): Frame {
      var carried := Max(currentLiveBytes, 0);
      Frame(
        allocationCount + other.allocationCount,
        reallocationCount + other.reallocationCount,
        totalAllocatedBytes + other.totalAllocatedBytes,
        totalReallocatedBytes + other.totalReallocatedBytes,
        currentLiveBytes + other.currentLiveBytes,
        Max(peakLiveBytes, carried + other.peakLiveBytes))
    }
  }

  const ZERO := Frame(0, 0, 0, 0, 0, 0)

  /** The frame after all of the events. */
  function Counted(f: Frame, events: seq<Event>): Frame {
    if events == [] then f else Counted(f, events[..|events| - 1]).On(events[|events| - 1])
  }

  // Nested measurements

  /** What a measured closure does: events, and measurements inside it. */
  datatype Action = Occur(event: Event) | Measure(body: seq<Action>)

  /** What a measurement returns, with what the measurements inside it returned. */
  datatype Outcome = Outcome(frame: Frame, inner: seq<Outcome>)

  /** All events in order, those of inner measurements included. */
  function Events(actions: seq<Action>): seq<Event> {
    if actions == [] then []
    else
      Events(actions[..|actions| - 1]) +
      match actions[|actions| - 1]
      case Occur(event) => [event]
      case Measure(body) => Events(body)
  }

  /** How deep measurements are nested. */
  function Nesting(actions: seq<Action>): nat {
    if actions == [] then 0
    else
      var front := Nesting(actions[..|actions| - 1]);
      match actions[|actions| - 1]
      case Occur(_) => front
      case Measure(body) => Max(front, 1 + Nesting(body))
  }

  /** Every measurement returns exactly the count of the events inside it. */
  function Outcomes(actions: seq<Action>): seq<Outcome> {
    if actions == [] then []
    else
      Outcomes(actions[..|actions| - 1]) +
      match actions[|actions| - 1]
      case Occur(_) => []
      case Measure(body) => [Outcome(Counted(ZERO, Events(body)), Outcomes(body))]
  }

  lemma {:induction false} CountedInTurn(f: Frame, first: seq<Event>, second: seq<Event>)
    ensures Counted(f, first + second) == Counted(Counted(f, first), second)
    decreases |second|
  {
    if second == [] {
      assert first + second == first;
    } else {
      assert (first + second)[..|first + second| - 1] == first + second[..|second| - 1];
      CountedInTurn(f, first, second[..|second| - 1]);
    }
  }

  lemma CountedOne(f: Frame, e: Event)
    ensures Counted(f, [e]) == f.On(e)
  {
    assert [e][..0] == [];
  }

  lemma {:induction false} NestingOfPrefix(actions: seq<Action>, n: nat)
    requires n <= |actions|
    ensures Nesting(actions[..n]) <= Nesting(actions)
    decreases |actions|
  {
    if n < |actions| {
      assert actions[..|actions| - 1][..n] == actions[..n];
      NestingOfPrefix(actions[..|actions| - 1], n);
    } else {
      assert actions[..n] == actions;
    }
  }

  function ActionEvents(action: Action): seq<Event> {
    if action.Occur? then [action.event] else Events(action.body)
  }

  lemma EventsOfOneMore(actions: seq<Action>, n: nat)
    requires n < |actions|
    ensures Events(actions[..n + 1]) == Events(actions[..n]) + ActionEvents(actions[n])
  {
    assert actions[..n + 1][..n] == actions[..n];
  }

  lemma NestingOfOneMore(actions: seq<Action>, n: nat)
    requires n < |actions|
    ensures Nesting(actions[..n + 1]) ==
            if actions[n].Occur? then Nesting(actions[..n])
            else Max(Nesting(actions[..n]), 1 + Nesting(actions[n].body))
    ensures Nesting(actions[..n + 1]) <= Nesting(actions)
  {
    assert actions[..n + 1][..n] == actions[..n];
    NestingOfPrefix(actions, n + 1);
  }

  lemma OutcomesOfOneMore(actions: seq<Action>, n: nat)
    requires n < |actions|
    ensures Outcomes(actions[..n + 1]) ==
            if actions[n].Occur? then Outcomes(actions[..n])
            else Outcomes(actions[..n]) + [Outcome(Counted(ZERO, Events(actions[n].body)), Outcomes(actions[n].body))]
  {
    assert actions[..n + 1][..n] == actions[..n];
  }

  lemma CountedOneMore(actions: seq<Action>, n: nat, f: Frame)
    requires n < |actions|
    ensures Counted(Counted(f, Events(actions[..n])), ActionEvents(actions[n])) == Counted(f, Events(actions[..n + 1]))
  {
    EventsOfOneMore(actions, n);
    CountedInTurn(f, Events(actions[..n]), ActionEvents(actions[n]));
  }

  lemma NothingDone(actions: seq<Action>)
    ensures Nesting(actions[..0]) == 0 && Outcomes(actions[..0]) == []
    ensures forall f :: Counted(f, Events(actions[..0])) == f
    ensures actions[..|actions|] == actions
  {
  }

  class CounterState {
    var depth: nat
    const frames: array<Frame>

    /** Frames that are not in use are zero. */
    ghost predicate Valid()
      reads this, frames
    {
      && frames.Length == MAX_MEASURE_DEPTH && depth < MAX_MEASURE_DEPTH
      && forall i :: 0 <= i < frames.Length && (i == 0 || depth < i) ==> frames[i] == ZERO
    }

    constructor ()
      ensures Valid() && depth == 0 && fresh(frames)
    {
      depth := 0;
      frames := new Frame[MAX_MEASURE_DEPTH](_ => ZERO);
    }

    method RecordAlloc(size: nat)
      requires Valid()
      modifies frames
      ensures Valid()
      ensures forall i :: 1 <= i <= depth ==> frames[i] == old(frames[i]).On(Alloc(size))
    {
      if depth == 0 {
        return;
      }
      for i := 1 to depth + 1
        invariant forall k :: 1 <= k < i ==> frames[k] == old(frames[k]).On(Alloc(size))
        invariant forall k :: 0 <= k < frames.Length && (k == 0 || i <= k) ==> frames[k] == old(frames[k])
      {
        frames[i] := frames[i].OnAlloc(size);
      }
    }

    method RecordDealloc(size: nat)
      requires Valid()
      modifies frames
      ensures Valid()
      ensures forall i :: 1 <= i <= depth ==> frames[i] == old(frames[i]).On(Dealloc(size))
    {
      if depth == 0 {
        return;
      }
      for i := 1 to depth + 1
        invariant forall k :: 1 <= k < i ==> frames[k] == old(frames[k]).On(Dealloc(size))
        invariant forall k :: 0 <= k < frames.Length && (k == 0 || i <= k) ==> frames[k] == old(frames[k])
      {
        frames[i] := frames[i].OnDealloc(size);
      }
    }

    method RecordRealloc(oldSize: nat, newSize: nat)
      requires Valid()
      modifies frames
      ensures Valid()
      ensures forall i :: 1 <= i <= depth ==> frames[i] == old(frames[i]).On(Realloc(oldSize, newSize))
    {
      if depth == 0 {
        return;
      }
      for i := 1 to depth + 1
        invariant forall k :: 1 <= k < i ==> frames[k] == old(frames[k]).On(Realloc(oldSize, newSize))
        invariant forall k :: 0 <= k < frames.Length && (k == 0 || i <= k) ==> frames[k] == old(frames[k])
      {
        frames[i] := frames[i].OnRealloc(oldSize, newSize);
      }
    }

    /** The event that the allocator reports. */
    method Record(event: Event)
      requires Valid()
      modifies frames
      ensures Valid()
      ensures forall i :: 1 <= i <= depth ==> frames[i] == Counted(old(frames[i]), [event])
    {
      match event {
        case Alloc(size) => RecordAlloc(size);
        case Dealloc(size) => RecordDealloc(size);
        case Realloc(oldSize, newSize) => RecordRealloc(oldSize, newSize);
      }
      forall i | 1 <= i <= depth
        ensures frames[i] == Counted(old(frames[i]), [event])
      {
        CountedOne(old(frames[i]), event);
      }
    }

    /**
     Measures `body`. The measurement fails exactly when it nests too deeply; otherwise the frame returned
     counts the events inside it, the frames around it count them too, and the state is as before.
     */
    method Measured(body: seq<Action>) returns (ok: bool, outcome: Outcome)
      requires Valid()
      modifies this`depth, frames
      ensures ok <==> old(depth) + 1 + Nesting(body) < 8
      ensures ok ==> Valid() && depth == old(depth)
      ensures ok ==> forall i :: 1 <= i <= depth ==> frames[i] == Counted(old(frames[i]), Events(body))
      ensures ok ==> outcome == Outcome(Counted(ZERO, Events(body)), Outcomes(body))
      decreases body, 1
    {
      outcome := Outcome(ZERO, []);
      if depth + 1 >= MAX_MEASURE_DEPTH {
        return false, outcome;
      }
      depth := depth + 1;
      frames[depth] := ZERO;

      var inner;
      ok, inner := Perform(body);
      if !ok {
        return;
      }

      var frame := frames[depth];
      frames[depth] := ZERO;
      depth := depth - 1;
      outcome := Outcome(frame, inner);
    }

    /** Runs a closure: every action in turn. */
    method Perform(actions: seq<Action>) returns (ok: bool, outcomes: seq<Outcome>)
      requires Valid()
      modifies this`depth, frames
      ensures ok <==> old(depth) + Nesting(actions) < 8
      ensures ok ==> Valid() && depth == old(depth)
      ensures ok ==> forall i :: 1 <= i <= depth ==> frames[i] == Counted(old(frames[i]), Events(actions))
      ensures ok ==> outcomes == Outcomes(actions)
      decreases actions, 0
    {
      hide Counted, Events, Nesting, Outcomes;
      outcomes := [];
      NothingDone(actions);
      for n := 0 to |actions|
        invariant Valid() && depth == old(depth)
        invariant depth + Nesting(actions[..n]) < MAX_MEASURE_DEPTH
        invariant forall i :: 1 <= i <= depth ==> frames[i] == Counted(old(frames[i]), Events(actions[..n]))
        invariant outcomes == Outcomes(actions[..n])
      {
        NestingOfOneMore(actions, n);
        OutcomesOfOneMore(actions, n);
        forall i | 1 <= i <= depth
          ensures Counted(frames[i], ActionEvents(actions[n])) == Counted(old(frames[i]), Events(actions[..n + 1]))
        {
          CountedOneMore(actions, n, old(frames[i]));
        }
        match actions[n] {
          case Occur(event) => Record(event);
          case Measure(body) =>
            var fits, outcome := Measured(body);
            if !fits {
              return false, outcomes;
            }
            outcomes := outcomes + [outcome];
        }
      }
      return true, outcomes;
    }
  }
}
