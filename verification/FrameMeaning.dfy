/** What counting events adds up to, on the events themselves. */
module FrameMeaning {
  import opened MemoryFrames
  import opened MergedFrames

  /** What an event adds to the bytes that are live. */
  function Change(e: Event): int {
    match e
    case Alloc(size) => size
    case Dealloc(size) => -(size as int)
    case Realloc(oldSize, newSize) => newSize as int - oldSize
  }

  /** The bytes allocated by an event. */
  function AllocatedBy(e: Event): int {
    match e
    case Alloc(size) => size
    case _ => 0
  }

  /** The bytes reallocated by an event: the whole new size. */
  function ReallocatedBy(e: Event): int {
    match e
    case Realloc(_, newSize) => newSize
    case _ => 0
  }

  function OneIfAlloc(e: Event): int {
    if e.Alloc? then 1 else 0
  }

  function OneIfRealloc(e: Event): int {
    if e.Realloc? then 1 else 0
  }

  function Sum(events: seq<Event>, weight: Event -> int): int {
    if events == [] then 0 else Sum(events[..|events| - 1], weight) + weight(events[|events| - 1])
  }

  /** The bytes that are live after the first `n` events. */
  function LiveAfter(events: seq<Event>, n: nat): int
    requires n <= |events|
  {
    Sum(events[..n], Change)
  }

  /** `peak` is the highest number of live bytes at any time, before the first event and after each. */
  ghost predicate IsPeak(events: seq<Event>, peak: int) {
    && (forall n: nat :: n <= |events| ==> LiveAfter(events, n) <= peak)
    && exists n: nat :: n <= |events| && LiveAfter(events, n) == peak
  }

  /** The counts of a frame are numbers of events, its totals and its live bytes are sums over them. */
  lemma {:induction false} FrameAddsUp(events: seq<Event>)
    ensures var f := CountOf(events);
      && f.currentLiveBytes == Sum(events, Change)
      && f.allocationCount == Sum(events, OneIfAlloc) && f.reallocationCount == Sum(events, OneIfRealloc)
      && f.totalAllocatedBytes == Sum(events, AllocatedBy) && f.totalReallocatedBytes == Sum(events, ReallocatedBy)
    decreases |events|
  {
    if events != [] {
      FrameAddsUp(events[..|events| - 1]);
    }
  }

  /** The peak of a frame is the highest number of live bytes at any time. */
  lemma {:induction false} FramePeakIsHighest(events: seq<Event>)
    ensures IsPeak(events, CountOf(events).peakLiveBytes)
    decreases |events|
  {
    if events == [] {
      assert LiveAfter(events, 0) == 0;
    } else {
      var front := events[..|events| - 1];
      FramePeakIsHighest(front);
      FrameAddsUp(front);
      FrameAddsUp(events);
      StartsAtZero(front);
      LiveOfFront(events);
      NewPeak(events, CountOf(front).peakLiveBytes, CountOf(events).peakLiveBytes);
    }
  }

  lemma LiveOfFront(events: seq<Event>)
    requires events != []
    ensures forall n: nat :: n < |events| ==> LiveAfter(events, n) == LiveAfter(events[..|events| - 1], n)
    ensures LiveAfter(events, |events|) == Sum(events, Change)
  {
    forall n: nat | n < |events|
      ensures LiveAfter(events, n) == LiveAfter(events[..|events| - 1], n)
    {
      assert events[..|events| - 1][..n] == events[..n];
    }
    assert events[..|events|] == events;
  }

  lemma NewPeak(events: seq<Event>, before: int, after: int)
    requires events != [] && IsPeak(events[..|events| - 1], before)
    requires forall n: nat :: n < |events| ==> LiveAfter(events, n) == LiveAfter(events[..|events| - 1], n)
    requires after == if before < LiveAfter(events, |events|) then LiveAfter(events, |events|) else before
    ensures IsPeak(events, after)
  {
    hide LiveAfter;
    var n: nat :| n <= |events| - 1 && LiveAfter(events[..|events| - 1], n) == before;
    var m := if before < LiveAfter(events, |events|) then |events| else n;
    assert LiveAfter(events, m) == after;
  }
}
