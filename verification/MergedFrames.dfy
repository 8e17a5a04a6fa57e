/** Merging frames that were measured one after the other, against counting all their events in one frame. */
module MergedFrames {
  import opened Arithmetic
  import opened MemoryFrames

  /** The count of a whole measurement. */
  function CountOf(events: seq<Event>): Frame {
    Counted(ZERO, events)
  }

  /** All but the peak. */
  ghost predicate SameCounts(a: Frame, b: Frame) {
    a.(peakLiveBytes := 0) == b.(peakLiveBytes := 0)
  }

  lemma {:induction false} LiveIsUpToPeak(f: Frame, events: seq<Event>)
    requires f.currentLiveBytes <= f.peakLiveBytes
    ensures Counted(f, events).currentLiveBytes <= Counted(f, events).peakLiveBytes
    ensures f.peakLiveBytes <= Counted(f, events).peakLiveBytes
    decreases |events|
  {
    if events != [] {
      LiveIsUpToPeak(f, events[..|events| - 1]);
    }
  }

  /** Going on from a frame adds the counts of what follows, whose peak stands on what was live before. */
  lemma {:induction false} GoingOn(f: Frame, events: seq<Event>)
    requires f.currentLiveBytes <= f.peakLiveBytes
    ensures var g, rest := Counted(f, events), CountOf(events);
      && SameCounts(g, f.MergeSequential(rest))
      && g.peakLiveBytes == Max(f.peakLiveBytes, f.currentLiveBytes + rest.peakLiveBytes)
    decreases |events|
  {
    if events != [] {
      GoingOn(f, events[..|events| - 1]);
    }
  }

  /**
   Merging two measurements counts like one measurement of both; its peak is never too low, and it is exact if
   and only if bytes carried over are not negative or the second peak does not exceed the first.
   */
  lemma MergeCountsBoth(first: seq<Event>, second: seq<Event>)
    ensures var a, b, both := CountOf(first), CountOf(second), CountOf(first + second);
      var merged := a.MergeSequential(b);
      && SameCounts(merged, both)
      && both.peakLiveBytes <= merged.peakLiveBytes
      && (merged == both <==> a.currentLiveBytes >= 0 || b.peakLiveBytes <= a.peakLiveBytes)
  {
    LiveIsUpToPeak(ZERO, first);
    CountedInTurn(ZERO, first, second);
    GoingOn(CountOf(first), second);
  }

  /** Freeing what was live before both measurements, and allocating as much again, makes the merged peak too high. */
  lemma MergedPeakCanBeTooHigh(size: nat)
    ensures CountOf([Dealloc(size)]).MergeSequential(CountOf([Alloc(size)])).peakLiveBytes == size
    ensures CountOf([Dealloc(size)] + [Alloc(size)]).peakLiveBytes == 0
  {
    CountedOne(ZERO, Dealloc(size));
    CountedOne(ZERO, Alloc(size));
    GoingOn(CountOf([Dealloc(size)]), [Alloc(size)]);
    CountedInTurn(ZERO, [Dealloc(size)], [Alloc(size)]);
  }

  // Sums of measurements

  function Merged(frames: seq<Frame>): Frame {
    if frames == [] then ZERO else Merged(frames[..|frames| - 1]).MergeSequential(frames[|frames| - 1])
  }

  function FramesOf(values: seq<(Frame, nat)>): seq<Frame> {
    seq(|values|, i requires 0 <= i < |values| => values[i].0)
  }

  function SumOfCounts(values: seq<(Frame, nat)>): nat {
    if values == [] then 0 else SumOfCounts(values[..|values| - 1]) + values[|values| - 1].1
  }

  method SumMeasured(values: seq<(Frame, nat)>) returns (totalFrame: Frame, totalCount: nat)
    ensures totalFrame == Merged(FramesOf(values)) && totalCount == SumOfCounts(values)
  {
    totalFrame, totalCount := ZERO, 0;
    for i := 0 to |values|
      invariant totalFrame == Merged(FramesOf(values[..i])) && totalCount == SumOfCounts(values[..i])
    {
      assert values[..i + 1][..i] == values[..i];
      assert FramesOf(values[..i + 1])[..i] == FramesOf(values[..i]);
      totalFrame := totalFrame.MergeSequential(values[i].0);
      totalCount := totalCount + values[i].1;
    }
    assert values[..|values|] == values;
  }

  function AllEvents(traces: seq<seq<Event>>): seq<Event> {
    if traces == [] then [] else AllEvents(traces[..|traces| - 1]) + traces[|traces| - 1]
  }

  function CountsOf(traces: seq<seq<Event>>): seq<Frame> {
    seq(|traces|, i requires 0 <= i < |traces| => CountOf(traces[i]))
  }

  /** What is live before the `i`-th measurement, since the start. */
  function LiveBefore(traces: seq<seq<Event>>, i: nat): int
    requires i <= |traces|
  {
    CountOf(AllEvents(traces[..i])).currentLiveBytes
  }

  /** The peak of the `i`-th measurement on top of what was live before it. */
  function TruePeak(traces: seq<seq<Event>>, i: nat): int
    requires i < |traces|
  {
    LiveBefore(traces, i) + CountOf(traces[i]).peakLiveBytes
  }

  /** The same on top of what merging carries over, which is never negative. */
  function CarriedPeak(traces: seq<seq<Event>>, i: nat): int
    requires i < |traces|
  {
    Max(LiveBefore(traces, i), 0) + CountOf(traces[i]).peakLiveBytes
  }

  function MaxTruePeak(traces: seq<seq<Event>>, n: nat): int
    requires n <= |traces|
  {
    if n == 0 then 0 else Max(MaxTruePeak(traces, n - 1), TruePeak(traces, n - 1))
  }

  function MaxCarriedPeak(traces: seq<seq<Event>>, n: nat): int
    requires n <= |traces|
  {
    if n == 0 then 0 else Max(MaxCarriedPeak(traces, n - 1), CarriedPeak(traces, n - 1))
  }

  lemma {:induction false} SumOfPrefix(traces: seq<seq<Event>>, n: nat)
    requires n <= |traces|
    ensures var total, all := Merged(CountsOf(traces[..n])), CountOf(AllEvents(traces[..n]));
      && SameCounts(total, all)
      && total.peakLiveBytes == MaxCarriedPeak(traces, n)
      && all.peakLiveBytes == MaxTruePeak(traces, n)
  {
    hide Counted, CountOf, Merged, CountsOf, AllEvents;
    if n == 0 {
      NothingMeasured(traces);
    } else {
      SumOfPrefix(traces, n - 1);
      OneMoreMeasured(traces, n - 1);
    }
  }

  lemma NothingMeasured(traces: seq<seq<Event>>)
    ensures Merged(CountsOf(traces[..0])) == CountOf(AllEvents(traces[..0])) == ZERO
  {
  }

  lemma OneMoreMeasured(traces: seq<seq<Event>>, n: nat)
    requires n < |traces|
    ensures Merged(CountsOf(traces[..n + 1])) == Merged(CountsOf(traces[..n])).MergeSequential(CountOf(traces[n]))
    ensures var before, after := CountOf(AllEvents(traces[..n])), CountOf(AllEvents(traces[..n + 1]));
      && SameCounts(after, before.MergeSequential(CountOf(traces[n])))
      && after.peakLiveBytes == Max(before.peakLiveBytes, TruePeak(traces, n))
  {
    hide Counted;
    assert traces[..n + 1][..n] == traces[..n];
    assert CountsOf(traces[..n + 1])[..n] == CountsOf(traces[..n]);
    var before := AllEvents(traces[..n]);
    StartsAtZero(before);
    CountedInTurn(ZERO, before, traces[n]);
    GoingOn(CountOf(before), traces[n]);
  }

  lemma StartsAtZero(events: seq<Event>)
    ensures CountOf(events).currentLiveBytes <= CountOf(events).peakLiveBytes
    ensures CountOf([]).currentLiveBytes == 0
  {
    LiveIsUpToPeak(ZERO, events);
  }

  /** Both maxima are bounds that some measurement attains. */
  lemma {:induction false} PeaksAreAttained(traces: seq<seq<Event>>, n: nat)
    requires 0 < n <= |traces|
    ensures forall i :: 0 <= i < n ==> TruePeak(traces, i) <= MaxTruePeak(traces, n)
    ensures forall i :: 0 <= i < n ==> CarriedPeak(traces, i) <= MaxCarriedPeak(traces, n)
    ensures exists i :: 0 <= i < n && TruePeak(traces, i) == MaxTruePeak(traces, n)
    ensures exists i :: 0 <= i < n && CarriedPeak(traces, i) == MaxCarriedPeak(traces, n)
  {
    hide LiveBefore, CountOf;
    if n == 1 {
      FirstPeak(traces);
      assert TruePeak(traces, 0) == MaxTruePeak(traces, 1) && CarriedPeak(traces, 0) == MaxCarriedPeak(traces, 1);
    } else {
      PeaksAreAttained(traces, n - 1);
      var i :| 0 <= i < n - 1 && TruePeak(traces, i) == MaxTruePeak(traces, n - 1);
      var j :| 0 <= j < n - 1 && CarriedPeak(traces, j) == MaxCarriedPeak(traces, n - 1);
      var k, l := if MaxTruePeak(traces, n) == TruePeak(traces, n - 1) then n - 1 else i,
                  if MaxCarriedPeak(traces, n) == CarriedPeak(traces, n - 1) then n - 1 else j;
      assert TruePeak(traces, k) == MaxTruePeak(traces, n) && CarriedPeak(traces, l) == MaxCarriedPeak(traces, n);
    }
  }

  lemma FirstPeak(traces: seq<seq<Event>>)
    requires traces != []
    ensures LiveBefore(traces, 0) == 0
    ensures MaxTruePeak(traces, 1) == TruePeak(traces, 0) && MaxCarriedPeak(traces, 1) == CarriedPeak(traces, 0)
  {
    StartsAtZero([]);
    assert traces[..0] == [];
  }

  /** The highest peak on top of what is carried is reached by a measurement before which nothing negative was live. */
  ghost predicate HighestPeakStandsOnLiveBytes(traces: seq<seq<Event>>) {
    traces != [] ==>
      exists i ::
        && 0 <= i < |traces| && LiveBefore(traces, i) >= 0
        && CarriedPeak(traces, i) == MaxCarriedPeak(traces, |traces|)
  }

  /** The sum of measurements counts like one measurement of everything, and its peak is the highest carried one. */
  lemma SumCountsAll(traces: seq<seq<Event>>)
    ensures SameCounts(Merged(CountsOf(traces)), CountOf(AllEvents(traces)))
    ensures Merged(CountsOf(traces)).peakLiveBytes == MaxCarriedPeak(traces, |traces|)
    ensures CountOf(AllEvents(traces)).peakLiveBytes == MaxTruePeak(traces, |traces|)
  {
    assert traces[..|traces|] == traces;
    SumOfPrefix(traces, |traces|);
  }

  /**
   The peak of the sum is never too low, and it is exact if and only if the highest peak on top of what is carried
   stands on live bytes that are not negative.
   */
  lemma SumIsExactIff(traces: seq<seq<Event>>)
    ensures CountOf(AllEvents(traces)).peakLiveBytes <= Merged(CountsOf(traces)).peakLiveBytes
    ensures Merged(CountsOf(traces)) == CountOf(AllEvents(traces)) <==> HighestPeakStandsOnLiveBytes(traces)
  {
    var n := |traces|;
    SumCountsAll(traces);
    hide LiveBefore, CountOf, MaxTruePeak, MaxCarriedPeak, Merged, AllEvents, CountsOf;
    if n == 0 {
      NoPeaks(traces);
    } else {
      PeaksAreAttained(traces, n);
      var i :| 0 <= i < n && TruePeak(traces, i) == MaxTruePeak(traces, n);
      assert TruePeak(traces, i) <= CarriedPeak(traces, i) <= MaxCarriedPeak(traces, n);
      if MaxTruePeak(traces, n) == MaxCarriedPeak(traces, n) {
        assert LiveBefore(traces, i) >= 0;
      }
      forall j | 0 <= j < n && LiveBefore(traces, j) >= 0
        ensures CarriedPeak(traces, j) == TruePeak(traces, j) <= MaxTruePeak(traces, n)
      {
      }
    }
  }

  lemma NoPeaks(traces: seq<seq<Event>>)
    ensures MaxTruePeak(traces, 0) == MaxCarriedPeak(traces, 0) == 0
  {
  }
}
