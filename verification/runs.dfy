/** Counting viable meeting start times: a meeting of `length` minutes needs
    `length / 30` viable slots in a row, each exactly 30 minutes after the
    previous one. The current script counts every such window; the older one
    counts adjacent pairs only. */
module Runs {
  import opened Wrappers
  import opened Seqs
  import opened TimeGrid
  import opened Reconcile

  /** Raised by the window loop when a meeting spans no whole half hour (`slots[len(slots)]`). */
  datatype CountError = SlotIndexOutOfRange

  /** Slot `j` of the day follows slot `j - 1` by exactly half an hour. */
  predicate BackToBack(slots: seq<Slot>, j: nat)
    requires 1 <= j < |slots|
  {
    slots[j].time - slots[j - 1].time == HalfHour
  }

  /** The `n` slots starting at `i` exist and are back to back. */
  predicate IsRun(slots: seq<Slot>, i: nat, n: nat)
  {
    i + n <= |slots| && forall j :: i + 1 <= j < i + n ==> BackToBack(slots, j)
  }

  /** The start indices of all runs of `n` slots in a day; overlapping runs are distinct starts. */
  function RunStarts(slots: seq<Slot>, n: nat): set<nat>
  {
    set i: nat | i + n <= |slots| && IsRun(slots, i, n)
  }

  /** Adds `f(d)` over `days`. */
  function SumOverDays(days: seq<Day>, f: Day -> nat): nat
  {
    if |days| == 0 then 0 else SumOverDays(days[..|days| - 1], f) + f(days[|days| - 1])
  }

  function DayRuns(v: Grid, n: nat): Day -> nat
  {
    (d: Day) => |RunStarts(SlotsOf(v, d), n)|
  }

  /** The number of viable meeting start times in a grid of viable slots: every run of `n`, on every day. */
  function TotalRuns(v: Grid, n: nat): nat
  {
    SumOverDays(AllDays, DayRuns(v, n))
  }

  function DaySize(v: Grid): Day -> nat
  {
    (d: Day) => |SlotsOf(v, d)|
  }

  /** The number of slots in a grid, over all days. */
  function SlotCount(v: Grid): nat
  {
    SumOverDays(AllDays, DaySize(v))
  }

  function IsRunAt(slots: seq<Slot>, n: nat): nat -> bool
  {
    (i: nat) => IsRun(slots, i, n)
  }

  /** The candidate starts `range(0, len(slots) - (n - 1))` of the window loop. */
  function WindowStarts(len: nat, n: nat): nat
  {
    if n <= len + 1 then len + 1 - n else 0
  }

  /** Counting candidate starts one by one counts exactly the run starts. */
  lemma {:induction false} CountingRunStarts(slots: seq<Slot>, n: nat)
    requires n >= 1
    ensures CountBelow(WindowStarts(|slots|, n), IsRunAt(slots, n)) == |RunStarts(slots, n)|
  {
    var m := WindowStarts(|slots|, n);
    assert RunStarts(slots, n) == IndicesBelow(m, IsRunAt(slots, n));
    CountBelowIsCardinality(m, IsRunAt(slots, n));
  }

  /** The inner check of the window loop: are the `n` slots from `i` back to back? */
  method RunFrom(slots: seq<Slot>, i: nat, n: nat) returns (enough: bool)
    requires n >= 1 && i + n <= |slots|
    ensures enough <==> IsRun(slots, i, n)
  {
    enough := true;
    var j := 1;
    while j < n
      invariant 1 <= j <= n
      invariant enough
      invariant forall jj :: i + 1 <= jj < i + j ==> BackToBack(slots, jj)
    {
      if slots[i + j].time - slots[i + j - 1].time != HalfHour {
        assert !BackToBack(slots, i + j);
        enough := false;
        break;
      }
      j := j + 1;
    }
  }

  /** The window loop over one day: every start index whose window is a run. */
  method CountDayRuns(slots: seq<Slot>, n: nat) returns (count: nat)
    requires n >= 1
    ensures count == |RunStarts(slots, n)|
  {
    count := 0;
    var i := 0;
    while i + n <= |slots|
      invariant 0 <= i <= WindowStarts(|slots|, n)
      invariant count == CountBelow(i, IsRunAt(slots, n))
    {
      var enough := RunFrom(slots, i, n);
      if enough {
        count := count + 1;
      }
      i := i + 1;
    }
    CountingRunStarts(slots, n);
  }

  /** The window loop of numViableMeetingTimes over a grid of viable slots, day by day. */
  method CountRuns(v: Grid, n: nat) returns (count: nat)
    requires n >= 1
    ensures count == TotalRuns(v, n)
  {
    count := 0;
    var k := 0;
    while k < |AllDays|
      invariant 0 <= k <= |AllDays|
      invariant count == SumOverDays(AllDays[..k], DayRuns(v, n))
    {
      var dayCount := CountDayRuns(SlotsOf(v, AllDays[k]), n);
      count := count + dayCount;
      assert AllDays[..k + 1][..k] == AllDays[..k];
      k := k + 1;
    }
    assert AllDays[..k] == AllDays;
  }

  /** numViableMeetingTimes of the current script: the viable slots for the target, then every
      window of `int(length / 30)` back-to-back slots; a length under 30 minutes raises. */
  method NumViableMeetingTimes(g: Grid, length: int, target: Option<set<PersonId>>) returns (r: Result<nat, CountError>)
    ensures r.Failure? <==> HalfHoursIn(length) <= 0
    ensures r.Success? ==> r.value == TotalRuns(ViableSlots(g, target), HalfHoursIn(length))
  {
    var viable := ViableSlots(g, target);
    var n := HalfHoursIn(length);
    if n <= 0 {
      return Failure(SlotIndexOutOfRange);
    }
    var count := CountRuns(viable, n);
    return Success(count);
  }

  /** A single slot is always a run of one, so 30-minute meetings count every viable slot. */
  lemma {:induction false} RunsOfOneAreSlots(v: Grid)
    ensures TotalRuns(v, 1) == SlotCount(v)
  {
    forall d: Day
      ensures DayRuns(v, 1)(d) == DaySize(v)(d)
    {
      var slots := SlotsOf(v, d);
      assert RunStarts(slots, 1) == IndicesBelow(|slots|, (i: nat) => true);
      CountBelowIsCardinality(|slots|, (i: nat) => true);
      CountAll(|slots|);
    }
    SumOverSameDays(AllDays, DayRuns(v, 1), DaySize(v));
  }

  lemma {:induction false} CountAll(m: nat)
    ensures CountBelow(m, (i: nat) => true) == m
  {
    if m > 0 {
      CountAll(m - 1);
    }
  }

  lemma {:induction false} SumOverSameDays(days: seq<Day>, f: Day -> nat, h: Day -> nat)
    requires forall d: Day :: f(d) == h(d)
    ensures SumOverDays(days, f) == SumOverDays(days, h)
  {
    if |days| > 0 {
      SumOverSameDays(days[..|days| - 1], f, h);
    }
  }

  // The older script.

  /** `time2 - time1 == thirtymins` for slots `i` and `i + 1`. */
  function StepAt(slots: seq<Slot>): nat -> bool
  {
    (i: nat) => i + 1 < |slots| && slots[i + 1].time - slots[i].time == HalfHour
  }

  /** The back-to-back adjacent pairs of one day: `for i in range(0, len(slots) - 1)`. */
  function AdjacentPairs(slots: seq<Slot>): nat
  {
    CountBelow(if |slots| >= 1 then |slots| - 1 else 0, StepAt(slots))
  }

  function DayPairs(v: Grid): Day -> nat
  {
    (d: Day) => AdjacentPairs(SlotsOf(v, d))
  }

  /** Summed over the week, the adjacent pairs are the runs of two. */
  lemma {:induction false} PairCountIsRunsOfTwo(v: Grid)
    ensures SumOverDays(AllDays, DayPairs(v)) == TotalRuns(v, 2)
  {
    forall d: Day
      ensures DayPairs(v)(d) == DayRuns(v, 2)(d)
    {
      PairsAreRunsOfTwo(SlotsOf(v, d));
    }
    SumOverSameDays(AllDays, DayPairs(v), DayRuns(v, 2));
  }

  /** The older script's count: every exactly-viable slot for a 30-minute meeting, and the
      back-to-back pairs for every other length. Whatever the length, it is the window count
      for runs of one or of two: 60 and 90 minutes give the same number. */
  function NumViableMeetingTimesLegacy(g: Grid, length: int, target: Option<set<PersonId>>): (r: nat)
    ensures length == 30 ==> r == TotalRuns(ViableSlotsExact(g, target), 1)
    ensures length != 30 ==> r == TotalRuns(ViableSlotsExact(g, target), 2)
  {
    var v := ViableSlotsExact(g, target);
    if length == 30 then
      RunsOfOneAreSlots(v);
      SlotCount(v)
    else
      PairCountIsRunsOfTwo(v);
      SumOverDays(AllDays, DayPairs(v))
  }

  /** Adjacent back-to-back pairs are exactly the runs of two. */
  lemma {:induction false} PairsAreRunsOfTwo(slots: seq<Slot>)
    ensures AdjacentPairs(slots) == |RunStarts(slots, 2)|
  {
    var m := if |slots| >= 1 then |slots| - 1 else 0;
    assert RunStarts(slots, 2) == IndicesBelow(m, StepAt(slots)) by {
      forall i: nat
        ensures i in RunStarts(slots, 2) <==> i in IndicesBelow(m, StepAt(slots))
      {
        if i + 2 <= |slots| {
          assert IsRun(slots, i, 2) <==> BackToBack(slots, i + 1);
        }
      }
    }
    CountBelowIsCardinality(m, StepAt(slots));
  }
}
