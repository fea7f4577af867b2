/** Turning a scraped poll into a week grid: each day's 15-minute slots are
    sorted by time and paired (0&1, 2&3, ...) into half-hour slots whose
    available set is the intersection of the pair's. */
module Merge {
  import opened Wrappers
  import opened Seqs
  import opened TimeGrid

  /** A scraped 15-minute slot: its clock label and the ids appended for it, one per availability mark. */
  datatype RawSlot = RawSlot(time: Minute, available: seq<PersonId>)

  /** Raised by the pairing loop when a day has an odd number of 15-minute slots (`slots[i+1]` out of range). */
  datatype MergeError = UnpairedQuarterHour(day: Day)

  /** The scraped slots, grouped by day. */
  type RawWeek = map<Day, seq<RawSlot>>

  function RawOf(raw: RawWeek, d: Day): seq<RawSlot>
  {
    if d in raw then raw[d] else []
  }

  predicate SortedByTime(s: seq<RawSlot>)
  {
    forall i, j :: 0 <= i < j < |s| ==> s[i].time <= s[j].time
  }

  /** Inserts `x` before the first slot that is not earlier, so that it precedes slots with the same time. */
  function InsertByTime(x: RawSlot, s: seq<RawSlot>): (r: seq<RawSlot>)
    requires SortedByTime(s)
    ensures SortedByTime(r)
    ensures multiset(r) == multiset(s) + multiset{x}
    ensures |r| == |s| + 1
  {
    if |s| == 0 || x.time <= s[0].time then [x] + s
    else
      var rest := InsertByTime(x, s[1..]);
      assert s == [s[0]] + s[1..];
      NoEarlierThan(s[0].time, rest, s[1..] + [x]);
      [s[0]] + rest
  }

  /** A list holding the same slots as one whose slots are all at `lo` or later has that property too. */
  lemma NoEarlierThan(lo: Minute, r: seq<RawSlot>, s: seq<RawSlot>)
    requires multiset(r) == multiset(s)
    requires forall k :: 0 <= k < |s| ==> lo <= s[k].time
    ensures forall k :: 0 <= k < |r| ==> lo <= r[k].time
  {
    forall k | 0 <= k < |r|
      ensures lo <= r[k].time
    {
      assert r[k] in multiset(s);
      var j :| 0 <= j < |s| && s[j] == r[k];
    }
  }

  /** `sorted(slots, key=lambda slot: slot['time'])`: a stable sort by clock time. */
  function SortByTime(s: seq<RawSlot>): (r: seq<RawSlot>)
    ensures SortedByTime(r)
    ensures multiset(r) == multiset(s)
    ensures |r| == |s|
  {
    if |s| == 0 then []
    else
      assert s == [s[0]] + s[1..];
      InsertByTime(s[0], SortByTime(s[1..]))
  }

  /** Sorting a day that is already in time order changes nothing. */
  lemma {:induction false} SortSortedIsIdentity(s: seq<RawSlot>)
    requires SortedByTime(s)
    ensures SortByTime(s) == s
  {
    if |s| > 0 {
      SortSortedIsIdentity(s[1..]);
      assert s == [s[0]] + s[1..];
    }
  }

  /** `r` pairs the quarter-hours of `s`: half hour j starts at quarter-hour 2j and holds
      exactly the people present in both quarter-hours 2j and 2j+1. */
  predicate PairedFrom(r: seq<Slot>, s: seq<RawSlot>)
  {
    && |s| == 2 * |r|
    && forall j :: 0 <= j < |r| ==>
         r[j].time == s[2 * j].time && r[j].available == Elems(s[2 * j].available) * Elems(s[2 * j + 1].available)
  }

  /** `r` pairs some time-sorted arrangement of the quarter-hours `raw`. */
  ghost predicate PairsSortedDay(r: seq<Slot>, raw: seq<RawSlot>)
  {
    exists s :: SortedByTime(s) && multiset(s) == multiset(raw) && PairedFrom(r, s)
  }

  /** Pairs consecutive quarter-hours of an even-length day into half hours. */
  function MergePairs(s: seq<RawSlot>): (r: seq<Slot>)
    requires |s| % 2 == 0
    ensures |r| == |s| / 2
    ensures PairedFrom(r, s)
  {
    if |s| == 0 then []
    else
      var rest := MergePairs(s[2..]);
      var r := [Slot(s[0].time, Elems(s[0].available) * Elems(s[1].available))] + rest;
      assert forall j :: 1 <= j < |r| ==>
        r[j].time == s[2 * j].time && r[j].available == Elems(s[2 * j].available) * Elems(s[2 * j + 1].available) by {
        forall j | 1 <= j < |r|
          ensures r[j].time == s[2 * j].time
          ensures r[j].available == Elems(s[2 * j].available) * Elems(s[2 * j + 1].available)
        {
          assert r[j] == rest[j - 1];
          assert s[2 * j] == s[2..][2 * (j - 1)];
          assert s[2 * j + 1] == s[2..][2 * (j - 1) + 1];
        }
      }
      r
  }

  /** One day of the merge loop: sort, then pair; an odd count raises. */
  function MergeDay(d: Day, raw: seq<RawSlot>): (r: Result<seq<Slot>, MergeError>)
    ensures r.Success? <==> |raw| % 2 == 0
    ensures r.Failure? ==> r.error == UnpairedQuarterHour(d)
    ensures r.Success? ==> |r.value| == |raw| / 2
    ensures r.Success? ==> PairsSortedDay(r.value, raw)
  {
    if |raw| % 2 == 1 then Failure(UnpairedQuarterHour(d))
    else
      var sorted := SortByTime(raw);
      assert PairedFrom(MergePairs(sorted), sorted);
      Success(MergePairs(sorted))
  }

  /** A time-sorted day of 2k quarter-hours merges into k half hours; half hour j starts at
      quarter-hour 2j and holds exactly the people present in both quarter-hours 2j and 2j+1. */
  lemma MergeSortedDay(d: Day, raw: seq<RawSlot>)
    requires SortedByTime(raw) && |raw| % 2 == 0
    ensures MergeDay(d, raw).Success?
    ensures |MergeDay(d, raw).value| == |raw| / 2
    ensures forall j, p :: 0 <= j < |raw| / 2 ==>
      MergeDay(d, raw).value[j].time == raw[2 * j].time &&
      (p in MergeDay(d, raw).value[j].available <==> p in raw[2 * j].available && p in raw[2 * j + 1].available)
  {
    SortSortedIsIdentity(raw);
  }

  /** The merged half hours of a day come out in time order. */
  lemma MergedDayIsTimeOrdered(d: Day, raw: seq<RawSlot>)
    requires |raw| % 2 == 0
    ensures forall i, j :: 0 <= i < j < |MergeDay(d, raw).value| ==>
      MergeDay(d, raw).value[i].time <= MergeDay(d, raw).value[j].time
  {
    var sorted := SortByTime(raw);
    forall i, j | 0 <= i < j < |MergeDay(d, raw).value|
      ensures MergeDay(d, raw).value[i].time <= MergeDay(d, raw).value[j].time
    {
      assert MergeDay(d, raw).value[i].time == sorted[2 * i].time;
      assert MergeDay(d, raw).value[j].time == sorted[2 * j].time;
    }
  }

  /** `days[i]` is the first of `days` with an odd number of quarter-hours. */
  predicate FirstOddAt(raw: RawWeek, days: seq<Day>, i: int)
  {
    && 0 <= i < |days|
    && |RawOf(raw, days[i])| % 2 == 1
    && forall k :: 0 <= k < i ==> |RawOf(raw, days[k])| % 2 == 0
  }

  /** A first odd day of the tail is the first odd day of the list, one position later,
      once the head is even. */
  lemma {:induction false} FirstOddShift(raw: RawWeek, days: seq<Day>, i: int)
    requires |days| > 0 && |RawOf(raw, days[0])| % 2 == 0
    requires FirstOddAt(raw, days[1..], i)
    ensures FirstOddAt(raw, days, i + 1)
  {
    assert days[i + 1] == days[1..][i];
    forall k | 0 <= k < i + 1
      ensures |RawOf(raw, days[k])| % 2 == 0
    {
      if k > 0 {
        assert days[k] == days[1..][k - 1];
      }
    }
  }

  /** The merge loop over `days`, in order; the first odd day raises. */
  function MergeDays(raw: RawWeek, days: seq<Day>): (r: Result<Grid, MergeError>)
    ensures r.Success? <==> forall i :: 0 <= i < |days| ==> |RawOf(raw, days[i])| % 2 == 0
    ensures r.Success? ==> forall i :: 0 <= i < |days| ==>
      days[i] in r.value && r.value[days[i]] == MergeDay(days[i], RawOf(raw, days[i])).value
    ensures r.Failure? ==> exists i :: FirstOddAt(raw, days, i) && r.error == UnpairedQuarterHour(days[i])
  {
    if |days| == 0 then Success(map[])
    else
      var d := days[0];
      match MergeDay(d, RawOf(raw, d))
      case Failure(e) =>
        assert FirstOddAt(raw, days, 0);
        Failure(e)
      case Success(slots) =>
        match MergeDays(raw, days[1..])
        case Failure(e) =>
          var i :| FirstOddAt(raw, days[1..], i) && e == UnpairedQuarterHour(days[1..][i]);
          FirstOddShift(raw, days, i);
          assert days[1..][i] == days[i + 1];
          Failure(e)
        case Success(g) =>
          MergedDaysCons(raw, days, g);
          Success(g[d := slots])
  }

  /** Once the head day is even, the tail's merged grid with the head's merge added holds
      every day of the list, each as its own merge. */
  lemma MergedDaysCons(raw: RawWeek, days: seq<Day>, g: Grid)
    requires |days| > 0 && |RawOf(raw, days[0])| % 2 == 0
    requires forall i :: 0 <= i < |days[1..]| ==> |RawOf(raw, days[1..][i])| % 2 == 0
    requires forall i :: 0 <= i < |days[1..]| ==>
      days[1..][i] in g && g[days[1..][i]] == MergeDay(days[1..][i], RawOf(raw, days[1..][i])).value
    ensures forall i :: 0 <= i < |days| ==> |RawOf(raw, days[i])| % 2 == 0
    ensures forall i :: 0 <= i < |days| ==>
      var merged := g[days[0] := MergeDay(days[0], RawOf(raw, days[0])).value];
      days[i] in merged && merged[days[i]] == MergeDay(days[i], RawOf(raw, days[i])).value
  {
    TailIndices(days);
  }

  /** The whole "sort and merge" step of parseWhen2Meet: every day of the week is
      merged, and the step raises exactly when some day has an odd number of quarter-hours. */
  function MergeWeek(raw: RawWeek): (r: Result<Grid, MergeError>)
    ensures r.Success? <==> forall d: Day :: |RawOf(raw, d)| % 2 == 0
    ensures r.Success? ==> forall d: Day :: d in r.value && |r.value[d]| == |RawOf(raw, d)| / 2
    ensures r.Success? ==> forall d: Day :: r.value[d] == MergeDay(d, RawOf(raw, d)).value
    ensures r.Failure? ==> |RawOf(raw, r.error.day)| % 2 == 1
    ensures r.Failure? ==> exists i :: FirstOddAt(raw, AllDays, i) && r.error == UnpairedQuarterHour(AllDays[i])
  {
    AllDaysListsEveryDayOnce();
    var r := MergeDays(raw, AllDays);
    assert (forall d: Day :: |RawOf(raw, d)| % 2 == 0) <==> (forall i :: 0 <= i < |AllDays| ==> |RawOf(raw, AllDays[i])| % 2 == 0) by {
      if forall i :: 0 <= i < |AllDays| ==> |RawOf(raw, AllDays[i])| % 2 == 0 {
        forall d: Day
          ensures |RawOf(raw, d)| % 2 == 0
        {
          assert d in AllDays;
          var i :| 0 <= i < |AllDays| && AllDays[i] == d;
        }
      }
    }
    assert r.Success? ==> forall d: Day :: d in r.value && r.value[d] == MergeDay(d, RawOf(raw, d)).value by {
      if r.Success? {
        forall d: Day
          ensures d in r.value && r.value[d] == MergeDay(d, RawOf(raw, d)).value
        {
          assert d in AllDays;
          var i :| 0 <= i < |AllDays| && AllDays[i] == d;
        }
      }
    }
    r
  }
}
