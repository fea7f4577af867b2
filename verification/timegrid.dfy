/** The week grid the scheduler reasons about: seven days, each an ordered
    sequence of half-hour slots, each slot a clock time and the set of people
    available for the whole half hour. Clock labels such as "09:00 AM" are
    modelled as minutes since midnight. */
module TimeGrid {

  /** Minutes in a day; `strftime("%I:%M %p")` shows only the time of day, so labels wrap at midnight. */
  const MinutesPerDay: nat := 1440

  /** The grid step: the difference every pair of back-to-back slots must have. */
  const HalfHour: nat := 30

  /** A clock label, as minutes since midnight. */
  type Minute = m: nat | m < 1440

  /** A participant identifier: a roster key, or an unresolved-name sentinel. */
  type PersonId = string

  /** The module-level `DAYS` list, Sunday first. */
  datatype Day = Sunday | Monday | Tuesday | Wednesday | Thursday | Friday | Saturday

  const AllDays: seq<Day> := [Sunday, Monday, Tuesday, Wednesday, Thursday, Friday, Saturday]

  /** A merged half-hour slot. */
  datatype Slot = Slot(time: Minute, available: set<PersonId>)

  /** A parsed poll, or a derived view of one, keyed by day. */
  type Grid = map<Day, seq<Slot>>

  /** A day's slots; a day the grid does not mention has none. */
  function SlotsOf(g: Grid, d: Day): seq<Slot>
  {
    if d in g then g[d] else []
  }

  /** The clock labels of a day's slots, in order (the `[slot['time'] for slot in slots]` projection). */
  function Times(slots: seq<Slot>): (r: seq<Minute>)
    ensures |r| == |slots|
    ensures forall i :: 0 <= i < |slots| ==> r[i] == slots[i].time
  {
    if |slots| == 0 then [] else [slots[0].time] + Times(slots[1..])
  }

  /** `DAYS` lists every day exactly once. */
  lemma AllDaysListsEveryDayOnce()
    ensures forall d: Day :: d in AllDays
    ensures |AllDays| == 7
    ensures forall i, j :: 0 <= i < j < |AllDays| ==> AllDays[i] != AllDays[j]
  {
    forall d: Day
      ensures d in AllDays
    {
      match d
      case Sunday => assert AllDays[0] == d;
      case Monday => assert AllDays[1] == d;
      case Tuesday => assert AllDays[2] == d;
      case Wednesday => assert AllDays[3] == d;
      case Thursday => assert AllDays[4] == d;
      case Friday => assert AllDays[5] == d;
      case Saturday => assert AllDays[6] == d;
    }
  }

  /** Python's `int(minutes / 30)`: the quotient truncated toward zero. */
  function HalfHoursIn(minutes: int): (n: int)
    ensures minutes >= 0 ==> 0 <= n && n * 30 <= minutes < n * 30 + 30
    ensures minutes < 0 ==> n <= 0 && n * 30 - 30 < minutes <= n * 30
  {
    if minutes >= 0 then minutes / 30 else -((-minutes) / 30)
  }

  /** A multiple of 30 splits into exactly that many half hours. */
  lemma HalfHoursOfMultiple(k: int)
    ensures HalfHoursIn(30 * k) == k
  {
  }

  /** An availability range `[start, end]`, both ends as clock labels. */
  datatype TimeRange = TimeRange(start: Minute, end: Minute)

  /** The labels `start, start+30, ...` not past `end`: one iteration of the `while t <= rmax` loop of ranges2slots. */
  function ExpandRange(lo: Minute, hi: Minute): (r: seq<Minute>)
    ensures |r| == if lo <= hi then (hi - lo) / 30 + 1 else 0
    ensures forall k :: 0 <= k < |r| ==> r[k] == lo + 30 * k
    decreases hi - lo
  {
    if lo > hi then []
    else if lo + 30 > hi then [lo]
    else
      var rest := ExpandRange(lo + 30, hi);
      var r := [lo] + rest;
      assert forall k :: 1 <= k < |r| ==> r[k] == rest[k - 1];
      r
  }

  /** Every expanded label lies inside its range on the 30-minute lattice from `lo`,
      and every such point of the range is expanded. */
  lemma {:induction false} ExpandRangeMembership(lo: Minute, hi: Minute, t: Minute)
    ensures t in ExpandRange(lo, hi) <==> lo <= t <= hi && (t - lo) % 30 == 0
  {
    var r := ExpandRange(lo, hi);
    if t in r {
      var k :| 0 <= k < |r| && r[k] == t;
      assert t == lo + 30 * k;
      assert k <= (hi - lo) / 30;
    }
    if lo <= t <= hi && (t - lo) % 30 == 0 {
      var k := (t - lo) / 30;
      assert t == lo + 30 * k;
      assert r[k] == t;
    }
  }

  /** Label `t` is one the expansion of range `rg` emits: inside it, on its 30-minute lattice. */
  predicate OnLattice(rg: TimeRange, t: Minute)
  {
    rg.start <= t <= rg.end && (t - rg.start) % 30 == 0
  }

  /** ranges2slots: the labels of every range, range by range, in input order. */
  function RangesToSlots(ranges: seq<TimeRange>): (r: seq<Minute>)
    ensures forall t :: t in r ==> exists k :: 0 <= k < |ranges| && OnLattice(ranges[k], t)
    ensures forall k, t :: 0 <= k < |ranges| && OnLattice(ranges[k], t) ==> t in r
  {
    if |ranges| == 0 then []
    else
      var first := ExpandRange(ranges[0].start, ranges[0].end);
      var rest := RangesToSlots(ranges[1..]);
      ExpandRangeIsLattice(ranges[0]);
      assert forall k :: 1 <= k < |ranges| ==> ranges[k] == ranges[1..][k - 1];
      first + rest
  }

  /** One range's labels are exactly its lattice points. */
  lemma ExpandRangeIsLattice(rg: TimeRange)
    ensures forall t :: t in ExpandRange(rg.start, rg.end) <==> OnLattice(rg, t)
  {
    forall t: Minute
      ensures t in ExpandRange(rg.start, rg.end) <==> OnLattice(rg, t)
    {
      ExpandRangeMembership(rg.start, rg.end, t);
    }
  }

  /** The output is the concatenation of the ranges' expansions in input order:
      appending a range appends its labels. */
  lemma {:induction false} RangesToSlotsAppend(ranges: seq<TimeRange>, last: TimeRange)
    ensures RangesToSlots(ranges + [last]) == RangesToSlots(ranges) + ExpandRange(last.start, last.end)
  {
    if |ranges| == 0 {
      assert ranges + [last] == [last];
      assert [last][1..] == [];
    } else {
      assert (ranges + [last])[1..] == ranges[1..] + [last];
      RangesToSlotsAppend(ranges[1..], last);
    }
  }
}
