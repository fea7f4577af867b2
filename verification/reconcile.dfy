/** The availability reconciler: who has responded at all, which slots a
    target group can all attend (superset test, and the older exact-equality
    test), and the best-attended fallback. */
module Reconcile {
  import opened Wrappers
  import opened Seqs
  import opened TimeGrid

  /** Everyone available in some slot of `slots`. */
  function PeopleIn(slots: seq<Slot>): (r: set<PersonId>)
    ensures forall p :: p in r <==> exists i :: 0 <= i < |slots| && p in slots[i].available
  {
    if |slots| == 0 then {}
    else
      var init := slots[..|slots| - 1];
      var rest := PeopleIn(init);
      assert forall i :: 0 <= i < |init| ==> init[i] == slots[i];
      rest + slots[|slots| - 1].available
  }

  /** Everyone available in some slot of some day of `days`. */
  function PeopleOnDays(g: Grid, days: seq<Day>): (r: set<PersonId>)
    ensures forall p :: p in r <==>
      exists k, i :: 0 <= k < |days| && 0 <= i < |SlotsOf(g, days[k])| && p in SlotsOf(g, days[k])[i].available
  {
    if |days| == 0 then {}
    else
      var init := days[..|days| - 1];
      var rest := PeopleOnDays(g, init);
      assert forall k :: 0 <= k < |init| ==> init[k] == days[k];
      rest + PeopleIn(SlotsOf(g, days[|days| - 1]))
  }

  /** `respondents`: the union of every slot's people over the whole week. */
  function Respondents(g: Grid): (r: set<PersonId>)
    ensures forall p :: p in r <==>
      exists d: Day, i :: 0 <= i < |SlotsOf(g, d)| && p in SlotsOf(g, d)[i].available
  {
    AllDaysListsEveryDayOnce();
    var r := PeopleOnDays(g, AllDays);
    assert forall p :: p in r <==>
      exists d: Day, i :: 0 <= i < |SlotsOf(g, d)| && p in SlotsOf(g, d)[i].available by {
      forall p | exists d: Day, i :: 0 <= i < |SlotsOf(g, d)| && p in SlotsOf(g, d)[i].available
        ensures p in r
      {
        var d: Day, i :| 0 <= i < |SlotsOf(g, d)| && p in SlotsOf(g, d)[i].available;
        assert d in AllDays;
        var k :| 0 <= k < |AllDays| && AllDays[k] == d;
      }
    }
    r
  }

  /** The `respondents` loop as written: accumulates a set slot by slot, then lists it. */
  method RespondentList(g: Grid) returns (r: seq<PersonId>)
    ensures forall p :: p in r <==>
      exists d: Day, i :: 0 <= i < |SlotsOf(g, d)| && p in SlotsOf(g, d)[i].available
    ensures forall i, j :: 0 <= i < j < |r| ==> r[i] != r[j]
  {
    var res: set<PersonId> := {};
    var k := 0;
    while k < |AllDays|
      invariant 0 <= k <= |AllDays|
      invariant res == PeopleOnDays(g, AllDays[..k])
    {
      res := AddPeopleOfDay(res, SlotsOf(g, AllDays[k]));
      PeopleOnOneMoreDay(g, AllDays, k);
      k := k + 1;
    }
    assert AllDays[..k] == AllDays;
    assert res == Respondents(g);
    r := ListOf(res);
  }

  /** Taking one more day of `days` adds that day's people. */
  lemma PeopleOnOneMoreDay(g: Grid, days: seq<Day>, k: nat)
    requires k < |days|
    ensures PeopleOnDays(g, days[..k + 1]) == PeopleOnDays(g, days[..k]) + PeopleIn(SlotsOf(g, days[k]))
  {
    assert days[..k + 1][..k] == days[..k];
  }

  /** The inner loop over one day's slots: adds everyone available in some slot. */
  method AddPeopleOfDay(acc: set<PersonId>, slots: seq<Slot>) returns (res: set<PersonId>)
    ensures res == acc + PeopleIn(slots)
  {
    res := acc;
    var i := 0;
    while i < |slots|
      invariant 0 <= i <= |slots|
      invariant res == acc + PeopleIn(slots[..i])
    {
      assert slots[..i + 1][..i] == slots[..i];
      res := res + slots[i].available;
      i := i + 1;
    }
    assert slots[..i] == slots;
  }

  /** `list(s)`: the elements of a set, each once, in some order. */
  method ListOf(s: set<PersonId>) returns (r: seq<PersonId>)
    ensures forall p :: p in r <==> p in s
    ensures forall i, j :: 0 <= i < j < |r| ==> r[i] != r[j]
  {
    r := [];
    var rest := s;
    while rest != {}
      invariant rest <= s
      invariant forall p :: p in r <==> p in s && p !in rest
      invariant forall i, j :: 0 <= i < j < |r| ==> r[i] != r[j]
      decreases |rest|
    {
      var p :| p in rest;
      r := r + [p];
      rest := rest - {p};
    }
  }

  /** Reordering the slots within days does not change who has responded. */
  lemma RespondentsIgnoreSlotOrder(g: Grid, h: Grid)
    requires forall d: Day :: multiset(SlotsOf(g, d)) == multiset(SlotsOf(h, d))
    ensures Respondents(g) == Respondents(h)
  {
    forall p | p in Respondents(g)
      ensures p in Respondents(h)
    {
      RespondentSurvivesReordering(g, h, p);
    }
    forall p | p in Respondents(h)
      ensures p in Respondents(g)
    {
      RespondentSurvivesReordering(h, g, p);
    }
  }

  lemma RespondentSurvivesReordering(g: Grid, h: Grid, p: PersonId)
    requires forall d: Day :: multiset(SlotsOf(g, d)) == multiset(SlotsOf(h, d))
    requires p in Respondents(g)
    ensures p in Respondents(h)
  {
    var d: Day, i :| 0 <= i < |SlotsOf(g, d)| && p in SlotsOf(g, d)[i].available;
    var slot := SlotsOf(g, d)[i];
    assert slot in multiset(SlotsOf(g, d));
    assert slot in SlotsOf(h, d);
    var j :| 0 <= j < |SlotsOf(h, d)| && SlotsOf(h, d)[j] == slot;
    assert p in SlotsOf(h, d)[j].available;
  }

  /** The comparison group: the given one, or everyone who responded when none is given. */
  function TargetOf(g: Grid, target: Option<set<PersonId>>): set<PersonId>
  {
    match target
    case Some(t) => t
    case None => Respondents(g)
  }

  /** The superset test: everyone in `t` is available in the slot. */
  function CoversTarget(t: set<PersonId>): Slot -> bool
  {
    (s: Slot) => t <= s.available
  }

  /** The exact test: the slot's available set is `t` itself. */
  function MatchesTarget(t: set<PersonId>): Slot -> bool
  {
    (s: Slot) => s.available == t
  }

  /** One day of `viableSlots` of the current script: in order, the slots where the whole
      target is available; an empty target keeps nothing. */
  function ViableDay(slots: seq<Slot>, t: set<PersonId>): (r: seq<Slot>)
    ensures IsSubsequence(r, slots)
    ensures forall i :: 0 <= i < |r| ==> t <= r[i].available
    ensures forall x: Slot :: multiset(r)[x] == (if t != {} && t <= x.available then multiset(slots)[x] else 0)
    ensures t == {} ==> r == []
  {
    if t == {} then [] else Filter(slots, CoversTarget(t))
  }

  /** One day of `viableSlots` of the older script: in order, the slots whose available set
      is exactly the target; an empty target keeps nothing. */
  function ViableDayExact(slots: seq<Slot>, t: set<PersonId>): (r: seq<Slot>)
    ensures IsSubsequence(r, slots)
    ensures forall i :: 0 <= i < |r| ==> r[i].available == t
    ensures forall x: Slot :: multiset(r)[x] == (if t != {} && x.available == t then multiset(slots)[x] else 0)
    ensures t == {} ==> r == []
  {
    if t == {} then [] else Filter(slots, MatchesTarget(t))
  }

  /** `viableSlots` of the current script, day by day over the week. */
  function ViableSlots(g: Grid, target: Option<set<PersonId>>): (r: Grid)
    ensures forall d: Day :: d in r && IsSubsequence(r[d], SlotsOf(g, d))
    ensures forall d: Day, i :: 0 <= i < |r[d]| ==> TargetOf(g, target) <= r[d][i].available
    ensures forall d: Day, x: Slot ::
      multiset(r[d])[x] == (if TargetOf(g, target) != {} && TargetOf(g, target) <= x.available then multiset(SlotsOf(g, d))[x] else 0)
    ensures TargetOf(g, target) == {} ==> forall d: Day :: r[d] == []
  {
    AllDaysListsEveryDayOnce();
    var t := TargetOf(g, target);
    map d | d in AllDays :: ViableDay(SlotsOf(g, d), t)
  }

  /** `viableSlots` of the older script, day by day over the week. */
  function ViableSlotsExact(g: Grid, target: Option<set<PersonId>>): (r: Grid)
    ensures forall d: Day :: d in r && IsSubsequence(r[d], SlotsOf(g, d))
    ensures forall d: Day, i :: 0 <= i < |r[d]| ==> r[d][i].available == TargetOf(g, target)
    ensures forall d: Day, x: Slot ::
      multiset(r[d])[x] == (if TargetOf(g, target) != {} && x.available == TargetOf(g, target) then multiset(SlotsOf(g, d))[x] else 0)
    ensures TargetOf(g, target) == {} ==> forall d: Day :: r[d] == []
  {
    AllDaysListsEveryDayOnce();
    var t := TargetOf(g, target);
    map d | d in AllDays :: ViableDayExact(SlotsOf(g, d), t)
  }

  /** For the same grid and target, each day the older exact test keeps is an
      order-preserving part of what the superset test keeps. */
  lemma ExactViableWithinSuperset(g: Grid, target: Option<set<PersonId>>)
    ensures forall d: Day :: IsSubsequence(ViableSlotsExact(g, target)[d], ViableSlots(g, target)[d])
  {
    var t := TargetOf(g, target);
    forall d: Day
      ensures IsSubsequence(ViableSlotsExact(g, target)[d], ViableSlots(g, target)[d])
    {
      if t != {} {
        FilterMonotone(SlotsOf(g, d), MatchesTarget(t), CoversTarget(t));
      }
    }
  }

  /** Shrinking a nonempty target can only keep or add superset-viable slots,
      so the exact-viable slots for the larger target stay viable for the smaller one. */
  lemma ShrinkingTargetKeepsViable(g: Grid, big: set<PersonId>, small: set<PersonId>)
    requires small <= big && small != {}
    ensures forall d: Day :: IsSubsequence(ViableSlots(g, Some(big))[d], ViableSlots(g, Some(small))[d])
    ensures forall d: Day :: IsSubsequence(ViableSlotsExact(g, Some(big))[d], ViableSlots(g, Some(small))[d])
  {
    forall d: Day
      ensures IsSubsequence(ViableSlots(g, Some(big))[d], ViableSlots(g, Some(small))[d])
      ensures IsSubsequence(ViableSlotsExact(g, Some(big))[d], ViableSlots(g, Some(small))[d])
    {
      FilterMonotone(SlotsOf(g, d), CoversTarget(big), CoversTarget(small));
      FilterMonotone(SlotsOf(g, d), MatchesTarget(big), CoversTarget(small));
    }
  }

  /** How many of the target a slot can host: `len(set(available) & target)`. */
  function Score(s: Slot, t: set<PersonId>): nat
  {
    |s.available * t|
  }

  /** The best score among `slots`, starting from 0 as the loop does. */
  function MaxScoreIn(slots: seq<Slot>, t: set<PersonId>): (m: nat)
    ensures forall i :: 0 <= i < |slots| ==> Score(slots[i], t) <= m
    ensures m == 0 || exists i :: 0 <= i < |slots| && Score(slots[i], t) == m
  {
    if |slots| == 0 then 0
    else
      var rest := MaxScoreIn(slots[1..], t);
      assert forall i :: 1 <= i < |slots| ==> slots[i] == slots[1..][i - 1];
      if Score(slots[0], t) >= rest then Score(slots[0], t) else rest
  }

  /** The best score over the days listed. */
  function MaxScoreOnDays(g: Grid, t: set<PersonId>, days: seq<Day>): (m: nat)
    ensures forall k, i :: 0 <= k < |days| && 0 <= i < |SlotsOf(g, days[k])| ==> Score(SlotsOf(g, days[k])[i], t) <= m
    ensures m == 0 || exists k, i :: 0 <= k < |days| && 0 <= i < |SlotsOf(g, days[k])| && Score(SlotsOf(g, days[k])[i], t) == m
  {
    if |days| == 0 then 0
    else
      var here := MaxScoreIn(SlotsOf(g, days[0]), t);
      var rest := MaxScoreOnDays(g, t, days[1..]);
      assert forall k :: 1 <= k < |days| ==> days[k] == days[1..][k - 1];
      if here >= rest then here else rest
  }

  /** `biggestSlotN`: the largest number of target members any slot of the week can host (0 for an empty week). */
  function MaxScore(g: Grid, t: set<PersonId>): (m: nat)
    ensures forall d: Day, i :: 0 <= i < |SlotsOf(g, d)| ==> Score(SlotsOf(g, d)[i], t) <= m
    ensures m == 0 || exists d: Day, i :: 0 <= i < |SlotsOf(g, d)| && Score(SlotsOf(g, d)[i], t) == m
  {
    AllDaysListsEveryDayOnce();
    var m := MaxScoreOnDays(g, t, AllDays);
    assert forall d: Day, i :: 0 <= i < |SlotsOf(g, d)| ==> Score(SlotsOf(g, d)[i], t) <= m by {
      forall d: Day, i | 0 <= i < |SlotsOf(g, d)|
        ensures Score(SlotsOf(g, d)[i], t) <= m
      {
        assert d in AllDays;
        var k :| 0 <= k < |AllDays| && AllDays[k] == d;
      }
    }
    m
  }

  /** No slot of the week hosts more of the target than `x` does. */
  ghost predicate IsBestSlot(g: Grid, t: set<PersonId>, x: Slot)
  {
    forall d: Day, i :: 0 <= i < |SlotsOf(g, d)| ==> Score(SlotsOf(g, d)[i], t) <= Score(x, t)
  }

  /** The filter test of `slotsWithMostAvailable`: the slot scores exactly `m`, which is the week's best score where the test is used. */
  function ScoresExactly(t: set<PersonId>, m: nat): Slot -> bool
  {
    (s: Slot) => Score(s, t) == m
  }

  /** `slotsWithMostAvailable`: per day, in order, the slots whose score is the week's best. */
  function SlotsWithMostAvailable(g: Grid, target: Option<set<PersonId>>): (r: Grid)
    ensures forall d: Day :: d in r && IsSubsequence(r[d], SlotsOf(g, d))
    ensures forall d: Day, x: Slot ::
      multiset(r[d])[x] == (if Score(x, TargetOf(g, target)) == MaxScore(g, TargetOf(g, target)) then multiset(SlotsOf(g, d))[x] else 0)
  {
    AllDaysListsEveryDayOnce();
    var t := TargetOf(g, target);
    map d | d in AllDays :: Filter(SlotsOf(g, d), ScoresExactly(t, MaxScore(g, t)))
  }

  /** Every returned slot hosts as many of the target as any slot of the week. */
  lemma BestSlotsScoreTheMaximum(g: Grid, target: Option<set<PersonId>>)
    ensures forall d: Day, i :: 0 <= i < |SlotsWithMostAvailable(g, target)[d]| ==>
      IsBestSlot(g, TargetOf(g, target), SlotsWithMostAvailable(g, target)[d][i])
  {
    var t := TargetOf(g, target);
    var r := SlotsWithMostAvailable(g, target);
    forall d: Day, i | 0 <= i < |r[d]|
      ensures IsBestSlot(g, t, r[d][i])
    {
      assert r[d][i] in multiset(r[d]);
      assert Score(r[d][i], t) == MaxScore(g, t);
    }
  }

  /** Every slot of the week that no other slot beats is returned, as often as it occurs. */
  lemma EveryBestSlotIsReturned(g: Grid, target: Option<set<PersonId>>, d: Day, i: nat)
    requires i < |SlotsOf(g, d)| && IsBestSlot(g, TargetOf(g, target), SlotsOf(g, d)[i])
    ensures multiset(SlotsWithMostAvailable(g, target)[d])[SlotsOf(g, d)[i]] == multiset(SlotsOf(g, d))[SlotsOf(g, d)[i]] > 0
  {
    var t := TargetOf(g, target);
    var m := MaxScore(g, t);
    var x := SlotsOf(g, d)[i];
    if m != 0 {
      var d', j :| 0 <= j < |SlotsOf(g, d')| && Score(SlotsOf(g, d')[j], t) == m;
    }
    assert Score(x, t) == m;
    assert x in multiset(SlotsOf(g, d));
  }

  /** A week with at least one slot always yields at least one best slot. */
  lemma BestSlotsNonEmpty(g: Grid, target: Option<set<PersonId>>, d: Day)
    requires |SlotsOf(g, d)| > 0
    ensures exists d': Day :: |SlotsWithMostAvailable(g, target)[d']| > 0
  {
    var t := TargetOf(g, target);
    var m := MaxScore(g, t);
    if m == 0 {
      assert Score(SlotsOf(g, d)[0], t) == 0;
      TopSlotIsKept(g, target, d, 0);
    } else {
      var d', j :| 0 <= j < |SlotsOf(g, d')| && Score(SlotsOf(g, d')[j], t) == m;
      TopSlotIsKept(g, target, d', j);
    }
  }

  /** A slot with the maximum score is among the best slots of its day. */
  lemma TopSlotIsKept(g: Grid, target: Option<set<PersonId>>, d: Day, j: nat)
    requires j < |SlotsOf(g, d)| && Score(SlotsOf(g, d)[j], TargetOf(g, target)) == MaxScore(g, TargetOf(g, target))
    ensures |SlotsWithMostAvailable(g, target)[d]| > 0
  {
    var x := SlotsOf(g, d)[j];
    assert x in multiset(SlotsOf(g, d));
    assert x in multiset(SlotsWithMostAvailable(g, target)[d]);
  }

  /** A slot hosts the whole target exactly when its score is the target's size. */
  lemma FullScoreIffCovers(s: Slot, t: set<PersonId>)
    ensures Score(s, t) <= |t|
    ensures Score(s, t) == |t| <==> t <= s.available
  {
    SubsetCardinality(s.available * t, t);
    if t <= s.available {
      assert s.available * t == t;
    }
  }

  /** If some slot hosts the whole target, the week's best score is the target's size. */
  lemma MaxScoreIsTargetSize(g: Grid, t: set<PersonId>, d: Day, i: nat)
    requires i < |SlotsOf(g, d)| && t <= SlotsOf(g, d)[i].available
    ensures MaxScore(g, t) == |t|
  {
    FullScoreIffCovers(SlotsOf(g, d)[i], t);
    var m := MaxScore(g, t);
    if m != |t| {
      var d', j :| 0 <= j < |SlotsOf(g, d')| && Score(SlotsOf(g, d')[j], t) == m;
      FullScoreIffCovers(SlotsOf(g, d')[j], t);
    }
  }

  /** On one day, keeping the full-score slots is keeping the slots that host the whole target. */
  lemma FullScoreFilterIsCoverFilter(slots: seq<Slot>, t: set<PersonId>)
    ensures Filter(slots, ScoresExactly(t, |t|)) == Filter(slots, CoversTarget(t))
  {
    forall k | 0 <= k < |slots|
      ensures ScoresExactly(t, |t|)(slots[k]) == CoversTarget(t)(slots[k])
    {
      FullScoreIffCovers(slots[k], t);
    }
    FilterExtensional(slots, ScoresExactly(t, |t|), CoversTarget(t));
  }

  /** A nonempty viable day points at a slot of the grid that hosts the whole, nonempty target. */
  lemma ViableDayHasCoveringSlot(g: Grid, t: set<PersonId>, d: Day)
    requires |ViableSlots(g, Some(t))[d]| > 0
    ensures t != {}
    ensures exists i :: 0 <= i < |SlotsOf(g, d)| && t <= SlotsOf(g, d)[i].available
  {
    var viable := ViableSlots(g, Some(t));
    var x := viable[d][0];
    assert x in multiset(viable[d]);
    assert x in multiset(SlotsOf(g, d));
  }

  /** Once any slot is viable for a nonempty target, the best-attended slots are
      exactly the viable ones: the fallback cannot displace a viable answer. */
  lemma BestSlotsAreViableSlotsWhenAnyIs(g: Grid, t: set<PersonId>, d: Day)
    requires |ViableSlots(g, Some(t))[d]| > 0
    ensures forall e: Day :: SlotsWithMostAvailable(g, Some(t))[e] == ViableSlots(g, Some(t))[e]
  {
    ViableDayHasCoveringSlot(g, t, d);
    var i :| 0 <= i < |SlotsOf(g, d)| && t <= SlotsOf(g, d)[i].available;
    MaxScoreIsTargetSize(g, t, d, i);
    forall e: Day
      ensures SlotsWithMostAvailable(g, Some(t))[e] == ViableSlots(g, Some(t))[e]
    {
      BestDayEqualsViableDay(g, t, e);
    }
  }

  /** When the best score is the whole target, each day's best slots are its viable slots. */
  lemma BestDayEqualsViableDay(g: Grid, t: set<PersonId>, e: Day)
    requires t != {} && MaxScore(g, t) == |t|
    ensures SlotsWithMostAvailable(g, Some(t))[e] == ViableSlots(g, Some(t))[e]
  {
    BestDayIsFullScoreFilter(g, t, e);
    ViableDayIsCoverFilter(g, t, e);
    FullScoreFilterIsCoverFilter(SlotsOf(g, e), t);
  }

  lemma BestDayIsFullScoreFilter(g: Grid, t: set<PersonId>, e: Day)
    requires MaxScore(g, t) == |t|
    ensures SlotsWithMostAvailable(g, Some(t))[e] == Filter(SlotsOf(g, e), ScoresExactly(t, |t|))
  {
    AllDaysListsEveryDayOnce();
    assert e in AllDays;
  }

  lemma ViableDayIsCoverFilter(g: Grid, t: set<PersonId>, e: Day)
    requires t != {}
    ensures ViableSlots(g, Some(t))[e] == Filter(SlotsOf(g, e), CoversTarget(t))
  {
    AllDaysListsEveryDayOnce();
    assert e in AllDays;
  }
}
