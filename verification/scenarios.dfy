/** Worked examples: one Monday with three back-to-back slots everyone answered and a
    fourth only one person answered. */
module Scenarios {
  import opened Wrappers
  import opened Seqs
  import opened TimeGrid
  import opened Reconcile
  import opened Runs

  const Both: set<PersonId> := {"A", "B"}

  /** 9:00, 9:30 and 10:00 for A and B, then 10:30 for A alone. */
  const MorningSlots: seq<Slot> := [Slot(540, Both), Slot(570, Both), Slot(600, Both), Slot(630, {"A"})]

  function MondayMorning(): Grid
  {
    map[Monday := MorningSlots]
  }

  /** 9:00 and 10:00 for A and B, with nothing in between. */
  const GapSlots: seq<Slot> := [Slot(540, Both), Slot(600, Both)]

  function MondayWithGap(): Grid
  {
    map[Monday := GapSlots]
  }

  /** A day with no slots has no runs. */
  lemma EmptyDayHasNoRuns(n: nat)
    requires n >= 1
    ensures RunStarts([], n) == {}
  {
  }

  // The exact-match filter for {A, B} over the Monday slots, one slot at a time from the end.

  lemma LastMorningSlotDropped()
    ensures Filter([MorningSlots[3]], MatchesTarget(Both)) == []
  {
    assert !MatchesTarget(Both)(MorningSlots[3]) by {
      assert "B" !in MorningSlots[3].available;
    }
    FilterCons(MorningSlots[3], [], MatchesTarget(Both));
    assert [MorningSlots[3]] + [] == [MorningSlots[3]];
  }

  lemma ExactFilterFromThird()
    ensures Filter(MorningSlots[2..], MatchesTarget(Both)) == [MorningSlots[2]]
  {
    var s := MorningSlots;
    LastMorningSlotDropped();
    assert s[2..] == [s[2]] + [s[3]];
    FilterCons(s[2], [s[3]], MatchesTarget(Both));
  }

  lemma ExactFilterFromSecond()
    ensures Filter(MorningSlots[1..], MatchesTarget(Both)) == MorningSlots[1..3]
  {
    var s := MorningSlots;
    ExactFilterFromThird();
    assert s[1..] == [s[1]] + s[2..];
    FilterCons(s[1], s[2..], MatchesTarget(Both));
  }

  lemma ExactFilterMondayMorning()
    ensures Filter(MorningSlots, MatchesTarget(Both)) == MorningSlots[..3]
  {
    var s := MorningSlots;
    ExactFilterFromSecond();
    assert s == [s[0]] + s[1..];
    FilterCons(s[0], s[1..], MatchesTarget(Both));
  }

  /** On the Monday slots the superset test and the exact test agree for {A, B}. */
  lemma CoverFilterMondayMorning()
    ensures Filter(MorningSlots, CoversTarget(Both)) == MorningSlots[..3]
  {
    var s := MorningSlots;
    forall i | 0 <= i < |s|
      ensures CoversTarget(Both)(s[i]) == MatchesTarget(Both)(s[i])
    {
      if i == 3 {
        assert "B" !in s[3].available;
      }
    }
    FilterExtensional(s, CoversTarget(Both), MatchesTarget(Both));
    ExactFilterMondayMorning();
  }

  /** Superset viability for {A, B} keeps 9:00, 9:30 and 10:00 on Monday and nothing elsewhere. */
  lemma ViableMondayMorning()
    ensures ViableSlots(MondayMorning(), Some(Both))[Monday] == MorningSlots[..3]
    ensures forall d: Day :: d != Monday ==> ViableSlots(MondayMorning(), Some(Both))[d] == []
  {
    ViableOnMonday();
    forall d: Day | d != Monday
      ensures ViableSlots(MondayMorning(), Some(Both))[d] == []
    {
      assert SlotsOf(MondayMorning(), d) == [];
    }
  }

  lemma ViableOnMonday()
    ensures ViableSlots(MondayMorning(), Some(Both))[Monday] == MorningSlots[..3]
  {
    assert SlotsOf(MondayMorning(), Monday) == MorningSlots;
    CoverFilterMondayMorning();
  }

  /** Exact-match viability for {A, B} keeps 9:00, 9:30 and 10:00 on Monday and nothing elsewhere. */
  lemma ExactViableMondayMorning()
    ensures ViableSlotsExact(MondayMorning(), Some(Both))[Monday] == MorningSlots[..3]
    ensures forall d: Day :: d != Monday ==> ViableSlotsExact(MondayMorning(), Some(Both))[d] == []
  {
    ExactFilterMondayMorning();
    forall d: Day | d != Monday
      ensures ViableSlotsExact(MondayMorning(), Some(Both))[d] == []
    {
      assert SlotsOf(MondayMorning(), d) == [];
    }
  }

  /** Three back-to-back slots hold two one-hour windows. */
  lemma ThreeBackToBackSlotsHoldTwoPairs()
    ensures RunStarts(MorningSlots[..3], 2) == {0, 1}
    ensures |RunStarts(MorningSlots[..3], 2)| == 2
  {
    var day := MorningSlots[..3];
    forall i: nat
      ensures i in RunStarts(day, 2) <==> i == 0 || i == 1
    {
      if i + 2 <= 3 {
        assert IsRun(day, i, 2) <==> BackToBack(day, i + 1);
      }
    }
  }

  /** A sum over distinct days where only `d` contributes is `f(d)` if `d` is among them. */
  lemma {:induction false} SumOverOneDay(days: seq<Day>, f: Day -> nat, d: Day)
    requires forall i, j :: 0 <= i < j < |days| ==> days[i] != days[j]
    requires forall e: Day :: e != d ==> f(e) == 0
    ensures SumOverDays(days, f) == if d in days then f(d) else 0
  {
    if |days| > 0 {
      var init := days[..|days| - 1];
      SumOverOneDay(init, f, d);
      assert d in days <==> d in init || d == days[|days| - 1];
      if d == days[|days| - 1] {
        assert d !in init;
      }
    }
  }

  /** Only Monday counts towards the total. */
  lemma TotalIsMondayOnly(v: Grid, n: nat)
    requires n >= 1
    requires forall d: Day :: d != Monday ==> SlotsOf(v, d) == []
    ensures TotalRuns(v, n) == |RunStarts(SlotsOf(v, Monday), n)|
  {
    forall d: Day | d != Monday
      ensures DayRuns(v, n)(d) == 0
    {
      EmptyDayHasNoRuns(n);
    }
    AllDaysListsEveryDayOnce();
    SumOverOneDay(AllDays, DayRuns(v, n), Monday);
  }

  /** The end-to-end example for the older script's exact test: for {A, B} a one-hour meeting
      has two start times, 9:00 and 9:30. */
  lemma ThreeBackToBackSlotsGiveTwoHourLongStartsExact()
    ensures TotalRuns(ViableSlotsExact(MondayMorning(), Some(Both)), 2) == 2
  {
    var v := ViableSlotsExact(MondayMorning(), Some(Both));
    ExactViableMondayMorning();
    ThreeBackToBackSlotsHoldTwoPairs();
    TotalIsMondayOnly(v, 2);
  }

  /** The end-to-end example for the current script: the window count over the superset test
      gives a one-hour meeting for {A, B} two start times, 9:00 and 9:30. */
  lemma ThreeBackToBackSlotsGiveTwoHourLongStarts()
    ensures TotalRuns(ViableSlots(MondayMorning(), Some(Both)), HalfHoursIn(60)) == 2
  {
    var v := ViableSlots(MondayMorning(), Some(Both));
    HalfHoursOfMultiple(2);
    ViableMondayMorning();
    ThreeBackToBackSlotsHoldTwoPairs();
    TotalIsMondayOnly(v, 2);
  }

  /** The older script's pair count gives the same two start times. */
  lemma LegacyCountOfTheExample()
    ensures NumViableMeetingTimesLegacy(MondayMorning(), 60, Some(Both)) == 2
  {
    ThreeBackToBackSlotsGiveTwoHourLongStartsExact();
  }

  lemma CoverFilterLastGapSlot()
    ensures Filter([GapSlots[1]], CoversTarget(Both)) == [GapSlots[1]]
  {
    FilterCons(GapSlots[1], [], CoversTarget(Both));
    assert [GapSlots[1]] + [] == [GapSlots[1]];
  }

  /** The superset filter for {A, B} keeps both slots of the day with a gap. */
  lemma CoverFilterMondayWithGap()
    ensures Filter(GapSlots, CoversTarget(Both)) == GapSlots
  {
    CoverFilterLastGapSlot();
    FilterCons(GapSlots[0], [GapSlots[1]], CoversTarget(Both));
    assert GapSlots == [GapSlots[0]] + [GapSlots[1]];
  }

  /** A half-hour gap breaks contiguity: no one-hour meeting fits. */
  lemma GapGivesNoHourLongStart()
    ensures TotalRuns(ViableSlots(MondayWithGap(), Some(Both)), 2) == 0
  {
    var g := MondayWithGap();
    var v := ViableSlots(g, Some(Both));
    var day := g[Monday];
    CoverFilterMondayWithGap();
    forall d: Day | d != Monday
      ensures SlotsOf(v, d) == []
    {
      assert SlotsOf(g, d) == [];
    }
    assert RunStarts(day, 2) == {} by {
      forall i: nat
        ensures i !in RunStarts(day, 2)
      {
        if i == 0 {
          assert !BackToBack(day, 1);
        }
      }
    }
    TotalIsMondayOnly(v, 2);
  }
}
