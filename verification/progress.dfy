/** What the periodic check records per meeting, when the check loop stops,
    and which slots are handed over as a meeting's final availability. */
module Progress {
  import opened Wrappers
  import opened Seqs
  import opened TimeGrid
  import opened Reconcile
  import opened Runs
  import opened InputFile

  /** One meeting's entry in the progress file. */
  datatype ProgressRecord = ProgressRecord(
    name: string,
    hasResponded: set<PersonId>,
    hasNotResponded: set<PersonId>,
    numViableMeetingTimesSoFar: nat)

  /** Splits a meeting's participants into those who responded and those who did not: the
      only partition of the participants whose first side is all respondents and whose second
      side holds none. */
  function SplitByResponse(respondents: set<PersonId>, participants: set<PersonId>): (r: (set<PersonId>, set<PersonId>))
    ensures r.0 <= respondents && r.1 !! respondents
    ensures r.0 !! r.1 && r.0 + r.1 == participants
  {
    var responded := respondents * participants;
    (responded, participants - responded)
  }

  /** checkProgress of the current script for one meeting and its parsed poll: the responded
      split, then the window count of the slots all responders can attend. */
  method CheckProgress(m: Meeting, g: Grid) returns (r: Result<ProgressRecord, CountError>)
    ensures r.Failure? <==> HalfHoursIn(m.length) <= 0
    ensures r.Success? ==> r.value.name == m.name
    ensures r.Success? ==> forall p :: p in r.value.hasResponded <==> p in m.participants && p in Respondents(g)
    ensures r.Success? ==> forall p :: p in r.value.hasNotResponded <==> p in m.participants && p !in Respondents(g)
    ensures r.Success? ==>
      r.value.numViableMeetingTimesSoFar == TotalRuns(ViableSlots(g, Some(r.value.hasResponded)), HalfHoursIn(m.length))
  {
    var (responded, notResponded) := SplitByResponse(Respondents(g), Elems(m.participants));
    var count := NumViableMeetingTimes(g, m.length, Some(responded));
    match count
    case Failure(e) => return Failure(e);
    case Success(n) => return Success(ProgressRecord(m.name, responded, notResponded, n));
  }

  /** For a meeting that passed the corrected validation the check never raises. */
  method CheckValidatedMeeting(e: MeetingEntry, index: nat, locs: Locations, g: Grid) returns (r: Option<ProgressRecord>)
    ensures ValidateMeeting(e, index, locs).Success? <==> r.Some?
    ensures r.Some? ==> r.value.hasResponded + r.value.hasNotResponded == Elems(ValidateMeeting(e, index, locs).value.participants)
  {
    var v := ValidateMeeting(e, index, locs);
    if v.Failure? {
      return None;
    }
    var m := v.value;
    ValidatedMeetingSpansAHalfHour(e, index, locs);
    var rec := CheckProgress(m, g);
    RecordCoversParticipants(rec.value, m, g);
    return Some(rec.value);
  }

  /** A record whose two sides are characterised as the split's covers exactly the participants. */
  lemma RecordCoversParticipants(rec: ProgressRecord, m: Meeting, g: Grid)
    requires forall p :: p in rec.hasResponded <==> p in m.participants && p in Respondents(g)
    requires forall p :: p in rec.hasNotResponded <==> p in m.participants && p !in Respondents(g)
    ensures rec.hasResponded + rec.hasNotResponded == Elems(m.participants)
  {
    assert forall p :: p in rec.hasResponded + rec.hasNotResponded <==> p in Elems(m.participants);
  }

  /** checkProgress of the older script for one meeting: the same split, and the older count. */
  function CheckProgressLegacy(m: Meeting, g: Grid): (r: ProgressRecord)
    ensures r.name == m.name
    ensures r.hasResponded !! r.hasNotResponded
    ensures r.hasResponded + r.hasNotResponded == Elems(m.participants)
    ensures forall p :: p in r.hasResponded <==> p in m.participants && p in Respondents(g)
    ensures forall p :: p in r.hasNotResponded <==> p in m.participants && p !in Respondents(g)
    ensures m.length == 30 ==> r.numViableMeetingTimesSoFar == TotalRuns(ViableSlotsExact(g, Some(r.hasResponded)), 1)
    ensures m.length != 30 ==> r.numViableMeetingTimesSoFar == TotalRuns(ViableSlotsExact(g, Some(r.hasResponded)), 2)
  {
    var (responded, notResponded) := SplitByResponse(Respondents(g), Elems(m.participants));
    ProgressRecord(m.name, responded, notResponded, NumViableMeetingTimesLegacy(g, m.length, Some(responded)))
  }

  /** The stop test of the check job: every meeting's not-responded list is empty
      (`all([...])`, true for no meetings). */
  predicate ShouldStop(records: seq<ProgressRecord>)
  {
    forall i :: 0 <= i < |records| ==> |records[i].hasNotResponded| == 0
  }

  /** One check of every meeting against its own poll. */
  function CheckAllLegacy(polls: seq<(Meeting, Grid)>): (r: seq<ProgressRecord>)
    ensures |r| == |polls|
    ensures forall i :: 0 <= i < |polls| ==> r[i] == CheckProgressLegacy(polls[i].0, polls[i].1)
  {
    seq(|polls|, i requires 0 <= i < |polls| => CheckProgressLegacy(polls[i].0, polls[i].1))
  }

  /** One meeting's not-responded list is empty exactly when all its participants are in the poll. */
  lemma NoneMissingIffAllResponded(m: Meeting, g: Grid)
    ensures |CheckProgressLegacy(m, g).hasNotResponded| == 0 <==> forall p :: p in m.participants ==> p in Respondents(g)
  {
    var missing := CheckProgressLegacy(m, g).hasNotResponded;
    if forall p :: p in m.participants ==> p in Respondents(g) {
      assert missing == {};
    } else {
      var p :| p in m.participants && p !in Respondents(g);
      assert p in missing;
    }
  }

  /** The check loop ends exactly when every participant of every meeting appears in that
      meeting's poll. */
  lemma StopIffEveryoneResponded(polls: seq<(Meeting, Grid)>)
    ensures ShouldStop(CheckAllLegacy(polls)) <==>
      forall i, p :: 0 <= i < |polls| && p in polls[i].0.participants ==> p in Respondents(polls[i].1)
  {
    forall i | 0 <= i < |polls| {
      NoneMissingIffAllResponded(polls[i].0, polls[i].1);
    }
  }

  /** Whichever script produced them, records whose not-responded sets are what the split
      computes stop the loop exactly when every participant of every meeting appears in that
      meeting's poll; the current script's `CheckProgress` promises exactly this of its records. */
  lemma StopIffEveryoneRespondedIn(polls: seq<(Meeting, Grid)>, records: seq<ProgressRecord>)
    requires |records| == |polls|
    requires forall i :: 0 <= i < |polls| ==>
      forall p :: p in records[i].hasNotResponded <==> p in polls[i].0.participants && p !in Respondents(polls[i].1)
    ensures ShouldStop(records) <==>
      forall i, p :: 0 <= i < |polls| && p in polls[i].0.participants ==> p in Respondents(polls[i].1)
  {
    if !ShouldStop(records) {
      var i :| 0 <= i < |records| && records[i].hasNotResponded != {};
      var p :| p in records[i].hasNotResponded;
      assert p in polls[i].0.participants && p !in Respondents(polls[i].1);
    }
  }

  /** The per-day clock labels of a grid, for all seven days. */
  function LabelsOf(v: Grid): (r: map<Day, seq<Minute>>)
    ensures forall d: Day :: d in r && |r[d]| == |SlotsOf(v, d)|
    ensures forall d: Day, i :: 0 <= i < |SlotsOf(v, d)| ==> r[d][i] == SlotsOf(v, d)[i].time
  {
    AllDaysListsEveryDayOnce();
    map d | d in AllDays :: Times(SlotsOf(v, d))
  }

  /** Grids that agree on every day have the same labels. */
  lemma SameDaysSameLabels(v: Grid, w: Grid)
    requires forall d: Day :: SlotsOf(v, d) == SlotsOf(w, d)
    ensures forall d: Day :: LabelsOf(v)[d] == LabelsOf(w)[d]
  {
    forall d: Day
      ensures LabelsOf(v)[d] == LabelsOf(w)[d]
    {
      assert |LabelsOf(v)[d]| == |LabelsOf(w)[d]|;
    }
  }

  /** With some slot viable, the best-attended labels are the viable labels on every day. */
  lemma BestLabelsAreViableLabelsWhenAnyIs(g: Grid, responded: set<PersonId>)
    ensures (exists d: Day :: |ViableSlots(g, Some(responded))[d]| > 0) ==>
      forall d: Day :: LabelsOf(SlotsWithMostAvailable(g, Some(responded)))[d] == LabelsOf(ViableSlots(g, Some(responded)))[d]
  {
    var viable := ViableSlots(g, Some(responded));
    var best := SlotsWithMostAvailable(g, Some(responded));
    if exists d: Day :: |viable[d]| > 0 {
      var d :| |viable[d]| > 0;
      BestSlotsAreViableSlotsWhenAnyIs(g, responded, d);
      assert forall e: Day :: SlotsOf(best, e) == SlotsOf(viable, e);
      SameDaysSameLabels(best, viable);
    }
  }

  /** The labels handed over for one meeting by saveFinalAvailability. The guard at the fallback
      takes the length of `(day, slots)` pairs, which is always 2, so the flag alone decides. */
  function FinalAvailability(g: Grid, responded: set<PersonId>, useBestSlotsIfNoneViable: bool): (r: map<Day, seq<Minute>>)
    ensures forall d: Day :: d in r && IsSubsequence(r[d], Times(SlotsOf(g, d)))
    ensures !useBestSlotsIfNoneViable ==> forall d: Day :: r[d] == LabelsOf(ViableSlots(g, Some(responded)))[d]
    ensures (exists d: Day :: |ViableSlots(g, Some(responded))[d]| > 0) ==>
      forall d: Day :: r[d] == LabelsOf(ViableSlots(g, Some(responded)))[d]
    ensures useBestSlotsIfNoneViable && (forall d: Day :: ViableSlots(g, Some(responded))[d] == []) ==>
      forall d: Day :: r[d] == LabelsOf(SlotsWithMostAvailable(g, Some(responded)))[d]
  {
    var viable := ViableSlots(g, Some(responded));
    var best := SlotsWithMostAvailable(g, Some(responded));
    BestLabelsAreViableLabelsWhenAnyIs(g, responded);
    var chosen := if useBestSlotsIfNoneViable then best else viable;
    PollOrderKept(g, chosen);
    LabelsOf(chosen)
  }

  /** The selection the flag's name describes: the best-attended slots only when no slot is viable. */
  function FinalAvailabilityIntended(g: Grid, responded: set<PersonId>, useBestSlotsIfNoneViable: bool): (r: map<Day, seq<Minute>>)
    ensures forall d: Day :: d in r && IsSubsequence(r[d], Times(SlotsOf(g, d)))
    ensures (!useBestSlotsIfNoneViable || exists d: Day :: |ViableSlots(g, Some(responded))[d]| > 0) ==>
      forall d: Day :: r[d] == LabelsOf(ViableSlots(g, Some(responded)))[d]
    ensures useBestSlotsIfNoneViable && (forall d: Day :: ViableSlots(g, Some(responded))[d] == []) ==>
      forall d: Day :: r[d] == LabelsOf(SlotsWithMostAvailable(g, Some(responded)))[d]
  {
    var viable := ViableSlots(g, Some(responded));
    var noneViable := forall d: Day :: viable[d] == [];
    var chosen := if useBestSlotsIfNoneViable && noneViable then SlotsWithMostAvailable(g, Some(responded)) else viable;
    PollOrderKept(g, chosen);
    LabelsOf(chosen)
  }

  /** A grid whose every day is an order-preserving part of the poll's day labels its slots in poll order. */
  lemma PollOrderKept(g: Grid, v: Grid)
    requires forall d: Day :: d in v && IsSubsequence(v[d], SlotsOf(g, d))
    ensures forall d: Day :: IsSubsequence(LabelsOf(v)[d], Times(SlotsOf(g, d)))
  {
    forall d: Day
      ensures IsSubsequence(LabelsOf(v)[d], Times(SlotsOf(g, d)))
    {
      TimesKeepsOrder(v[d], SlotsOf(g, d));
      assert LabelsOf(v)[d] == Times(v[d]);
    }
  }

  /** The always-true guard is harmless: the handed-over labels are those the flag's name describes. */
  lemma FallbackGuardIsHarmless(g: Grid, responded: set<PersonId>, useBestSlotsIfNoneViable: bool)
    ensures forall d: Day ::
      FinalAvailability(g, responded, useBestSlotsIfNoneViable)[d] == FinalAvailabilityIntended(g, responded, useBestSlotsIfNoneViable)[d]
  {
  }

  /** Label `t` belongs to a slot of day `d` whose available set is exactly `responded`. */
  ghost predicate ExactSlotAt(g: Grid, d: Day, responded: set<PersonId>, t: Minute)
  {
    exists j :: 0 <= j < |SlotsOf(g, d)| && SlotsOf(g, d)[j].time == t && SlotsOf(g, d)[j].available == responded
  }

  /** Projecting to labels keeps an order-preserving part order-preserving. */
  lemma {:induction false} TimesKeepsOrder(a: seq<Slot>, b: seq<Slot>)
    requires IsSubsequence(a, b)
    ensures IsSubsequence(Times(a), Times(b))
    decreases |b|
  {
    if |a| > 0 {
      assert Times(a)[1..] == Times(a[1..]);
      assert Times(b)[1..] == Times(b[1..]);
      if a[0] == b[0] && IsSubsequence(a[1..], b[1..]) {
        TimesKeepsOrder(a[1..], b[1..]);
      } else {
        TimesKeepsOrder(a, b[1..]);
      }
    }
  }

  /** The older script hands over, in poll order, the labels of exactly the slots whose
      available set is the responded set; nobody responded means no labels. */
  function FinalAvailabilityLegacy(g: Grid, responded: set<PersonId>): (r: map<Day, seq<Minute>>)
    ensures forall d: Day :: d in r
    ensures responded == {} ==> forall d: Day :: r[d] == []
    ensures forall d: Day, i :: 0 <= i < |r[d]| ==> ExactSlotAt(g, d, responded, r[d][i])
    ensures forall d: Day, j :: 0 <= j < |SlotsOf(g, d)| && responded != {} && SlotsOf(g, d)[j].available == responded ==>
      SlotsOf(g, d)[j].time in r[d]
    ensures forall d: Day :: IsSubsequence(r[d], Times(SlotsOf(g, d)))
    ensures forall d: Day :: r[d] == Times(SlotsOf(ViableSlotsExact(g, Some(responded)), d))
  {
    var viable := ViableSlotsExact(g, Some(responded));
    var r := LabelsOf(viable);
    forall d: Day
      ensures r[d] == Times(SlotsOf(viable, d))
    {
    }
    forall d: Day
      ensures forall i :: 0 <= i < |r[d]| ==> ExactSlotAt(g, d, responded, r[d][i])
    {
      ExactLabelsAreExactSlots(g, responded, d);
    }
    forall d: Day
      ensures forall j :: 0 <= j < |SlotsOf(g, d)| && responded != {} && SlotsOf(g, d)[j].available == responded ==>
        SlotsOf(g, d)[j].time in r[d]
    {
      ExactSlotsAreLabelled(g, responded, d);
    }
    PollOrderKept(g, viable);
    r
  }

  /** On day `d`, every label of the exact test's slots belongs to a slot available to exactly
      the responded set. */
  lemma ExactLabelsAreExactSlots(g: Grid, responded: set<PersonId>, d: Day)
    ensures forall i :: 0 <= i < |LabelsOf(ViableSlotsExact(g, Some(responded)))[d]| ==>
      ExactSlotAt(g, d, responded, LabelsOf(ViableSlotsExact(g, Some(responded)))[d][i])
  {
    var v := ViableSlotsExact(g, Some(responded));
    forall i | 0 <= i < |LabelsOf(v)[d]|
      ensures ExactSlotAt(g, d, responded, LabelsOf(v)[d][i])
    {
      KeptSlotIsExact(g, responded, d, SlotsOf(v, d)[i]);
    }
  }

  /** A slot the exact test keeps is a poll slot available to exactly the responded set. */
  lemma KeptSlotIsExact(g: Grid, responded: set<PersonId>, d: Day, x: Slot)
    requires x in SlotsOf(ViableSlotsExact(g, Some(responded)), d)
    ensures ExactSlotAt(g, d, responded, x.time)
  {
    var kept := SlotsOf(ViableSlotsExact(g, Some(responded)), d);
    var i :| 0 <= i < |kept| && kept[i] == x;
    assert x.available == responded;
    SubsequenceMembers(kept, SlotsOf(g, d), x);
    var j :| 0 <= j < |SlotsOf(g, d)| && SlotsOf(g, d)[j] == x;
  }

  /** On day `d`, every slot available to exactly a non-empty responded set has its label handed over. */
  lemma ExactSlotsAreLabelled(g: Grid, responded: set<PersonId>, d: Day)
    ensures forall j :: 0 <= j < |SlotsOf(g, d)| && responded != {} && SlotsOf(g, d)[j].available == responded ==>
      SlotsOf(g, d)[j].time in LabelsOf(ViableSlotsExact(g, Some(responded)))[d]
  {
    forall j | 0 <= j < |SlotsOf(g, d)| && responded != {} && SlotsOf(g, d)[j].available == responded
      ensures SlotsOf(g, d)[j].time in LabelsOf(ViableSlotsExact(g, Some(responded)))[d]
    {
      ExactSlotIsKept(g, responded, d, SlotsOf(g, d)[j]);
      LabelOfMember(ViableSlotsExact(g, Some(responded)), d, SlotsOf(g, d)[j]);
    }
  }

  /** A slot available to exactly a non-empty responded set survives the exact test. */
  lemma ExactSlotIsKept(g: Grid, responded: set<PersonId>, d: Day, x: Slot)
    requires responded != {} && x in SlotsOf(g, d) && x.available == responded
    ensures x in SlotsOf(ViableSlotsExact(g, Some(responded)), d)
  {
    var v := ViableSlotsExact(g, Some(responded));
    assert multiset(v[d])[x] == multiset(SlotsOf(g, d))[x];
    assert x in multiset(SlotsOf(g, d));
  }

  /** The label of every slot of a day is among that day's labels. */
  lemma LabelOfMember(v: Grid, d: Day, x: Slot)
    requires x in SlotsOf(v, d)
    ensures x.time in LabelsOf(v)[d]
  {
    var i :| 0 <= i < |SlotsOf(v, d)| && SlotsOf(v, d)[i] == x;
    assert LabelsOf(v)[d][i] == x.time;
  }
}
