/** Loading an input file: the organiser's availability ranges are expanded to
    half-hour labels, their commitments are removed from them, and every meeting
    to schedule is completed with defaults and validated. */
module InputFile {
  import opened Wrappers
  import opened Seqs
  import opened TimeGrid

  // Commitments.

  /** A commitment: a start label and a length in minutes. */
  datatype Commitment = Commitment(time: Minute, length: int)

  /** `count` labels from `t`, each half an hour after the previous; `strftime` keeps only
      the time of day, so a label past midnight wraps around. */
  function LabelsFrom(t: Minute, count: nat): (r: seq<Minute>)
    ensures |r| == count
    ensures count > 0 ==> r[0] == t
    ensures forall i :: 1 <= i < count ==> r[i] == (r[i - 1] + 30) % MinutesPerDay
    decreases count
  {
    if count == 0 then []
    else
      var rest := LabelsFrom(((t + 30) % MinutesPerDay) as Minute, count - 1);
      var r := [t] + rest;
      assert forall i :: 1 <= i < count ==> r[i] == rest[i - 1];
      r
  }

  /** The labels a commitment blocks: `int(length / 30)` of them, none for a negative length;
      the i-th is i half hours after the start, wrapped at midnight. */
  function CommitmentLabels(c: Commitment): (r: seq<Minute>)
    ensures |r| == if HalfHoursIn(c.length) > 0 then HalfHoursIn(c.length) else 0
    ensures forall i :: 0 <= i < |r| ==> r[i] == (c.time + 30 * i) % MinutesPerDay
  {
    var n := HalfHoursIn(c.length);
    var r := LabelsFrom(c.time, if n > 0 then n else 0);
    forall i | 0 <= i < |r|
      ensures r[i] == (c.time + 30 * i) % MinutesPerDay
    {
      CommitmentBlocksConsecutiveHalfHours(c.time, |r|, i);
    }
    r
  }

  /** The labels blocked by a day's commitments, commitment by commitment. */
  function AllCommitmentLabels(cs: seq<Commitment>): (r: seq<Minute>)
  {
    if |cs| == 0 then [] else CommitmentLabels(cs[0]) + AllCommitmentLabels(cs[1..])
  }

  /** Removes one occurrence of each label in turn, skipping labels that are absent. */
  function RemoveLabels(avail: seq<Minute>, labels: seq<Minute>): (r: seq<Minute>)
    ensures multiset(r) == multiset(avail) - multiset(labels)
    decreases |labels|
  {
    if |labels| == 0 then avail
    else
      var once := RemoveFirst(avail, labels[0]);
      var r := RemoveLabels(once, labels[1..]);
      HeadAndTail(labels);
      MultisetDifferenceTwice(multiset(avail), multiset{labels[0]}, multiset(labels[1..]));
      r
  }

  /** Removing labels keeps the remaining ones in their original order. */
  lemma {:induction false} RemoveLabelsKeepsOrder(avail: seq<Minute>, labels: seq<Minute>)
    ensures IsSubsequence(RemoveLabels(avail, labels), avail)
    decreases |labels|
  {
    if |labels| == 0 {
      SubsequenceReflexive(avail);
    } else {
      var once := RemoveFirst(avail, labels[0]);
      RemoveLabelsKeepsOrder(once, labels[1..]);
      SubsequenceTransitive(RemoveLabels(once, labels[1..]), once, avail);
    }
  }

  lemma HeadAndTail<T>(s: seq<T>)
    requires |s| > 0
    ensures multiset(s) == multiset{s[0]} + multiset(s[1..])
  {
    assert s == [s[0]] + s[1..];
  }

  lemma MultisetDifferenceTwice<T>(a: multiset<T>, b: multiset<T>, c: multiset<T>)
    ensures (a - b) - c == a - (b + c)
  {
    forall y
      ensures ((a - b) - c)[y] == (a - (b + c))[y]
    {
    }
  }

  /** A day's labels, or none for a day the map does not mention (the `{**defaults, **j}` merge). */
  function DayOf<T>(m: map<Day, seq<T>>, d: Day): seq<T>
  {
    if d in m then m[d] else []
  }

  /** One day of the commitment loop: every label blocked by the day's commitments loses one
      occurrence, if it has one; order and everything else are kept. */
  function SubtractDay(avail: seq<Minute>, cs: seq<Commitment>): (r: seq<Minute>)
    ensures IsSubsequence(r, avail)
    ensures multiset(r) == multiset(avail) - multiset(AllCommitmentLabels(cs))
    ensures cs == [] ==> r == avail
  {
    RemoveLabelsKeepsOrder(avail, AllCommitmentLabels(cs));
    RemoveLabels(avail, AllCommitmentLabels(cs))
  }

  /** The commitment loop of loadInputFile, day by day. */
  function SubtractCommitments(avail: map<Day, seq<Minute>>, commitments: map<Day, seq<Commitment>>): (r: map<Day, seq<Minute>>)
    ensures forall d: Day :: d in r && IsSubsequence(r[d], DayOf(avail, d))
    ensures forall d: Day :: multiset(r[d]) == multiset(DayOf(avail, d)) - multiset(AllCommitmentLabels(DayOf(commitments, d)))
    ensures forall d: Day :: DayOf(commitments, d) == [] ==> r[d] == DayOf(avail, d)
  {
    AllDaysListsEveryDayOnce();
    map d | d in AllDays :: SubtractDay(DayOf(avail, d), DayOf(commitments, d))
  }

  /** A commitment of `k` half hours starting at `t` blocks `t`, `t + 30`, ..., `k` labels in all,
      wrapping at midnight. */
  lemma {:induction false} CommitmentBlocksConsecutiveHalfHours(t: Minute, count: nat, i: nat)
    requires i < count
    ensures LabelsFrom(t, count)[i] == (t + 30 * i) % MinutesPerDay
  {
    if i > 0 {
      CommitmentBlocksConsecutiveHalfHours(t, count, i - 1);
      var r := LabelsFrom(t, count);
      assert r[i] == (r[i - 1] + 30) % MinutesPerDay;
      ModAddStep(t + 30 * (i - 1), 30);
    }
  }

  lemma ModAddStep(a: nat, b: nat)
    ensures (a % 1440 + b) % 1440 == (a + b) % 1440
  {
    var q := a / 1440;
    assert a == q * 1440 + a % 1440;
    assert a + b == q * 1440 + (a % 1440 + b);
  }

  // Meetings.

  /** The organiser's default locations (`myLocations`), each optional. */
  datatype Locations = Locations(physical: Option<string>, remote: Option<string>)

  /** A meeting as written in the input file: every key optional. */
  datatype MeetingEntry = MeetingEntry(
    name: Option<string>,
    length: Option<int>,
    kind: Option<string>,
    participants: Option<seq<PersonId>>,
    physicalLocation: Option<string>,
    remoteLocation: Option<string>)

  /** A validated meeting. */
  datatype Meeting = Meeting(
    name: string,
    length: int,
    kind: string,
    participants: seq<PersonId>,
    physicalLocation: Option<string>,
    remoteLocation: Option<string>)

  /** The assertion (or key lookup) that fails while loading an input file. */
  datatype LoadError =
    | MissingAvailability
    | MissingCommitments
    | MissingMeetings
    | MeetingWithoutName(index: nat)
    | LengthNotMultipleOf30(meeting: string)
    | LengthNotPositive(meeting: string)
    | MeetingWithoutParticipants(meeting: string)
    | MeetingWithoutPhysicalLocation(meeting: string)
    | MeetingWithoutRemoteLocation(meeting: string)

  /** How a script checks a meeting's length: the older one not at all, the current one for a
      multiple of 30, and the corrected rule for a positive multiple of 30. */
  datatype LengthRule = AnyLength | MultipleOf30 | PositiveMultipleOf30

  const DefaultLength: int := 60
  const DefaultKind: string := "hybrid"

  predicate NeedsPhysical(kind: string) { kind == "hybrid" || kind == "in-person" }
  predicate NeedsRemote(kind: string) { kind == "hybrid" || kind == "remote" }

  /** `{**meetingDefaults, **meeting}`: keys the meeting gives win over the defaults. */
  function WithDefaults(e: MeetingEntry, locs: Locations): MeetingEntry
  {
    MeetingEntry(
      e.name,
      Some(e.length.GetOr(DefaultLength)),
      Some(e.kind.GetOr(DefaultKind)),
      e.participants,
      if e.physicalLocation.Some? then e.physicalLocation else locs.physical,
      if e.remoteLocation.Some? then e.remoteLocation else locs.remote)
  }

  predicate LengthAllowed(rule: LengthRule, length: int)
  {
    match rule
    case AnyLength => true
    case MultipleOf30 => length % 30 == 0
    case PositiveMultipleOf30 => length % 30 == 0 && length > 0
  }

  /** A meeting is fit to schedule: its length obeys the rule, and it has exactly the locations its kind calls for. */
  ghost predicate WellFormedMeeting(m: Meeting, rule: LengthRule)
  {
    && LengthAllowed(rule, m.length)
    && (NeedsPhysical(m.kind) ==> m.physicalLocation.Some?)
    && (NeedsRemote(m.kind) ==> m.remoteLocation.Some?)
    && (m.kind == "in-person" ==> m.remoteLocation.None?)
    && (m.kind == "remote" ==> m.physicalLocation.None?)
  }

  /** The per-meeting checks of loadInputFile, in the order the assertions run. */
  function CheckMeeting(e: MeetingEntry, index: nat, locs: Locations, rule: LengthRule): (r: Result<Meeting, LoadError>)
    ensures r.Success? <==>
      && e.name.Some?
      && LengthAllowed(rule, e.length.GetOr(DefaultLength))
      && e.participants.Some?
      && (NeedsPhysical(e.kind.GetOr(DefaultKind)) ==> e.physicalLocation.Some? || locs.physical.Some?)
      && (NeedsRemote(e.kind.GetOr(DefaultKind)) ==> e.remoteLocation.Some? || locs.remote.Some?)
    ensures r.Success? ==> WellFormedMeeting(r.value, rule)
    ensures r.Success? ==>
      && r.value.name == e.name.value
      && r.value.participants == e.participants.value
      && r.value.length == e.length.GetOr(DefaultLength)
      && r.value.kind == e.kind.GetOr(DefaultKind)
    ensures r.Success? ==>
      r.value.physicalLocation == (if r.value.kind == "remote" then None else if e.physicalLocation.Some? then e.physicalLocation else locs.physical)
    ensures r.Success? ==>
      r.value.remoteLocation == (if r.value.kind == "in-person" then None else if e.remoteLocation.Some? then e.remoteLocation else locs.remote)
    ensures e.name.None? ==> r == Failure(MeetingWithoutName(index))
    ensures e.name.Some? && rule != AnyLength && e.length.GetOr(DefaultLength) % 30 != 0 ==>
      r == Failure(LengthNotMultipleOf30(e.name.value))
    ensures e.name.Some? && rule == PositiveMultipleOf30 && e.length.GetOr(DefaultLength) % 30 == 0 && e.length.GetOr(DefaultLength) <= 0 ==>
      r == Failure(LengthNotPositive(e.name.value))
    ensures e.name.Some? && LengthAllowed(rule, e.length.GetOr(DefaultLength)) && e.participants.None? ==>
      r == Failure(MeetingWithoutParticipants(e.name.value))
    ensures (e.name.Some? && LengthAllowed(rule, e.length.GetOr(DefaultLength)) && e.participants.Some? &&
             NeedsPhysical(e.kind.GetOr(DefaultKind)) && e.physicalLocation.None? && locs.physical.None?) ==>
      r == Failure(MeetingWithoutPhysicalLocation(e.name.value))
    ensures (e.name.Some? && LengthAllowed(rule, e.length.GetOr(DefaultLength)) && e.participants.Some? &&
             (NeedsPhysical(e.kind.GetOr(DefaultKind)) ==> e.physicalLocation.Some? || locs.physical.Some?) &&
             NeedsRemote(e.kind.GetOr(DefaultKind)) && e.remoteLocation.None? && locs.remote.None?) ==>
      r == Failure(MeetingWithoutRemoteLocation(e.name.value))
  {
    var m := WithDefaults(e, locs);
    if m.name.None? then Failure(MeetingWithoutName(index))
    else
      var name := m.name.value;
      var length := m.length.value;
      var kind := m.kind.value;
      if rule != AnyLength && length % 30 != 0 then Failure(LengthNotMultipleOf30(name))
      else if rule == PositiveMultipleOf30 && length <= 0 then Failure(LengthNotPositive(name))
      else if m.participants.None? then Failure(MeetingWithoutParticipants(name))
      else if NeedsPhysical(kind) && m.physicalLocation.None? then Failure(MeetingWithoutPhysicalLocation(name))
      else if NeedsRemote(kind) && m.remoteLocation.None? then Failure(MeetingWithoutRemoteLocation(name))
      else
        Success(Meeting(
          name, length, kind, m.participants.value,
          if kind == "remote" then None else m.physicalLocation,
          if kind == "in-person" then None else m.remoteLocation))
  }

  /** Meeting validation of the current script as written: the length need only be a multiple of 30. */
  function ValidateMeetingAsWritten(e: MeetingEntry, index: nat, locs: Locations): (r: Result<Meeting, LoadError>)
    ensures r.Success? ==> r.value.length % 30 == 0
  {
    CheckMeeting(e, index, locs, MultipleOf30)
  }

  /** Meeting validation with the length check the window count needs: a positive multiple of 30,
      so that the meeting spans at least one half hour. */
  function ValidateMeeting(e: MeetingEntry, index: nat, locs: Locations): (r: Result<Meeting, LoadError>)
    ensures r.Success? ==> r.value.length % 30 == 0 && r.value.length >= 30
  {
    CheckMeeting(e, index, locs, PositiveMultipleOf30)
  }

  /** Meeting validation of the older script: no length check at all. */
  function ValidateMeetingLegacy(e: MeetingEntry, index: nat, locs: Locations): (r: Result<Meeting, LoadError>)
    ensures r.Success? ==> r.value.length == e.length.GetOr(DefaultLength)
  {
    CheckMeeting(e, index, locs, AnyLength)
  }

  /** A zero-length meeting passes the current script's check, yet it spans no half hour, which the
      window count cannot handle (it raises for `int(length / 30) <= 0`). */
  lemma ZeroLengthMeetingPassesValidation()
    ensures var e := MeetingEntry(Some("standup"), Some(0), Some("remote"), Some(["ada"]), None, Some("call"));
      && ValidateMeetingAsWritten(e, 0, Locations(None, None)).Success?
      && HalfHoursIn(ValidateMeetingAsWritten(e, 0, Locations(None, None)).value.length) == 0
      && ValidateMeeting(e, 0, Locations(None, None)) == Failure(LengthNotPositive("standup"))
  {
  }

  /** Every meeting the corrected check accepts spans at least one half hour, so its viable
      meeting times can always be counted. */
  lemma ValidatedMeetingSpansAHalfHour(e: MeetingEntry, index: nat, locs: Locations)
    requires ValidateMeeting(e, index, locs).Success?
    ensures HalfHoursIn(ValidateMeeting(e, index, locs).value.length) >= 1
    ensures 30 * HalfHoursIn(ValidateMeeting(e, index, locs).value.length) == ValidateMeeting(e, index, locs).value.length
  {
    var m := ValidateMeeting(e, index, locs).value;
    HalfHoursOfMultiple(m.length / 30);
    assert m.length == 30 * (m.length / 30);
  }

  /** Entry `i` is the first one the check rejects, and it is rejected with `err`. */
  predicate FirstFailureAt(entries: seq<MeetingEntry>, start: nat, locs: Locations, rule: LengthRule, i: int, err: LoadError)
  {
    && 0 <= i < |entries|
    && CheckMeeting(entries[i], start + i, locs, rule) == Failure(err)
    && forall k :: 0 <= k < i ==> CheckMeeting(entries[k], start + k, locs, rule).Success?
  }

  /** A first failure in the tail is a first failure of the whole list, one position later,
      once the head passes. */
  lemma {:induction false} FirstFailureShift(entries: seq<MeetingEntry>, start: nat, locs: Locations, rule: LengthRule, i: int, err: LoadError)
    requires |entries| > 0 && CheckMeeting(entries[0], start, locs, rule).Success?
    requires FirstFailureAt(entries[1..], start + 1, locs, rule, i, err)
    ensures FirstFailureAt(entries, start, locs, rule, i + 1, err)
  {
    assert entries[i + 1] == entries[1..][i];
    forall k | 0 <= k < i + 1
      ensures CheckMeeting(entries[k], start + k, locs, rule).Success?
    {
      if k > 0 {
        assert entries[k] == entries[1..][k - 1];
      }
    }
  }

  /** The meeting loop: every meeting is checked in order and the first failure raises. */
  function LoadMeetings(entries: seq<MeetingEntry>, start: nat, locs: Locations, rule: LengthRule): (r: Result<seq<Meeting>, LoadError>)
    ensures r.Success? <==> forall i :: 0 <= i < |entries| ==> CheckMeeting(entries[i], start + i, locs, rule).Success?
    ensures r.Success? ==> |r.value| == |entries|
    ensures r.Success? ==> forall i :: 0 <= i < |entries| ==> r.value[i] == CheckMeeting(entries[i], start + i, locs, rule).value
    ensures r.Failure? ==> exists i :: FirstFailureAt(entries, start, locs, rule, i, r.error)
    decreases |entries|
  {
    if |entries| == 0 then Success([])
    else
      match CheckMeeting(entries[0], start, locs, rule)
      case Failure(err) =>
        assert FirstFailureAt(entries, start, locs, rule, 0, err);
        Failure(err)
      case Success(m) =>
        match LoadMeetings(entries[1..], start + 1, locs, rule)
        case Failure(err) =>
          var i :| FirstFailureAt(entries[1..], start + 1, locs, rule, i, err);
          FirstFailureShift(entries, start, locs, rule, i, err);
          Failure(err)
        case Success(ms) =>
          TailIndices(entries);
          Success([m] + ms)
  }

  // The whole file.

  /** The keys of an input file the model reads; absent keys are `None`. */
  datatype InputJson = InputJson(
    myAvailability: Option<map<Day, seq<TimeRange>>>,
    myCommitments: Option<map<Day, seq<Commitment>>>,
    myLocations: Locations,
    meetingsToSchedule: Option<seq<MeetingEntry>>)

  /** A loaded input file: the organiser's free half-hour labels per day, and the meetings. */
  datatype Input = Input(availability: map<Day, seq<Minute>>, meetings: seq<Meeting>)

  /** Every day's ranges expanded into labels (`ranges2slots` per day, missing days empty). */
  function ExpandAvailability(ranges: map<Day, seq<TimeRange>>): (r: map<Day, seq<Minute>>)
    ensures forall d: Day :: d in r && r[d] == RangesToSlots(DayOf(ranges, d))
  {
    AllDaysListsEveryDayOnce();
    map d | d in AllDays :: RangesToSlots(DayOf(ranges, d))
  }

  /** loadInputFile of the current script, with the corrected length check: availability is
      required, then commitments (looked up without a default), then the meetings. */
  function LoadInputFile(j: InputJson): (r: Result<Input, LoadError>)
    ensures j.myAvailability.None? ==> r == Failure(MissingAvailability)
    ensures j.myAvailability.Some? && j.myCommitments.None? ==> r == Failure(MissingCommitments)
    ensures j.myAvailability.Some? && j.myCommitments.Some? && j.meetingsToSchedule.None? ==> r == Failure(MissingMeetings)
    ensures j.myAvailability.Some? && j.myCommitments.Some? && j.meetingsToSchedule.Some? && r.Failure? ==>
      exists i :: FirstFailureAt(j.meetingsToSchedule.value, 0, j.myLocations, PositiveMultipleOf30, i, r.error)
    ensures r.Success? <==>
      && j.myAvailability.Some? && j.myCommitments.Some? && j.meetingsToSchedule.Some?
      && forall i :: 0 <= i < |j.meetingsToSchedule.value| ==>
           CheckMeeting(j.meetingsToSchedule.value[i], i, j.myLocations, PositiveMultipleOf30).Success?
    ensures r.Success? ==> forall d: Day :: d in r.value.availability
    ensures r.Success? ==> forall d: Day ::
      multiset(r.value.availability[d]) ==
      multiset(RangesToSlots(DayOf(j.myAvailability.value, d))) - multiset(AllCommitmentLabels(DayOf(j.myCommitments.value, d)))
    ensures r.Success? ==> forall d: Day :: IsSubsequence(r.value.availability[d], RangesToSlots(DayOf(j.myAvailability.value, d)))
    ensures r.Success? ==> |r.value.meetings| == |j.meetingsToSchedule.value|
    ensures r.Success? ==> forall i :: 0 <= i < |r.value.meetings| ==>
      r.value.meetings[i] == CheckMeeting(j.meetingsToSchedule.value[i], i, j.myLocations, PositiveMultipleOf30).value
    ensures r.Success? ==> forall i :: 0 <= i < |r.value.meetings| ==> WellFormedMeeting(r.value.meetings[i], PositiveMultipleOf30)
  {
    if j.myAvailability.None? then Failure(MissingAvailability)
    else if j.myCommitments.None? then Failure(MissingCommitments)
    else
      var avail := SubtractCommitments(ExpandAvailability(j.myAvailability.value), j.myCommitments.value);
      if j.meetingsToSchedule.None? then Failure(MissingMeetings)
      else
        match LoadMeetings(j.meetingsToSchedule.value, 0, j.myLocations, PositiveMultipleOf30)
        case Failure(err) => Failure(err)
        case Success(ms) => Success(Input(avail, ms))
  }

  /** loadInputFile of the older script: no commitments and no length check. */
  function LoadInputFileLegacy(j: InputJson): (r: Result<Input, LoadError>)
    ensures j.myAvailability.None? ==> r == Failure(MissingAvailability)
    ensures j.myAvailability.Some? && j.meetingsToSchedule.None? ==> r == Failure(MissingMeetings)
    ensures j.myAvailability.Some? && j.meetingsToSchedule.Some? && r.Failure? ==>
      exists i :: FirstFailureAt(j.meetingsToSchedule.value, 0, j.myLocations, AnyLength, i, r.error)
    ensures r.Success? <==>
      && j.myAvailability.Some? && j.meetingsToSchedule.Some?
      && forall i :: 0 <= i < |j.meetingsToSchedule.value| ==>
           CheckMeeting(j.meetingsToSchedule.value[i], i, j.myLocations, AnyLength).Success?
    ensures r.Success? ==> forall d: Day :: d in r.value.availability
    ensures r.Success? ==> forall d: Day :: r.value.availability[d] == RangesToSlots(DayOf(j.myAvailability.value, d))
    ensures r.Success? ==> |r.value.meetings| == |j.meetingsToSchedule.value|
    ensures r.Success? ==> forall i :: 0 <= i < |r.value.meetings| ==>
      r.value.meetings[i] == CheckMeeting(j.meetingsToSchedule.value[i], i, j.myLocations, AnyLength).value
    ensures r.Success? ==> forall i :: 0 <= i < |r.value.meetings| ==> WellFormedMeeting(r.value.meetings[i], AnyLength)
  {
    if j.myAvailability.None? then Failure(MissingAvailability)
    else if j.meetingsToSchedule.None? then Failure(MissingMeetings)
    else
      match LoadMeetings(j.meetingsToSchedule.value, 0, j.myLocations, AnyLength)
      case Failure(err) => Failure(err)
      case Success(ms) => Success(Input(ExpandAvailability(j.myAvailability.value), ms))
  }
}
