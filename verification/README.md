# optimeet availability reconciliation, in Dafny

optimeet schedules meetings with when2meet polls. The organiser writes an input file that lists their own availability, their commitments and the meetings to schedule. For each meeting the tool then:

- opens a poll;
- checks the poll's responses periodically;
- hands over each meeting's final availability.

Two versions of the script exist. `optimeet.py` is the current one and `main.py` is the older one.

This project models the part of both scripts that works on data alone: the week grid and everything computed from it.

- **Week grid** (`TimeGrid`). Each of the seven days holds an ordered list of half-hour slots. A slot carries a clock time, in minutes since midnight, and the set of participant ids available then. The module also covers `int(length / 30)` and `ranges2slots`, which expands time ranges into half-hour labels.
- **Merge step** (`Merge`). `parseWhen2Meet` sorts each day's scraped 15-minute slots by time. It then pairs them into half-hour slots, keeping the people present in both quarter-hours.
- **Reconciler** (`Reconcile`):
  - `respondents` collects everyone who marked any slot;
  - `viableSlots` keeps the slots the target group can attend: a superset test in the current script, an exact-equality test in the older one;
  - `slotsWithMostAvailable` is the best-attended fallback.
- **Counting meeting times** (`Runs`). The current script counts every window of `length / 30` back-to-back viable slots. The older one counts adjacent back-to-back pairs, or every viable slot when the meeting lasts 30 minutes.
- **Resolver** (`Resolver`). `getPersonFromName` tries, in order:
  1. a case-insensitive full-name match;
  2. a first-name match;
  3. an `UnknownPerson<name>` sentinel.
- **Input file** (`InputFile`). Inside `loadInputFile`, the model covers commitment subtraction and meeting validation with defaults.
- **Progress** (`Progress`):
  - the responded / not-responded split of `checkProgress`;
  - the stop test of the periodic check job;
  - the slot selection of `saveFinalAvailability`.
- **Worked examples** (`Scenarios`). Two concrete polls.

## Modelling conventions

- **Times.** A time is a `Minute`, a `nat` below 1440. Label parsing and formatting (`strptime`/`strftime` with `%I:%M %p`) are left out, because each label is a fixed 12-hour rendering of its minute.
  - A commitment label that passes midnight wraps modulo 1440, since `strftime` keeps only the time of day.
  - `ranges2slots` compares full datetimes. It therefore stops at midnight instead of wrapping, and the model does the same.
- **Week grid.** A grid is a `map<Day, seq<Slot>>`. A day the map does not mention has no slots, which matches iterating the grid's own items. `viableSlots` and `slotsWithMostAvailable` return all seven days.
- **Target group.** It is an `Option<set<PersonId>>`, where `None` stands for the omitted `everyone` argument that defaults to `respondents`.
- **Integer division.** Python's `int(x / 30)` truncates toward zero. `HalfHoursIn` writes that out for negative lengths, because Dafny's `/` is Euclidean.
- **Errors.** Failed assertions, `IndexError` and `KeyError` become the `Failure` side of a `Result`:
  - `MergeError`: a day with an odd number of quarter-hours;
  - `CountError`: a window count with `int(length / 30) <= 0`;
  - `LoadError`: a missing key or a rejected meeting.
- **Roster.** The roster (`people.json`) is a sequence of `(key, name)` entries in iteration order, so "the first match" is well defined.
- **Python helpers.** Python's `list.remove` is `Seqs.RemoveFirst`, and `next(...)` over a generator is `Seqs.FindFirst`.

Every operation has a partner, and lemmas connect the two:

- the exact test lies inside the superset test;
- runs of one are slots;
- adjacent pairs are runs of two;
- best-attended slots equal viable slots once anything is viable;
- the sentinel carries the name back out;
- the stop test holds iff everyone responded.

## Model

| member | source | states |
|---|---|---|
| Merge.SortByTime | optimeet.py:83 | The day's quarter-hours come out in time order and are a permutation of the input. |
| Merge.SortSortedIsIdentity | optimeet.py:83 | Sorting a day that is already in time order changes nothing. |
| Merge.MergePairs | optimeet.py:84-90 | 2k quarter-hours become k half hours. Half hour j has quarter-hour 2j's time and the intersection of the people of quarter-hours 2j and 2j+1. |
| Merge.MergeDay | optimeet.py:83-91 | One day merges iff it has an even number of quarter-hours; an odd count raises `IndexError` at the unpaired last quarter-hour. A merged day has half as many slots and pairs a time-sorted permutation of the quarter-hours: half hour j starts at sorted quarter-hour 2j and holds exactly the people present in both 2j and 2j+1. |
| Merge.MergeSortedDay | optimeet.py:83-91 | A time-sorted even day merges into half as many slots. Slot j keeps raw slot 2j's time, and p is in slot j iff p is in both raw slots 2j and 2j+1. |
| Merge.MergedDayIsTimeOrdered | optimeet.py:83-91 | The merged half hours of a day are in time order. |
| Merge.MergeDays | optimeet.py:82-91 | Days are merged in order. The loop fails iff some day is odd, and it reports the first odd day: every earlier day is even. |
| Merge.MergeWeek | optimeet.py:82-91 | The merge succeeds iff every day has an even count, and then every day of the week is that day's merge. A failure names the first odd day in week order. |
| TimeGrid.AllDaysListsEveryDayOnce | optimeet.py:16 | `DAYS` lists each of the seven days exactly once. |
| TimeGrid.HalfHoursIn | optimeet.py:135 | `int(length / 30)` truncates toward zero. For a non-negative length, n half hours fit and n+1 do not; the mirror bounds hold for a negative length. |
| TimeGrid.HalfHoursOfMultiple | optimeet.py:135 | A multiple of 30 minutes is exactly that many half hours. |
| TimeGrid.ExpandRange | optimeet.py:268-273 | A range yields (end-start)/30+1 labels start, start+30, …, and none when start is after end. |
| TimeGrid.ExpandRangeMembership | optimeet.py:268-273 | A label comes from a range iff it lies between start and end on the range's 30-minute lattice. |
| TimeGrid.RangesToSlots | optimeet.py:265-274 | Every emitted label lies inside some range on that range's 30-minute lattice, and every such lattice point of every range is emitted. |
| TimeGrid.RangesToSlotsAppend | optimeet.py:265-274 | Ranges are expanded in input order: appending a range appends its labels. |
| TimeGrid.Times | optimeet.py:512 | Projecting slots to their times keeps length and order. |
| Seqs.RemoveFirst | optimeet.py:225-226 | `list.remove` drops one occurrence: the multiset loses one copy, order is kept, and an absent label leaves the list unchanged. |
| Seqs.FindFirst | optimeet.py:193 | `next(...)` yields the first index satisfying the test, or nothing when no element does. |
| Reconcile.Respondents | optimeet.py:95-101 | p is a respondent iff p is available in some slot of some day. |
| Reconcile.RespondentList | main.py:91-97 | The returned list has no duplicates and holds exactly the people available in some slot. |
| Reconcile.AddPeopleOfDay | main.py:93-95 | The inner loop over one day adds exactly the people available in some slot of that day. |
| Reconcile.RespondentsIgnoreSlotOrder | main.py:91-97 | Reordering the slots within each day does not change the respondents. |
| Reconcile.ViableDay | optimeet.py:104-114 | One day of the superset test: an order-preserving subsequence of the day that keeps a slot, with its multiplicity, iff its available set contains the nonempty target. |
| Reconcile.ViableDayExact | main.py:101-110 | One day of the exact test: the same, keeping a slot iff its available set equals the nonempty target. |
| Reconcile.ViableSlots | optimeet.py:103-114 | All seven days are present. Each day is an order-preserving subsequence of the input day. A slot is kept, with its multiplicity, iff its available set contains the whole target (the respondents by default). An empty target gives seven empty days. |
| Reconcile.ViableSlotsExact | main.py:99-110 | The same, keeping exactly the slots whose available set equals the target. |
| Reconcile.ExactViableWithinSuperset | main.py:108 | Each day the exact test keeps is an order-preserving subsequence of what the superset test keeps. |
| Reconcile.ShrinkingTargetKeepsViable | optimeet.py:112 | Shrinking the target to a nonempty subset keeps every slot that was viable, in order. This holds for the superset test and for the older exact test at the larger target. |
| Reconcile.MaxScore | optimeet.py:119-123 | M bounds every slot's intersection with the target and is attained by some slot, or is 0. |
| Reconcile.SlotsWithMostAvailable | optimeet.py:116-130 | All seven days are present, each a subsequence of the input day. A slot is kept, with its multiplicity, iff its intersection with the target has size M. |
| Reconcile.BestSlotsScoreTheMaximum | optimeet.py:124-129 | Every returned slot scores exactly M, and no slot anywhere scores more. |
| Reconcile.EveryBestSlotIsReturned | optimeet.py:124-129 | Every input slot that scores M is among the returned slots of its day. |
| Reconcile.BestSlotsNonEmpty | optimeet.py:116-130 | A grid with at least one slot returns at least one slot. |
| Reconcile.TopSlotIsKept | optimeet.py:124-129 | A slot that attains the maximum score leaves its day's best slots nonempty. |
| Reconcile.FullScoreIffCovers | optimeet.py:112 | A slot's score reaches the target's size iff it hosts the whole target. |
| Reconcile.BestSlotsAreViableSlotsWhenAnyIs | optimeet.py:103-130 | Once any slot is viable for a target, the best-attended slots equal the viable slots on every day. |
| Runs.RunFrom | optimeet.py:143-148 | The inner loop answers true iff the n slots from i are each exactly 30 minutes after the previous one. |
| Runs.CountDayRuns | optimeet.py:140-150 | One day's window loop counts exactly the start indices of runs of n back-to-back slots. Overlapping windows count separately. |
| Runs.CountingRunStarts | optimeet.py:140 | Trying the candidate starts `range(0, len(slots)-(n-1))` one by one counts exactly the run starts. |
| Runs.CountRuns | optimeet.py:137-151 | The window loop over all days returns the total number of runs of n in the viable grid. |
| Runs.NumViableMeetingTimes | optimeet.py:132-151 | Raises iff `int(length/30) <= 0`. Otherwise it returns the number of runs of `length/30` back-to-back slots in the viable grid. |
| Runs.RunsOfOneAreSlots | optimeet.py:140-150 | Runs of one are slots: for a 30-minute meeting the window count is the number of viable slots. |
| Runs.PairsAreRunsOfTwo | main.py:119-124 | Adjacent back-to-back pairs of a day are exactly its runs of two. |
| Runs.PairCountIsRunsOfTwo | main.py:116-125 | Summed over the week, the adjacent back-to-back pairs are the runs of two. |
| Runs.NumViableMeetingTimesLegacy | main.py:112-125 | For a 30-minute meeting the older count is the window count for runs of one over the exactly-viable slots, that is, every such slot. For any other length it is the count for runs of two, whatever the length: 60 and 90 minutes give the same number. |
| Resolver.Lower | optimeet.py:192 | Lowercasing keeps the length and maps each character. |
| Resolver.FirstToken | optimeet.py:196 | `split(' ')[0]` is the longest space-free prefix, and a space follows it when it is shorter than the name. |
| Resolver.GetPersonFromName | optimeet.py:189-200 | The first full-name match (ignoring case) wins. Failing that, the first first-name match wins. Failing both, the result is `UnknownPerson<` + the original name + `>`. |
| Resolver.UnknownPersonRoundTrip | optimeet.py:200 | The sentinel carries the original, un-lowercased name back out. |
| Resolver.LowerFirstTokenCommute | optimeet.py:196-197 | Lowercasing then taking the first name equals taking the first name then lowercasing. |
| Resolver.FullNameMatchIsFirstNameMatch | optimeet.py:193-197 | A full-name match is also a first-name match, so the full-name pass must run first for it to win. |
| Resolver.ResolvedIffSomeEntryMatches | optimeet.py:189-200 | When no roster key looks like a sentinel, the result is a roster key iff some entry matches by full or first name. |
| InputFile.LabelsFrom | optimeet.py:223-227 | Labels start at the commitment's time, and each is 30 minutes after the previous one, modulo a day. |
| InputFile.CommitmentLabels | optimeet.py:221-227 | A commitment blocks `int(length/30)` labels, none for a negative length; label i is the start plus i half hours, wrapped at midnight. |
| InputFile.CommitmentBlocksConsecutiveHalfHours | optimeet.py:221-227 | Label i of a commitment is t + 30·i, wrapped at midnight. |
| InputFile.RemoveLabels | optimeet.py:223-226 | Removing a commitment's labels one occurrence at a time leaves the availability multiset minus the labels; absent labels are skipped. |
| InputFile.RemoveLabelsKeepsOrder | optimeet.py:225-226 | The remaining labels keep their original order. |
| InputFile.SubtractDay | optimeet.py:218-227 | One day: the remaining labels are an order-preserving subsequence equal, as a multiset, to the day's labels minus the labels its commitments block. No commitments leave the day unchanged. |
| InputFile.SubtractCommitments | optimeet.py:215-227 | Every day's availability becomes an order-preserving subsequence equal, as a multiset, to its labels minus that day's blocked labels. A day without commitments is unchanged. |
| InputFile.ExpandAvailability | optimeet.py:210-213 | Each of the seven days is `ranges2slots` of its ranges; a missing day is empty. |
| InputFile.CheckMeeting | optimeet.py:233-256 | A meeting is accepted iff all of these hold: it has a name; its length (default 60) obeys the length rule; it has participants; a hybrid or in-person meeting has a physical location and a hybrid or remote one a remote location (own or default). An accepted meeting keeps its name, participants, length and kind; its locations are its own or else the defaults, with the remote one dropped for in-person and the physical one for remote. A failure names the first check that fails, in the order of the assertions: no name (with its index), a length that is not a multiple of 30, a non-positive length (corrected rule only), no participants, no physical location, no remote location. |
| InputFile.ValidateMeetingAsWritten | optimeet.py:246 | As written, an accepted length is only a multiple of 30. |
| InputFile.ValidateMeeting | optimeet.py:246 | With the corrected check, an accepted length is a positive multiple of 30. |
| InputFile.ValidateMeetingLegacy | main.py:201-214 | The older script keeps whatever length is given, or the default 60. |
| InputFile.ZeroLengthMeetingPassesValidation | optimeet.py:246 | A concrete remote meeting of length 0 passes the written check with `int(0/30) = 0`; the corrected check rejects it. |
| InputFile.ValidatedMeetingSpansAHalfHour | optimeet.py:246 | Every meeting the corrected check accepts spans k ≥ 1 whole half hours. |
| InputFile.LoadMeetings | optimeet.py:242-256 | Meetings are checked in order. Loading succeeds iff every meeting passes; meeting i of the result is entry i with its defaults and checks applied. A failure is the failure of the first rejected entry: every earlier entry passes. |
| InputFile.FirstFailureShift | optimeet.py:242-243 | The first rejected entry of the tail, after an accepted head, is the first rejected entry of the whole list, one position later. |
| InputFile.LoadInputFile | optimeet.py:203-256 | A missing `myAvailability` fails first, then a missing `myCommitments`, then a missing `meetingsToSchedule`; with all three present a failure is the first rejected meeting's. The load succeeds iff all three keys exist and every meeting passes. On success each day holds, in order, its expanded ranges minus its commitments, and meeting i is entry i as checked, so the list keeps its length and order. |
| InputFile.LoadInputFileLegacy | main.py:176-220 | Without commitments or a length check: a missing `myAvailability` fails first, then a missing `meetingsToSchedule`, then the first rejected meeting. Success iff availability and meetings exist and every meeting passes. Each day is exactly its expanded ranges, and meeting i is entry i as checked. |
| Progress.SplitByResponse | main.py:375-378 | The split is a partition of the participants whose responded side holds only respondents and whose other side holds none, which fixes both sides. |
| Progress.CheckProgress | optimeet.py:429-437 | Per meeting: the split, then the window count of slots all responders can attend. It raises iff the length spans no half hour. |
| Progress.CheckValidatedMeeting | optimeet.py:431-437 | A meeting that passes the corrected validation is always checked without raising, and its split covers its participants. |
| Progress.RecordCoversParticipants | optimeet.py:433-435 | A record whose two sides are characterised as the split's together hold exactly the participants. |
| Progress.CheckProgressLegacy | main.py:372-380 | The older check's record splits the participants disjointly and completely: responded are the participants in the poll, not responded the rest. Its count is the window count over the exactly-viable slots for the responders: runs of one for a 30-minute meeting, runs of two otherwise. |
| Progress.NoneMissingIffAllResponded | main.py:376-378 | A meeting's not-responded list is empty iff all its participants appear in its poll. |
| Progress.StopIffEveryoneResponded | main.py:479-480 | The check job clears the schedule iff every participant of every meeting appears in that meeting's poll. |
| Progress.StopIffEveryoneRespondedIn | optimeet.py:546-548 | For any records whose not-responded sets are what the split computes (as `CheckProgress` promises of the current script's records), the stop test holds iff every participant of every meeting appears in that meeting's poll. |
| Progress.LabelsOf | optimeet.py:512 | All seven days map to their slots' times, in order. |
| Progress.BestLabelsAreViableLabelsWhenAnyIs | optimeet.py:507-510 | When any slot is viable, the best-attended labels equal the viable labels on every day. |
| Progress.FinalAvailability | optimeet.py:506-512 | Every day's labels are times of that day's poll slots, in poll order. Without the flag, they are the viable slots' times. With any viable slot, they are the viable slots' times whether or not the flag is set. With the flag and no viable slot, they are the best-attended slots' times. |
| Progress.FinalAvailabilityIntended | optimeet.py:506-512 | The selection the flag's name describes: viable labels unless the flag is set and nothing is viable, then the best-attended labels; always poll slots' times in poll order. |
| Progress.FallbackGuardIsHarmless | optimeet.py:509 | The guard that is always true changes nothing: the handed-over labels equal the intended selection on every day. |
| Progress.PollOrderKept | optimeet.py:512 | Projecting a grid whose days are order-preserving parts of the poll gives labels in poll order. |
| Progress.TimesKeepsOrder | optimeet.py:512 | Projecting slots to times keeps an order-preserving part order-preserving. |
| Progress.FinalAvailabilityLegacy | main.py:441-444 | Each day's labels are the times of the exact test's slots, one per slot and in their order, so a time repeated in the poll is repeated in the result. Each label is the time of a slot whose available set is exactly the responders, and with responders every such slot's time is handed over, in poll order. No responders means no labels. |
| Progress.ExactLabelsAreExactSlots | main.py:442-444 | On each day every label of the exact test's slots is the time of a poll slot available to exactly the responders. |
| Progress.ExactSlotsAreLabelled | main.py:442-444 | On each day every poll slot available to exactly a nonempty responded set has its time handed over. |
| Scenarios.ExactViableMondayMorning | main.py:99-110 | In the worked example (Monday 9:00, 9:30, 10:00 for {A, B}; 10:30 for A), the exact test for {A, B} keeps 9:00, 9:30 and 10:00. |
| Scenarios.ViableMondayMorning | optimeet.py:103-114 | In the same example the superset test for {A, B} also keeps 9:00, 9:30 and 10:00, and nothing on other days. |
| Scenarios.ThreeBackToBackSlotsGiveTwoHourLongStarts | optimeet.py:132-151 | In that example the current script's window count over the superset test gives a one-hour meeting (`int(60/30) = 2` slots) two start times. |
| Scenarios.ThreeBackToBackSlotsGiveTwoHourLongStartsExact | main.py:99-110 | Over the exact test the same example also has two runs of two. |
| Scenarios.LegacyCountOfTheExample | main.py:112-125 | The older pair count also gives two. |
| Scenarios.GapGivesNoHourLongStart | optimeet.py:143-148 | With viable slots at 9:00 and 10:00 only, no one-hour meeting fits. |

## Left out

- Poll creation (`createWhen2Meet`) is an HTTP request.
- Page scraping in `parseWhen2Meet` depends on the network and on when2meet's markup. The model starts at the per-day lists of scraped quarter-hours.
- Email is left out: sending the initial and reminder emails, and reading the password.
- JSON files and caches are file I/O and process-wide state: the config, the roster, parsed inputs, progress and availability files, and the file-name helpers. The roster is passed as a parameter instead.
- The scheduling loop (`schedule`, `time.sleep`) is left out. Only the progress check job's stop test is modelled.
- Deadlines and overdue logic read the wall clock.
- HTML reports and the interface page only render results.
- The command-line dispatch is left out.
- Time strings: `strptime`/`strftime` parsing and formatting are not modelled; times are minutes.
- `makeWhen2Meets` in the older script is left out. It iterates the characters of labels and sits on the network path.
- `checkProgress` looks up each progress entry's meeting with `next(...)` on the name, which raises `StopIteration` for a name not in the input file. The model starts from the meeting itself.
- The two scripts' `checkProgress` share the responded split (optimeet.py:433-435, main.py:376-378) and the stop test (optimeet.py:547, main.py:479). Their counts differ: the current one is the window count and raises for lengths under 30 minutes (`Progress.CheckProgress`), the older one counts slots or pairs (`Progress.CheckProgressLegacy`). `Progress.StopIffEveryoneResponded` is stated over the older records and `Progress.StopIffEveryoneRespondedIn` over any records with the split's not-responded sets, which `Progress.CheckProgress` promises.
- Resolver.Lower: only ASCII letters are lowercased; Python's full Unicode case mapping is not modelled.
- TimeGrid.HalfHoursIn: Python's `int(x / 30)` goes through a float, which loses precision for lengths beyond 2^53 minutes. The model uses exact truncation.
- InputFile.LoadInputFile: uses the corrected length check (see Findings). The as-written check is `InputFile.ValidateMeetingAsWritten`.
- Error message texts are not modelled, only which check fails and the meeting name or index it reports. The location messages at optimeet.py:250 and optimeet.py:252 lack the `f` prefix and print a literal `{name}`.
- A commitment without `time` or `length` raises `KeyError` at optimeet.py:221-222; the model's commitments always have both.
- A `myCommitments` day that is not a key of `myAvailability` raises `KeyError` at optimeet.py:225; the model's availability always has the seven days and its days are a closed type, so neither this nor extra non-day keys of `myAvailability` (kept by the dict merge at optimeet.py:212-213) can be expressed.
- Meeting and commitment lengths are integers; a non-integer `length` in the JSON is not modelled.
- SubtractDay: with overlapping ranges a day can hold a label twice, and `list.remove` drops the first copy. The contract states the order-preserving subsequence and the multiset difference, not which copy goes; the body does remove first copies (`Seqs.RemoveFirst`, pinned by `Seqs.RemoveFirstAt`).
- SubtractCommitments: states, per day, what SubtractDay states, so it too leaves open which copy of a duplicated label is removed.
- Merge.SortByTime: only the time-ordering and permutation of the sort are stated, not the exact order among slots with equal times. Scraped slots have distinct times.
- Both scripts' raw `available` lists become sets when merged, so duplicate ids in a scraped slot are not modelled separately.
- A day with an odd number of quarter-hours makes the merge read `slots[i+1]` past the end (optimeet.py:89, main.py:85), which raises `IndexError`. The model returns an error for that day (`Merge.MergeDay`) rather than producing a partial grid.
- Progress.FinalAvailability: the guard at optimeet.py:509 takes `len` of `(day, slots)` pairs, which is always 2, so the flag alone decides. `Progress.FallbackGuardIsHarmless` shows the labels are nonetheless those the flag's name describes: when some slot is viable, the best-attended slots are exactly the viable ones.

## Findings

| source | as written | input that shows it | evidently intended | confidence | as-written member | corrected member |
|---|---|---|---|---|---|---|
| optimeet.py:246 | Meeting validation only checks `length % 30 == 0`, so lengths 0, -30, … pass. `numViableMeetingTimes` then computes `int(length/30) <= 0` and indexes past the end of a day's list (optimeet.py:140-141), raising `IndexError` in every progress check. | A meeting `{"name": "standup", "length": 0, "type": "remote", "participants": ["ada"], "remoteLocation": "call"}` | Reject lengths that are not a positive multiple of 30, so every accepted meeting spans at least one half hour and the window count at optimeet.py:135-141 stays inside each day's list | not executed | InputFile.ZeroLengthMeetingPassesValidation | InputFile.ValidatedMeetingSpansAHalfHour |
