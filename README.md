# Meeting free-time finder

A Dafny model of `FindMeetingQuery`, the class that answers a meeting request.
Given a day's calendar events and a request (who must attend, for how many
minutes), `query` returns the stretches of the day in which every requested
attendee is free and the meeting fits. It does this in four stages:

1. `onlyRequestedEvents` keeps the events that some requested attendee
   attends. Attendees are taken in turn, so an event shared by two of them
   is kept twice.
2. `orderEventsbyStartTimes` sorts the events by putting them in a `TreeMap`
   keyed on their start minute. A single event is returned as it is.
3. `checkForOverlaps` makes one pass and fuses overlapping events into
   "Custom Event" events, built by `combineEvents`.
4. `everyAttendeeIsConsidered` walks the result and collects the free time
   before, between and after the events that is at least as long as the
   meeting (`doesRequestFitInFreeTime`). A request longer than the day gets
   nothing. A request with no attendees, or no busy event, gets the whole day.

Each stage is a `method` with the source's loops. Each method is proved equal
to a specification function, and the properties are lemmas about those
functions. The modules follow the stages:

- `TimeRanges`: minutes, `[start, end)` ranges, `fromStartEnd`, the day constants and the two orderings.
- `Events`: events and requests.
- `Filter`: stage 1.
- `Sort`: stage 2.
- `Merge`: stage 3 and `combineEvents`.
- `Gaps`: stage 4.
- `FindMeetingQuery`: `query`.
- `Corrected`: the ordering and merge with the two defects under "## Findings" repaired, and the end-to-end theorem they make possible.

The `TimeRange`, `Event` and `MeetingRequest` classes are not part of this
model. Their behaviour is taken as the walkthrough's library defines it:

- A range is the half-open interval `[start, end)` of minutes.
- `overlaps` means the two ranges share a minute.
- `fromStartEnd(s, e, inclusive)` is `[s, e + 1)` when inclusive and `[s, e)` otherwise.
- `START_OF_DAY` is 0, `END_OF_DAY` is 1439 and `WHOLE_DAY` is `[0, 1440)`.
- `ORDER_BY_START` and `ORDER_BY_END` compare starts and ends.
- Events compare by value.

## Model

| member | source | states |
|---|---|---|
| TimeRanges.FromStartEnd | walkthroughs/week-4-tdd/project/src/main/java/com/google/sps/FindMeetingQuery.java:214 | the range starts at `start`, lasts `end - start` minutes, plus one when `inclusive` (negative when `end` lies before `start`), holds every minute from `start` up to `end`, and holds `end` itself exactly when `inclusive` |
| TimeRanges.OverlapsIffSharedMinute | walkthroughs/week-4-tdd/project/src/main/java/com/google/sps/FindMeetingQuery.java:100 | two non-empty ranges overlap exactly when some minute lies in both |
| TimeRanges.HullOfOverlappingIsUnion | walkthroughs/week-4-tdd/project/src/main/java/com/google/sps/FindMeetingQuery.java:155 | the range from the smaller start to the larger end of two overlapping ranges holds exactly the minutes of the two |
| Filter.AttendedBy | walkthroughs/week-4-tdd/project/src/main/java/com/google/sps/FindMeetingQuery.java:47-51 | an event is in p's list exactly when it is an input event that p attends |
| Filter.RequestedEvents | walkthroughs/week-4-tdd/project/src/main/java/com/google/sps/FindMeetingQuery.java:46-52 | an event is kept exactly when it is an input event that involves a requested attendee (soundness and completeness) |
| Filter.AttendedByMultiplicity | walkthroughs/week-4-tdd/project/src/main/java/com/google/sps/FindMeetingQuery.java:47-51 | p's list holds an event as often as the input does when p attends it, and not at all otherwise |
| Filter.RequestedEventsMultiplicity | walkthroughs/week-4-tdd/project/src/main/java/com/google/sps/FindMeetingQuery.java:46-52 | the kept list holds each event once per requested attendee who attends it, times its multiplicity in the input |
| Filter.AttendedByAll | walkthroughs/week-4-tdd/project/src/main/java/com/google/sps/FindMeetingQuery.java:47-51 | when p attends every event, p's list is the input itself, in order |
| Filter.OneAttendeeAttendingAll | walkthroughs/week-4-tdd/project/src/main/java/com/google/sps/FindMeetingQuery.java:46-52 | a request for one attendee who attends every event keeps the input as it is |
| Filter.RequestedEventsCoverBusy | walkthroughs/week-4-tdd/project/src/main/java/com/google/sps/FindMeetingQuery.java:43-54 | the kept events take up exactly the minutes in which some requested attendee is busy |
| Filter.OnlyRequestedEvents | walkthroughs/week-4-tdd/project/src/main/java/com/google/sps/FindMeetingQuery.java:43-54 | the nested loops build exactly `RequestedEvents`, which holds the input events involving a requested attendee and no others |
| Sort.Put | walkthroughs/week-4-tdd/project/src/main/java/com/google/sps/FindMeetingQuery.java:66 | `TreeMap.put` keyed on start: the entries stay in strictly ascending key order, e is present, and it replaces exactly the entry with its start |
| Sort.TreeMapOf | walkthroughs/week-4-tdd/project/src/main/java/com/google/sps/FindMeetingQuery.java:64-68 | the values read back from the map have strictly ascending starts |
| Sort.PutAfterAll | walkthroughs/week-4-tdd/project/src/main/java/com/google/sps/FindMeetingQuery.java:66 | putting an event that starts after every entry appends it |
| Sort.TreeMapOfInOrder | walkthroughs/week-4-tdd/project/src/main/java/com/google/sps/FindMeetingQuery.java:64-68 | events already in strictly ascending start order come back unchanged |
| Sort.TreeMapOfKeepsEveryStart | walkthroughs/week-4-tdd/project/src/main/java/com/google/sps/FindMeetingQuery.java:64-68 | the map has an entry for each start minute of the input, and for no other |
| Sort.TreeMapOfKeepsLastPerStart | walkthroughs/week-4-tdd/project/src/main/java/com/google/sps/FindMeetingQuery.java:64-68 | each entry is the last input event with its start |
| Sort.OrderEventsByStartTimes | walkthroughs/week-4-tdd/project/src/main/java/com/google/sps/FindMeetingQuery.java:59-69 | a single event is returned unchanged. Otherwise the result has strictly ascending starts, the input's set of starts, and for each start the last input event with it |
| Merge.RemoveFirst | walkthroughs/week-4-tdd/project/src/main/java/com/google/sps/FindMeetingQuery.java:93 | `ArrayList.remove`: one copy of x fewer when x is present, the list unchanged otherwise |
| Merge.RemoveFirstAt | walkthroughs/week-4-tdd/project/src/main/java/com/google/sps/FindMeetingQuery.java:93 | `ArrayList.remove` takes out the first occurrence of x and keeps the elements before and after it in their order |
| Merge.CombineEvents | walkthroughs/week-4-tdd/project/src/main/java/com/google/sps/FindMeetingQuery.java:114-159 | the new event starts at the smaller start and ends at the larger end, is titled "Custom Event", has e0's attendees, and is appended to the list |
| Merge.CombinedCoversBoth | walkthroughs/week-4-tdd/project/src/main/java/com/google/sps/FindMeetingQuery.java:155-156 | the combined event takes up every minute of both events |
| Merge.MergeStep | walkthroughs/week-4-tdd/project/src/main/java/com/google/sps/FindMeetingQuery.java:86-108 | one iteration of the loop keeps the trackers consistent and counts the event |
| Merge.RemoveFirstKeepsOthers | walkthroughs/week-4-tdd/project/src/main/java/com/google/sps/FindMeetingQuery.java:93 | removing an event frees no minute that the event itself does not take up |
| Merge.StepCovers | walkthroughs/week-4-tdd/project/src/main/java/com/google/sps/FindMeetingQuery.java:86-108 | one iteration frees no busy minute and covers the new event |
| Merge.MergedCoversInput | walkthroughs/week-4-tdd/project/src/main/java/com/google/sps/FindMeetingQuery.java:74-112 | every minute taken by an input event is taken by an output event |
| Merge.RunWithoutOverlap | walkthroughs/week-4-tdd/project/src/main/java/com/google/sps/FindMeetingQuery.java:96-107 | without consecutive overlaps, every iteration takes the "no overlap" branch and the list grows by the event |
| Merge.NoOverlapUnchanged | walkthroughs/week-4-tdd/project/src/main/java/com/google/sps/FindMeetingQuery.java:74-112 | an input with no two consecutive overlapping events is returned unchanged |
| Merge.TwoOverlappingCombined | walkthroughs/week-4-tdd/project/src/main/java/com/google/sps/FindMeetingQuery.java:96-103 | two overlapping events come back as the one event that combines them |
| Merge.RunOfTwoOverlapping | walkthroughs/week-4-tdd/project/src/main/java/com/google/sps/FindMeetingQuery.java:86-103 | after two overlapping events, e0 is the built event and e1 the second input |
| Merge.ThirdEventAbsorbed | walkthroughs/week-4-tdd/project/src/main/java/com/google/sps/FindMeetingQuery.java:90-94 | after an overlapping pair, a third event is fused into the pair's combination whether or not it overlaps it |
| Merge.CheckForOverlaps | walkthroughs/week-4-tdd/project/src/main/java/com/google/sps/FindMeetingQuery.java:74-112 | the loop computes `Merged`, frees no busy minute, and returns an input without consecutive overlaps unchanged |
| Gaps.GapsBetweenMembers | walkthroughs/week-4-tdd/project/src/main/java/com/google/sps/FindMeetingQuery.java:195-210 | a range is collected between events exactly when it separates consecutive events that do not meet and the meeting fits in it |
| Gaps.GapsAreCandidates | walkthroughs/week-4-tdd/project/src/main/java/com/google/sps/FindMeetingQuery.java:181-228 | the ranges returned are exactly the free time before the first event, between consecutive events and after the last, kept when the meeting fits (`doesRequestFitInFreeTime`), an exact fit included |
| Gaps.CandidateIsFreeSlot | walkthroughs/week-4-tdd/project/src/main/java/com/google/sps/FindMeetingQuery.java:181-218 | over sorted, disjoint events inside the day, each such range is a maximal free stretch |
| Gaps.GapBeforeIsFree | walkthroughs/week-4-tdd/project/src/main/java/com/google/sps/FindMeetingQuery.java:183-188 | the time before the first event is a maximal free stretch |
| Gaps.GapAtIsFree | walkthroughs/week-4-tdd/project/src/main/java/com/google/sps/FindMeetingQuery.java:197-203 | the time between two consecutive events that do not meet is a maximal free stretch |
| Gaps.GapAfterIsFree | walkthroughs/week-4-tdd/project/src/main/java/com/google/sps/FindMeetingQuery.java:213-218 | the time after the last event, up to and including `END_OF_DAY`, is a maximal free stretch |
| Gaps.FreeSlotIsCandidate | walkthroughs/week-4-tdd/project/src/main/java/com/google/sps/FindMeetingQuery.java:181-218 | over sorted, disjoint events inside the day, each maximal free stretch is one of those ranges |
| Gaps.EventStartingAtSlotEnd | walkthroughs/week-4-tdd/project/src/main/java/com/google/sps/FindMeetingQuery.java:197-203 | a maximal free stretch that ends before the day does ends where an event starts |
| Gaps.EventEndingAtSlotStart | walkthroughs/week-4-tdd/project/src/main/java/com/google/sps/FindMeetingQuery.java:197-203 | a maximal free stretch that starts after minute 0 starts where an event ends |
| Gaps.GapsBetweenEndByLast | walkthroughs/week-4-tdd/project/src/main/java/com/google/sps/FindMeetingQuery.java:195-210 | every gap between events ends by the last event's start |
| Gaps.GapsBetweenStartByFirst | walkthroughs/week-4-tdd/project/src/main/java/com/google/sps/FindMeetingQuery.java:195-210 | every gap between events starts after the first event ends |
| Gaps.GapsBetweenAscending | walkthroughs/week-4-tdd/project/src/main/java/com/google/sps/FindMeetingQuery.java:195-210 | the gaps between sorted, disjoint events come in chronological order |
| Gaps.GapsAscending | walkthroughs/week-4-tdd/project/src/main/java/com/google/sps/FindMeetingQuery.java:181-218 | all the gaps come in chronological order, each ending before the next starts |
| Gaps.FreeSlotOfNothing | walkthroughs/week-4-tdd/project/src/main/java/com/google/sps/FindMeetingQuery.java:170-172 | with no busy event, the one maximal free stretch is the whole day |
| Gaps.AvailableTimesExact | walkthroughs/week-4-tdd/project/src/main/java/com/google/sps/FindMeetingQuery.java:164-220 | for sorted, disjoint events inside the day, the result is exactly the maximal free stretches the meeting fits in, in chronological order |
| Gaps.EveryAttendeeIsConsidered | walkthroughs/week-4-tdd/project/src/main/java/com/google/sps/FindMeetingQuery.java:164-220 | the iterator loop computes `AvailableTimes`. Under the conditions of `AvailableTimesExact` the result is exact and ascending |
| FindMeetingQuery.TooLongRequest | walkthroughs/week-4-tdd/project/src/main/java/com/google/sps/FindMeetingQuery.java:166-168 | a request longer than the day gets no time, whatever the events |
| FindMeetingQuery.UnconstrainedRequest | walkthroughs/week-4-tdd/project/src/main/java/com/google/sps/FindMeetingQuery.java:170-172 | a request with no attendees, or whose attendees have no events, gets the whole day |
| FindMeetingQuery.ConstrainedRequest | walkthroughs/week-4-tdd/project/src/main/java/com/google/sps/FindMeetingQuery.java:26-38 | otherwise the result is the gaps around the merged events, and that list is not empty |
| FindMeetingQuery.MergedNonEmpty | walkthroughs/week-4-tdd/project/src/main/java/com/google/sps/FindMeetingQuery.java:85-88 | a non-empty input leaves at least one event after merging |
| FindMeetingQuery.Query | walkthroughs/week-4-tdd/project/src/main/java/com/google/sps/FindMeetingQuery.java:26-38 | the four stages compute `QueryResult`, with the too-long and whole-day rules |
| Corrected.PutLonger | walkthroughs/week-4-tdd/project/src/main/java/com/google/sps/FindMeetingQuery.java:66 | a put keyed on start that keeps the later-ending event when two share a start: the entries stay in ascending order and come from the map or the event |
| Corrected.PutLongerCovers | walkthroughs/week-4-tdd/project/src/main/java/com/google/sps/FindMeetingQuery.java:66 | that put loses no busy minute and adds only the event's own |
| Corrected.LongestPerStart | walkthroughs/week-4-tdd/project/src/main/java/com/google/sps/FindMeetingQuery.java:64-68 | the corrected map's entries ascend by start and are input events |
| Corrected.LongestPerStartCovers | walkthroughs/week-4-tdd/project/src/main/java/com/google/sps/FindMeetingQuery.java:64-68 | the corrected map's entries take up exactly the minutes of the input events |
| Corrected.PutLongerAfterAll | walkthroughs/week-4-tdd/project/src/main/java/com/google/sps/FindMeetingQuery.java:66 | an event that starts after every entry is appended |
| Corrected.LongestPerStartInOrder | walkthroughs/week-4-tdd/project/src/main/java/com/google/sps/FindMeetingQuery.java:64-68 | events in strictly ascending start order come back unchanged |
| Corrected.OrderedByStartKeepingLongestCovers | walkthroughs/week-4-tdd/project/src/main/java/com/google/sps/FindMeetingQuery.java:59-69 | the corrected ordering ascends by start and keeps exactly the input's busy minutes |
| Corrected.OrderEventsByStartTimesKeepingLongest | walkthroughs/week-4-tdd/project/src/main/java/com/google/sps/FindMeetingQuery.java:59-69 | the corrected ordering as a loop: ascending starts, input events only, the input's busy minutes exactly |
| Corrected.MergeOverlappingCovers | walkthroughs/week-4-tdd/project/src/main/java/com/google/sps/FindMeetingQuery.java:74-112 | the corrected merge takes up exactly the minutes of its input |
| Corrected.MergeOverlappingSortedDisjoint | walkthroughs/week-4-tdd/project/src/main/java/com/google/sps/FindMeetingQuery.java:74-112 | over events inside the day in ascending start order, the corrected merge's blocks are inside the day, sorted and pairwise disjoint |
| Corrected.PrefixInOrder | walkthroughs/week-4-tdd/project/src/main/java/com/google/sps/FindMeetingQuery.java:85 | dropping the last event keeps the rest in order and inside the day |
| Corrected.FuseLast | walkthroughs/week-4-tdd/project/src/main/java/com/google/sps/FindMeetingQuery.java:100-103 | fusing an overlapping event into the last block keeps the blocks sorted and disjoint |
| Corrected.AppendDisjoint | walkthroughs/week-4-tdd/project/src/main/java/com/google/sps/FindMeetingQuery.java:105-106 | appending an event that starts after the last block ends keeps the blocks sorted and disjoint |
| Corrected.MergeOverlappingEvents | walkthroughs/week-4-tdd/project/src/main/java/com/google/sps/FindMeetingQuery.java:74-112 | the corrected merge as a loop that reuses `CombineEvents`: the busy minutes are kept exactly, and the blocks are sorted and disjoint for ordered input |
| Corrected.FreeSlotsFollowCoverage | walkthroughs/week-4-tdd/project/src/main/java/com/google/sps/FindMeetingQuery.java:164-220 | two event lists that take up the same minutes have the same maximal free stretches |
| Corrected.CorrectedQueryExact | walkthroughs/week-4-tdd/project/src/main/java/com/google/sps/FindMeetingQuery.java:26-38 | for events inside the day, the corrected query returns exactly the maximal free stretches of the requested attendees that the meeting fits in, an exact fit included, in chronological order |
| Corrected.QueryCorrected | walkthroughs/week-4-tdd/project/src/main/java/com/google/sps/FindMeetingQuery.java:26-38 | the corrected pipeline, with the stage methods, computes `CorrectedQueryResult` and is exact and ascending |
| Corrected.TwoWithOneStart | walkthroughs/week-4-tdd/project/src/main/java/com/google/sps/FindMeetingQuery.java:64-68 | of two events with one start, the map keeps the second and the corrected map the longer |
| Corrected.OneAttendeeQuery | walkthroughs/week-4-tdd/project/src/main/java/com/google/sps/FindMeetingQuery.java:26-38 | for one attendee who attends every event, the query works on the events themselves |
| Corrected.SameStartDropsLongerEvent | walkthroughs/week-4-tdd/project/src/main/java/com/google/sps/FindMeetingQuery.java:64-68 | for [0,60) then [0,30) and a 30-minute request, the query as written offers [30,1440) although minute 30 is busy, and the corrected query offers [60,1440) |
| Corrected.OneEventFromMidnight | walkthroughs/week-4-tdd/project/src/main/java/com/google/sps/FindMeetingQuery.java:213-218 | one event from minute 0 passes through either merge, and the rest of the day is offered |
| Corrected.PairThenLater | walkthroughs/week-4-tdd/project/src/main/java/com/google/sps/FindMeetingQuery.java:100-106 | the corrected merge keeps an event apart from an overlapping pair it does not overlap |
| Corrected.TwoBlocksFromMidnight | walkthroughs/week-4-tdd/project/src/main/java/com/google/sps/FindMeetingQuery.java:195-218 | with two separated blocks from minute 0, the time between them and after the second is offered |
| Corrected.PairThenLaterBlock | walkthroughs/week-4-tdd/project/src/main/java/com/google/sps/FindMeetingQuery.java:90-94 | as written, the pair and a later disjoint event end up as one block |
| Corrected.PairThenLaterAsWritten | walkthroughs/week-4-tdd/project/src/main/java/com/google/sps/FindMeetingQuery.java:90-94 | so the query as written offers only the time after the third event |
| Corrected.PairThenLaterBlocks | walkthroughs/week-4-tdd/project/src/main/java/com/google/sps/FindMeetingQuery.java:100-106 | the corrected stages keep two blocks |
| Corrected.PairThenLaterCorrected | walkthroughs/week-4-tdd/project/src/main/java/com/google/sps/FindMeetingQuery.java:26-38 | so the corrected query also offers the time between the pair and the third event |
| Corrected.LaterEventAbsorbed | walkthroughs/week-4-tdd/project/src/main/java/com/google/sps/FindMeetingQuery.java:90-94 | for [0,30), [20,40), [100,130) and a 30-minute request, the query as written returns only [130,1440), and the corrected query returns [40,100) and [130,1440) |
| Corrected.PairThenLaterFreeSlot | walkthroughs/week-4-tdd/project/src/main/java/com/google/sps/FindMeetingQuery.java:90-94 | the time between the pair and the third event is a maximal free stretch of the attendee |
| Corrected.MissedSlotIsFree | walkthroughs/week-4-tdd/project/src/main/java/com/google/sps/FindMeetingQuery.java:90-94 | [40,100) is a maximal free stretch that the query as written does not return |

## Left out

- The `TimeRange`, `Event` and `MeetingRequest` classes are not part of this model. Their behaviour is assumed as described above.
- Event identity: the test `e0 == customEvent && customEvent != null` compares references. It is modelled as the flag `e0IsCustom`, because every event `combineEvents` builds is a new object. `ArrayList.remove` is modelled with value equality.
- Iteration order: the request's attendees are a sequence, in the order their collection yields them. The input events are a sequence in their collection's order.
- Merge.CombineEvents: the caller's list is returned with the new event appended, rather than updated in place. Aliasing of that list is not modelled.
- Integer width: Java `int` is not bounded here. All values stay within a day, so no wrap-around can occur.
- `null` arguments and an exhausted iterator are not modelled. The source never reaches the latter.
- The commented-out debug printing in `query` (lines 32-35) is left out.
- Merge.CheckForOverlaps: its contract states that no busy minute is freed, not that exactly the busy minutes are kept. The code as written can mark free minutes busy (see "## Findings").
- FindMeetingQuery.Query: no exactness theorem is stated for the query as written. Both findings below are inputs where it is not exact. The exact statement is `Corrected.CorrectedQueryExact`.
- The servlets, the comment record and the portfolio's JavaScript are outside the meeting finder.

## Findings

| source | as written | input that shows it | evidently intended | confidence | as-written member | corrected member |
|---|---|---|---|---|---|---|
| walkthroughs/week-4-tdd/project/src/main/java/com/google/sps/FindMeetingQuery.java:64-68 | a `TreeMap` keyed on start keeps only the event put last for each start, so the minutes that only a dropped event takes up are reported free | one attendee with [0,60) then [0,30), and a 30-minute request. The result is [30,1440) although the attendee is busy until minute 60 | every requested event's minutes stay busy | not executed | Corrected.SameStartDropsLongerEvent | Corrected.OrderEventsByStartTimesKeepingLongest |
| walkthroughs/week-4-tdd/project/src/main/java/com/google/sps/FindMeetingQuery.java:90-94 | after a combined event, the next event is fused when the previous event overlapped e0, whether or not the new event overlaps anything | one attendee with [0,30), [20,40), [100,130), and a 30-minute request. The result is only [130,1440), and the free [40,100) is missed | an event is fused only into a block it overlaps | not executed | Corrected.LaterEventAbsorbed | Corrected.MergeOverlappingEvents |
