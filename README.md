# Nurse schedule autobalancer, modelled in Dafny

The nurse scheduler keeps a schedule as a flat list of shift assignments
`{staffId, date}` over a horizon of consecutive days. Its autobalancer
(`client/src/utils/autobalance.js`) has three parts:

- **Constraint checks.** Three staffing rules are checked:
  - 3 to 5 staff per day;
  - 3 to 5 shifts per staff member in the trailing seven-day window, clipped at the start of the horizon;
  - no more than 3 consecutive working days once a candidate date is added.
- **Fairness score.** The number of a staff member's preferences whose date is among their assigned dates, as a percentage of their assigned shifts. When no date repeats, this is the share of assigned shifts that were asked for. Two preferences for the same date with one shift on it score 200. One preference for a date assigned twice scores 50.
- **Repair engine.** `autobalanceSchedule` copies the schedule and runs three greedy passes over the copy:
  - daily head-count, repeated up to 10 times;
  - trailing week;
  - consecutive runs.

  Each pass adds shifts with `push` and deletes them with `splice`, and every change counts as one swap.

The Dafny project has these modules:

| module | file | contents |
|---|---|---|
| `Shifts` | `shifts.dfy` | Shifts, day and staff views of a schedule, the roster, `findIndex`/`splice` |
| `Constraints` | `constraints.dfy` | the three checks, with a reference characterisation of the consecutive-run check |
| `Fairness` | `fairness.dfy` | the fairness score |
| `Selectors` | `selectors.dfy` | the four candidate-selection helpers |
| `Edits` | `schedule.dfy` | the working copy as a class with `Push` and `Splice`, plus a ghost log of the edits made to it |
| `Autobalance` | `autobalance.dfy` | the three passes and the whole repair |

Dates are day numbers counted from the first day of the horizon. A horizon
of `n` days holds the dates `0 .. n-1`. `allDates.findIndex` becomes
`Position`, which gives -1 for a date outside the horizon. Sorting canonical
`YYYY-MM-DD` strings orders them like these numbers.

The repair works on a `Schedule` object whose `entries` field the passes
reassign. Each pass also returns a ghost log of the edits it made. The
predicate `Tracks` says that the log replays from the start state to the
current one and that every edit in it was legal:

- an added shift belongs to a roster member;
- it lies in the horizon;
- it is not already scheduled;
- its day has fewer than 5 staff;
- a removed shift is present.

The swap count always equals the length of the log. The lemmas about legal
logs then give the guarantees of the whole repair.

## Model

| member | source | states |
|---|---|---|
| `Shifts.Roster` | client/src/utils/autobalance.js:68 | the roster holds no id twice, holds every staff id of the schedule, and holds nothing else |
| `Shifts.RosterIsStaffIds` | client/src/utils/autobalance.js:68 | an id is in the roster exactly when some shift carries it |
| `Shifts.RosterInFirstAppearanceOrder` | client/src/utils/autobalance.js:68 | roster ids are ordered by their first occurrence in the schedule, the order a `Set` keeps |
| `Shifts.IndexOf` | client/src/utils/autobalance.js:102-105 | `findIndex` returns -1 exactly when the shift is absent, and otherwise its first index |
| `Shifts.RemoveFirst` | client/src/utils/autobalance.js:106-107 | `findIndex` then `splice(index, 1)` deletes exactly one copy of a present shift (length one less, multiset minus that shift) and leaves an absent one alone |
| `Shifts.AssignedIff` | client/src/utils/autobalance.js:188-195 | `assignedStaff.includes(id)` holds exactly when the pair (id, day) is in the schedule |
| `Shifts.DayCountPush` | client/src/utils/autobalance.js:89-92 | a push raises the head-count of the pushed day by one and of no other day |
| `Shifts.DayCountRemove` | client/src/utils/autobalance.js:102-107 | deleting a present shift lowers its day's head-count by one and no other day's |
| `Shifts.StaffDatesDistinct` | client/src/utils/autobalance.js:196 | with no duplicate (staff, date) pair, a staff member's dates are distinct |
| `Constraints.IsValidWeeklyShifts` | client/src/utils/autobalance.js:24-35 | the check passes exactly when 3 to 5 of the staff member's entries, duplicates included, fall in the window `[max(0, i-6), min(n-1, i)]` of the date's position `i` |
| `Constraints.WindowDatesCount` | client/src/utils/autobalance.js:29-32 | the filtered window holds exactly the entries whose position lies in the window |
| `Constraints.WeeklyRequiresDateInHorizon` | client/src/utils/autobalance.js:24-35 | a date outside the horizon is never accepted: `findIndex` gives -1 and the window is empty |
| `Constraints.WeeklyWindowBound` | client/src/utils/autobalance.js:25-32 | the window of day `d` is `[max(0, d-6), d]`, so distinct dates put at most min(7, d+1) shifts in it |
| `Constraints.WeeklyNeverValidOnFirstTwoDays` | client/src/utils/autobalance.js:26-34 | because the window is clipped, the weekly check fails on days 0 and 1 for any staff member without duplicate dates |
| `Constraints.WeeklyIgnoresShiftsOutsideWindow` | client/src/utils/autobalance.js:29-32 | a shift outside the window never changes the weekly verdict |
| `Constraints.SortDates` | client/src/utils/autobalance.js:40 | `.sort()` returns a permutation of the dates: the same multiset |
| `Constraints.SortDatesSorted` | client/src/utils/autobalance.js:40 | the list `.sort()` returns is sorted |
| `Constraints.ChainLong` | client/src/utils/autobalance.js:42-52 | `consecutiveCount` passes 3 exactly at the end of four entries on consecutive positions |
| `Constraints.ScanForRun` | client/src/utils/autobalance.js:42-55 | the counter loop accepts exactly when no four neighbouring sorted entries lie on consecutive positions |
| `Constraints.IsValidConsecutiveShifts` | client/src/utils/autobalance.js:38-56 | the check's result equals `ConsecutiveOk`: no run of four in the sorted dates plus the candidate |
| `Constraints.FourDaysFromRun` | client/src/utils/autobalance.js:40-53 | four neighbouring sorted entries on consecutive positions give a day `d` present, `d+1` and `d+2` once each, and `d+3` present |
| `Constraints.RunFromFourDayRun` | client/src/utils/autobalance.js:40-53 | conversely, such a four-day run in a sorted list sits on four neighbouring entries |
| `Constraints.SortedRunIff` | client/src/utils/autobalance.js:40-53 | in a sorted list, four neighbouring consecutive entries exist exactly when some day `d` is present, `d+1` and `d+2` occur once each, and `d+3` is present |
| `Constraints.ConsecutiveOkIff` | client/src/utils/autobalance.js:38-56 | for horizon dates, the check fails exactly when the dates plus the candidate contain such a four-day run (`FourDayRun`) |
| `Constraints.FourthConsecutiveDayRejected` | client/src/utils/autobalance.js:47-49 | three days in a row are accepted; a fourth is rejected |
| `Constraints.DuplicateDateResetsRun` | client/src/utils/autobalance.js:40-51 | a candidate equal to the second day of an existing four-day run sits twice after sorting and resets the counter, so it is accepted; the first day is still rejected |
| `Fairness.RoundedPercent` | client/src/utils/autobalance.js:15 | `Math.round(100 h / t)` is the integer `r` with `r - 1/2 <= 100 h / t < r + 1/2` |
| `Fairness.CalculateFairness` | client/src/utils/autobalance.js:4-16 | 100 with no preferences or no assigned shifts; otherwise the rounded percentage of honored preferences over the number of assigned shifts |
| `Fairness.HonoredDates` | client/src/utils/autobalance.js:7-9 | the honored count is the number of preferences, repeats included, whose date is among the assigned dates |
| `Fairness.RoundedPercentCap` | client/src/utils/autobalance.js:15 | the rounded percentage is at most 100 when `h <= t`, and exactly 100 when `h == t` |
| `Fairness.HonoredAtMostAssigned` | client/src/utils/autobalance.js:7-13 | with distinct preferred dates, at most one preference per assigned shift is honored; all of them are when every distinct assigned date was preferred |
| `Fairness.FairnessAtMost100` | client/src/utils/autobalance.js:4-16 | with distinct preferred dates the score never exceeds 100 |
| `Fairness.FairnessFullWhenEveryShiftPreferred` | client/src/utils/autobalance.js:11-15 | because the denominator is the shift count, with no preferred date repeated and no assigned date repeated, a staff member whose every shift was preferred scores 100, however many preferences went unmet. Without these hypotheses it fails: one preference and a date assigned twice score 50 (`FairnessRepeatedShift`) |
| `Fairness.FairnessHalfHonored` | client/src/utils/autobalance.js:4-16 | two preferences and two shifts sharing one date score 50 |
| `Fairness.AllHonored` | client/src/utils/autobalance.js:7-9 | when every preference's date is assigned, every preference counts as honored |
| `Fairness.FairnessRepeatedPreference` | client/src/utils/autobalance.js:4-16 | preferences are counted, not shifts: `k` preferences for one date and a single shift on it score `100 k`, so 200 for two |
| `Fairness.FairnessRepeatedShift` | client/src/utils/autobalance.js:4-16 | the denominator counts repeated assigned dates: one preference for a date assigned `m` times scores `100 / m` rounded, so 50 for two |
| `Selectors.CheckCandidate` | client/src/utils/autobalance.js:195-198 | a roster member passes the first scan exactly when not on the day (`Free`) and both the weekly and the consecutive checks accept (`Eligible`) |
| `Selectors.FindBestStaffToAdd` | client/src/utils/autobalance.js:187-213 | `None` exactly when every roster member already works the day; otherwise the first eligible roster member, or the first free one when none is eligible |
| `Selectors.FirstMaxIndex` | client/src/utils/autobalance.js:223-224 | the first element after a stable descending sort: the earliest maximal key |
| `Selectors.FindBestStaffToRemove` | client/src/utils/autobalance.js:216-225 | `None` exactly for an empty day; otherwise the staff id of the earliest day shift whose staff member has the most shifts overall |
| `Selectors.CheckDate` | client/src/utils/autobalance.js:230-245 | a date passes exactly when its day has fewer than 5 staff, the staff member is not on it, and the consecutive check accepts (`CanTake`) |
| `Selectors.FindBestDateToAddShift` | client/src/utils/autobalance.js:228-249 | the first window date the staff member can take, or `None` when no window date qualifies |
| `Selectors.FindBestShiftToRemove` | client/src/utils/autobalance.js:252-263 | `None` exactly for an empty window; otherwise the earliest window shift on a day with the most staff |
| `Edits.Schedule.constructor` | client/src/utils/autobalance.js:63 | the working copy starts equal to the input |
| `Edits.Schedule.Push` | client/src/utils/autobalance.js:89-92 | `push` appends the shift and changes nothing else |
| `Edits.Schedule.Splice` | client/src/utils/autobalance.js:107 | `splice(index, 1)` drops the entry at `index` and keeps the rest in order |
| `Edits.TrackStep` | client/src/utils/autobalance.js:89-93 | one more legal push or splice extends the log by one edit, matching one `swaps++` |
| `Edits.TrackConcat` | client/src/utils/autobalance.js:70-169 | logs of consecutive stretches of work concatenate |
| `Edits.LegalLogKeepsDistinct` | client/src/utils/autobalance.js:187-249 | legal edits never create a duplicate (staff, date) pair, because adds pick only staff or dates not yet paired |
| `Edits.LegalLogBoundsDays` | client/src/utils/autobalance.js:241 | legal edits never lift a day above 5 staff: each day ends with at most max(5, its initial head-count) |
| `Edits.LegalLogStaysInRoster` | client/src/utils/autobalance.js:68 | every shift present after legal edits was in the input, or belongs to a roster member and lies in the horizon |
| `Edits.TracksFacts` | client/src/utils/autobalance.js:59-169 | the three facts above, for any tracked log |
| `Edits.RemovalsShrink` | client/src/utils/autobalance.js:290-295 | a log made only of deletions never adds a shift: every shift occurs at most as often as at the start |
| `Edits.Made` | client/src/utils/autobalance.js:93 | the edits a run of steps made: at most one per step, and exactly the edits of the steps that changed something |
| `Edits.MadeExtend` | client/src/utils/autobalance.js:93 | one more step adds its edit to the end of the made edits, or nothing |
| `Edits.MadeEmpty` | client/src/utils/autobalance.js:93 | no edit was made exactly when every step left the schedule alone |
| `Edits.FollowsExtend` | client/src/utils/autobalance.js:121-168 | applying one more step to the last schedule extends a trace |
| `Edits.FollowsTracks` | client/src/utils/autobalance.js:79-168 | a trace whose every change is legal tracks its made edits from its first schedule to its last |
| `Autobalance.AddDayStaff` | client/src/utils/autobalance.js:85-97 | pushes the staff member `findBestStaffToAdd` picks (the first eligible roster member, else the first free one) onto the day, as one legal edit. Nothing changes exactly when the whole roster already works that day |
| `Autobalance.RemoveDayStaff` | client/src/utils/autobalance.js:98-111 | always deletes a shift: that of the staff member `findBestStaffToRemove` picks, as one legal edit on the day. `findIndex` cannot return -1 here |
| `Autobalance.FixDay` | client/src/utils/autobalance.js:80-112 | fewer than 3 staff takes the add branch and more than 5 the remove branch. The day changes exactly when it is not left alone, that is when it has more than 5 staff, or fewer than 3 while some roster member is off that day. The change is one legal edit on that day. It is a push exactly when the day had fewer than 3 staff, and then it adds the member `findBestStaffToAdd` picks. Otherwise it deletes the shift of the member `findBestStaffToRemove` picks |
| `Autobalance.OnePerDayExtend` | client/src/utils/autobalance.js:79-113 | an edit on a later day than the last one keeps a log at one edit per day, in day order |
| `Autobalance.ValidDaysAreStable` | client/src/utils/autobalance.js:85-112 | a schedule whose every day passes `isValidDayStaffing` is left alone by the daily pass |
| `Autobalance.DayStaffingRepair` | client/src/utils/autobalance.js:85-111 | after one legal push or splice, the day passes `isValidDayStaffing` (lines 19-21) exactly when it had 2 to 4 staff before a push, or 4 to 6 before a splice. So a day of 2 is repaired by one push and a day of 6 by one splice |
| `Autobalance.DayShiftsOtherDay` | client/src/utils/autobalance.js:79-113 | a push or splice of a shift on another day leaves a day's shifts as they were |
| `Autobalance.DayStableByDayShifts` | client/src/utils/autobalance.js:80-97 | whether a day is left alone depends only on that day's shifts |
| `Autobalance.DayStepsExtend` | client/src/utils/autobalance.js:79-113 | the next day's step, taken on the schedule the earlier days left, extends a scan's trace |
| `Autobalance.DayUntouched` | client/src/utils/autobalance.js:79-113 | the steps of earlier days leave a later day's shifts exactly as they were at the start of the scan |
| `Autobalance.StepOnItsDay` | client/src/utils/autobalance.js:79-113 | step `j` of a scan is applied to the schedule the earlier steps left, and any edit it makes is dated day `j` |
| `Autobalance.ScanSeesStart` | client/src/utils/autobalance.js:79-113 | a scan edits a day it visits exactly when that day was not left alone at the start of the scan |
| `Autobalance.DailyStep` | client/src/utils/autobalance.js:80-112 | one day of a scan extends the scan's trace by that day's step: nothing when the day is left alone, otherwise the `FixDay` repair of that day on the current schedule. The log stays the edits of the steps, one per changed day in day order, and the swap count grows by at most one |
| `Autobalance.DailyScan` | client/src/utils/autobalance.js:79-113 | one scan takes one step per day from day 0, and it stops early only at 50 swaps. Each step is nothing when the day is left alone on the current schedule, and otherwise that day's repair. The log is exactly the edits of the steps. A visited day is edited exactly when it was not left alone at the start of the scan. The scan changes nothing exactly when every day is left alone, so also when every day passes `isValidDayStaffing` |
| `Autobalance.DailyPass` | client/src/utils/autobalance.js:71-114 | 1 to 10 scans, at most 50 swaps, one logged edit per swap, all inside the horizon. It ends settled, at 50 swaps or after 10 scans. It makes no swap exactly when every day is left alone, and then it takes one scan. A schedule whose days are all valid therefore takes one scan and no swap. Every scan but the last makes a change, so there are at most swaps + 1 scans |
| `Autobalance.WeekShiftsMatchWeeklyCheck` | client/src/utils/autobalance.js:117-127 | the week pass counts exactly the shifts `isValidWeeklyShifts` counts, so it acts exactly where that check fails |
| `Autobalance.AddWeekShift` | client/src/utils/autobalance.js:128-137 | pushes the staff member onto the date `findBestDateToAddShift` picks, as one legal edit. Nothing changes exactly when no date of the window can be taken |
| `Autobalance.RemoveWeekShift` | client/src/utils/autobalance.js:138-150 | always deletes a window shift: the one `findBestShiftToRemove` picks, as one legal edit. `findIndex` cannot return -1 here |
| `Autobalance.FixWeek` | client/src/utils/autobalance.js:121-150 | below 3 shifts in the week it adds the selected date, above 5 it removes the selected shift, each inside the week. It changes the schedule exactly when the pair is not settled: above 5 shifts, or below 3 with a date the staff member can take. Any change means `isValidWeeklyShifts` fails for that day |
| `Autobalance.WeekStepsExtend` | client/src/utils/autobalance.js:121-151 | the next roster member's step, taken on the schedule the earlier members left, extends the day's trace |
| `Autobalance.WeeklyStep` | client/src/utils/autobalance.js:121-150 | one roster member of a day of pass 2 extends the day's trace by that member's step: nothing when the pair is settled on the current schedule, otherwise the `FixWeek` repair. The log stays the edits of the steps, inside the week, and the swap count grows by at most one |
| `Autobalance.WeeklyDay` | client/src/utils/autobalance.js:121-151 | one day of pass 2 takes exactly one step per roster member, in roster order, each on the schedule the previous members left. Each step is nothing when the pair is settled, otherwise its `FixWeek` repair. So it makes at most one swap per roster member, and the log is exactly the edits of the steps, each inside the week ending that day. It makes none exactly when every roster member is settled for that week at the start of the day |
| `Autobalance.WeeklyPassDay` | client/src/utils/autobalance.js:118-151 | one iteration of the pass 2 day loop, started below 50 swaps: it runs `WeeklyDay` on the day and extends the pass's day-by-day record by that day. The swap count grows by at most the roster size, and the log stays legal with every edit dated no later than that day |
| `Autobalance.WeeklyPass` | client/src/utils/autobalance.js:117-152 | pass 2 runs whole days from day 0 (`PassRun`). Each day is a full roster of steps as `WeeklyDay` describes, and a day starts only below 50 swaps. The pass stops at the end of the horizon or at the first day that would start at 50 or more. So it ends at most at max(start, 49 + roster size). Every edit lies inside the horizon. Starting below 50, it makes no swap exactly when every roster member is settled for every week of the horizon, and then the schedule is unchanged |
| `Autobalance.LongestChain` | client/src/utils/autobalance.js:272-285 | `maxConsecutive` is at least 1 and exceeds 3 exactly when four neighbouring sorted entries lie on consecutive positions |
| `Autobalance.MaxChain` | client/src/utils/autobalance.js:273-284 | the running `maxConsecutive` up to index `i` is at least the counter at `i` |
| `Autobalance.MaxChainLong` | client/src/utils/autobalance.js:273-284 | `maxConsecutive` up to index `i` exceeds 3 exactly when a four-entry run ends at or before `i` |
| `Autobalance.LongestRun` | client/src/utils/autobalance.js:266-285 | the longest run of the staff member's dates plus the candidate exceeds 3 exactly when `isValidConsecutiveShifts` fails |
| `Autobalance.FixConsecutiveShifts` | client/src/utils/autobalance.js:266-301 | returns true exactly when the consecutive check fails and the staff member works that date; then exactly that one shift is deleted, otherwise nothing changes |
| `Autobalance.FixRun` | client/src/utils/autobalance.js:159-167 | pass 3 for one staff member and day deletes that pair's shift, as one legal edit, exactly when the pair is not settled: the consecutive check fails and the shift exists |
| `Autobalance.RunStepsExtend` | client/src/utils/autobalance.js:158-168 | the next roster member's step, taken on the schedule the earlier members left, extends the day's trace |
| `Autobalance.ConsecutiveStep` | client/src/utils/autobalance.js:158-167 | one roster member of a day of pass 3 extends the day's trace by that member's step: nothing when the pair is settled on the current schedule, otherwise the deletion of that pair's shift. The log stays the edits of the steps, all deletions on that day, and the swap count grows by at most one |
| `Autobalance.ConsecutiveDay` | client/src/utils/autobalance.js:158-168 | one day of pass 3 takes exactly one step per roster member, in roster order, each on the schedule the previous members left. Each step is nothing when the member passes the check or is off that day, otherwise the deletion of that member's shift on the day. So it makes at most one swap per roster member, and the multiset of shifts shrinks. It makes none exactly when every roster member passes the check or is off that day at the start of the day |
| `Autobalance.ConsecutivePassDay` | client/src/utils/autobalance.js:156-168 | one iteration of the pass 3 day loop, started below 50 swaps: it runs `ConsecutiveDay` on the day and extends the pass's day-by-day record by that day. The swap count grows by at most the roster size, and the log stays legal, all deletions dated no later than that day |
| `Autobalance.ConsecutivePass` | client/src/utils/autobalance.js:155-169 | pass 3 runs whole days from day 0 (`PassRun`). Each day is a full roster of steps as `ConsecutiveDay` describes, and a day starts only below 50 swaps. The pass only deletes shifts, on horizon days, and ends at most at max(start, 49 + roster size) swaps. Starting below 50, it makes no swap exactly when on every horizon day every roster member passes the consecutive check or is off, and then the schedule is unchanged |
| `Autobalance.StepSettled` | client/src/utils/autobalance.js:121-168 | a roster member's step in pass 2 or 3 is applied to the schedule the earlier members left, and leaves it alone exactly when the member is settled on it |
| `Autobalance.DayQuiet` | client/src/utils/autobalance.js:121-168 | a day of pass 2 or 3 never lowers the swap count. It makes no swap exactly when every roster member is settled at the start of the day, and then the schedule is unchanged |
| `Autobalance.PassDaysExtend` | client/src/utils/autobalance.js:117-169 | one more whole day, started below 50 swaps, extends the day-by-day record of pass 2 or pass 3 |
| `Autobalance.LastDayRan` | client/src/utils/autobalance.js:117-169 | a whole day run from the end of a record, below 50 swaps, is the last day of the longer record |
| `Autobalance.PassDaysAppend` | client/src/utils/autobalance.js:117-169 | the record of pass 2 or 3 grows by the day just run and keeps its first day |
| `Autobalance.QuietDays` | client/src/utils/autobalance.js:117-169 | every recorded day keeps the swap count from dropping, and makes no swap exactly when every roster member is settled that day |
| `Autobalance.PassQuiet` | client/src/utils/autobalance.js:117-169 | over the first `j` days of a pass the count never drops. No swap was made exactly when every roster member was settled on every one of those days at the start, and then the schedule is unchanged |
| `Autobalance.PassOutcome` | client/src/utils/autobalance.js:117-169 | a record that ran to the end of the horizon or to 50 swaps is a `PassRun`. Started below 50, it makes no swap exactly when every roster member is settled on every horizon day, and then the schedule is unchanged |
| `Autobalance.RunPasses` | client/src/utils/autobalance.js:70-169 | the three passes in order: every swap is one legal logged edit inside the horizon, and the total is at most max(50, 49 + roster size). The log splits into the passes' logs. Pass 1 makes at most 50 changes, and none exactly when every day is left alone. Passes 2 and 3 run day by day from the schedule the previous pass left (`PassRun`). Pass 3 only deletes. A schedule that all three passes leave alone comes back unchanged with no swaps |
| `Autobalance.RepairFacts` | client/src/utils/autobalance.js:59-183 | for the repair's log: no day above max(5, its initial head-count), no duplicate pair created, new shifts only for staff already scheduled and inside the horizon |
| `Autobalance.AutobalanceSchedule` | client/src/utils/autobalance.js:59-184 | the input is unchanged and the result is a fresh copy. The swap count equals the number of legal edits and is at most max(50, 49 + roster size). The RepairFacts properties hold. The per-pass facts of RunPasses hold for the roster of the input, including the day-by-day runs of passes 2 and 3. An input that all three passes leave alone is returned unchanged with no swaps |

Although `maxSwaps` is 50, the count the code returns can exceed it. Passes
2 and 3 test `swaps < maxSwaps` only before each day, and then work
through the whole roster. The model proves the bound the code gives,
max(50, 49 + number of staff ids).

A schedule that all three passes leave alone comes back unchanged. A
schedule that passes the three checks over every full week need not be
such a schedule. The weekly window of days 0 and 1 is clipped to one or two
days, so `isValidWeeklyShifts` fails there for every staff member without
duplicate dates (`WeeklyNeverValidOnFirstTwoDays`). When pass 2 starts
below 50 swaps, a roster member who is off on day 0 and can still take it
when their turn comes gets a day-0 shift. A schedule whose first two days
are already full (5 staff each) gives pass 2 nothing to add there, and can
come back unchanged.

## Left out

- Logging: the `console.log`/`console.warn` calls and the final debug scan of daily head-counts (client/src/utils/autobalance.js:171-182) produce no result and are not modelled.
- `autobalanceSchedule`'s `staffPreferences` argument is never read, so the model omits it.
- Dates: `formatDateForAPI` and JavaScript `Date` parsing are not part of this model; client/src/utils/dateUtils.js is not part of this model. Dates are day numbers, so its `throw` on a non-date argument cannot occur.
- Horizon: `allDates` is taken to be the `n` consecutive days starting at day 0, so `allDates[i]` is day `i`.
- Fairness.CalculateFairness: `Math.round` on a floating-point quotient becomes exact integer rounding with halves rounded up. A float product that lands just below a half is not modelled.
- Selectors.FindBestStaffToRemove: the code's `?.staffId || null` and the caller's `if (bestToRemove)` (client/src/utils/autobalance.js:101) treat a falsy staff id (`0` or `""`) as "none found". The model treats every staff id as present.
- Selectors.FindBestStaffToAdd and Autobalance.AddDayStaff: the caller's `if (bestCandidate)` (client/src/utils/autobalance.js:88) skips a falsy staff id (`0` or `""`) as if no one were found. The model adds that staff member.
- Selectors.FirstMaxIndex: the model takes the first maximal element, which assumes a stable `Array.prototype.sort`, as ECMAScript 2019 and later require.
- Autobalance.DailyPass: when it stops at 50 swaps or after 10 scans, the contract does not say which days are still out of range.
- Autobalance.DailyPass: the contract does not list its scans one by one. Each scan's day-by-day steps are stated by DailyScan, and the pass states only the totals and the no-change case.
- Autobalance.WeeklyPass and Autobalance.ConsecutivePass: the contracts record each day's steps but do not summarise the end state. They do not say that a week or run still invalid at the end was unfixable.
- Autobalance.RunPasses and Autobalance.AutobalanceSchedule: they do not promise that the returned schedule satisfies the three rules, and the code does not guarantee it either. They state the swap bound, legality, the per-pass shape of the log, the day-by-day runs of passes 2 and 3 and the RepairFacts properties.
- Ghost log: the edit log exists only in the proof. The code keeps just the counter `swaps`.
- The UI and network layers are not part of this model: client/src/App.js, client/src/components/NurseDetails.js and server/index.js.
