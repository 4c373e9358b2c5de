/** `autobalanceSchedule`: three greedy repair passes over a copy of the
    schedule (daily head-count, trailing week, consecutive run), each of which
    changes the copy one `push` or `splice` at a time and counts every change
    as a swap. */
module Autobalance {
  import opened Shifts
  import opened Constraints
  import opened Selectors
  import opened Edits

  /** `maxSwaps`: the passes stop starting new work once this many changes were made. */
  const MaxSwaps: nat := 50

  /** `maxIterations`: the cap on full scans of the daily pass. */
  const MaxIterations: nat := 10

  // ---------------------------------------------------------------------
  // Pass 1: daily head-count

  /** A day the daily pass leaves alone: at most 5 staff, and when fewer
      than 3, every roster member already works it. */
  predicate DayStable(entries: seq<Shift>, d: Date, roster: seq<StaffId>)
  {
    DayCount(entries, d) <= 5
    && (DayCount(entries, d) < 3 ==> forall k :: 0 <= k < |roster| ==> !Free(entries, roster[k], d))
  }

  /** Every horizon day before `upTo` is left alone by the daily pass. */
  predicate StableBefore(entries: seq<Shift>, upTo: int, roster: seq<StaffId>)
  {
    forall d :: 0 <= d < upTo ==> DayStable(entries, d, roster)
  }

  /** Every horizon day satisfies `isValidDayStaffing`. */
  predicate AllDaysValid(entries: seq<Shift>, n: nat)
  {
    forall d :: 0 <= d < n ==> IsValidDayStaffing(DayShifts(entries, d))
  }

  /** A schedule whose every horizon day passes `isValidDayStaffing` is
      left alone by the daily pass. */
  lemma ValidDaysAreStable(entries: seq<Shift>, n: nat, roster: seq<StaffId>)
    requires AllDaysValid(entries, n)
    ensures StableBefore(entries, n, roster)
  {
    forall d | 0 <= d < n ensures DayStable(entries, d, roster) {
      assert IsValidDayStaffing(DayShifts(entries, d));
    }
  }

  /** The passes change a day one shift at a time. After one legal change
      its day passes `isValidDayStaffing` exactly when the day had 2 to 4
      staff before a `push`, or 4 to 6 before a `splice`: a day of 2 is
      repaired by one push and a day of 6 by one splice. */
  lemma DayStaffingRepair(entries: seq<Shift>, e: Edit, roster: seq<StaffId>, n: nat)
    requires LegalEdit(entries, e, roster, n)
    ensures var before := DayCount(entries, e.shift.date);
      IsValidDayStaffing(DayShifts(Apply(entries, e), e.shift.date))
      <==> (if e.Added? then 2 <= before <= 4 else 4 <= before <= 6)
  {
    match e
    case Added(x) => DayCountPush(entries, x, x.date);
    case Removed(x) => DayCountRemove(entries, x, x.date);
  }

  /** The edits of `log` lie on days of `[lo, hi)`, at most one per day,
      in day order. */
  predicate OnePerDay(log: seq<Edit>, lo: int, hi: int)
  {
    (forall i, j :: 0 <= i < j < |log| ==> log[i].shift.date < log[j].shift.date)
    && (forall i :: 0 <= i < |log| ==> lo <= log[i].shift.date < hi)
  }

  /** An edit inside `[lo, hi)` on a later day than the last edit of a
      one-per-day log extends it. */
  lemma OnePerDayExtend(log: seq<Edit>, e: Edit, lo: int, hi: int)
    requires OnePerDay(log, lo, hi) && lo <= e.shift.date < hi
    requires log != [] ==> log[|log| - 1].shift.date < e.shift.date
    ensures OnePerDay(log + [e], lo, hi)
  {
    var log' := log + [e];
    forall i, j | 0 <= i < j < |log'| ensures log'[i].shift.date < log'[j].shift.date {
      if j == |log| {
        assert log'[i] == log[i];
        if i < |log| - 1 {
          assert log[i].shift.date < log[|log| - 1].shift.date;
        }
      } else {
        assert log'[i] == log[i] && log'[j] == log[j];
      }
    }
  }

  /** The edit the daily pass makes on an unstable day `d`: below 3 staff,
      the staff member `findBestStaffToAdd` picks is added; otherwise the
      shift of the staff member `findBestStaffToRemove` picks is deleted.
      Either is a legal edit on day `d`. */
  predicate DayRepair(entries: seq<Shift>, d: Date, n: nat, roster: seq<StaffId>, e: Edit)
  {
    e.shift.date == d && LegalEdit(entries, e, roster, n)
    && (e.Added? <==> DayCount(entries, d) < 3)
    && (e.Added? ==> BestToAdd(entries, d, n, roster, e.shift.staffId))
    && (e.Removed? ==> Some(e.shift.staffId) == FindBestStaffToRemove(entries, DayShifts(entries, d)))
  }

  /** One step of a pass-1 scan on day `d`: nothing when the day is
      `DayStable`, otherwise its repair. */
  predicate DayStep(entries: seq<Shift>, step: Option<Edit>, d: Date, n: nat, roster: seq<StaffId>)
  {
    (step.None? <==> DayStable(entries, d, roster))
    && (step.Some? ==> DayRepair(entries, d, n, roster, step.value))
  }

  /** `steps[d]` is a scan's step on day `d`, and `trace` the schedules in
      between: the horizon days in order, each seeing the schedule the
      earlier days left. */
  predicate DaySteps(trace: seq<seq<Shift>>, steps: seq<Option<Edit>>, n: nat, roster: seq<StaffId>)
  {
    Follows(trace, steps) && |steps| <= n
    && forall d {:trigger steps[d]} :: 0 <= d < |steps| ==> DayStep(trace[d], steps[d], d, n, roster)
  }

  /** The next day's step extends a scan's trace. */
  lemma DayStepsExtend(trace: seq<seq<Shift>>, steps: seq<Option<Edit>>, step: Option<Edit>, n: nat, roster: seq<StaffId>)
    requires DaySteps(trace, steps, n, roster) && |steps| < n
    requires DayStep(trace[|steps|], step, |steps|, n, roster)
    ensures DaySteps(trace + [ApplyStep(trace[|steps|], step)], steps + [step], n, roster)
  {
    var k := |steps|;
    var trace', steps' := trace + [ApplyStep(trace[k], step)], steps + [step];
    FollowsExtend(trace, steps, step);
    forall d | 0 <= d < k + 1 ensures DayStep(trace'[d], steps'[d], d, n, roster) {
      if d < k {
        assert trace'[d] == trace[d] && steps'[d] == steps[d];
      }
    }
  }

  /** An edit on another day leaves the shifts of day `d` as they were. */
  lemma DayShiftsOtherDay(entries: seq<Shift>, e: Edit, d: Date)
    requires e.shift.date != d
    ensures DayShifts(Apply(entries, e), d) == DayShifts(entries, d)
  {
    match e
    case Added(x) =>
      FilterConcat(entries, [x], OnDate(d));
      assert [x][1..] == [];
    case Removed(x) =>
      if x in entries {
        FilterSkipAt(entries, IndexOf(entries, x), OnDate(d));
      }
  }

  /** Whether the daily pass leaves day `d` alone depends only on the
      shifts of that day: its head-count and who works it. */
  lemma DayStableByDayShifts(a: seq<Shift>, b: seq<Shift>, d: Date, roster: seq<StaffId>)
    requires DayShifts(a, d) == DayShifts(b, d)
    ensures DayStable(a, d, roster) == DayStable(b, d, roster)
  {
    forall k | 0 <= k < |roster| ensures Free(a, roster[k], d) == Free(b, roster[k], d) {
      AssignedIff(a, roster[k], d);
      AssignedIff(b, roster[k], d);
    }
  }

  /** The steps of a scan before day `d` leave the shifts of day `d` as
      they were at the start of the scan. */
  lemma {:induction false} DayUntouched(trace: seq<seq<Shift>>, steps: seq<Option<Edit>>, n: nat, roster: seq<StaffId>, d: nat, j: nat)
    requires DaySteps(trace, steps, n, roster) && j <= d < |steps|
    ensures DayShifts(trace[j], d) == DayShifts(trace[0], d)
    decreases j
  {
    if j > 0 {
      DayUntouched(trace, steps, n, roster, d, j - 1);
      StepOnItsDay(trace, steps, n, roster, j - 1);
      if steps[j - 1].Some? {
        DayShiftsOtherDay(trace[j - 1], steps[j - 1].value, d);
      }
    }
  }

  /** A scan edits each day it visits exactly when that day was not left
      alone at the start of the scan. */
  lemma ScanSeesStart(trace: seq<seq<Shift>>, steps: seq<Option<Edit>>, n: nat, roster: seq<StaffId>)
    requires DaySteps(trace, steps, n, roster)
    ensures forall d :: 0 <= d < |steps| ==> (steps[d].None? <==> DayStable(trace[0], d, roster))
  {
    forall d | 0 <= d < |steps| ensures steps[d].None? <==> DayStable(trace[0], d, roster) {
      DayUntouched(trace, steps, n, roster, d, d);
      DayStableByDayShifts(trace[d], trace[0], d, roster);
      assert DayStep(trace[d], steps[d], d, n, roster);
    }
  }

  /** Step `j` of a scan edits day `j` only. */
  lemma StepOnItsDay(trace: seq<seq<Shift>>, steps: seq<Option<Edit>>, n: nat, roster: seq<StaffId>, j: nat)
    requires DaySteps(trace, steps, n, roster) && j < |steps|
    ensures trace[j + 1] == ApplyStep(trace[j], steps[j])
    ensures steps[j].Some? ==> steps[j].value.shift.date == j
  {
    assert DayStep(trace[j], steps[j], j, n, roster);
  }

  /** The add branch of the daily pass: an understaffed day gets the staff
      member `findBestStaffToAdd` picks; nothing changes only when the whole
      roster already works that day. */
  method AddDayStaff(schedule: Schedule, currentDate: Date, n: nat, allStaffIds: seq<StaffId>)
    returns (changed: bool, ghost e: Edit)
    requires 0 <= currentDate < n && DayCount(schedule.entries, currentDate) < 3
    modifies schedule
    ensures changed ==>
      e.Added? && e.shift.date == currentDate
      && BestToAdd(old(schedule.entries), currentDate, n, allStaffIds, e.shift.staffId)
      && LegalEdit(old(schedule.entries), e, allStaffIds, n) && schedule.entries == Apply(old(schedule.entries), e)
    ensures !changed ==> schedule.entries == old(schedule.entries)
    ensures !changed <==> forall k :: 0 <= k < |allStaffIds| ==> !Free(old(schedule.entries), allStaffIds[k], currentDate)
  {
    changed := false;
    // `e` names the edit only when `changed`; this value is never used.
    e := Added(Shift(0, currentDate));
    var bestCandidate := FindBestStaffToAdd(schedule.entries, currentDate, n, allStaffIds);
    if bestCandidate.Some? {
      e := Added(Shift(bestCandidate.value, currentDate));
      schedule.Push(Shift(bestCandidate.value, currentDate));
      changed := true;
    }
  }

  /** The remove branch of the daily pass: an overstaffed day loses the
      shift of the staff member `findBestStaffToRemove` picks. That staff
      member works the day, so a shift is always deleted. */
  method RemoveDayStaff(schedule: Schedule, currentDate: Date, n: nat, allStaffIds: seq<StaffId>, dayShifts: seq<Shift>)
    returns (changed: bool, ghost e: Edit)
    requires dayShifts == DayShifts(schedule.entries, currentDate) && |dayShifts| > 5
    modifies schedule
    ensures changed
    ensures e.Removed? && e.shift.date == currentDate
      && Some(e.shift.staffId) == FindBestStaffToRemove(old(schedule.entries), dayShifts)
      && LegalEdit(old(schedule.entries), e, allStaffIds, n) && schedule.entries == Apply(old(schedule.entries), e)
  {
    changed := false;
    var bestToRemove := FindBestStaffToRemove(schedule.entries, dayShifts);
    ghost var k: nat :| k < |dayShifts| && dayShifts[k].staffId == bestToRemove.value;
    assert dayShifts[k] in dayShifts;
    assert dayShifts[k] == Shift(bestToRemove.value, currentDate) && dayShifts[k] in schedule.entries;
    e := Removed(Shift(bestToRemove.value, currentDate));
    var index := IndexOf(schedule.entries, Shift(bestToRemove.value, currentDate));
    assert index != -1;
    if index != -1 {
      schedule.Splice(index);
      changed := true;
    }
  }

  /** The daily pass on one day: fewer than 3 staff calls the add branch,
      more than 5 the remove branch. It changes the schedule exactly when
      the day is not `DayStable`, and then by one legal edit on that day. */
  method FixDay(schedule: Schedule, currentDate: Date, n: nat, allStaffIds: seq<StaffId>)
    returns (changed: bool, ghost e: Edit)
    requires 0 <= currentDate < n
    modifies schedule
    ensures changed <==> !DayStable(old(schedule.entries), currentDate, allStaffIds)
    ensures changed ==>
      DayRepair(old(schedule.entries), currentDate, n, allStaffIds, e) && schedule.entries == Apply(old(schedule.entries), e)
    ensures !changed ==> schedule.entries == old(schedule.entries)
  {
    var dayShifts := DayShifts(schedule.entries, currentDate);
    changed := false;
    // `e` names the edit only when `changed`; this value is never used.
    e := Removed(Shift(0, currentDate));
    if |dayShifts| < 3 {
      changed, e := AddDayStaff(schedule, currentDate, n, allStaffIds);
    } else if |dayShifts| > 5 {
      changed, e := RemoveDayStaff(schedule, currentDate, n, allStaffIds, dayShifts);
    }
  }

  /** One day of a pass-1 scan that started from `start`: `FixDay` on
      `dayIndex`, counting and logging its change. It keeps the scan's
      invariant: an unchanged scan so far has found every earlier day left
      alone, a schedule whose days are all left alone stays unchanged, and
      the log holds at most one change per day, in day order. */
  method DailyStep(schedule: Schedule, dayIndex: Date, n: nat, allStaffIds: seq<StaffId>, ghost start: seq<Shift>,
                   swaps0: nat, swaps: nat, fixed: bool,
                   ghost log: seq<Edit>, ghost trace: seq<seq<Shift>>, ghost steps: seq<Option<Edit>>)
    returns (swaps': nat, fixed': bool, ghost log': seq<Edit>, ghost trace': seq<seq<Shift>>, ghost steps': seq<Option<Edit>>)
    requires 0 <= dayIndex < n && swaps0 <= swaps
    requires |steps| == dayIndex && DaySteps(trace, steps, n, allStaffIds)
    requires trace[0] == start && trace[dayIndex] == schedule.entries && log == Made(steps)
    requires |log| == swaps - swaps0 && Tracks(start, log, schedule.entries, allStaffIds, n)
    requires fixed <==> swaps == swaps0
    requires OnePerDay(log, 0, n) && (log != [] ==> log[|log| - 1].shift.date < dayIndex)
    modifies schedule
    ensures swaps <= swaps' <= swaps + 1
    ensures |steps'| == dayIndex + 1 && DaySteps(trace', steps', n, allStaffIds)
    ensures trace'[0] == start && trace'[dayIndex + 1] == schedule.entries && log' == Made(steps')
    ensures |log'| == swaps' - swaps0 && Tracks(start, log', schedule.entries, allStaffIds, n)
    ensures fixed' <==> swaps' == swaps0
    ensures OnePerDay(log', 0, n) && (log' != [] ==> log'[|log'| - 1].shift.date < dayIndex + 1)
  {
    ghost var before := schedule.entries;
    var changed, e := FixDay(schedule, dayIndex, n, allStaffIds);
    ghost var step := if changed then Some(e) else None;
    assert DayStep(before, step, dayIndex, n, allStaffIds);
    assert schedule.entries == ApplyStep(before, step);
    DayStepsExtend(trace, steps, step, n, allStaffIds);
    MadeExtend(steps, step);
    trace', steps' := trace + [schedule.entries], steps + [step];
    swaps', fixed', log' := swaps, fixed, log;
    if changed {
      OnePerDayExtend(log, e, 0, n);
      TrackStep(start, log, before, e, allStaffIds, n);
      log' := log + [e];
      swaps' := swaps + 1;
      fixed' := false;
    }
  }

  /** One scan of pass 1: `FixDay` on each horizon day in order, stopping
      once `MaxSwaps` changes were made. `fixed` is the scan having changed
      nothing, which happens exactly when every horizon day is left alone;
      the log holds at most one change per day, in day order. */
  method DailyScan(schedule: Schedule, n: nat, allStaffIds: seq<StaffId>, swaps0: nat)
    returns (swaps: nat, fixed: bool, ghost log: seq<Edit>, ghost trace: seq<seq<Shift>>, ghost steps: seq<Option<Edit>>)
    requires swaps0 < MaxSwaps
    modifies schedule
    ensures DaySteps(trace, steps, n, allStaffIds) && (|steps| < n ==> swaps == MaxSwaps)
    ensures trace[0] == old(schedule.entries) && trace[|steps|] == schedule.entries && log == Made(steps)
    ensures forall d :: 0 <= d < |steps| ==> (steps[d].None? <==> DayStable(old(schedule.entries), d, allStaffIds))
    ensures swaps0 <= swaps <= MaxSwaps && swaps <= swaps0 + n
    ensures |log| == swaps - swaps0 && Tracks(old(schedule.entries), log, schedule.entries, allStaffIds, n)
    ensures fixed <==> swaps == swaps0
    ensures fixed ==> schedule.entries == old(schedule.entries) && StableBefore(schedule.entries, n, allStaffIds)
    ensures StableBefore(old(schedule.entries), n, allStaffIds) ==> fixed
    ensures AllDaysValid(old(schedule.entries), n) ==> fixed
    ensures OnePerDay(log, 0, n)
  {
    ghost var start := schedule.entries;
    swaps := swaps0;
    fixed := true;
    log := [];
    trace, steps := [schedule.entries], [];
    var dayIndex := 0;
    while dayIndex < n && swaps < MaxSwaps
      invariant 0 <= dayIndex <= n
      invariant |steps| == dayIndex && DaySteps(trace, steps, n, allStaffIds)
      invariant trace[0] == start && trace[dayIndex] == schedule.entries && log == Made(steps)
      invariant swaps0 <= swaps <= MaxSwaps && swaps <= swaps0 + dayIndex
      invariant |log| == swaps - swaps0 && Tracks(start, log, schedule.entries, allStaffIds, n)
      invariant fixed <==> swaps == swaps0
      invariant OnePerDay(log, 0, n) && (log != [] ==> log[|log| - 1].shift.date < dayIndex)
    {
      swaps, fixed, log, trace, steps := DailyStep(schedule, dayIndex, n, allStaffIds, start, swaps0, swaps, fixed, log, trace, steps);
      dayIndex := dayIndex + 1;
    }
    ScanOutcome(trace, steps, n, allStaffIds, swaps0, swaps);
  }

  /** What a whole scan shows about the schedule it started from: a
      visited day is edited exactly when it was not left alone, and the
      scan changes nothing exactly when every horizon day is left alone,
      in particular when every day passes `isValidDayStaffing`. */
  lemma ScanOutcome(trace: seq<seq<Shift>>, steps: seq<Option<Edit>>, n: nat, roster: seq<StaffId>, swaps0: int, swaps: int)
    requires DaySteps(trace, steps, n, roster) && |Made(steps)| == swaps - swaps0
    requires swaps0 < MaxSwaps && (|steps| < n ==> swaps == MaxSwaps)
    ensures forall d :: 0 <= d < |steps| ==> (steps[d].None? <==> DayStable(trace[0], d, roster))
    ensures swaps == swaps0 <==> StableBefore(trace[0], n, roster)
    ensures AllDaysValid(trace[0], n) ==> swaps == swaps0
  {
    ScanSeesStart(trace, steps, n, roster);
    MadeEmpty(steps);
    if AllDaysValid(trace[0], n) {
      ValidDaysAreStable(trace[0], n, roster);
    }
  }

  /** Pass 1: repeats the scan, at most `MaxIterations` times, until a scan
      changes nothing or `MaxSwaps` changes were made. */
  method DailyPass(schedule: Schedule, n: nat, allStaffIds: seq<StaffId>)
    returns (swaps: nat, iterationCount: nat, dailyViolationsFixed: bool, ghost log: seq<Edit>)
    modifies schedule
    ensures swaps <= MaxSwaps && 1 <= iterationCount <= MaxIterations
    ensures |log| == swaps && Tracks(old(schedule.entries), log, schedule.entries, allStaffIds, n)
    ensures dailyViolationsFixed || swaps == MaxSwaps || iterationCount == MaxIterations
    ensures dailyViolationsFixed ==> StableBefore(schedule.entries, n, allStaffIds)
    ensures StableBefore(old(schedule.entries), n, allStaffIds) ==> swaps == 0 && iterationCount == 1
    ensures swaps == 0 ==> StableBefore(old(schedule.entries), n, allStaffIds)
    ensures iterationCount <= swaps + 1
    ensures AllDaysValid(old(schedule.entries), n) ==> swaps == 0 && iterationCount == 1
    ensures forall e :: e in log ==> 0 <= e.shift.date < n
  {
    swaps := 0;
    iterationCount := 0;
    dailyViolationsFixed := false;
    log := [];
    while !dailyViolationsFixed && swaps < MaxSwaps && iterationCount < MaxIterations
      invariant swaps <= MaxSwaps && iterationCount <= MaxIterations
      invariant |log| == swaps && Tracks(old(schedule.entries), log, schedule.entries, allStaffIds, n)
      invariant iterationCount == 0 ==> swaps == 0 && !dailyViolationsFixed
      invariant dailyViolationsFixed ==> StableBefore(schedule.entries, n, allStaffIds)
      invariant StableBefore(old(schedule.entries), n, allStaffIds) || AllDaysValid(old(schedule.entries), n) ==>
        swaps == 0 && schedule.entries == old(schedule.entries)
        && (iterationCount == 0 || (iterationCount == 1 && dailyViolationsFixed))
      invariant forall e :: e in log ==> 0 <= e.shift.date < n
      invariant iterationCount >= 1 && swaps == 0 ==> StableBefore(old(schedule.entries), n, allStaffIds)
      invariant if dailyViolationsFixed then iterationCount <= swaps + 1 else iterationCount <= swaps
      decreases MaxIterations - iterationCount
    {
      iterationCount := iterationCount + 1;
      ghost var before := schedule.entries;
      ghost var scanLog, scanTrace, scanSteps;
      swaps, dailyViolationsFixed, scanLog, scanTrace, scanSteps := DailyScan(schedule, n, allStaffIds, swaps);
      TrackConcat(old(schedule.entries), log, before, scanLog, schedule.entries, allStaffIds, n);
      log := log + scanLog;
    }
  }

  // ---------------------------------------------------------------------
  // Pass 2: trailing week

  function ShiftInWindow(lo: int, hi: int, n: nat): Shift -> bool
  {
    (x: Shift) => lo <= Position(x.date, n) <= hi
  }

  /** The staff member's shifts whose horizon position lies in `[lo, hi]`. */
  function WeekShifts(entries: seq<Shift>, id: StaffId, lo: int, hi: int, n: nat): seq<Shift>
  {
    Filter(StaffShifts(entries, id), ShiftInWindow(lo, hi, n))
  }

  /** The weekly pass counts the same shifts as `isValidWeeklyShifts`: it
      repairs a (day, staff member) pair exactly when that check fails. */
  lemma WeekShiftsMatchWeeklyCheck(entries: seq<Shift>, id: StaffId, d: Date, n: nat)
    requires 0 <= d < n
    ensures var count := |WeekShifts(entries, id, WeekStart(d), WeekEnd(d, n), n)|;
      (3 <= count <= 5) == IsValidWeeklyShifts(StaffDates(entries, id), d, n)
  {
    var lo, hi := WeekStart(d), WeekEnd(d, n);
    DatesFilter(StaffShifts(entries, id), ShiftInWindow(lo, hi, n), InWindow(lo, hi, n));
  }

  /** A (staff member, day) pair the weekly pass leaves alone: at most 5
      shifts in the trailing week ending on `d` and, when fewer than 3, no
      date of that week the staff member can take. */
  predicate WeekSettled(entries: seq<Shift>, id: StaffId, d: Date, n: nat)
  {
    var count := |WeekShifts(entries, id, WeekStart(d), d, n)|;
    count <= 5 && (count < 3 ==> forall d' :: WeekStart(d) <= d' <= d ==> !CanTake(entries, id, d', n))
  }

  /** The add branch of the weekly pass: the staff member gets the first
      date of the window that `findBestDateToAddShift` accepts, if any. */
  method AddWeekShift(schedule: Schedule, staffId: StaffId, weekStart: int, weekEnd: int, n: nat, allStaffIds: seq<StaffId>)
    returns (changed: bool, ghost e: Edit)
    requires 0 <= weekStart && weekEnd < n && staffId in allStaffIds
    modifies schedule
    ensures changed ==>
      e.Added? && e.shift.staffId == staffId
      && BestDateToAdd(old(schedule.entries), staffId, weekStart, weekEnd, n, e.shift.date)
      && LegalEdit(old(schedule.entries), e, allStaffIds, n) && schedule.entries == Apply(old(schedule.entries), e)
    ensures !changed ==> schedule.entries == old(schedule.entries)
    ensures !changed ==> forall d :: weekStart <= d <= weekEnd ==> !CanTake(old(schedule.entries), staffId, d, n)
  {
    changed := false;
    // `e` names the edit only when `changed`; this value is never used.
    e := Added(Shift(staffId, weekStart));
    var bestDate := FindBestDateToAddShift(schedule.entries, staffId, weekStart, weekEnd, n);
    if bestDate.Some? {
      e := Added(Shift(staffId, bestDate.value));
      schedule.Push(Shift(staffId, bestDate.value));
      changed := true;
    }
  }

  /** The remove branch of the weekly pass: the window shift that
      `findBestShiftToRemove` picks is deleted. The window shifts are all
      the staff member's and all in the schedule, so one is always deleted. */
  method RemoveWeekShift(schedule: Schedule, staffId: StaffId, weekShifts: seq<Shift>, n: nat, allStaffIds: seq<StaffId>)
    returns (changed: bool, ghost e: Edit)
    requires weekShifts != []
    requires forall x :: x in weekShifts ==> x in schedule.entries && x.staffId == staffId
    modifies schedule
    ensures changed
    ensures e.Removed? && e.shift.staffId == staffId && e.shift in weekShifts
      && Some(e.shift) == FindBestShiftToRemove(old(schedule.entries), weekShifts)
      && LegalEdit(old(schedule.entries), e, allStaffIds, n) && schedule.entries == Apply(old(schedule.entries), e)
  {
    changed := false;
    var bestShiftToRemove := FindBestShiftToRemove(schedule.entries, weekShifts);
    ghost var k: nat :| k < |weekShifts| && weekShifts[k] == bestShiftToRemove.value;
    assert weekShifts[k] in weekShifts;
    e := Removed(Shift(staffId, bestShiftToRemove.value.date));
    var index := IndexOf(schedule.entries, Shift(staffId, bestShiftToRemove.value.date));
    if index != -1 {
      schedule.Splice(index);
      changed := true;
    }
  }

  /** The edit the weekly pass makes for an unsettled pair: below 3 week
      shifts, the staff member is added on the date `findBestDateToAddShift`
      picks; above 5, the shift `findBestShiftToRemove` picks is deleted.
      Either is a legal edit inside the week ending on `d`. */
  predicate WeekRepair(entries: seq<Shift>, id: StaffId, d: Date, n: nat, roster: seq<StaffId>, e: Edit)
  {
    var weekShifts := WeekShifts(entries, id, WeekStart(d), d, n);
    e.shift.staffId == id && WeekStart(d) <= e.shift.date <= d && LegalEdit(entries, e, roster, n)
    && (e.Added? <==> |weekShifts| < 3)
    && (e.Added? ==> BestDateToAdd(entries, id, WeekStart(d), d, n, e.shift.date))
    && (e.Removed? ==> |weekShifts| > 5 && Some(e.shift) == FindBestShiftToRemove(entries, weekShifts))
  }

  /** The weekly pass for one staff member and the week ending on
      `dayIndex`: fewer than 3 shifts in the week gets the date
      `findBestDateToAddShift` picks, more than 5 loses the shift
      `findBestShiftToRemove` picks. It changes the schedule exactly when
      the pair is not `WeekSettled`, and then only inside the week; either
      change happens only when `isValidWeeklyShifts` fails. */
  method FixWeek(schedule: Schedule, staffId: StaffId, dayIndex: Date, n: nat, allStaffIds: seq<StaffId>)
    returns (changed: bool, ghost e: Edit)
    requires 0 <= dayIndex < n && staffId in allStaffIds
    modifies schedule
    ensures changed <==> !WeekSettled(old(schedule.entries), staffId, dayIndex, n)
    ensures changed ==>
      WeekRepair(old(schedule.entries), staffId, dayIndex, n, allStaffIds, e) && schedule.entries == Apply(old(schedule.entries), e)
    ensures changed ==> !IsValidWeeklyShifts(StaffDates(old(schedule.entries), staffId), dayIndex, n)
    ensures !changed ==> schedule.entries == old(schedule.entries)
  {
    var weekStart := WeekStart(dayIndex);
    var weekEnd := WeekEnd(dayIndex, n);
    var weekShifts := WeekShifts(schedule.entries, staffId, weekStart, weekEnd, n);
    WeekShiftsMatchWeeklyCheck(schedule.entries, staffId, dayIndex, n);
    changed := false;
    // `e` names the edit only when `changed`; this value is never used.
    e := Removed(Shift(staffId, dayIndex));
    if |weekShifts| < 3 {
      changed, e := AddWeekShift(schedule, staffId, weekStart, weekEnd, n, allStaffIds);
    } else if |weekShifts| > 5 {
      changed, e := RemoveWeekShift(schedule, staffId, weekShifts, n, allStaffIds);
    }
  }

  /** One step of pass 2 for staff member `id` and the week ending on `d`:
      nothing when the pair is `WeekSettled`, otherwise its repair. */
  predicate WeekStep(entries: seq<Shift>, step: Option<Edit>, id: StaffId, d: Date, n: nat, roster: seq<StaffId>)
  {
    (step.None? <==> WeekSettled(entries, id, d, n))
    && (step.Some? ==> WeekRepair(entries, id, d, n, roster, step.value))
  }

  /** `steps[k]` is pass 2's step for `roster[k]` and the week ending on
      `d`, and `trace` the schedules in between: the roster members in
      turn, each seeing the schedule the previous ones left. */
  predicate WeekSteps(trace: seq<seq<Shift>>, steps: seq<Option<Edit>>, d: Date, n: nat, roster: seq<StaffId>)
  {
    Follows(trace, steps) && |steps| <= |roster|
    && forall k {:trigger steps[k]} :: 0 <= k < |steps| ==> WeekStep(trace[k], steps[k], roster[k], d, n, roster)
  }

  /** The next roster member's step extends a pass-2 trace. */
  lemma WeekStepsExtend(trace: seq<seq<Shift>>, steps: seq<Option<Edit>>, step: Option<Edit>, d: Date, n: nat, roster: seq<StaffId>)
    requires WeekSteps(trace, steps, d, n, roster) && |steps| < |roster|
    requires WeekStep(trace[|steps|], step, roster[|steps|], d, n, roster)
    ensures WeekSteps(trace + [ApplyStep(trace[|steps|], step)], steps + [step], d, n, roster)
  {
    var k := |steps|;
    var trace', steps' := trace + [ApplyStep(trace[k], step)], steps + [step];
    FollowsExtend(trace, steps, step);
    forall j | 0 <= j < k + 1 ensures WeekStep(trace'[j], steps'[j], roster[j], d, n, roster) {
      if j < k {
        assert trace'[j] == trace[j] && steps'[j] == steps[j];
      }
    }
  }

  /** One roster member of pass 2 on one day that started from `start`:
      `FixWeek` for `allStaffIds[k]`, counting and logging its change. It
      extends the day's trace by that member's step and keeps the day's
      invariant: no change so far means every earlier member was settled. */
  method WeeklyStep(schedule: Schedule, dayIndex: Date, n: nat, allStaffIds: seq<StaffId>, k: nat,
                    ghost start: seq<Shift>, swaps0: nat, swaps: nat,
                    ghost log: seq<Edit>, ghost trace: seq<seq<Shift>>, ghost steps: seq<Option<Edit>>)
    returns (swaps': nat, ghost log': seq<Edit>, ghost trace': seq<seq<Shift>>, ghost steps': seq<Option<Edit>>)
    requires 0 <= dayIndex < n && k < |allStaffIds|
    requires swaps0 <= swaps <= swaps0 + k
    requires |log| == swaps - swaps0 && Tracks(start, log, schedule.entries, allStaffIds, n)
    requires |steps| == k && WeekSteps(trace, steps, dayIndex, n, allStaffIds)
    requires trace[0] == start && trace[k] == schedule.entries && log == Made(steps)
    requires forall e :: e in log ==> WeekStart(dayIndex) <= e.shift.date <= dayIndex
    requires swaps == swaps0 ==> schedule.entries == start
    requires swaps == swaps0 <==> forall j :: 0 <= j < k ==> WeekSettled(start, allStaffIds[j], dayIndex, n)
    modifies schedule
    ensures swaps <= swaps' <= swaps + 1
    ensures |log'| == swaps' - swaps0 && Tracks(start, log', schedule.entries, allStaffIds, n)
    ensures |steps'| == k + 1 && WeekSteps(trace', steps', dayIndex, n, allStaffIds)
    ensures trace'[0] == start && trace'[k + 1] == schedule.entries && log' == Made(steps')
    ensures forall e :: e in log' ==> WeekStart(dayIndex) <= e.shift.date <= dayIndex
    ensures swaps' == swaps0 ==> schedule.entries == start
    ensures swaps' == swaps0 <==> forall j :: 0 <= j < k + 1 ==> WeekSettled(start, allStaffIds[j], dayIndex, n)
  {
    ghost var before := schedule.entries;
    ghost var clean := swaps == swaps0;
    var changed, e := FixWeek(schedule, allStaffIds[k], dayIndex, n, allStaffIds);
    ghost var step := if changed then Some(e) else None;
    assert WeekStep(before, step, allStaffIds[k], dayIndex, n, allStaffIds);
    assert schedule.entries == ApplyStep(before, step);
    WeekStepsExtend(trace, steps, step, dayIndex, n, allStaffIds);
    MadeExtend(steps, step);
    trace', steps' := trace + [schedule.entries], steps + [step];
    swaps', log' := swaps, log;
    if changed {
      assert clean ==> !WeekSettled(start, allStaffIds[k], dayIndex, n);
      TrackStep(start, log, before, e, allStaffIds, n);
      log' := log + [e];
      swaps' := swaps + 1;
    } else if clean {
      forall j | 0 <= j < k + 1 ensures WeekSettled(start, allStaffIds[j], dayIndex, n) {
        if j == k {
          assert WeekSettled(before, allStaffIds[k], dayIndex, n);
        }
      }
    }
  }

  /** Pass 2 on one day: `FixWeek` for every roster member in turn, with no
      check of the swap cap in between. Every change lies in the week ending
      on `dayIndex`, and no change is made exactly when every roster member
      is `WeekSettled` for that week. */
  method WeeklyDay(schedule: Schedule, dayIndex: Date, n: nat, allStaffIds: seq<StaffId>, swaps0: nat)
    returns (swaps: nat, ghost log: seq<Edit>, ghost trace: seq<seq<Shift>>, ghost steps: seq<Option<Edit>>)
    requires 0 <= dayIndex < n
    modifies schedule
    ensures |steps| == |allStaffIds| && WeekSteps(trace, steps, dayIndex, n, allStaffIds)
    ensures trace[0] == old(schedule.entries) && trace[|steps|] == schedule.entries && log == Made(steps)
    ensures swaps0 <= swaps <= swaps0 + |allStaffIds|
    ensures |log| == swaps - swaps0 && Tracks(old(schedule.entries), log, schedule.entries, allStaffIds, n)
    ensures forall e :: e in log ==> WeekStart(dayIndex) <= e.shift.date <= dayIndex
    ensures swaps == swaps0 ==> schedule.entries == old(schedule.entries)
    ensures swaps == swaps0 <==>
      forall k :: 0 <= k < |allStaffIds| ==> WeekSettled(old(schedule.entries), allStaffIds[k], dayIndex, n)
    ensures DayOfPass(WeeklyRepair, trace, steps, old(schedule.entries), schedule.entries, swaps - swaps0, dayIndex, n, allStaffIds)
  {
    swaps := swaps0;
    log := [];
    trace, steps := [schedule.entries], [];
    for k := 0 to |allStaffIds|
      invariant swaps0 <= swaps <= swaps0 + k
      invariant |log| == swaps - swaps0 && Tracks(old(schedule.entries), log, schedule.entries, allStaffIds, n)
      invariant |steps| == k && WeekSteps(trace, steps, dayIndex, n, allStaffIds)
      invariant trace[0] == old(schedule.entries) && trace[k] == schedule.entries && log == Made(steps)
      invariant forall e :: e in log ==> WeekStart(dayIndex) <= e.shift.date <= dayIndex
      invariant swaps == swaps0 ==> schedule.entries == old(schedule.entries)
      invariant swaps == swaps0 <==>
        forall j :: 0 <= j < k ==> WeekSettled(old(schedule.entries), allStaffIds[j], dayIndex, n)
    {
      swaps, log, trace, steps := WeeklyStep(schedule, dayIndex, n, allStaffIds, k, old(schedule.entries), swaps0, swaps, log, trace, steps);
    }
    assert PassSteps(WeeklyRepair, trace, steps, dayIndex, n, allStaffIds);
  }

  /** The body of the pass 2 loop: one day of `WeeklyDay`, recorded in `days` and `counts`. */
  method WeeklyPassDay(schedule: Schedule, dayIndex: Date, n: nat, allStaffIds: seq<StaffId>, ghost start: seq<Shift>,
                 swaps0: nat, swaps: nat, ghost log: seq<Edit>, ghost days: seq<seq<Shift>>, ghost counts: seq<int>,
                 ghost traces: seq<seq<seq<Shift>>>, ghost stepLists: seq<seq<Option<Edit>>>)
    returns (swaps': nat, ghost log': seq<Edit>, ghost days': seq<seq<Shift>>, ghost counts': seq<int>,
             ghost traces': seq<seq<seq<Shift>>>, ghost stepLists': seq<seq<Option<Edit>>>)
    requires 0 <= dayIndex < n && swaps0 <= swaps < MaxSwaps
    requires PassDays(WeeklyRepair, days, counts, traces, stepLists, n, allStaffIds) && |days| == |counts| == dayIndex + 1
    requires days[0] == start && counts[0] == swaps0
    requires days[dayIndex] == schedule.entries && counts[dayIndex] == swaps
    requires |log| == swaps - swaps0 && Tracks(start, log, schedule.entries, allStaffIds, n)
    requires forall e :: e in log ==> 0 <= e.shift.date < dayIndex
    modifies schedule
    ensures swaps <= swaps' <= swaps + |allStaffIds|
    ensures PassDays(WeeklyRepair, days', counts', traces', stepLists', n, allStaffIds) && |days'| == |counts'| == dayIndex + 2
    ensures days'[0] == start && counts'[0] == swaps0
    ensures days'[dayIndex + 1] == schedule.entries && counts'[dayIndex + 1] == swaps'
    ensures |log'| == swaps' - swaps0 && Tracks(start, log', schedule.entries, allStaffIds, n)
    ensures forall e :: e in log' ==> 0 <= e.shift.date < dayIndex + 1
  {
    ghost var before := schedule.entries;
    ghost var dayLog, dayTrace, daySteps;
    swaps', dayLog, dayTrace, daySteps := WeeklyDay(schedule, dayIndex, n, allStaffIds, swaps);
    assert days[|days| - 1] == before && counts[|counts| - 1] == swaps;
    PassDaysAppend(WeeklyRepair, days, counts, traces, stepLists, dayTrace, daySteps, schedule.entries, swaps', n, allStaffIds);
    days', counts' := days + [schedule.entries], counts + [swaps'];
    traces', stepLists' := traces + [dayTrace], stepLists + [daySteps];
    assert days'[0] == start && counts'[0] == swaps0;
    TrackConcat(start, log, before, dayLog, schedule.entries, allStaffIds, n);
    log' := log + dayLog;
  }

  /** Pass 2: for each horizon day, while fewer than `MaxSwaps` changes were
      made when the day starts, repairs every roster member's trailing week.
      The cap is checked per day only, so a day may overshoot it by up to the
      roster size minus one. */
  method WeeklyPass(schedule: Schedule, n: nat, allStaffIds: seq<StaffId>, swaps0: nat)
    returns (swaps: nat, ghost log: seq<Edit>)
    modifies schedule
    ensures PassRun(WeeklyRepair, old(schedule.entries), schedule.entries, swaps0, swaps, n, allStaffIds)
    ensures swaps0 <= swaps <= Max(swaps0, MaxSwaps - 1 + |allStaffIds|)
    ensures |log| == swaps - swaps0 && Tracks(old(schedule.entries), log, schedule.entries, allStaffIds, n)
    ensures forall e :: e in log ==> 0 <= e.shift.date < n
    ensures swaps == swaps0 && swaps0 < MaxSwaps ==>
      schedule.entries == old(schedule.entries) && SettledBefore(WeeklyRepair, old(schedule.entries), n, n, allStaffIds)
    ensures SettledBefore(WeeklyRepair, old(schedule.entries), n, n, allStaffIds) ==> swaps == swaps0
  {
    swaps := swaps0;
    log := [];
    ghost var days: seq<seq<Shift>>, counts: seq<int> := [schedule.entries], [swaps0];
    ghost var traces: seq<seq<seq<Shift>>>, stepLists: seq<seq<Option<Edit>>> := [], [];
    var dayIndex := 0;
    while dayIndex < n && swaps < MaxSwaps
      invariant 0 <= dayIndex <= n
      invariant swaps0 <= swaps
      invariant swaps == swaps0 || swaps <= MaxSwaps - 1 + |allStaffIds|
      invariant PassDays(WeeklyRepair, days, counts, traces, stepLists, n, allStaffIds) && |days| == |counts| == dayIndex + 1
      invariant days[0] == old(schedule.entries) && counts[0] == swaps0
      invariant days[dayIndex] == schedule.entries && counts[dayIndex] == swaps
      invariant |log| == swaps - swaps0 && Tracks(old(schedule.entries), log, schedule.entries, allStaffIds, n)
      invariant forall e :: e in log ==> 0 <= e.shift.date < dayIndex
    {
      swaps, log, days, counts, traces, stepLists :=
        WeeklyPassDay(schedule, dayIndex, n, allStaffIds, old(schedule.entries), swaps0, swaps, log, days, counts, traces, stepLists);
      dayIndex := dayIndex + 1;
    }
    assert swaps <= Max(swaps0, MaxSwaps - 1 + |allStaffIds|);
    assert |days| - 1 == dayIndex && days[|days| - 1] == schedule.entries && counts[|days| - 1] == swaps;
    PassOutcome(WeeklyRepair, days, counts, traces, stepLists, n, allStaffIds);
  }

  // ---------------------------------------------------------------------
  // Pass 3: consecutive runs

  /** The largest `consecutiveCount` reached up to index `i`. */
  function MaxChain(p: seq<int>, i: nat): (m: nat)
    requires i < |p|
    ensures m >= Chain(p, i)
  {
    if i == 0 then 1 else Max(MaxChain(p, i - 1), Chain(p, i))
  }

  /** The largest count passes 3 exactly when a four-entry run ends at or
      before index `i`. */
  lemma {:induction false} MaxChainLong(p: seq<int>, i: nat)
    requires i < |p|
    ensures MaxChain(p, i) > 3 <==> exists j :: 3 <= j <= i && RunEndsAt(p, j)
  {
    ChainLong(p, i);
    if i > 0 {
      MaxChainLong(p, i - 1);
    }
  }

  /** The run-length scan of `fixConsecutiveShifts` over sorted dates: the
      longest chain of consecutive positions. It exceeds 3 exactly when four
      neighbouring entries lie on consecutive positions. */
  method LongestChain(sortedShifts: seq<Date>, n: nat) returns (maxConsecutive: nat)
    ensures maxConsecutive >= 1
    ensures maxConsecutive > 3 <==> !NoRun(Positions(sortedShifts, n))
  {
    ghost var p := Positions(sortedShifts, n);
    var consecutiveCount := 1;
    maxConsecutive := 1;
    var i := 1;
    while i < |sortedShifts|
      invariant 1 <= i <= |sortedShifts| || (sortedShifts == [] && i == 1)
      invariant i <= |sortedShifts| ==> consecutiveCount == Chain(p, i - 1) && maxConsecutive == MaxChain(p, i - 1)
      invariant sortedShifts == [] ==> maxConsecutive == 1
    {
      var prevIndex := Position(sortedShifts[i - 1], n);
      var currIndex := Position(sortedShifts[i], n);
      assert p[i - 1] == prevIndex && p[i] == currIndex;
      if currIndex == prevIndex + 1 {
        consecutiveCount := consecutiveCount + 1;
        maxConsecutive := Max(maxConsecutive, consecutiveCount);
      } else {
        consecutiveCount := 1;
      }
      i := i + 1;
    }
    NoRunIff(p);
    if sortedShifts != [] {
      MaxChainLong(p, |p| - 1);
    }
  }

  /** The first half of `fixConsecutiveShifts`: the longest run among the
      sorted dates plus `date` exceeds 3 exactly when the consecutive-run
      check fails. */
  method LongestRun(staffDates: seq<Date>, date: Date, n: nat) returns (maxConsecutive: nat)
    ensures maxConsecutive >= 1
    ensures maxConsecutive > 3 <==> !ConsecutiveOk(staffDates, date, n)
  {
    var sortedShifts := SortDates(staffDates + [date]);
    maxConsecutive := LongestChain(sortedShifts, n);
  }

  /** `fixConsecutiveShifts`: when the longest run among the staff member's
      dates plus `date` exceeds 3, deletes the staff member's shift on
      `date`, if there is one. */
  method FixConsecutiveShifts(schedule: Schedule, staffId: StaffId, date: Date, n: nat) returns (fixed: bool)
    modifies schedule
    ensures fixed <==> !ConsecutiveOk(StaffDates(old(schedule.entries), staffId), date, n)
                       && Shift(staffId, date) in old(schedule.entries)
    ensures schedule.entries == if fixed then RemoveFirst(old(schedule.entries), Shift(staffId, date))
                                else old(schedule.entries)
  {
    var staffShifts := StaffShifts(schedule.entries, staffId);
    var maxConsecutive := LongestRun(Dates(staffShifts), date, n);
    fixed := false;
    if maxConsecutive > 3 {
      var index := IndexOf(schedule.entries, Shift(staffId, date));
      if index != -1 {
        schedule.Splice(index);
        fixed := true;
      }
    }
  }

  /** A (staff member, day) pair the consecutive-run pass leaves alone: the
      consecutive-run check passes, or the staff member is off that day. */
  predicate RunSettled(entries: seq<Shift>, id: StaffId, d: Date, n: nat)
  {
    ConsecutiveOk(StaffDates(entries, id), d, n) || Shift(id, d) !in entries
  }

  /** Pass 3 for one staff member and one day: when the consecutive-run
      check on `currentDate` fails, `fixConsecutiveShifts` deletes the staff
      member's shift on that date, if there is one. */
  method FixRun(schedule: Schedule, staffId: StaffId, currentDate: Date, n: nat, allStaffIds: seq<StaffId>)
    returns (fixed: bool, ghost e: Edit)
    modifies schedule
    ensures e == Removed(Shift(staffId, currentDate))
    ensures fixed <==> !RunSettled(old(schedule.entries), staffId, currentDate, n)
    ensures fixed ==> LegalEdit(old(schedule.entries), e, allStaffIds, n) && schedule.entries == Apply(old(schedule.entries), e)
    ensures !fixed ==> schedule.entries == old(schedule.entries)
  {
    e := Removed(Shift(staffId, currentDate));
    var staffShifts := StaffShifts(schedule.entries, staffId);
    var consecutiveOk := IsValidConsecutiveShifts(Dates(staffShifts), currentDate, n);
    fixed := false;
    if !consecutiveOk {
      fixed := FixConsecutiveShifts(schedule, staffId, currentDate, n);
    }
  }

  /** One step of pass 3 for staff member `id` on day `d`, starting from
      `entries`: nothing when the pair is `RunSettled`, otherwise the
      deletion of that pair's shift, as a legal edit. */
  predicate RunStep(entries: seq<Shift>, step: Option<Edit>, id: StaffId, d: Date, n: nat, roster: seq<StaffId>)
  {
    (step.None? <==> RunSettled(entries, id, d, n))
    && (step.Some? ==> step.value == Removed(Shift(id, d)) && LegalEdit(entries, step.value, roster, n))
  }

  /** `steps[k]` is pass 3's step for `roster[k]` on day `d`, and `trace`
      the schedules in between: the roster members in turn, each seeing
      the schedule the previous ones left. */
  predicate RunSteps(trace: seq<seq<Shift>>, steps: seq<Option<Edit>>, d: Date, n: nat, roster: seq<StaffId>)
  {
    Follows(trace, steps) && |steps| <= |roster|
    && forall k {:trigger steps[k]} :: 0 <= k < |steps| ==> RunStep(trace[k], steps[k], roster[k], d, n, roster)
  }

  /** The next roster member's step extends a pass-3 trace. */
  lemma RunStepsExtend(trace: seq<seq<Shift>>, steps: seq<Option<Edit>>, step: Option<Edit>, d: Date, n: nat, roster: seq<StaffId>)
    requires RunSteps(trace, steps, d, n, roster) && |steps| < |roster|
    requires RunStep(trace[|steps|], step, roster[|steps|], d, n, roster)
    ensures RunSteps(trace + [ApplyStep(trace[|steps|], step)], steps + [step], d, n, roster)
  {
    var k := |steps|;
    var trace', steps' := trace + [ApplyStep(trace[k], step)], steps + [step];
    FollowsExtend(trace, steps, step);
    forall j | 0 <= j < k + 1 ensures RunStep(trace'[j], steps'[j], roster[j], d, n, roster) {
      if j < k {
        assert trace'[j] == trace[j] && steps'[j] == steps[j];
      }
    }
  }

  /** One roster member of pass 3 on one day that started from `start`:
      `FixRun` for `allStaffIds[k]`, counting and logging its deletion. It
      extends the day's trace by that member's step and keeps the day's
      invariant: no change so far means every earlier member was settled. */
  method ConsecutiveStep(schedule: Schedule, dayIndex: Date, n: nat, allStaffIds: seq<StaffId>, k: nat,
                         ghost start: seq<Shift>, swaps0: nat, swaps: nat,
                         ghost log: seq<Edit>, ghost trace: seq<seq<Shift>>, ghost steps: seq<Option<Edit>>)
    returns (swaps': nat, ghost log': seq<Edit>, ghost trace': seq<seq<Shift>>, ghost steps': seq<Option<Edit>>)
    requires k < |allStaffIds|
    requires swaps0 <= swaps <= swaps0 + k
    requires |log| == swaps - swaps0 && Tracks(start, log, schedule.entries, allStaffIds, n)
    requires |steps| == k && RunSteps(trace, steps, dayIndex, n, allStaffIds)
    requires trace[0] == start && trace[k] == schedule.entries && log == Made(steps)
    requires forall e :: e in log ==> e.Removed? && e.shift.date == dayIndex
    requires swaps == swaps0 ==> schedule.entries == start
    requires swaps == swaps0 <==> forall j :: 0 <= j < k ==> RunSettled(start, allStaffIds[j], dayIndex, n)
    modifies schedule
    ensures swaps <= swaps' <= swaps + 1
    ensures |log'| == swaps' - swaps0 && Tracks(start, log', schedule.entries, allStaffIds, n)
    ensures |steps'| == k + 1 && RunSteps(trace', steps', dayIndex, n, allStaffIds)
    ensures trace'[0] == start && trace'[k + 1] == schedule.entries && log' == Made(steps')
    ensures forall e :: e in log' ==> e.Removed? && e.shift.date == dayIndex
    ensures swaps' == swaps0 ==> schedule.entries == start
    ensures swaps' == swaps0 <==> forall j :: 0 <= j < k + 1 ==> RunSettled(start, allStaffIds[j], dayIndex, n)
  {
    ghost var before := schedule.entries;
    ghost var clean := swaps == swaps0;
    var fixed, e := FixRun(schedule, allStaffIds[k], dayIndex, n, allStaffIds);
    ghost var step := if fixed then Some(e) else None;
    assert RunStep(before, step, allStaffIds[k], dayIndex, n, allStaffIds);
    assert schedule.entries == ApplyStep(before, step);
    RunStepsExtend(trace, steps, step, dayIndex, n, allStaffIds);
    MadeExtend(steps, step);
    trace', steps' := trace + [schedule.entries], steps + [step];
    swaps', log' := swaps, log;
    if fixed {
      assert clean ==> !RunSettled(start, allStaffIds[k], dayIndex, n);
      TrackStep(start, log, before, e, allStaffIds, n);
      log' := log + [e];
      swaps' := swaps + 1;
    } else if clean {
      forall j | 0 <= j < k + 1 ensures RunSettled(start, allStaffIds[j], dayIndex, n) {
        if j == k {
          assert RunSettled(before, allStaffIds[k], dayIndex, n);
        }
      }
    }
  }

  /** Pass 3 on one day: `FixRun` for every roster member in turn, with no
      check of the swap cap in between. Every change deletes a shift on
      `dayIndex`, and no change is made exactly when every roster member is
      `RunSettled` on that day. */
  method ConsecutiveDay(schedule: Schedule, dayIndex: Date, n: nat, allStaffIds: seq<StaffId>, swaps0: nat)
    returns (swaps: nat, ghost log: seq<Edit>, ghost trace: seq<seq<Shift>>, ghost steps: seq<Option<Edit>>)
    modifies schedule
    ensures |steps| == |allStaffIds| && RunSteps(trace, steps, dayIndex, n, allStaffIds)
    ensures trace[0] == old(schedule.entries) && trace[|steps|] == schedule.entries && log == Made(steps)
    ensures swaps0 <= swaps <= swaps0 + |allStaffIds|
    ensures |log| == swaps - swaps0 && Tracks(old(schedule.entries), log, schedule.entries, allStaffIds, n)
    ensures multiset(schedule.entries) <= multiset(old(schedule.entries))
    ensures forall e :: e in log ==> e.Removed? && e.shift.date == dayIndex
    ensures swaps == swaps0 ==> schedule.entries == old(schedule.entries)
    ensures swaps == swaps0 <==>
      forall k :: 0 <= k < |allStaffIds| ==> RunSettled(old(schedule.entries), allStaffIds[k], dayIndex, n)
    ensures DayOfPass(ConsecutiveRepair, trace, steps, old(schedule.entries), schedule.entries, swaps - swaps0, dayIndex, n, allStaffIds)
  {
    swaps := swaps0;
    log := [];
    trace, steps := [schedule.entries], [];
    for k := 0 to |allStaffIds|
      invariant swaps0 <= swaps <= swaps0 + k
      invariant |log| == swaps - swaps0 && Tracks(old(schedule.entries), log, schedule.entries, allStaffIds, n)
      invariant |steps| == k && RunSteps(trace, steps, dayIndex, n, allStaffIds)
      invariant trace[0] == old(schedule.entries) && trace[k] == schedule.entries && log == Made(steps)
      invariant forall e :: e in log ==> e.Removed? && e.shift.date == dayIndex
      invariant swaps == swaps0 ==> schedule.entries == old(schedule.entries)
      invariant swaps == swaps0 <==>
        forall j :: 0 <= j < k ==> RunSettled(old(schedule.entries), allStaffIds[j], dayIndex, n)
    {
      swaps, log, trace, steps := ConsecutiveStep(schedule, dayIndex, n, allStaffIds, k, old(schedule.entries), swaps0, swaps, log, trace, steps);
    }
    RemovalsShrink(old(schedule.entries), log);
    assert PassSteps(ConsecutiveRepair, trace, steps, dayIndex, n, allStaffIds);
  }

  /** The body of the pass 3 loop: one day of `ConsecutiveDay`, recorded in `days` and `counts`. */
  method ConsecutivePassDay(schedule: Schedule, dayIndex: Date, n: nat, allStaffIds: seq<StaffId>, ghost start: seq<Shift>,
                            swaps0: nat, swaps: nat, ghost log: seq<Edit>, ghost days: seq<seq<Shift>>, ghost counts: seq<int>,
                 ghost traces: seq<seq<seq<Shift>>>, ghost stepLists: seq<seq<Option<Edit>>>)
    returns (swaps': nat, ghost log': seq<Edit>, ghost days': seq<seq<Shift>>, ghost counts': seq<int>,
             ghost traces': seq<seq<seq<Shift>>>, ghost stepLists': seq<seq<Option<Edit>>>)
    requires 0 <= dayIndex < n && swaps0 <= swaps < MaxSwaps
    requires PassDays(ConsecutiveRepair, days, counts, traces, stepLists, n, allStaffIds) && |days| == |counts| == dayIndex + 1
    requires days[0] == start && counts[0] == swaps0 && days[dayIndex] == schedule.entries && counts[dayIndex] == swaps
    requires |log| == swaps - swaps0 && Tracks(start, log, schedule.entries, allStaffIds, n)
    requires forall e :: e in log ==> e.Removed? && 0 <= e.shift.date < dayIndex
    modifies schedule
    ensures swaps <= swaps' <= swaps + |allStaffIds|
    ensures PassDays(ConsecutiveRepair, days', counts', traces', stepLists', n, allStaffIds) && |days'| == |counts'| == dayIndex + 2
    ensures days'[0] == start && counts'[0] == swaps0 && days'[dayIndex + 1] == schedule.entries && counts'[dayIndex + 1] == swaps'
    ensures |log'| == swaps' - swaps0 && Tracks(start, log', schedule.entries, allStaffIds, n)
    ensures forall e :: e in log' ==> e.Removed? && 0 <= e.shift.date < dayIndex + 1
  {
    ghost var before := schedule.entries;
    ghost var dayLog, dayTrace, daySteps;
    swaps', dayLog, dayTrace, daySteps := ConsecutiveDay(schedule, dayIndex, n, allStaffIds, swaps);
    assert days[|days| - 1] == before && counts[|counts| - 1] == swaps;
    PassDaysAppend(ConsecutiveRepair, days, counts, traces, stepLists, dayTrace, daySteps, schedule.entries, swaps', n, allStaffIds);
    days', counts' := days + [schedule.entries], counts + [swaps'];
    traces', stepLists' := traces + [dayTrace], stepLists + [daySteps];
    assert days'[0] == start && counts'[0] == swaps0;
    TrackConcat(start, log, before, dayLog, schedule.entries, allStaffIds, n);
    log' := log + dayLog;
  }

  /** Pass 3: for each horizon day, while fewer than `MaxSwaps` changes were
      made when the day starts, runs the consecutive-run repair for every
      roster member. It only deletes. */
  method ConsecutivePass(schedule: Schedule, n: nat, allStaffIds: seq<StaffId>, swaps0: nat)
    returns (swaps: nat, ghost log: seq<Edit>)
    modifies schedule
    ensures swaps0 <= swaps <= Max(swaps0, MaxSwaps - 1 + |allStaffIds|)
    ensures |log| == swaps - swaps0 && Tracks(old(schedule.entries), log, schedule.entries, allStaffIds, n)
    ensures multiset(schedule.entries) <= multiset(old(schedule.entries))
    ensures forall e :: e in log ==> e.Removed? && 0 <= e.shift.date < n
    ensures swaps == swaps0 && swaps0 < MaxSwaps ==>
      schedule.entries == old(schedule.entries) && SettledBefore(ConsecutiveRepair, old(schedule.entries), n, n, allStaffIds)
    ensures SettledBefore(ConsecutiveRepair, old(schedule.entries), n, n, allStaffIds) ==> swaps == swaps0
    ensures PassRun(ConsecutiveRepair, old(schedule.entries), schedule.entries, swaps0, swaps, n, allStaffIds)
  {
    swaps := swaps0;
    log := [];
    ghost var days: seq<seq<Shift>>, counts: seq<int> := [schedule.entries], [swaps0];
    ghost var traces: seq<seq<seq<Shift>>>, stepLists: seq<seq<Option<Edit>>> := [], [];
    var dayIndex := 0;
    while dayIndex < n && swaps < MaxSwaps
      invariant 0 <= dayIndex <= n
      invariant swaps0 <= swaps
      invariant swaps == swaps0 || swaps <= MaxSwaps - 1 + |allStaffIds|
      invariant PassDays(ConsecutiveRepair, days, counts, traces, stepLists, n, allStaffIds) && |days| == |counts| == dayIndex + 1
      invariant days[0] == old(schedule.entries) && counts[0] == swaps0
      invariant days[dayIndex] == schedule.entries && counts[dayIndex] == swaps
      invariant |log| == swaps - swaps0 && Tracks(old(schedule.entries), log, schedule.entries, allStaffIds, n)
      invariant forall e :: e in log ==> e.Removed? && 0 <= e.shift.date < dayIndex
    {
      swaps, log, days, counts, traces, stepLists :=
        ConsecutivePassDay(schedule, dayIndex, n, allStaffIds, old(schedule.entries), swaps0, swaps, log, days, counts, traces, stepLists);
      dayIndex := dayIndex + 1;
    }
    assert swaps <= Max(swaps0, MaxSwaps - 1 + |allStaffIds|);
    assert |days| - 1 == dayIndex && days[|days| - 1] == schedule.entries && counts[|days| - 1] == swaps;
    RemovalsShrink(old(schedule.entries), log);
    PassOutcome(ConsecutiveRepair, days, counts, traces, stepLists, n, allStaffIds);
  }

  // ---------------------------------------------------------------------
  // Passes 2 and 3, day by day

  /** The two passes that go through the whole roster on each day. */
  datatype RosterPass = WeeklyRepair | ConsecutiveRepair

  /** The roster steps of pass `p` on day `d`. */
  predicate PassSteps(p: RosterPass, trace: seq<seq<Shift>>, steps: seq<Option<Edit>>, d: Date, n: nat, roster: seq<StaffId>)
  {
    match p
    case WeeklyRepair => WeekSteps(trace, steps, d, n, roster)
    case ConsecutiveRepair => RunSteps(trace, steps, d, n, roster)
  }

  /** Day `d` of pass `p` takes the schedule from `s` to `s'` with `made`
      swaps through the schedules `trace` and the `steps`: one step for
      every roster member, in roster order. */
  predicate DayOfPass(p: RosterPass, trace: seq<seq<Shift>>, steps: seq<Option<Edit>>, s: seq<Shift>, s': seq<Shift>, made: int, d: Date, n: nat, roster: seq<StaffId>)
  {
    PassSteps(p, trace, steps, d, n, roster) && |steps| == |roster| && |trace| == |roster| + 1
    && trace[0] == s && trace[|roster|] == s' && made == |Made(steps)|
  }

  /** A (staff member, day) pair that pass `p` leaves alone. */
  predicate Settled(p: RosterPass, entries: seq<Shift>, id: StaffId, d: Date, n: nat)
  {
    match p
    case WeeklyRepair => WeekSettled(entries, id, d, n)
    case ConsecutiveRepair => RunSettled(entries, id, d, n)
  }

  /** Pass `p` leaves every roster member alone on day `d`. */
  predicate DaySettled(p: RosterPass, entries: seq<Shift>, d: Date, n: nat, roster: seq<StaffId>)
  {
    forall k :: 0 <= k < |roster| ==> Settled(p, entries, roster[k], d, n)
  }

  /** Pass `p` leaves every roster member alone on every horizon day before `upTo`. */
  predicate SettledBefore(p: RosterPass, entries: seq<Shift>, upTo: int, n: nat, roster: seq<StaffId>)
  {
    forall d :: 0 <= d < upTo ==> DaySettled(p, entries, d, n, roster)
  }

  /** Step `k` of a day of pass `p` leaves the schedule alone exactly when
      roster member `k` is settled on the schedule the earlier steps left. */
  lemma StepSettled(p: RosterPass, trace: seq<seq<Shift>>, steps: seq<Option<Edit>>, d: Date, n: nat, roster: seq<StaffId>, k: nat)
    requires PassSteps(p, trace, steps, d, n, roster) && k < |steps|
    ensures k < |roster| && trace[k + 1] == ApplyStep(trace[k], steps[k])
    ensures steps[k].None? <==> Settled(p, trace[k], roster[k], d, n)
  {
    match p
    case WeeklyRepair =>
      assert WeekStep(trace[k], steps[k], roster[k], d, n, roster);
    case ConsecutiveRepair =>
      assert RunStep(trace[k], steps[k], roster[k], d, n, roster);
  }

  /** A day of pass `p` makes no change exactly when every roster member is
      settled on that day, and then it leaves the schedule as it was. */
  lemma DayQuiet(p: RosterPass, trace: seq<seq<Shift>>, steps: seq<Option<Edit>>, s: seq<Shift>, s': seq<Shift>, made: int, d: Date, n: nat, roster: seq<StaffId>)
    requires DayOfPass(p, trace, steps, s, s', made, d, n, roster)
    ensures made >= 0
    ensures made == 0 ==> s' == s
    ensures made == 0 <==> DaySettled(p, s, d, n, roster)
  {
    assert Follows(trace, steps) by {
      forall k | 0 <= k < |steps| ensures trace[k + 1] == ApplyStep(trace[k], steps[k]) {
        StepSettled(p, trace, steps, d, n, roster, k);
      }
    }
    MadeEmpty(steps);
    if forall k :: 0 <= k < |steps| ==> steps[k].None? {
      QuietSteps(trace, steps, |steps|);
      forall k | 0 <= k < |roster| ensures Settled(p, s, roster[k], d, n) {
        QuietSteps(trace, steps, k);
        StepSettled(p, trace, steps, d, n, roster, k);
      }
    } else {
      var i := FirstChange(steps, |steps|);
      QuietSteps(trace, steps, i);
      StepSettled(p, trace, steps, d, n, roster, i);
    }
  }

  /** `days[i]` and `counts[i]` are the schedule and the swap count when
      pass `p` starts day `i`, the last entries where it stopped; `traces[i]`
      and `stepLists[i]` are the steps of day `i`. Each day it ran started
      below `MaxSwaps`. */
  predicate PassDays(p: RosterPass, days: seq<seq<Shift>>, counts: seq<int>, traces: seq<seq<seq<Shift>>>, stepLists: seq<seq<Option<Edit>>>,
                     n: nat, roster: seq<StaffId>)
  {
    |days| == |counts| && |traces| == |stepLists| == |days| - 1 && 1 <= |days| <= n + 1
    && forall k :: 0 <= k < |days| - 1 ==> DayRan(p, days, counts, traces, stepLists, k, n, roster)
  }

  /** Pass `p` ran day `k` of the record: it started below `MaxSwaps` and
      took the schedule from `days[k]` to `days[k + 1]`. */
  predicate DayRan(p: RosterPass, days: seq<seq<Shift>>, counts: seq<int>, traces: seq<seq<seq<Shift>>>, stepLists: seq<seq<Option<Edit>>>,
                   k: nat, n: nat, roster: seq<StaffId>)
    requires k + 1 < |days| == |counts| && |traces| == |stepLists| == |days| - 1
  {
    counts[k] < MaxSwaps
    && DayOfPass(p, traces[k], stepLists[k], days[k], days[k + 1], counts[k + 1] - counts[k], k, n, roster)
  }

  /** One more day extends the record of a pass. */
  lemma PassDaysExtend(p: RosterPass, days: seq<seq<Shift>>, counts: seq<int>, traces: seq<seq<seq<Shift>>>, stepLists: seq<seq<Option<Edit>>>,
                       days': seq<seq<Shift>>, counts': seq<int>, traces': seq<seq<seq<Shift>>>, stepLists': seq<seq<Option<Edit>>>,
                       n: nat, roster: seq<StaffId>)
    requires PassDays(p, days, counts, traces, stepLists, n, roster) && |days| <= n
    requires |days'| == |counts'| == |days| + 1 && |traces'| == |stepLists'| == |days|
    requires forall k :: 0 <= k < |days| ==> days'[k] == days[k] && counts'[k] == counts[k]
    requires forall k :: 0 <= k < |days| - 1 ==> traces'[k] == traces[k] && stepLists'[k] == stepLists[k]
    requires DayRan(p, days', counts', traces', stepLists', |days| - 1, n, roster)
    ensures PassDays(p, days', counts', traces', stepLists', n, roster)
  {
    forall k | 0 <= k < |days'| - 1 ensures DayRan(p, days', counts', traces', stepLists', k, n, roster) {
      if k < |days| - 1 {
        assert DayRan(p, days, counts, traces, stepLists, k, n, roster);
      }
    }
  }

  /** The record of pass `p` grows by the day it ran from the end of the
      record. */
  lemma PassDaysAppend(p: RosterPass, days: seq<seq<Shift>>, counts: seq<int>, traces: seq<seq<seq<Shift>>>, stepLists: seq<seq<Option<Edit>>>,
                       trace: seq<seq<Shift>>, steps: seq<Option<Edit>>, s': seq<Shift>, c': int, n: nat, roster: seq<StaffId>)
    requires PassDays(p, days, counts, traces, stepLists, n, roster) && |days| <= n
    requires counts[|counts| - 1] < MaxSwaps
    requires DayOfPass(p, trace, steps, days[|days| - 1], s', c' - counts[|counts| - 1], |days| - 1, n, roster)
    ensures PassDays(p, days + [s'], counts + [c'], traces + [trace], stepLists + [steps], n, roster)
    ensures (days + [s'])[0] == days[0] && (counts + [c'])[0] == counts[0]
  {
    LastDayRan(p, days, counts, traces, stepLists, trace, steps, s', c', n, roster);
    PassDaysExtend(p, days, counts, traces, stepLists, days + [s'], counts + [c'], traces + [trace], stepLists + [steps], n, roster);
  }

  /** A day that pass `p` ran from the end of a record is the last day of
      the longer record. */
  lemma LastDayRan(p: RosterPass, days: seq<seq<Shift>>, counts: seq<int>, traces: seq<seq<seq<Shift>>>, stepLists: seq<seq<Option<Edit>>>,
                   trace: seq<seq<Shift>>, steps: seq<Option<Edit>>, s': seq<Shift>, c': int, n: nat, roster: seq<StaffId>)
    requires 1 <= |days| == |counts| && |traces| == |stepLists| == |days| - 1
    requires counts[|counts| - 1] < MaxSwaps
    requires DayOfPass(p, trace, steps, days[|days| - 1], s', c' - counts[|counts| - 1], |days| - 1, n, roster)
    ensures DayRan(p, days + [s'], counts + [c'], traces + [trace], stepLists + [steps], |days| - 1, n, roster)
  {
    var days', counts', last := days + [s'], counts + [c'], |days| - 1;
    assert days'[last] == days[last] && days'[last + 1] == s';
    assert counts'[last] == counts[last] && counts'[last + 1] == c';
    assert (traces + [trace])[last] == trace && (stepLists + [steps])[last] == steps;
  }

  /** Day `k` of a record of pass `p` never lowers the swap count, and it
      makes no change exactly when every roster member is settled on it,
      in which case it leaves the schedule as it was. */
  predicate QuietAt(p: RosterPass, days: seq<seq<Shift>>, counts: seq<int>, k: nat, n: nat, roster: seq<StaffId>)
    requires k + 1 < |days| == |counts|
  {
    counts[k] <= counts[k + 1] && (counts[k + 1] == counts[k] ==> days[k + 1] == days[k])
    && (counts[k + 1] == counts[k] <==> DaySettled(p, days[k], k, n, roster))
  }

  /** Every day of a record of pass `p` is `QuietAt`. */
  lemma QuietDays(p: RosterPass, days: seq<seq<Shift>>, counts: seq<int>, traces: seq<seq<seq<Shift>>>, stepLists: seq<seq<Option<Edit>>>,
                   n: nat, roster: seq<StaffId>)
    requires PassDays(p, days, counts, traces, stepLists, n, roster)
    ensures forall k :: 0 <= k < |days| - 1 ==> QuietAt(p, days, counts, k, n, roster)
  {
    forall k | 0 <= k < |days| - 1 ensures QuietAt(p, days, counts, k, n, roster) {
      assert DayRan(p, days, counts, traces, stepLists, k, n, roster);
      DayQuiet(p, traces[k], stepLists[k], days[k], days[k + 1], counts[k + 1] - counts[k], k, n, roster);
    }
  }

  /** Over the first `j` days of a record whose days are all `QuietAt`, no
      change was made exactly when every roster member is settled on every
      one of those days, and then the schedule is as it was; the swap count
      never goes down. */
  lemma {:induction false} PassQuiet(p: RosterPass, days: seq<seq<Shift>>, counts: seq<int>, n: nat, roster: seq<StaffId>, j: nat)
    requires j < |days| == |counts|
    requires forall k :: 0 <= k < |days| - 1 ==> QuietAt(p, days, counts, k, n, roster)
    ensures counts[0] <= counts[j]
    ensures counts[j] == counts[0] ==> days[j] == days[0] && SettledBefore(p, days[0], j, n, roster)
    ensures SettledBefore(p, days[0], j, n, roster) ==> counts[j] == counts[0] && days[j] == days[0]
    decreases j
  {
    if j > 0 {
      var k := j - 1;
      PassQuiet(p, days, counts, n, roster, k);
      assert QuietAt(p, days, counts, k, n, roster);
      SettledBeforeNext(p, days[0], k, n, roster);
      if counts[j] == counts[0] {
        assert counts[k] == counts[0];
        assert days[k] == days[0];
      } else if SettledBefore(p, days[0], k, n, roster) {
        assert days[k] == days[0];
      }
    }
  }

  /** Settled on every day before `k + 1` is settled on every day before
      `k` and on day `k`. */
  lemma SettledBeforeNext(p: RosterPass, entries: seq<Shift>, k: nat, n: nat, roster: seq<StaffId>)
    ensures SettledBefore(p, entries, k + 1, n, roster) <==>
      SettledBefore(p, entries, k, n, roster) && DaySettled(p, entries, k, n, roster)
  {
  }

  /** What a run of pass `p` that stopped at the end of the horizon or at
      `MaxSwaps` shows: it is a `PassRun`; starting below the cap, it makes
      no change exactly when every roster member is settled on every
      horizon day, and then it leaves the schedule as it was. */
  lemma PassOutcome(p: RosterPass, days: seq<seq<Shift>>, counts: seq<int>, traces: seq<seq<seq<Shift>>>, stepLists: seq<seq<Option<Edit>>>,
                     n: nat, roster: seq<StaffId>)
    requires PassDays(p, days, counts, traces, stepLists, n, roster)
    requires |days| <= n ==> counts[|days| - 1] >= MaxSwaps
    ensures PassRun(p, days[0], days[|days| - 1], counts[0], counts[|days| - 1], n, roster)
    ensures counts[|days| - 1] == counts[0] && counts[0] < MaxSwaps ==>
      days[|days| - 1] == days[0] && SettledBefore(p, days[0], n, n, roster)
    ensures SettledBefore(p, days[0], n, n, roster) ==> counts[|days| - 1] == counts[0]
  {
    QuietDays(p, days, counts, traces, stepLists, n, roster);
    PassQuiet(p, days, counts, n, roster, |days| - 1);
  }

  /** Pass `p` takes the schedule from `s` with `c` swaps to `s'` with `c'`:
      day after day from day 0, until the horizon ends or a day would start
      with at least `MaxSwaps` swaps. */
  ghost predicate PassRun(p: RosterPass, s: seq<Shift>, s': seq<Shift>, c: int, c': int, n: nat, roster: seq<StaffId>)
  {
    exists days: seq<seq<Shift>>, counts: seq<int>, traces: seq<seq<seq<Shift>>>, stepLists: seq<seq<Option<Edit>>>
      {:trigger PassDays(p, days, counts, traces, stepLists, n, roster)} ::
      PassDays(p, days, counts, traces, stepLists, n, roster) && |days| >= 1 && |counts| == |days|
      && days[0] == s && counts[0] == c && days[|days| - 1] == s' && counts[|days| - 1] == c'
      && (|days| <= n ==> c' >= MaxSwaps)
  }

  // ---------------------------------------------------------------------
  // The whole repair

  /** The three passes in order on the working copy, with the roster they
      share; every change is legal, counted once and dated inside the
      horizon. Pass 1 makes at most `MaxSwaps` changes and none when every
      day is already left alone; passes 2 and 3 go day by day and member by
      member from `afterDaily` and `afterWeekly`; pass 3 only deletes. A
      schedule that every pass leaves alone comes back unchanged. */
  method RunPasses(schedule: Schedule, n: nat, allStaffIds: seq<StaffId>)
    returns (swaps: nat, ghost log: seq<Edit>, ghost dailyLog: seq<Edit>, ghost weeklyLog: seq<Edit>, ghost runLog: seq<Edit>,
             ghost afterDaily: seq<Shift>, ghost afterWeekly: seq<Shift>)
    modifies schedule
    ensures swaps <= Max(MaxSwaps, MaxSwaps - 1 + |allStaffIds|)
    ensures |log| == swaps && Tracks(old(schedule.entries), log, schedule.entries, allStaffIds, n)
    ensures log == dailyLog + weeklyLog + runLog
    ensures |dailyLog| <= MaxSwaps
    ensures StableBefore(old(schedule.entries), n, allStaffIds) <==> dailyLog == []
    ensures forall e :: e in log ==> 0 <= e.shift.date < n
    ensures forall e :: e in runLog ==> e.Removed?
    ensures Tracks(old(schedule.entries), dailyLog, afterDaily, allStaffIds, n)
    ensures PassRun(WeeklyRepair, afterDaily, afterWeekly, |dailyLog|, |dailyLog| + |weeklyLog|, n, allStaffIds)
    ensures PassRun(ConsecutiveRepair, afterWeekly, schedule.entries, |dailyLog| + |weeklyLog|, swaps, n, allStaffIds)
    ensures (StableBefore(old(schedule.entries), n, allStaffIds)
             && SettledBefore(WeeklyRepair, old(schedule.entries), n, n, allStaffIds)
             && SettledBefore(ConsecutiveRepair, old(schedule.entries), n, n, allStaffIds)) ==>
      swaps == 0 && schedule.entries == old(schedule.entries)
  {
    ghost var start := schedule.entries;
    var swaps1, iterations, fixed, log1 := DailyPass(schedule, n, allStaffIds);
    ghost var after1 := schedule.entries;
    ghost var quiet := StableBefore(start, n, allStaffIds) && SettledBefore(WeeklyRepair, start, n, n, allStaffIds)
      && SettledBefore(ConsecutiveRepair, start, n, n, allStaffIds);
    assert quiet ==> log1 == [] && after1 == Replay(start, []) == start;
    var swaps2, log2 := WeeklyPass(schedule, n, allStaffIds, swaps1);
    ghost var after2 := schedule.entries;
    assert quiet ==> swaps2 == 0 && after2 == start;
    ghost var cap := Max(MaxSwaps, MaxSwaps - 1 + |allStaffIds|);
    assert swaps2 <= cap;
    var swaps3, log3 := ConsecutivePass(schedule, n, allStaffIds, swaps2);
    assert swaps3 <= cap;
    swaps := swaps3;
    TrackConcat(start, log1, after1, log2, after2, allStaffIds, n);
    TrackConcat(start, log1 + log2, after2, log3, schedule.entries, allStaffIds, n);
    log := log1 + log2 + log3;
    dailyLog, weeklyLog, runLog := log1, log2, log3;
    afterDaily, afterWeekly := after1, after2;
    assert |dailyLog| == swaps1 && |dailyLog| + |weeklyLog| == swaps2;
  }

  /** What the repair promises about its result, given its edit log: no
      day lifted above 5 staff, no duplicate pair created, every new shift
      belonging to someone already on the schedule and lying in the horizon. */
  lemma RepairFacts(start: seq<Shift>, log: seq<Edit>, end: seq<Shift>, n: nat)
    requires Tracks(start, log, end, Roster(start), n)
    ensures forall d :: DayCount(end, d) <= Max(5, DayCount(start, d))
    ensures Distinct(start) ==> Distinct(end)
    ensures forall x :: x in end ==>
      x in start || (0 <= x.date < n && exists y :: y in start && y.staffId == x.staffId)
  {
    TracksFacts(start, log, end, Roster(start), n);
  }

  /** `autobalanceSchedule` over a horizon of `n` days: copies the caller's
      schedule, runs the three passes on the copy with the roster of staff
      ids found in the input, and returns the copy and the swap count. A
      schedule that every pass leaves alone is returned unchanged with no
      swaps. */
  method AutobalanceSchedule(schedule: Schedule, n: nat)
    returns (newSchedule: Schedule, swaps: nat, ghost log: seq<Edit>,
             ghost dailyLog: seq<Edit>, ghost weeklyLog: seq<Edit>, ghost runLog: seq<Edit>,
             ghost afterDaily: seq<Shift>, ghost afterWeekly: seq<Shift>)
    ensures fresh(newSchedule)
    ensures schedule.entries == old(schedule.entries)
    ensures |log| == swaps && Tracks(schedule.entries, log, newSchedule.entries, Roster(schedule.entries), n)
    ensures swaps <= Max(MaxSwaps, MaxSwaps - 1 + |Roster(schedule.entries)|)
    ensures forall d :: DayCount(newSchedule.entries, d) <= Max(5, DayCount(schedule.entries, d))
    ensures Distinct(schedule.entries) ==> Distinct(newSchedule.entries)
    ensures forall x :: x in newSchedule.entries ==>
      x in schedule.entries || (0 <= x.date < n && exists y :: y in schedule.entries && y.staffId == x.staffId)
    ensures log == dailyLog + weeklyLog + runLog
    ensures |dailyLog| <= MaxSwaps
    ensures StableBefore(schedule.entries, n, Roster(schedule.entries)) <==> dailyLog == []
    ensures forall e :: e in log ==> 0 <= e.shift.date < n
    ensures forall e :: e in runLog ==> e.Removed?
    ensures var roster := Roster(schedule.entries);
      Tracks(schedule.entries, dailyLog, afterDaily, roster, n)
      && PassRun(WeeklyRepair, afterDaily, afterWeekly, |dailyLog|, |dailyLog| + |weeklyLog|, n, roster)
      && PassRun(ConsecutiveRepair, afterWeekly, newSchedule.entries, |dailyLog| + |weeklyLog|, swaps, n, roster)
    ensures var roster := Roster(schedule.entries);
      (StableBefore(schedule.entries, n, roster) && SettledBefore(WeeklyRepair, schedule.entries, n, n, roster)
       && SettledBefore(ConsecutiveRepair, schedule.entries, n, n, roster)) ==>
      swaps == 0 && newSchedule.entries == schedule.entries
  {
    newSchedule := new Schedule(schedule.entries);
    var allStaffIds := Roster(schedule.entries);
    swaps, log, dailyLog, weeklyLog, runLog, afterDaily, afterWeekly := RunPasses(newSchedule, n, allStaffIds);
    RepairFacts(schedule.entries, log, newSchedule.entries, n);
  }
}
