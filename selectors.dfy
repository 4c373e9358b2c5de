/** Candidate selection: who to add to or remove from a day, and which date
    to add to or remove from a staff member's week. */
module Selectors {
  import opened Shifts
  import opened Constraints

  /** The staff member does not already work day `d`. */
  predicate Free(entries: seq<Shift>, id: StaffId, d: Date)
  {
    Shift(id, d) !in entries
  }

  /** The staff member's current trailing week ending on `d` holds 3 to 5
      of their shifts (checked before `d` is added), and adding `d` creates
      no run of four consecutive working days. */
  predicate Fits(entries: seq<Shift>, id: StaffId, d: Date, n: nat)
  {
    IsValidWeeklyShifts(StaffDates(entries, id), d, n) && ConsecutiveOk(StaffDates(entries, id), d, n)
  }

  /** The staff member could be added to day `d` without breaking any rule. */
  predicate Eligible(entries: seq<Shift>, id: StaffId, d: Date, n: nat)
  {
    Free(entries, id, d) && Fits(entries, id, d, n)
  }

  /** `roster[k]` is the first eligible roster member. */
  predicate FirstEligible(entries: seq<Shift>, d: Date, n: nat, roster: seq<StaffId>, k: int)
  {
    0 <= k < |roster| && Eligible(entries, roster[k], d, n)
    && forall j :: 0 <= j < k ==> !Eligible(entries, roster[j], d, n)
  }

  /** `roster[k]` is the first roster member free on day `d`. */
  predicate FirstFree(entries: seq<Shift>, d: Date, roster: seq<StaffId>, k: int)
  {
    0 <= k < |roster| && Free(entries, roster[k], d)
    && forall j :: 0 <= j < k ==> !Free(entries, roster[j], d)
  }

  /** One step of the first scan of `findBestStaffToAdd`: the staff member is
      not among the day's assigned staff and passes the weekly check and then
      the consecutive-run check. */
  method CheckCandidate(entries: seq<Shift>, assignedStaff: seq<StaffId>, staffId: StaffId, date: Date, n: nat)
    returns (ok: bool)
    requires assignedStaff == StaffIds(DayShifts(entries, date))
    ensures ok == Eligible(entries, staffId, date, n)
  {
    AssignedIff(entries, staffId, date);
    ok := false;
    if staffId !in assignedStaff {
      var staffDates := StaffDates(entries, staffId);
      if IsValidWeeklyShifts(staffDates, date, n) {
        ok := IsValidConsecutiveShifts(staffDates, date, n);
      }
    }
  }

  /** `id` is the staff member `findBestStaffToAdd` picks for day `d`: the
      first eligible roster member, or, when none is eligible, the first free one. */
  predicate BestToAdd(entries: seq<Shift>, d: Date, n: nat, roster: seq<StaffId>, id: StaffId)
  {
    exists k ::
      0 <= k < |roster| && roster[k] == id
      && (FirstEligible(entries, d, n, roster, k)
          || ((forall j :: 0 <= j < |roster| ==> !Eligible(entries, roster[j], d, n))
              && FirstFree(entries, d, roster, k)))
  }

  /** `findBestStaffToAdd`: the first roster member who is free on `date` and
      fits; failing that, the first roster member who is free; `None` only
      when the whole roster already works that day. */
  method FindBestStaffToAdd(entries: seq<Shift>, date: Date, n: nat, allStaffIds: seq<StaffId>)
    returns (r: Option<StaffId>)
    ensures r.None? <==> forall k :: 0 <= k < |allStaffIds| ==> !Free(entries, allStaffIds[k], date)
    ensures r.Some? ==> BestToAdd(entries, date, n, allStaffIds, r.value)
  {
    var assignedStaff := StaffIds(DayShifts(entries, date));
    for k := 0 to |allStaffIds|
      invariant forall j :: 0 <= j < k ==> !Eligible(entries, allStaffIds[j], date, n)
    {
      var eligible := CheckCandidate(entries, assignedStaff, allStaffIds[k], date, n);
      if eligible {
        assert FirstEligible(entries, date, n, allStaffIds, k);
        return Some(allStaffIds[k]);
      }
    }
    for k := 0 to |allStaffIds|
      invariant forall j :: 0 <= j < k ==> !Free(entries, allStaffIds[j], date)
    {
      AssignedIff(entries, allStaffIds[k], date);
      if allStaffIds[k] !in assignedStaff {
        assert FirstFree(entries, date, allStaffIds, k);
        return Some(allStaffIds[k]);
      }
    }
    return None;
  }

  /** Index `k` holds the first largest key. */
  predicate IsFirstMaximum(keys: seq<int>, k: nat)
  {
    k < |keys|
    && (forall j :: 0 <= j < |keys| ==> keys[j] <= keys[k])
    && (forall j :: 0 <= j < k ==> keys[j] < keys[k])
  }

  /** The element a stable descending sort by key puts first. */
  function FirstMaxIndex(keys: seq<int>): (k: nat)
    requires |keys| > 0
    ensures IsFirstMaximum(keys, k)
  {
    if |keys| == 1 then 0
    else
      var k := FirstMaxIndex(keys[..|keys| - 1]);
      if keys[|keys| - 1] > keys[k] then |keys| - 1 else k
  }

  /** Each day shift's staff member's total number of shifts. */
  function TotalShifts(entries: seq<Shift>, dayShifts: seq<Shift>): seq<int>
  {
    seq(|dayShifts|, i requires 0 <= i < |dayShifts| => |StaffShifts(entries, dayShifts[i].staffId)|)
  }

  /** `findBestStaffToRemove`: among the day's shifts, the staff member with
      the most shifts in the whole schedule, the earliest on a tie. */
  function FindBestStaffToRemove(entries: seq<Shift>, dayShifts: seq<Shift>): (r: Option<StaffId>)
    ensures r.None? <==> dayShifts == []
    ensures r.Some? ==> exists k: nat ::
      IsFirstMaximum(TotalShifts(entries, dayShifts), k) && k < |dayShifts| && dayShifts[k].staffId == r.value
  {
    if dayShifts == [] then None
    else
      var k := FirstMaxIndex(TotalShifts(entries, dayShifts));
      Some(dayShifts[k].staffId)
  }

  /** The staff member may take day `d`: the day has fewer than 5 staff, the
      staff member is not on it yet, and the run of consecutive days stays valid. */
  predicate CanTake(entries: seq<Shift>, id: StaffId, d: Date, n: nat)
  {
    DayCount(entries, d) < 5 && Free(entries, id, d) && ConsecutiveOk(StaffDates(entries, id), d, n)
  }

  /** One step of `findBestDateToAddShift`: the day has fewer than 5 staff,
      the staff member is not on it, and the consecutive-run check passes. */
  method CheckDate(entries: seq<Shift>, staffId: StaffId, date: Date, n: nat) returns (ok: bool)
    ensures ok == CanTake(entries, staffId, date, n)
  {
    var dayShifts := DayShifts(entries, date);
    var staffAlreadyHasShift := Shift(staffId, date) in entries;
    ok := false;
    if |dayShifts| < 5 && !staffAlreadyHasShift {
      var staffShifts := StaffShifts(entries, staffId);
      ok := IsValidConsecutiveShifts(Dates(staffShifts), date, n);
    }
  }

  /** `d` is the date `findBestDateToAddShift` picks: the first date of
      `[lo, hi]` the staff member can take. */
  predicate BestDateToAdd(entries: seq<Shift>, id: StaffId, lo: int, hi: int, n: nat, d: Date)
  {
    lo <= d <= hi && CanTake(entries, id, d, n)
    && forall d' :: lo <= d' < d ==> !CanTake(entries, id, d', n)
  }

  /** `findBestDateToAddShift`: the first date of the window the staff member
      can take, or `None`. */
  method FindBestDateToAddShift(entries: seq<Shift>, staffId: StaffId, weekStart: int, weekEnd: int, n: nat)
    returns (r: Option<Date>)
    requires 0 <= weekStart && weekEnd < n
    ensures r.Some? ==> BestDateToAdd(entries, staffId, weekStart, weekEnd, n, r.value)
    ensures r.None? ==> forall d :: weekStart <= d <= weekEnd ==> !CanTake(entries, staffId, d, n)
  {
    var i := weekStart;
    while i <= weekEnd
      invariant weekStart <= i <= weekEnd + 1 || i == weekStart
      invariant forall d :: weekStart <= d < i ==> !CanTake(entries, staffId, d, n)
      decreases weekEnd - i
    {
      var ok := CheckDate(entries, staffId, i, n);
      if ok {
        return Some(i);
      }
      i := i + 1;
    }
    return None;
  }

  /** Each window shift's day head-count. */
  function DayTotals(entries: seq<Shift>, weekShifts: seq<Shift>): seq<int>
  {
    seq(|weekShifts|, i requires 0 <= i < |weekShifts| => DayCount(entries, weekShifts[i].date))
  }

  /** `findBestShiftToRemove`: the window shift on the most crowded day, the
      earliest on a tie. */
  function FindBestShiftToRemove(entries: seq<Shift>, weekShifts: seq<Shift>): (r: Option<Shift>)
    ensures r.None? <==> weekShifts == []
    ensures r.Some? ==> exists k: nat ::
      IsFirstMaximum(DayTotals(entries, weekShifts), k) && k < |weekShifts| && weekShifts[k] == r.value
  {
    if weekShifts == [] then None
    else Some(weekShifts[FirstMaxIndex(DayTotals(entries, weekShifts))])
  }
}
