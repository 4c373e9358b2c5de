/** The three staffing constraints: daily head-count, the trailing weekly
    window, and the run of consecutive working days. */
module Constraints {
  import opened Shifts

  /** `isValidDayStaffing`: a day is staffed correctly with 3 to 5 people. */
  function IsValidDayStaffing(dayShifts: seq<Shift>): bool
  {
    3 <= |dayShifts| <= 5
  }

  /** First and last horizon position of the trailing week that ends at
      position `idx`, clipped to the horizon. */
  function WeekStart(idx: int): int { Max(0, idx - 6) }

  function WeekEnd(idx: int, n: nat): int { Min(n - 1, idx) }

  function InWindow(lo: int, hi: int, n: nat): Date -> bool
  {
    (x: Date) => lo <= Position(x, n) <= hi
  }

  /** The dates whose horizon position lies in `[lo, hi]`. */
  function WindowDates(dates: seq<Date>, lo: int, hi: int, n: nat): seq<Date>
  {
    Filter(dates, InWindow(lo, hi, n))
  }

  /** `isValidWeeklyShifts`: the staff member works 3 to 5 of the days of the
      trailing week ending on `date`. */
  function IsValidWeeklyShifts(staffDates: seq<Date>, date: Date, n: nat): (r: bool)
    ensures var idx := Position(date, n);
      r <==> 3 <= CountInWindow(staffDates, WeekStart(idx), WeekEnd(idx, n), n) <= 5
  {
    var idx := Position(date, n);
    WindowDatesCount(staffDates, WeekStart(idx), WeekEnd(idx, n), n);
    var count := |WindowDates(staffDates, WeekStart(idx), WeekEnd(idx, n), n)|;
    3 <= count && count <= 5
  }

  /** How many entries of `dates`, duplicates included, have their horizon
      position in `[lo, hi]`. */
  function CountInWindow(dates: seq<Date>, lo: int, hi: int, n: nat): nat
  {
    if dates == [] then 0
    else (if lo <= Position(dates[0], n) <= hi then 1 else 0) + CountInWindow(dates[1..], lo, hi, n)
  }

  /** The filtered window holds exactly the entries that fall in it. */
  lemma {:induction false} WindowDatesCount(dates: seq<Date>, lo: int, hi: int, n: nat)
    ensures |WindowDates(dates, lo, hi, n)| == CountInWindow(dates, lo, hi, n)
  {
    if dates != [] {
      WindowDatesCount(dates[1..], lo, hi, n);
    }
  }

  /** A date outside the horizon never has a valid week: its window is empty. */
  lemma WeeklyRequiresDateInHorizon(staffDates: seq<Date>, date: Date, n: nat)
    ensures IsValidWeeklyShifts(staffDates, date, n) ==> 0 <= date < n
  {
    if !(0 <= date < n) {
      var w := WindowDates(staffDates, WeekStart(-1), WeekEnd(-1, n), n);
      if |w| > 0 {
        assert w[0] in w;
      }
    }
  }

  /** The window of an in-horizon date `d` covers min(7, d + 1) days, so a
      staff member without duplicate dates has at most that many shifts in it. */
  lemma WeeklyWindowBound(staffDates: seq<Date>, date: Date, n: nat)
    requires Distinct(staffDates) && 0 <= date < n
    ensures |WindowDates(staffDates, WeekStart(date), WeekEnd(date, n), n)| <= Min(7, date + 1)
  {
    var lo, hi := WeekStart(date), WeekEnd(date, n);
    var w := WindowDates(staffDates, lo, hi, n);
    FilterDistinct(staffDates, InWindow(lo, hi, n));
    DistinctCard(w);
    SubsetCard((set x | x in w), Interval(lo, hi));
  }

  /** The horizon positions `lo .. hi`. */
  function Interval(lo: int, hi: int): (r: set<int>)
    ensures forall x :: x in r <==> lo <= x <= hi
    ensures lo <= hi + 1 ==> |r| == hi - lo + 1
    decreases hi - lo
  {
    if lo > hi then {} else Interval(lo, hi - 1) + {hi}
  }

  /** Clipping the window at the start of the horizon makes the weekly check
      unsatisfiable on the first two days for any staff member whose dates
      are distinct: their window holds at most two shifts. */
  lemma WeeklyNeverValidOnFirstTwoDays(staffDates: seq<Date>, date: Date, n: nat)
    requires Distinct(staffDates) && 0 <= date < n && date <= 1
    ensures !IsValidWeeklyShifts(staffDates, date, n)
  {
    WeeklyWindowBound(staffDates, date, n);
  }

  /** Only shifts inside the trailing window count: adding a shift outside it
      never changes the verdict. */
  lemma WeeklyIgnoresShiftsOutsideWindow(staffDates: seq<Date>, x: Date, date: Date, n: nat)
    requires var idx := Position(date, n); !(WeekStart(idx) <= Position(x, n) <= WeekEnd(idx, n))
    ensures IsValidWeeklyShifts(staffDates + [x], date, n) == IsValidWeeklyShifts(staffDates, date, n)
  {
    var idx := Position(date, n);
    FilterConcat(staffDates, [x], InWindow(WeekStart(idx), WeekEnd(idx, n), n));
  }

  predicate Sorted(s: seq<int>)
  {
    forall i, j :: 0 <= i < j < |s| ==> s[i] <= s[j]
  }

  /** Places `x` before the first element it does not exceed. */
  function Insert(s: seq<int>, x: int): (r: seq<int>)
    ensures multiset(r) == multiset(s) + multiset{x}
  {
    if s == [] || x <= s[0] then [x] + s
    else
      assert s == [s[0]] + s[1..];
      [s[0]] + Insert(s[1..], x)
  }

  /** Inserting into a sorted sequence keeps it sorted. */
  lemma {:induction false} InsertSorted(s: seq<int>, x: int)
    requires Sorted(s)
    ensures Sorted(Insert(s, x))
  {
    if s != [] && s[0] < x {
      InsertSorted(s[1..], x);
      InsertAfterHead(s, x, Insert(s[1..], x));
    }
  }

  /** The head of a sorted sequence, placed before a sorted permutation of
      its tail and a larger element, keeps the whole sorted. */
  lemma InsertAfterHead(s: seq<int>, x: int, tail: seq<int>)
    requires Sorted(s) && s != [] && s[0] < x
    requires Sorted(tail) && multiset(tail) == multiset(s[1..]) + multiset{x}
    ensures Sorted([s[0]] + tail) && multiset([s[0]] + tail) == multiset(s) + multiset{x}
  {
    assert s == [s[0]] + s[1..];
    forall k | 0 <= k < |tail| ensures s[0] <= tail[k] {
      assert tail[k] in multiset(tail);
      assert tail[k] == x || tail[k] in s[1..];
    }
    var r := [s[0]] + tail;
    forall i, j | 0 <= i < j < |r| ensures r[i] <= r[j] {
      if i > 0 {
        assert r[i] == tail[i - 1] && r[j] == tail[j - 1];
      } else {
        assert r[j] == tail[j - 1];
      }
    }
  }

  /** `.sort()` on canonical date strings, which orders them by day. */
  function SortDates(s: seq<Date>): (r: seq<Date>)
    ensures multiset(r) == multiset(s)
  {
    if s == [] then []
    else
      assert s == s[..|s| - 1] + [s[|s| - 1]];
      Insert(SortDates(s[..|s| - 1]), s[|s| - 1])
  }

  /** `SortDates` returns its dates in ascending order. */
  lemma {:induction false} SortDatesSorted(s: seq<Date>)
    ensures Sorted(SortDates(s))
    decreases |s|
  {
    if s != [] {
      SortDatesSorted(s[..|s| - 1]);
      InsertSorted(SortDates(s[..|s| - 1]), s[|s| - 1]);
    }
  }

  /** The horizon positions of a list of dates. */
  function Positions(dates: seq<Date>, n: nat): seq<int>
  {
    seq(|dates|, i requires 0 <= i < |dates| => Position(dates[i], n))
  }

  /** Positions `i - 3 .. i` are four entries each one day after the previous. */
  predicate RunEndsAt(p: seq<int>, i: int)
    requires 3 <= i < |p|
  {
    p[i - 2] == p[i - 3] + 1 && p[i - 1] == p[i - 2] + 1 && p[i] == p[i - 1] + 1
  }

  /** No four neighbouring entries lie on consecutive positions: no run
      ends at the last entry, nor anywhere in the entries before it. */
  predicate NoRun(p: seq<int>)
    decreases |p|
  {
    |p| < 4 || (NoRun(p[..|p| - 1]) && !RunEndsAt(p, |p| - 1))
  }

  /** `NoRun` says that no index ends a run. */
  lemma {:induction false} NoRunIff(p: seq<int>)
    ensures NoRun(p) <==> forall i :: 3 <= i < |p| ==> !RunEndsAt(p, i)
    decreases |p|
  {
    if |p| >= 4 {
      var q := p[..|p| - 1];
      NoRunIff(q);
      forall i | 3 <= i < |q| ensures RunEndsAt(q, i) == RunEndsAt(p, i) {}
    }
  }

  /** The verdict of `isValidConsecutiveShifts`: after adding `date` to the
      staff member's dates and sorting, no four neighbouring entries lie on
      consecutive horizon positions. */
  predicate ConsecutiveOk(staffDates: seq<Date>, date: Date, n: nat)
  {
    NoRun(Positions(SortDates(staffDates + [date]), n))
  }

  /** The value of `consecutiveCount` after index `i`: the length of the
      chain of +1 steps that ends there. */
  function Chain(p: seq<int>, i: nat): (c: nat)
    requires i < |p|
    ensures c >= 1
  {
    if i == 0 then 1
    else if p[i] == p[i - 1] + 1 then Chain(p, i - 1) + 1
    else 1
  }

  /** The counter exceeds 3 exactly where a four-entry run ends. */
  lemma ChainLong(p: seq<int>, i: nat)
    requires i < |p|
    ensures Chain(p, i) > 3 <==> 3 <= i && RunEndsAt(p, i)
  {
    if i >= 1 && p[i] == p[i - 1] + 1 {
      if i >= 2 && p[i - 1] == p[i - 2] + 1 {
        if i >= 3 && p[i - 2] == p[i - 3] + 1 {
          assert Chain(p, i - 2) == Chain(p, i - 3) + 1;
        } else {
          assert Chain(p, i - 2) == 1;
        }
      } else {
        assert Chain(p, i - 1) == 1;
      }
    }
  }

  /** The scan of `isValidConsecutiveShifts` over the sorted dates: a counter
      of consecutive positions, rejecting once it passes 3. */
  method ScanForRun(testShifts: seq<Date>, n: nat) returns (ok: bool)
    ensures ok == NoRun(Positions(testShifts, n))
  {
    ghost var p := Positions(testShifts, n);
    NoRunIff(p);
    var consecutiveCount := 1;
    var i := 1;
    while i < |testShifts|
      invariant 1 <= i <= |testShifts| || (testShifts == [] && i == 1)
      invariant i <= |testShifts| ==> consecutiveCount == Chain(p, i - 1) && consecutiveCount <= 3
      invariant forall j :: 3 <= j < i && j < |p| ==> !RunEndsAt(p, j)
    {
      var prevIndex := Position(testShifts[i - 1], n);
      var currIndex := Position(testShifts[i], n);
      ChainLong(p, i);
      if currIndex == prevIndex + 1 {
        consecutiveCount := consecutiveCount + 1;
        if consecutiveCount > 3 {
          return false;
        }
      } else {
        consecutiveCount := 1;
      }
      i := i + 1;
    }
    return true;
  }

  /** `isValidConsecutiveShifts`: sorts the staff member's dates with the
      candidate added and scans them for a run of four. */
  method IsValidConsecutiveShifts(staffDates: seq<Date>, date: Date, n: nat) returns (ok: bool)
    ensures ok == ConsecutiveOk(staffDates, date, n)
  {
    var testShifts := SortDates(staffDates + [date]);
    ok := ScanForRun(testShifts, n);
  }

  /** Four consecutive days `d .. d + 3` where the two middle days occur once:
      a duplicated middle day would sit next to itself after sorting. */
  ghost predicate FourDayRun(m: multiset<Date>)
  {
    exists d :: d in m && m[d + 1] == 1 && m[d + 2] == 1 && d + 3 in m
  }

  /** Reference definition of the consecutive check for dates inside the
      horizon: it fails exactly when the dates, with the candidate added,
      contain a four-day run whose middle days are not duplicated. */
  lemma ConsecutiveOkIff(staffDates: seq<Date>, date: Date, n: nat)
    requires 0 <= date < n && forall x :: x in staffDates ==> 0 <= x < n
    ensures ConsecutiveOk(staffDates, date, n) <==> !FourDayRun(multiset(staffDates + [date]))
  {
    var all := staffDates + [date];
    var s := SortDates(all);
    SortDatesSorted(all);
    var p := Positions(s, n);
    forall i | 0 <= i < |s| ensures p[i] == s[i] {
      assert s[i] in multiset(all);
      assert s[i] in all;
      assert s[i] == date || s[i] in staffDates;
    }
    assert p == s;
    NoRunIff(s);
    SortedRunIff(s);
  }

  lemma SortedRunIff(s: seq<int>)
    requires Sorted(s)
    ensures (exists i :: 3 <= i < |s| && RunEndsAt(s, i)) <==> FourDayRun(multiset(s))
  {
    if exists i :: 3 <= i < |s| && RunEndsAt(s, i) {
      var i :| 3 <= i < |s| && RunEndsAt(s, i);
      FourDaysFromRun(s, i);
    }
    if FourDayRun(multiset(s)) {
      RunFromFourDayRun(s);
    }
  }

  /** A four-day run in a sorted list ends at some index. */
  lemma RunFromFourDayRun(s: seq<int>)
    requires Sorted(s) && FourDayRun(multiset(s))
    ensures exists i :: 3 <= i < |s| && RunEndsAt(s, i)
  {
    var m := multiset(s);
    var d :| d in m && m[d + 1] == 1 && m[d + 2] == 1 && d + 3 in m;
    var i := RunFromFourDays(s, d);
  }

  /** Four neighbouring sorted entries on consecutive positions form a
      four-day run: their middle values cannot occur anywhere else. */
  lemma FourDaysFromRun(s: seq<int>, i: nat)
    requires Sorted(s) && 3 <= i < |s| && RunEndsAt(s, i)
    ensures FourDayRun(multiset(s))
  {
    var m := multiset(s);
    OnlyIndex(s, i - 2);
    OnlyIndex(s, i - 1);
    var d := s[i - 3];
    assert s[i - 3] in s && s[i] in s;
    assert d in m && d + 3 in m;
    assert m[d + 1] == 1 && m[d + 2] == 1;
  }

  /** A value strictly between its sorted neighbours occurs exactly once. */
  lemma OnlyIndex(s: seq<int>, k: nat)
    requires Sorted(s) && k < |s|
    requires k == 0 || s[k - 1] < s[k]
    requires k == |s| - 1 || s[k] < s[k + 1]
    ensures multiset(s)[s[k]] == 1
  {
    assert s == s[..k] + [s[k]] + s[k + 1..];
    forall j | 0 <= j < k ensures s[j] != s[k] {
      assert s[j] <= s[k - 1];
    }
    forall j | k < j < |s| ensures s[j] != s[k] {
      assert s[k + 1] <= s[j];
    }
    assert s[k] !in s[..k];
    assert s[k] !in s[k + 1..];
  }

  /** A value found at two indices occurs at least twice. */
  lemma TwoIndices(s: seq<int>, a: nat, b: nat)
    requires a < b < |s| && s[a] == s[b]
    ensures multiset(s)[s[a]] >= 2
  {
    assert s == s[..a] + [s[a]] + s[a + 1..b] + [s[b]] + s[b + 1..];
  }

  /** After a value that occurs once comes a strictly larger one, no larger
      than any later value. */
  lemma StepUp(s: seq<int>, k: nat, j: nat)
    requires Sorted(s) && k < |s| && j < |s| && s[k] < s[j] && multiset(s)[s[k]] == 1
    ensures k + 1 < |s| && s[k] < s[k + 1] <= s[j]
  {
    assert k < j;
    if s[k + 1] == s[k] {
      TwoIndices(s, k, k + 1);
    }
  }

  /** Before a value that occurs once comes a strictly smaller one, no
      smaller than any earlier value. */
  lemma StepDown(s: seq<int>, k: nat, j: nat)
    requires Sorted(s) && k < |s| && j < |s| && s[j] < s[k] && multiset(s)[s[k]] == 1
    ensures 0 < k && s[j] <= s[k - 1] < s[k]
  {
    assert j < k;
    if s[k - 1] == s[k] {
      TwoIndices(s, k - 1, k);
    }
  }

  /** In sorted order, a four-day run with single middle days occupies four
      neighbouring entries. */
  lemma RunFromFourDays(s: seq<int>, d: int) returns (i: nat)
    requires Sorted(s)
    requires d in multiset(s) && multiset(s)[d + 1] == 1 && multiset(s)[d + 2] == 1 && d + 3 in multiset(s)
    ensures 3 <= i < |s| && RunEndsAt(s, i) && s[i - 3] == d
  {
    assert d + 1 in s && d in s && d + 2 in s && d + 3 in s;
    var k :| 0 <= k < |s| && s[k] == d + 1;
    var k0 :| 0 <= k0 < |s| && s[k0] == d;
    var k2 :| 0 <= k2 < |s| && s[k2] == d + 2;
    var k3 :| 0 <= k3 < |s| && s[k3] == d + 3;
    StepDown(s, k, k0);
    StepUp(s, k, k2);
    StepUp(s, k + 1, k3);
    i := k + 2;
  }

  lemma NoRunInThreeDays(d: Date)
    ensures !FourDayRun(multiset([d, d + 1] + [d + 2]))
  {
  }

  lemma RunInFourDays(d: Date)
    ensures FourDayRun(multiset([d, d + 1, d + 2] + [d + 3]))
  {
    var m := multiset([d, d + 1, d + 2] + [d + 3]);
    assert d in m && m[d + 1] == 1 && m[d + 2] == 1 && d + 3 in m;
  }

  lemma NoRunAcrossDuplicate(d: Date)
    ensures !FourDayRun(multiset([d, d + 1, d + 2, d + 3] + [d + 1]))
  {
    var m := multiset([d, d + 1, d + 2, d + 3] + [d + 1]);
    assert m[d + 1] == 2;
  }

  lemma RunAfterDuplicateFirstDay(d: Date)
    ensures FourDayRun(multiset([d, d + 1, d + 2, d + 3] + [d]))
  {
    var m := multiset([d, d + 1, d + 2, d + 3] + [d]);
    assert d in m && m[d + 1] == 1 && m[d + 2] == 1 && d + 3 in m;
  }

  /** Three days in a row are accepted; adding the fourth is rejected. */
  lemma FourthConsecutiveDayRejected(d: Date, n: nat)
    requires 0 <= d && d + 3 < n
    ensures ConsecutiveOk([d, d + 1], d + 2, n)
    ensures !ConsecutiveOk([d, d + 1, d + 2], d + 3, n)
  {
    ConsecutiveOkIff([d, d + 1], d + 2, n);
    NoRunInThreeDays(d);
    ConsecutiveOkIff([d, d + 1, d + 2], d + 3, n);
    RunInFourDays(d);
  }

  /** A candidate date the staff member already works is a duplicate after
      sorting and breaks the run in two: with the four-day run d..d+3 already
      in place, checking day d + 1 passes, while checking day d (the first
      day of the run) fails. */
  lemma DuplicateDateResetsRun(d: Date, n: nat)
    requires 0 <= d && d + 3 < n
    ensures ConsecutiveOk([d, d + 1, d + 2, d + 3], d + 1, n)
    ensures !ConsecutiveOk([d, d + 1, d + 2, d + 3], d, n)
  {
    ConsecutiveOkIff([d, d + 1, d + 2, d + 3], d + 1, n);
    NoRunAcrossDuplicate(d);
    ConsecutiveOkIff([d, d + 1, d + 2, d + 3], d, n);
    RunAfterDuplicateFirstDay(d);
  }
}
