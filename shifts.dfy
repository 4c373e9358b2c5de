/** The data the autobalancer works on: staff ids, calendar dates, shift
    assignments, and the list operations it builds on (filter, map, the
    staff roster, findIndex and splice). */
module Shifts {

  /** An opaque staff identifier; only ever compared for equality. */
  type StaffId = int

  /** A calendar date, as the number of days after the first day of the
      scheduling horizon (negative before it). Canonical `YYYY-MM-DD`
      strings compare in the same order as these numbers. */
  type Date = int

  /** A shift assignment `{staffId, date}`. A preference request has the
      same shape. */
  datatype Shift = Shift(staffId: StaffId, date: Date)

  datatype Option<T> = None | Some(value: T)

  function Max(a: int, b: int): int { if a < b then b else a }

  function Min(a: int, b: int): int { if a < b then a else b }

  /** `allDates.findIndex(...)` over a horizon of `n` consecutive days that
      starts on day 0: the position of `d`, or -1 when `d` lies outside. */
  function Position(d: Date, n: nat): int
  {
    if 0 <= d < n then d else -1
  }

  predicate Distinct<T(==)>(s: seq<T>)
  {
    forall i, j :: 0 <= i < j < |s| ==> s[i] != s[j]
  }

  /** `Array.prototype.filter`: the elements of `s` that satisfy `f`, in order. */
  function Filter<T(==,!new)>(s: seq<T>, f: T -> bool): (r: seq<T>)
    ensures |r| <= |s|
    ensures forall x :: x in r <==> x in s && f(x)
  {
    if s == [] then []
    else if f(s[0]) then [s[0]] + Filter(s[1..], f)
    else Filter(s[1..], f)
  }

  lemma {:induction false} FilterConcat<T(!new)>(a: seq<T>, b: seq<T>, f: T -> bool)
    ensures Filter(a + b, f) == Filter(a, f) + Filter(b, f)
  {
    if a == [] {
      assert a + b == b;
    } else {
      assert (a + b)[1..] == a[1..] + b;
      FilterConcat(a[1..], b, f);
    }
  }

  /** Splicing out one element lowers the filtered count by one exactly when
      that element passes the filter. */
  lemma FilterRemoveAt<T(!new)>(s: seq<T>, i: nat, f: T -> bool)
    requires i < |s|
    ensures |Filter(s[..i] + s[i + 1..], f)| == |Filter(s, f)| - (if f(s[i]) then 1 else 0)
  {
    assert s == s[..i] + ([s[i]] + s[i + 1..]);
    FilterConcat(s[..i], [s[i]] + s[i + 1..], f);
    FilterConcat([s[i]], s[i + 1..], f);
    FilterConcat(s[..i], s[i + 1..], f);
  }

  /** Splicing out an element that fails the filter leaves the filtered list as it was. */
  lemma {:induction false} FilterSkipAt<T(!new)>(s: seq<T>, i: nat, f: T -> bool)
    requires i < |s| && !f(s[i])
    ensures Filter(s[..i] + s[i + 1..], f) == Filter(s, f)
  {
    var rest := [s[i]] + s[i + 1..];
    assert s == s[..i] + rest;
    assert rest[0] == s[i] && rest[1..] == s[i + 1..];
    assert Filter(rest, f) == Filter(s[i + 1..], f);
    FilterConcat(s[..i], rest, f);
    FilterConcat(s[..i], s[i + 1..], f);
  }

  lemma {:induction false} FilterDistinct<T(!new)>(s: seq<T>, f: T -> bool)
    requires Distinct(s)
    ensures Distinct(Filter(s, f))
  {
    if s != [] {
      assert Distinct(s[1..]);
      FilterDistinct(s[1..], f);
      assert s[0] !in s[1..];
    }
  }

  /** `shifts.map(s => s.date)` */
  function Dates(ss: seq<Shift>): seq<Date>
  {
    seq(|ss|, i requires 0 <= i < |ss| => ss[i].date)
  }

  /** `shifts.map(s => s.staffId)` */
  function StaffIds(ss: seq<Shift>): seq<StaffId>
  {
    seq(|ss|, i requires 0 <= i < |ss| => ss[i].staffId)
  }

  /** The dates of a non-empty list: the first date, then the rest's. */
  lemma DatesCons(ss: seq<Shift>)
    requires ss != []
    ensures Dates(ss) == [ss[0].date] + Dates(ss[1..])
  {
  }

  /** Filtering shifts by a test on their date and then taking the dates is
      the same as filtering the dates. */
  lemma {:induction false} DatesFilter(ss: seq<Shift>, f: Shift -> bool, g: Date -> bool)
    requires forall x :: f(x) == g(x.date)
    ensures Dates(Filter(ss, f)) == Filter(Dates(ss), g)
  {
    if ss != [] {
      DatesCons(ss);
      DatesFilter(ss[1..], f, g);
      if f(ss[0]) {
        var kept := [ss[0]] + Filter(ss[1..], f);
        DatesCons(kept);
        assert kept[1..] == Filter(ss[1..], f);
      }
    }
  }

  function OnDate(d: Date): Shift -> bool { (x: Shift) => x.date == d }

  function ByStaff(id: StaffId): Shift -> bool { (x: Shift) => x.staffId == id }

  /** `schedule.filter(shift => shift.date === date)` */
  function DayShifts(entries: seq<Shift>, d: Date): seq<Shift>
  {
    Filter(entries, OnDate(d))
  }

  /** The number of staff on day `d`, `dayShifts.length`. */
  function DayCount(entries: seq<Shift>, d: Date): nat
  {
    |DayShifts(entries, d)|
  }

  /** `schedule.filter(s => s.staffId === id)` */
  function StaffShifts(entries: seq<Shift>, id: StaffId): seq<Shift>
  {
    Filter(entries, ByStaff(id))
  }

  /** The dates of one staff member's shifts, `staffShifts.map(s => s.date)`. */
  function StaffDates(entries: seq<Shift>, id: StaffId): seq<Date>
  {
    Dates(StaffShifts(entries, id))
  }

  /** `assignedStaff.includes(id)` for the day's `assignedStaff`: the staff
      member already works day `d` exactly when the pair is in the schedule. */
  lemma AssignedIff(entries: seq<Shift>, id: StaffId, d: Date)
    ensures id in StaffIds(DayShifts(entries, d)) <==> Shift(id, d) in entries
  {
    var day := DayShifts(entries, d);
    if Shift(id, d) in entries {
      assert Shift(id, d) in day;
      var i :| 0 <= i < |day| && day[i] == Shift(id, d);
      assert StaffIds(day)[i] == id;
    }
    if id in StaffIds(day) {
      var i :| 0 <= i < |day| && StaffIds(day)[i] == id;
      assert day[i] in day;
      assert day[i] == Shift(id, d);
    }
  }

  /** `push` raises the head-count of the pushed shift's day by one and no other. */
  lemma DayCountPush(entries: seq<Shift>, x: Shift, d: Date)
    ensures DayCount(entries + [x], d) == DayCount(entries, d) + (if x.date == d then 1 else 0)
  {
    FilterConcat(entries, [x], OnDate(d));
    assert [x][1..] == [];
  }

  /** The dates of one staff member's shifts are distinct when no
      (staff, date) pair occurs twice in the schedule. */
  lemma StaffDatesDistinct(entries: seq<Shift>, id: StaffId)
    requires Distinct(entries)
    ensures Distinct(StaffDates(entries, id))
  {
    var ss := StaffShifts(entries, id);
    FilterDistinct(entries, ByStaff(id));
    forall i, j | 0 <= i < j < |ss|
      ensures StaffDates(entries, id)[i] != StaffDates(entries, id)[j]
    {
      assert ss[i] in ss && ss[j] in ss;
      assert ss[i].staffId == id == ss[j].staffId;
    }
  }

  /** `[...new Set(schedule.map(s => s.staffId))]`: every staff id of the
      schedule once, in order of first appearance. */
  function Roster(entries: seq<Shift>): (r: seq<StaffId>)
    ensures Distinct(r)
    ensures forall x :: x in entries ==> x.staffId in r
    ensures forall id :: id in r ==> exists x :: x in entries && x.staffId == id
  {
    if entries == [] then []
    else
      var prefix := entries[..|entries| - 1];
      var last := entries[|entries| - 1];
      assert entries == prefix + [last];
      var r := Roster(prefix);
      if last.staffId in r then r else r + [last.staffId]
  }

  /** `findIndex(shift => shift equals x)`: the first index holding `x`, or -1. */
  function IndexOf<T(==)>(s: seq<T>, x: T): (i: int)
    ensures -1 <= i < |s|
    ensures i == -1 <==> x !in s
    ensures 0 <= i ==> s[i] == x && x !in s[..i]
  {
    if s == [] then -1
    else if s[0] == x then 0
    else
      var j := IndexOf(s[1..], x);
      assert 0 <= j ==> s[..j + 1] == [s[0]] + s[1..][..j];
      if j == -1 then -1 else j + 1
  }

  /** Appending never moves the first occurrence of a value already present. */
  lemma {:induction false} IndexOfAppend<T>(s: seq<T>, y: T, x: T)
    requires x in s
    ensures IndexOf(s + [y], x) == IndexOf(s, x)
  {
    if s[0] != x {
      assert (s + [y])[1..] == s[1..] + [y];
      IndexOfAppend(s[1..], y, x);
    }
  }

  /** The roster holds exactly the staff ids that occur in the schedule. */
  lemma RosterIsStaffIds(entries: seq<Shift>, id: StaffId)
    ensures id in Roster(entries) <==> id in StaffIds(entries)
  {
    var ids := StaffIds(entries);
    if id in Roster(entries) {
      var x :| x in entries && x.staffId == id;
      var k :| 0 <= k < |entries| && entries[k] == x;
      assert ids[k] == id;
    }
    if id in ids {
      var k :| 0 <= k < |ids| && ids[k] == id;
      assert entries[k] in entries;
    }
  }

  /** `r` lists its ids in the order of their first occurrence in `ids`. */
  predicate InFirstAppearanceOrder(r: seq<StaffId>, ids: seq<StaffId>)
  {
    forall i, j :: 0 <= i < j < |r| ==> IndexOf(ids, r[i]) < IndexOf(ids, r[j])
  }

  /** The roster lists the staff ids in the order of their first shift in
      the schedule. */
  lemma {:induction false} RosterInFirstAppearanceOrder(entries: seq<Shift>)
    ensures InFirstAppearanceOrder(Roster(entries), StaffIds(entries))
  {
    if entries != [] {
      var prefix := entries[..|entries| - 1];
      var last := entries[|entries| - 1];
      assert entries == prefix + [last];
      RosterInFirstAppearanceOrder(prefix);
      var r0, ids0 := Roster(prefix), StaffIds(prefix);
      var r, ids := Roster(entries), StaffIds(entries);
      assert ids == ids0 + [last.staffId];
      forall i | 0 <= i < |r0| ensures IndexOf(ids, r0[i]) == IndexOf(ids0, r0[i]) < |prefix| {
        RosterIsStaffIds(prefix, r0[i]);
        IndexOfAppend(ids0, last.staffId, r0[i]);
      }
      if last.staffId in r0 {
        assert r == r0;
      } else {
        assert r == r0 + [last.staffId];
        RosterIsStaffIds(prefix, last.staffId);
        IndexOfAppendNew(ids0, last.staffId);
        forall i, j | 0 <= i < j < |r| ensures IndexOf(ids, r[i]) < IndexOf(ids, r[j]) {
          assert r[i] == r0[i];
          if j < |r0| {
            assert r[j] == r0[j];
          }
        }
      }
    }
  }

  /** A value new to `s` is found at the end of `s + [y]`. */
  lemma IndexOfAppendNew<T>(s: seq<T>, y: T)
    requires y !in s
    ensures IndexOf(s + [y], y) == |s|
  {
    assert (s + [y])[..|s|] == s;
  }

  /** `findIndex` followed by `splice(index, 1)`: the first occurrence of `x`
      is deleted and nothing else changes. */
  function RemoveFirst<T(==)>(s: seq<T>, x: T): (r: seq<T>)
    ensures x in s ==> |r| == |s| - 1 && multiset(r) == multiset(s) - multiset{x}
    ensures x !in s ==> r == s
  {
    var i := IndexOf(s, x);
    if i == -1 then s
    else
      assert s == s[..i] + [s[i]] + s[i + 1..];
      s[..i] + s[i + 1..]
  }

  /** Removing a present shift lowers the head-count of its day by one and no other. */
  lemma DayCountRemove(entries: seq<Shift>, x: Shift, d: Date)
    requires x in entries
    ensures DayCount(RemoveFirst(entries, x), d) == DayCount(entries, d) - (if x.date == d then 1 else 0)
  {
    FilterRemoveAt(entries, IndexOf(entries, x), OnDate(d));
  }

  lemma DistinctRemoveAt<T>(s: seq<T>, i: nat)
    requires Distinct(s) && i < |s|
    ensures Distinct(s[..i] + s[i + 1..])
  {
    var r := s[..i] + s[i + 1..];
    forall a, b | 0 <= a < b < |r| ensures r[a] != r[b] {
      var a' := if a < i then a else a + 1;
      var b' := if b < i then b else b + 1;
      assert r[a] == s[a'] && r[b] == s[b'];
    }
  }

  lemma DistinctAppend<T>(s: seq<T>, x: T)
    requires Distinct(s) && x !in s
    ensures Distinct(s + [x])
  {
  }

  /** A duplicate-free sequence has as many distinct elements as entries. */
  lemma {:induction false} DistinctCard<T>(s: seq<T>)
    requires Distinct(s)
    ensures |set x | x in s| == |s|
  {
    if s != [] {
      assert Distinct(s[1..]);
      DistinctCard(s[1..]);
      assert (set x | x in s) == {s[0]} + (set x | x in s[1..]);
      assert s[0] !in s[1..];
    }
  }

  lemma {:induction false} SetCardAtMostLength<T>(s: seq<T>)
    ensures |set x | x in s| <= |s|
  {
    if s != [] {
      SetCardAtMostLength(s[1..]);
      assert (set x | x in s) == {s[0]} + (set x | x in s[1..]);
    }
  }

  lemma SubsetCard<T>(a: set<T>, b: set<T>)
    requires a <= b
    ensures |a| <= |b|
  {
    assert b == a + (b - a);
  }
}
