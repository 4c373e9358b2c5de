/** The fairness score shown per staff member: the number of the staff
    member's preferences whose date is among their assigned dates, as a
    percentage of their assigned shifts. When no date repeats this is the
    share of assigned shifts that were asked for; a repeated preference or
    a repeated assigned date moves it away from that share. */
module Fairness {
  import opened Shifts

  /** A preference is honored when its date is among the assigned dates. */
  function IsHonored(currentShifts: seq<Date>): Shift -> bool
  {
    (pref: Shift) => pref.date in currentShifts
  }

  function HonoredCount(staffPreferences: seq<Shift>, currentShifts: seq<Date>): nat
  {
    |Filter(staffPreferences, IsHonored(currentShifts))|
  }

  /** `Math.round(100 * honored / total)` for a positive total: the nearest
      integer, halves rounded up. */
  function RoundedPercent(honored: nat, total: nat): (r: nat)
    requires total > 0
    ensures 2 * total * r <= 200 * honored + total < 2 * total * (r + 1)
  {
    var a, b := 200 * honored + total, 2 * total;
    var q := a / b;
    assert a == b * q + a % b;
    q
  }

  /** `calculateFairness`: 100 when there are no preferences or no assigned
      shifts, otherwise the honored preferences as a rounded percentage of
      the number of assigned shifts. */
  function CalculateFairness(staffPreferences: seq<Shift>, currentShifts: seq<Date>): (r: nat)
    ensures staffPreferences == [] || currentShifts == [] ==> r == 100
    ensures staffPreferences != [] && currentShifts != [] ==>
      var h, t := HonoredCount(staffPreferences, currentShifts), |currentShifts|;
      2 * t * r <= 200 * h + t < 2 * t * (r + 1)
  {
    if staffPreferences == [] then 100
    else
      var honoredCount := HonoredCount(staffPreferences, currentShifts);
      var totalAssignments := |currentShifts|;
      if totalAssignments > 0 then RoundedPercent(honoredCount, totalAssignments) else 100
  }

  /** The honored preferences, as dates: those preferred dates that are assigned. */
  lemma HonoredDates(staffPreferences: seq<Shift>, currentShifts: seq<Date>)
    ensures HonoredCount(staffPreferences, currentShifts)
         == |Filter(Dates(staffPreferences), (x: Date) => x in currentShifts)|
  {
    DatesFilter(staffPreferences, IsHonored(currentShifts), (x: Date) => x in currentShifts);
  }

  lemma MulMonotone(t: nat, a: int, b: int)
    requires a <= b
    ensures t * a <= t * b
  {
    assert t * b - t * a == t * (b - a);
  }

  /** The rounded percentage is at most 100 when honored <= total, and exactly
      100 when they are equal. */
  lemma RoundedPercentCap(honored: nat, total: nat)
    requires 0 < total && honored <= total
    ensures RoundedPercent(honored, total) <= 100
    ensures honored == total ==> RoundedPercent(honored, total) == 100
  {
    var r := RoundedPercent(honored, total);
    MulMonotone(200, honored, total);
    if r > 100 {
      MulMonotone(2 * total, 101, r);
    }
    if honored == total && r < 100 {
      MulMonotone(2 * total, r + 1, 100);
    }
  }

  /** Distinct preferred dates honored by the assigned shifts number at most
      the distinct assigned dates, hence at most the assigned shifts; all of
      them when every (distinct) assigned date was preferred. */
  lemma HonoredAtMostAssigned(staffPreferences: seq<Shift>, currentShifts: seq<Date>)
    requires Distinct(Dates(staffPreferences))
    ensures HonoredCount(staffPreferences, currentShifts) <= |currentShifts|
    ensures Distinct(currentShifts) && (forall x :: x in currentShifts ==> x in Dates(staffPreferences))
      ==> HonoredCount(staffPreferences, currentShifts) == |currentShifts|
  {
    var f := (x: Date) => x in currentShifts;
    var honored := Filter(Dates(staffPreferences), f);
    HonoredDates(staffPreferences, currentShifts);
    FilterDistinct(Dates(staffPreferences), f);
    DistinctCard(honored);
    SubsetCard(set x | x in honored, set x | x in currentShifts);
    SetCardAtMostLength(currentShifts);
    if Distinct(currentShifts) && (forall x :: x in currentShifts ==> x in Dates(staffPreferences)) {
      DistinctCard(currentShifts);
      assert (set x | x in honored) == (set x | x in currentShifts);
    }
  }

  /** When no date is preferred twice, the score never exceeds 100. */
  lemma FairnessAtMost100(staffPreferences: seq<Shift>, currentShifts: seq<Date>)
    requires Distinct(Dates(staffPreferences))
    ensures CalculateFairness(staffPreferences, currentShifts) <= 100
  {
    if staffPreferences != [] && currentShifts != [] {
      HonoredAtMostAssigned(staffPreferences, currentShifts);
      RoundedPercentCap(HonoredCount(staffPreferences, currentShifts), |currentShifts|);
    }
  }

  /** Because the denominator is the number of assigned shifts, a staff
      member all of whose (distinct) shifts were preferred scores 100, however
      many other preferences went unfulfilled. */
  lemma FairnessFullWhenEveryShiftPreferred(staffPreferences: seq<Shift>, currentShifts: seq<Date>)
    requires Distinct(Dates(staffPreferences)) && Distinct(currentShifts)
    requires forall x :: x in currentShifts ==> x in Dates(staffPreferences)
    ensures CalculateFairness(staffPreferences, currentShifts) == 100
  {
    if staffPreferences != [] && currentShifts != [] {
      HonoredAtMostAssigned(staffPreferences, currentShifts);
      RoundedPercentCap(HonoredCount(staffPreferences, currentShifts), |currentShifts|);
    }
  }

  /** One of two assigned dates preferred gives 50. */
  lemma FairnessHalfHonored(id: StaffId, d1: Date, d2: Date, d3: Date)
    requires d1 != d2 && d1 != d3 && d2 != d3
    ensures CalculateFairness([Shift(id, d1), Shift(id, d2)], [d1, d3]) == 50
  {
    var prefs := [Shift(id, d1), Shift(id, d2)];
    assert Filter(prefs, IsHonored([d1, d3])) == [Shift(id, d1)] by {
      assert prefs[1..] == [Shift(id, d2)];
      assert Filter(prefs[1..], IsHonored([d1, d3])) == [];
    }
  }

  /** When every preference's date is assigned, every preference is honored. */
  lemma {:induction false} AllHonored(staffPreferences: seq<Shift>, currentShifts: seq<Date>)
    requires forall i :: 0 <= i < |staffPreferences| ==> staffPreferences[i].date in currentShifts
    ensures HonoredCount(staffPreferences, currentShifts) == |staffPreferences|
    decreases |staffPreferences|
  {
    if staffPreferences != [] {
      var rest := staffPreferences[1..];
      assert forall i :: 0 <= i < |rest| ==> rest[i] == staffPreferences[i + 1];
      AllHonored(rest, currentShifts);
    }
  }

  /** The score counts preferences, not shifts: `k` preferences for the
      same date and one shift on it score `100 k` (200 for two). */
  lemma FairnessRepeatedPreference(id: StaffId, d: Date, k: nat)
    requires k >= 1
    ensures CalculateFairness(seq(k, _ => Shift(id, d)), [d]) == 100 * k
  {
    AllHonored(seq(k, _ => Shift(id, d)), [d]);
  }

  /** A repeated assigned date counts again in the denominator: one
      preference for a date assigned `m` times scores `100 / m`, rounded
      (50 for two). */
  lemma FairnessRepeatedShift(id: StaffId, d: Date, m: nat)
    requires m >= 1
    ensures var r := CalculateFairness([Shift(id, d)], seq(m, _ => d));
      2 * m * r <= 200 + m < 2 * m * (r + 1)
  {
    assert seq(m, _ => d)[0] == d;
  }
}
