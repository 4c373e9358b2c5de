/** The working copy of the schedule, changed in place with `push` and
    `splice`, and the record of those changes that the repair passes keep:
    a log of edits, each counted as one swap. */
module Edits {
  import opened Shifts

  /** The array of shift records the passes change in place. */
  class Schedule {
    var entries: seq<Shift>

    constructor (initial: seq<Shift>)
      ensures entries == initial
    {
      entries := initial;
    }

    /** `newSchedule.push(shift)` */
    method Push(s: Shift)
      modifies this
      ensures entries == old(entries) + [s]
    {
      entries := entries + [s];
    }

    /** `newSchedule.splice(index, 1)` */
    method Splice(index: nat)
      requires index < |entries|
      modifies this
      ensures entries == old(entries)[..index] + old(entries)[index + 1..]
    {
      entries := entries[..index] + entries[index + 1..];
    }
  }

  /** One counted change: a shift appended, or the first copy of a shift deleted. */
  datatype Edit = Added(shift: Shift) | Removed(shift: Shift)

  function Apply(entries: seq<Shift>, e: Edit): seq<Shift>
  {
    match e
    case Added(s) => entries + [s]
    case Removed(s) => RemoveFirst(entries, s)
  }

  /** The schedule after the edits of `log`, in order. */
  function Replay(start: seq<Shift>, log: seq<Edit>): seq<Shift>
    decreases |log|
  {
    if log == [] then start
    else Apply(Replay(start, log[..|log| - 1]), log[|log| - 1])
  }

  /** The schedule after one step of a pass, which either made the edit
      `Some(e)` or left the schedule alone (`None`). */
  function ApplyStep(entries: seq<Shift>, step: Option<Edit>): seq<Shift>
  {
    match step
    case None => entries
    case Some(e) => Apply(entries, e)
  }

  /** `trace[k]` is the schedule before step `k` and `trace[k + 1]` the
      schedule after it. */
  predicate Follows(trace: seq<seq<Shift>>, steps: seq<Option<Edit>>)
  {
    |trace| == |steps| + 1
    && forall k :: 0 <= k < |steps| ==> trace[k + 1] == ApplyStep(trace[k], steps[k])
  }

  /** The edits the steps made, in order: one per step that changed the
      schedule. */
  function Made(steps: seq<Option<Edit>>): (log: seq<Edit>)
    ensures |log| <= |steps|
    ensures forall e :: e in log <==> Some(e) in steps
    decreases |steps|
  {
    if steps == [] then []
    else
      var init, last := steps[..|steps| - 1], steps[|steps| - 1];
      assert steps == init + [last];
      Made(init) + (if last.Some? then [last.value] else [])
  }

  lemma MadeExtend(steps: seq<Option<Edit>>, step: Option<Edit>)
    ensures Made(steps + [step]) == Made(steps) + (if step.Some? then [step.value] else [])
  {
    assert (steps + [step])[..|steps|] == steps;
  }

  /** The steps made no edit exactly when every step left the schedule alone. */
  lemma {:induction false} MadeEmpty(steps: seq<Option<Edit>>)
    ensures Made(steps) == [] <==> forall k :: 0 <= k < |steps| ==> steps[k].None?
    decreases |steps|
  {
    if steps != [] {
      var init := steps[..|steps| - 1];
      MadeEmpty(init);
      assert forall k :: 0 <= k < |init| ==> init[k] == steps[k];
    }
  }

  /** Steps that change nothing leave the schedule as the trace started. */
  lemma {:induction false} QuietSteps(trace: seq<seq<Shift>>, steps: seq<Option<Edit>>, j: nat)
    requires Follows(trace, steps) && j <= |steps|
    requires forall k :: 0 <= k < j ==> steps[k].None?
    ensures trace[j] == trace[0]
  {
    if j > 0 {
      QuietSteps(trace, steps, j - 1);
      assert trace[j] == ApplyStep(trace[j - 1], steps[j - 1]);
    }
  }

  /** Among steps of which one below `j` changed the schedule, `i` is the
      first that did. */
  lemma {:induction false} FirstChange(steps: seq<Option<Edit>>, j: nat) returns (i: nat)
    requires j <= |steps| && exists k :: 0 <= k < j && steps[k].Some?
    ensures i < j && steps[i].Some? && forall k :: 0 <= k < i ==> steps[k].None?
  {
    if exists k :: 0 <= k < j - 1 && steps[k].Some? {
      i := FirstChange(steps, j - 1);
    } else {
      i := j - 1;
    }
  }

  /** One more step, applied to the last schedule of the trace, extends it. */
  lemma FollowsExtend(trace: seq<seq<Shift>>, steps: seq<Option<Edit>>, step: Option<Edit>)
    requires Follows(trace, steps)
    ensures Follows(trace + [ApplyStep(trace[|trace| - 1], step)], steps + [step])
  {
    var trace', steps' := trace + [ApplyStep(trace[|trace| - 1], step)], steps + [step];
    forall k | 0 <= k < |steps'| ensures trace'[k + 1] == ApplyStep(trace'[k], steps'[k]) {
      if k < |steps| {
        assert trace'[k] == trace[k] && steps'[k] == steps[k];
      }
    }
  }

  /** A trace of legal steps replays the edits they made. */
  lemma {:induction false} FollowsTracks(trace: seq<seq<Shift>>, steps: seq<Option<Edit>>, roster: seq<StaffId>, n: nat)
    requires Follows(trace, steps)
    requires forall k :: 0 <= k < |steps| && steps[k].Some? ==> LegalEdit(trace[k], steps[k].value, roster, n)
    ensures Tracks(trace[0], Made(steps), trace[|steps|], roster, n)
    decreases |steps|
  {
    if steps != [] {
      var m := |steps| - 1;
      var init := steps[..m];
      assert steps == init + [steps[m]];
      assert Follows(trace[..m + 1], init) by {
        forall k | 0 <= k < |init| ensures trace[..m + 1][k + 1] == ApplyStep(trace[..m + 1][k], init[k]) {
          assert trace[k + 1] == ApplyStep(trace[k], steps[k]);
        }
      }
      FollowsTracks(trace[..m + 1], init, roster, n);
      assert trace[..m + 1][0] == trace[0] && trace[..m + 1][m] == trace[m];
      assert trace[m + 1] == ApplyStep(trace[m], steps[m]);
      MadeExtend(init, steps[m]);
      if steps[m].Some? {
        TrackStep(trace[0], Made(init), trace[m], steps[m].value, roster, n);
      } else {
        assert Made(steps) == Made(init);
        assert trace[m + 1] == trace[m];
      }
    }
  }

  /** The only changes any pass makes. An added shift belongs to a roster
      member, falls inside the horizon of `n` days, is not already in the
      schedule, and its day has fewer than 5 staff; a removed shift is in
      the schedule. */
  predicate LegalEdit(entries: seq<Shift>, e: Edit, roster: seq<StaffId>, n: nat)
  {
    match e
    case Added(s) => s.staffId in roster && 0 <= s.date < n && s !in entries && DayCount(entries, s.date) < 5
    case Removed(s) => s in entries
  }

  /** Every edit of `log` is legal on the schedule it is applied to. */
  predicate LegalLog(start: seq<Shift>, log: seq<Edit>, roster: seq<StaffId>, n: nat)
    decreases |log|
  {
    log == []
    || (LegalLog(start, log[..|log| - 1], roster, n)
        && LegalEdit(Replay(start, log[..|log| - 1]), log[|log| - 1], roster, n))
  }

  /** `entries` is `start` after the legal edits of `log`. */
  predicate Tracks(start: seq<Shift>, log: seq<Edit>, entries: seq<Shift>, roster: seq<StaffId>, n: nat)
  {
    LegalLog(start, log, roster, n) && entries == Replay(start, log)
  }

  lemma LogExtend(start: seq<Shift>, log: seq<Edit>, e: Edit, roster: seq<StaffId>, n: nat)
    ensures Replay(start, log + [e]) == Apply(Replay(start, log), e)
    ensures LegalLog(start, log + [e], roster, n)
        <==> LegalLog(start, log, roster, n) && LegalEdit(Replay(start, log), e, roster, n)
  {
    assert (log + [e])[..|log|] == log;
  }

  /** One more legal edit extends the log. */
  lemma TrackStep(start: seq<Shift>, log: seq<Edit>, entries: seq<Shift>, e: Edit, roster: seq<StaffId>, n: nat)
    requires Tracks(start, log, entries, roster, n) && LegalEdit(entries, e, roster, n)
    ensures Tracks(start, log + [e], Apply(entries, e), roster, n)
  {
    LogExtend(start, log, e, roster, n);
  }

  /** Running two logs one after the other is running their concatenation. */
  lemma {:induction false} ReplayConcat(start: seq<Shift>, l1: seq<Edit>, l2: seq<Edit>, roster: seq<StaffId>, n: nat)
    ensures Replay(start, l1 + l2) == Replay(Replay(start, l1), l2)
    ensures LegalLog(start, l1 + l2, roster, n)
        <==> LegalLog(start, l1, roster, n) && LegalLog(Replay(start, l1), l2, roster, n)
    decreases |l2|
  {
    if l2 == [] {
      assert l1 + l2 == l1;
    } else {
      var init, last := l2[..|l2| - 1], l2[|l2| - 1];
      assert l1 + l2 == (l1 + init) + [last];
      assert l2 == init + [last];
      ReplayConcat(start, l1, init, roster, n);
      LogExtend(start, l1 + init, last, roster, n);
      LogExtend(Replay(start, l1), init, last, roster, n);
    }
  }

  lemma TrackConcat(start: seq<Shift>, l1: seq<Edit>, mid: seq<Shift>, l2: seq<Edit>, end: seq<Shift>, roster: seq<StaffId>, n: nat)
    requires Tracks(start, l1, mid, roster, n) && Tracks(mid, l2, end, roster, n)
    ensures Tracks(start, l1 + l2, end, roster, n)
  {
    ReplayConcat(start, l1, l2, roster, n);
  }

  /** Legal edits never create a duplicate (staff, date) pair. */
  lemma {:induction false} LegalLogKeepsDistinct(start: seq<Shift>, log: seq<Edit>, roster: seq<StaffId>, n: nat)
    requires LegalLog(start, log, roster, n) && Distinct(start)
    ensures Distinct(Replay(start, log))
    decreases |log|
  {
    if log != [] {
      var init, e := log[..|log| - 1], log[|log| - 1];
      LegalLogKeepsDistinct(start, init, roster, n);
      var cur := Replay(start, init);
      match e
      case Added(s) => DistinctAppend(cur, s);
      case Removed(s) => DistinctRemoveAt(cur, IndexOf(cur, s));
    }
  }

  /** Legal edits never lift a day above 5 staff: a day ends with at most
      5 staff or at most as many as it started with. */
  lemma {:induction false} LegalLogBoundsDays(start: seq<Shift>, log: seq<Edit>, roster: seq<StaffId>, n: nat, d: Date)
    requires LegalLog(start, log, roster, n)
    ensures DayCount(Replay(start, log), d) <= Max(5, DayCount(start, d))
    decreases |log|
  {
    if log != [] {
      var init, e := log[..|log| - 1], log[|log| - 1];
      LegalLogBoundsDays(start, init, roster, n, d);
      var cur := Replay(start, init);
      match e
      case Added(s) => DayCountPush(cur, s, d);
      case Removed(s) => DayCountRemove(cur, s, d);
    }
  }

  /** A shift present after legal edits was there at the start, or belongs
      to a roster member and lies inside the horizon. */
  lemma {:induction false} LegalLogStaysInRoster(start: seq<Shift>, log: seq<Edit>, roster: seq<StaffId>, n: nat, x: Shift)
    requires LegalLog(start, log, roster, n)
    ensures x in Replay(start, log) ==> x in start || (x.staffId in roster && 0 <= x.date < n)
    decreases |log|
  {
    if log != [] {
      var init, e := log[..|log| - 1], log[|log| - 1];
      LegalLogStaysInRoster(start, init, roster, n, x);
      var cur := Replay(start, init);
      if e.Removed? && x in Replay(start, log) {
        assert multiset(Replay(start, log))[x] > 0;
        assert x in cur;
      }
    }
  }

  /** A log of deletions only never adds a shift: each shift is present at
      most as often as at the start. */
  lemma {:induction false} RemovalsShrink(start: seq<Shift>, log: seq<Edit>)
    requires forall e :: e in log ==> e.Removed?
    ensures multiset(Replay(start, log)) <= multiset(start)
    decreases |log|
  {
    if log != [] {
      var init, e := log[..|log| - 1], log[|log| - 1];
      assert forall x :: x in init ==> x in log;
      RemovalsShrink(start, init);
      assert e in log;
    }
  }

  /** What legal edits guarantee about the schedule they produce: no day
      lifted above 5 staff, no duplicate pair created, and every new shift
      belonging to a roster member and lying inside the horizon. */
  lemma TracksFacts(start: seq<Shift>, log: seq<Edit>, end: seq<Shift>, roster: seq<StaffId>, n: nat)
    requires Tracks(start, log, end, roster, n)
    ensures forall d :: DayCount(end, d) <= Max(5, DayCount(start, d))
    ensures Distinct(start) ==> Distinct(end)
    ensures forall x :: x in end ==> x in start || (x.staffId in roster && 0 <= x.date < n)
  {
    forall d ensures DayCount(end, d) <= Max(5, DayCount(start, d)) {
      LegalLogBoundsDays(start, log, roster, n, d);
    }
    if Distinct(start) {
      LegalLogKeepsDistinct(start, log, roster, n);
    }
    forall x | x in end ensures x in start || (x.staffId in roster && 0 <= x.date < n) {
      LegalLogStaysInRoster(start, log, roster, n, x);
    }
  }
}
