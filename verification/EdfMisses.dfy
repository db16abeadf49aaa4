/**
 Deadline misses are reported exactly once per arming, and only when they are true.
 */
module EdfMisses {
  import opened EdfModel
  import opened EdfOrder

  ghost function Count(log: seq<Miss>, name: Name): nat {
    if log == [] then 0
    else Count(log[..|log| - 1], name) + (if log[|log| - 1].name == name then 1 else 0)
  }

  lemma {:induction false} CountAppend(a: seq<Miss>, b: seq<Miss>, name: Name)
    ensures Count(a + b, name) == Count(a, name) + Count(b, name)
  {
    if b == [] {
      assert a + b == a;
    } else {
      assert (a + b)[..|a + b| - 1] == a + b[..|b| - 1];
      CountAppend(a, b[..|b| - 1], name);
    }
  }

  /** Since the task was last armed: one entry if it is marked as missed, none otherwise. */
  ghost predicate ReportedOnce(r: Record, log: seq<Miss>) {
    r.armedAt <= |log| && Count(log[r.armedAt..], r.name) == if r.status == MISSED then 1 else 0
  }

  ghost predicate AllReportedOnce(s: State) {
    && NamesDistinct(s.table)
    && forall i :: 0 <= i < |s.table| ==> ReportedOnce(s.table[i], s.log)
  }

  // ----- What a recalculation reports -------------------------------------------------

  lemma CountOne(m: Miss, name: Name)
    ensures Count([m], name) == if m.name == name then 1 else 0
  {
    assert Count([m][..0], name) == 0;
  }

  lemma MissesStep(t: seq<Record>, now: u64, name: Name)
    requires t != []
    ensures var last := t[|t| - 1];
      Count(Misses(t, now), name) == Count(Misses(t[..|t| - 1], now), name)
        + (if Due(last) && last.remain == 0 && last.name == name then 1 else 0)
  {
    var last := t[|t| - 1];
    var m, before := Miss(last.name, last.deadline, now), Misses(t[..|t| - 1], now);
    CountAppend(before, [m], name);
    CountOne(m, name);
    assert before + [] == before;
    hide Count;
  }

  lemma {:induction false} MissesOfOther(t: seq<Record>, now: u64, name: Name)
    requires forall i :: 0 <= i < |t| ==> t[i].name != name
    ensures Count(Misses(t, now), name) == 0
  {
    if t != [] {
      MissesOfOther(t[..|t| - 1], now, name);
      MissesStep(t, now, name);
    }
  }

  lemma NamesBefore(t: seq<Record>, i: nat)
    requires NamesDistinct(t) && i < |t|
    ensures var last := |t| - 1;
      && NamesDistinct(t[..last])
      && (i < last ==> t[..last][i] == t[i] && t[last].name != t[i].name)
      && (i == last ==> forall j :: 0 <= j < last ==> t[..last][j].name != t[i].name)
  {}

  /** A recalculation reports a task once if it is due and has no time left, otherwise not at all. */
  lemma {:induction false} MissesOf(t: seq<Record>, now: u64, i: nat)
    requires NamesDistinct(t) && i < |t|
    ensures Count(Misses(t, now), t[i].name) == if Due(t[i]) && t[i].remain == 0 then 1 else 0
  {
    NamesBefore(t, i);
    MissesStep(t, now, t[i].name);
    hide *;
    if i < |t| - 1 {
      MissesOf(t[..|t| - 1], now, i);
    } else {
      MissesOfOther(t[..|t| - 1], now, t[i].name);
    }
  }

  /** Every entry of a recalculation is about a running task that is due and past its deadline. */
  lemma {:induction false} MissesJustified(t: seq<Record>, now: u64, m: Miss)
    requires m in Misses(RefreshAll(t, now), now)
    ensures exists i :: 0 <= i < |t| && t[i].name == m.name && Due(t[i])
                        && t[i].deadline == m.deadline <= now == m.clock
  {
    var last := |t| - 1;
    var r := RefreshAll(t, now);
    assert r[..last] == RefreshAll(t[..last], now);
    if m in Misses(r[..last], now) {
      MissesJustified(t[..last], now, m);
      var i :| 0 <= i < last && t[..last][i].name == m.name && Due(t[..last][i])
               && t[..last][i].deadline == m.deadline <= now == m.clock;
      assert t[i] == t[..last][i];
    } else {
      assert Due(t[last]);
    }
  }

  lemma LogSince(log: seq<Miss>, more: seq<Miss>, k: nat)
    requires k <= |log|
    ensures (log + more)[k..] == log[k..] + more
  {}

  lemma MoreReported(r: Record, r': Record, log: seq<Miss>, more: seq<Miss>)
    requires ReportedOnce(r, log) && r'.name == r.name && r'.armedAt == r.armedAt
    requires Count(more, r.name) == if r'.status != r.status then 1 else 0
    requires r'.status == r.status || r.status == OK
    ensures ReportedOnce(r', log + more)
  {
    LogSince(log, more, r.armedAt);
    hide Count;
    CountAppend(log[r.armedAt..], more, r.name);
  }

  lemma {:induction false} MissOfSome(t: seq<Record>, now: u64, a: nat)
    requires a < |Misses(t, now)|
    ensures exists i :: 0 <= i < |t| && t[i].name == Misses(t, now)[a].name
  {
    var last := |t| - 1;
    var before := Misses(t[..last], now);
    if a < |before| {
      MissOfSome(t[..last], now, a);
      var i :| 0 <= i < last && t[..last][i].name == before[a].name;
      assert t[i].name == before[a].name;
    } else {
      assert t[last].name == Misses(t, now)[a].name;
    }
  }

  /** A recalculation reports in the order of registration: of the misses a and b, a is of an earlier task. */
  lemma {:induction false} MissesInOrder(t: seq<Record>, now: u64, a: nat, b: nat)
    requires a < b < |Misses(t, now)|
    ensures exists i, j :: 0 <= i < j < |t| && t[i].name == Misses(t, now)[a].name && t[j].name == Misses(t, now)[b].name
  {
    var last := |t| - 1;
    var before := Misses(t[..last], now);
    if b < |before| {
      MissesInOrder(t[..last], now, a, b);
      var i, j :| 0 <= i < j < last && t[..last][i].name == before[a].name && t[..last][j].name == before[b].name;
      assert t[i].name == before[a].name && t[j].name == before[b].name;
    } else {
      MissOfSome(t[..last], now, a);
      var i :| 0 <= i < last && t[..last][i].name == before[a].name;
      assert t[i].name == before[a].name && t[last].name == Misses(t, now)[b].name;
    }
  }

  lemma RecalculateReports(s: State, now: u64)
    requires AllReportedOnce(s)
    ensures AllReportedOnce(Recalculate(s, now))
  {
    var s' := Recalculate(s, now);
    hide NewPrios, MinRemain, MaxRemain, ReportedOnce, Misses;
    forall i | 0 <= i < |s'.table|
      ensures ReportedOnce(s'.table[i], s'.log)
    {
      MissesOf(RefreshAll(s.table, now), now, i);
      MoreReported(s.table[i], s'.table[i], s.log, Misses(RefreshAll(s.table, now), now));
    }
  }

  // ----- Every run --------------------------------------------------------------------

  lemma NewlyArmed(r: Record, log: seq<Miss>)
    requires r.armedAt == |log| && r.status == OK
    ensures ReportedOnce(r, log)
  {
    assert log[r.armedAt..] == [];
  }

  lemma CreateReports(s: State, name: Name, relative: u64, t0: u64, t1: u64)
    requires AllReportedOnce(s)
    ensures AllReportedOnce(Create(s, name, relative, t0, t1))
  {
    hide Recalculate, ReportedOnce;
    if Registered(s.table, name) {
      RecalculateReports(s, t1);
    } else {
      var r := Armed(name, relative, t0, |s.log|);
      NewlyArmed(r, s.log);
      RecalculateReports(s.(table := s.table + [r]), t1);
    }
  }

  lemma SetDeadlineReports(s: State, name: Name, relative: u64, t0: u64, t1: u64)
    requires AllReportedOnce(s)
    ensures AllReportedOnce(SetDeadline(s, name, relative, t0, t1))
  {
    hide Recalculate, ReportedOnce;
    var i := IndexOf(s.table, name);
    if i < |s.table| {
      var r := Armed(name, relative, t0, |s.log|);
      NewlyArmed(r, s.log);
      RecalculateReports(s.(table := s.table[i := r]), t1);
    }
  }

  lemma OtherStepsReport(s: State, name: Name)
    requires AllReportedOnce(s)
    ensures AllReportedOnce(GoingWaitP(s, name)) && AllReportedOnce(Delete(s, name))
  {
    var s', k := Delete(s, name), IndexOf(s.table, name);
    forall i | 0 <= i < |s'.table|
      ensures ReportedOnce(s'.table[i], s'.log)
    {
      assert s'.table[i] == s.table[if i < k then i else i + 1];
    }
    forall i | 0 <= i < |s.table|
      ensures ReportedOnce(GoingWaitP(s, name).table[i], s.log)
    {
      assert ReportedOnce(s.table[i], s.log);
    }
  }

  lemma StepReports(s: State, step: Step)
    requires AllReportedOnce(s)
    ensures AllReportedOnce(Apply(s, step))
  {
    hide Recalculate, Create, GoingWaitP, Delete, SetDeadline, ReportedOnce;
    match step
    case Write(found, command, name, relative, t0, t1) =>
      CreateReports(s, name, relative, t0, t1);
      SetDeadlineReports(s, name, relative, t0, t1);
      OtherStepsReport(s, name);
      var i := IndexOf(s.table, name);
      if i < |s.table| {
        SetDeadlineReports(s, name, s.table[i].relative, t0, t1);
      }
    case Service(t1) => RecalculateReports(s, t1);
    case TaskDeleted(name) => OtherStepsReport(s, name);
    case Foreign(_, _) =>
  }

  /** In every run, admissible or not, each registered task is reported once per arming. */
  lemma {:induction false} RunsReportOnce(steps: seq<Step>)
    ensures AllReportedOnce(Run(INIT, steps))
  {
    if steps != [] {
      RunsReportOnce(steps[..|steps| - 1]);
      StepReports(Run(INIT, steps[..|steps| - 1]), steps[|steps| - 1]);
    }
  }

  // ----- When a task is marked ----------------------------------------------------------

  /** A running task whose deadline is not after the clock is marked. */
  ghost predicate MarkedIfPast(s: State) {
    forall i :: 0 <= i < |s.table| && Active(s.table[i]) && s.table[i].deadline <= s.clock ==> s.table[i].status == MISSED
  }

  /** A running task that is marked has a deadline not after the clock. */
  ghost predicate PastIfMarked(s: State) {
    forall i :: 0 <= i < |s.table| && Overdue(s.table[i]) ==> s.table[i].deadline <= s.clock
  }

  lemma RecalculateMarks(s: State, now: u64)
    ensures MarkedIfPast(Recalculate(s, now))
    ensures PastIfMarked(s) && s.clock <= now ==> PastIfMarked(Recalculate(s, now))
  {
    var s' := Recalculate(s, now);
    assert forall i :: 0 <= i < |s'.table| ==> s'.table[i] == Mark(Refresh(s.table[i], now));
    hide Recalculate;
  }

  lemma ArmedMarks(s: State, t: seq<Record>, k: nat)
    requires k < |t| && t[k].status == OK
    requires forall i :: 0 <= i < |t| && i != k ==> i < |s.table| && t[i] == s.table[i]
    ensures PastIfMarked(s) ==> PastIfMarked(s.(table := t))
  {
    if PastIfMarked(s) {
      forall i | 0 <= i < |t| && Overdue(t[i])
        ensures t[i].deadline <= s.clock
      {
        var r := t[i];
        assert i < |s.table| && r == s.table[i];
      }
    }
  }

  lemma FewerMarks(s: State, name: Name)
    ensures MarkedIfPast(s) ==> MarkedIfPast(GoingWaitP(s, name)) && MarkedIfPast(Delete(s, name))
    ensures PastIfMarked(s) ==> PastIfMarked(GoingWaitP(s, name)) && PastIfMarked(Delete(s, name))
  {
    var s', k := Delete(s, name), IndexOf(s.table, name);
    assert forall i :: 0 <= i < |s'.table| ==> s'.table[i] == s.table[if i < k then i else i + 1];
    var w := GoingWaitP(s, name);
    assert forall i :: 0 <= i < |w.table| && Active(w.table[i]) ==> w.table[i] == s.table[i];
    hide Active, IndexOf;
  }

  lemma SameMarks(s: State, s': State)
    requires s'.table == s.table && s'.clock == s.clock
    ensures MarkedIfPast(s) ==> MarkedIfPast(s')
    ensures PastIfMarked(s) ==> PastIfMarked(s')
  {}

  lemma StepMarks(s: State, step: Step)
    ensures MarkedIfPast(s) ==> MarkedIfPast(Apply(s, step))
    ensures PastIfMarked(s) && ClockRuns(s, step) ==> PastIfMarked(Apply(s, step))
  {
    hide Recalculate, GoingWaitP, Delete, MarkedIfPast, PastIfMarked, IndexOf;
    match step
    case Write(_, command, name, relative, t0, t1) =>
      var i := IndexOf(s.table, name);
      FewerMarks(s, name);
      RecalculateMarks(s, t1);
      if i == |s.table| {
        var t := s.table + [Armed(name, relative, t0, |s.log|)];
        ArmedMarks(s, t, i);
        RecalculateMarks(s.(table := t), t1);
      } else {
        var r := Armed(name, if command == RESET_DEADLINE then s.table[i].relative else relative, t0, |s.log|);
        ArmedMarks(s, s.table[i := r], i);
        RecalculateMarks(s.(table := s.table[i := r]), t1);
      }
    case Service(t1) => RecalculateMarks(s, t1);
    case TaskDeleted(name) => FewerMarks(s, name);
    case Foreign(_, _) => SameMarks(s, Apply(s, step));
  }

  /** In every run, even with a clock set back, a running task past its deadline is marked. */
  lemma {:induction false} RunsMarkPast(steps: seq<Step>)
    ensures MarkedIfPast(Run(INIT, steps))
  {
    if steps != [] {
      RunsMarkPast(steps[..|steps| - 1]);
      StepMarks(Run(INIT, steps[..|steps| - 1]), steps[|steps| - 1]);
    }
  }

  lemma {:induction false} RunsMarkOnlyPast(steps: seq<Step>)
    requires ClockedRun(INIT, steps)
    ensures PastIfMarked(Run(INIT, steps))
  {
    if steps != [] {
      RunsMarkOnlyPast(steps[..|steps| - 1]);
      StepMarks(Run(INIT, steps[..|steps| - 1]), steps[|steps| - 1]);
    }
  }

  /**
   No miss goes unreported and none comes early: unless the clock is set back, a running task
   with a deadline has been reported since it was last armed exactly once if the clock has
   reached its deadline, and not at all otherwise.
   */
  lemma RunsReportIffPast(steps: seq<Step>, i: nat)
    requires ClockedRun(INIT, steps) && i < |Run(INIT, steps).table| && Active(Run(INIT, steps).table[i])
    ensures var s := Run(INIT, steps);
      var r := s.table[i];
      r.armedAt <= |s.log| && Count(s.log[r.armedAt..], r.name) == if r.deadline <= s.clock then 1 else 0
  {
    var s := Run(INIT, steps);
    RunsReportOnce(steps);
    RunsMarkPast(steps);
    RunsMarkOnlyPast(steps);
    assert ReportedOnce(s.table[i], s.log);
    hide Run, Count;
  }
}
