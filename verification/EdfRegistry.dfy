/**
 The registry of tasks over every run: what is recorded about a name follows from the
 commands for that name alone.
 */
module EdfRegistry {
  import opened Priority
  import opened EdfModel
  import opened EdfOrder
  import opened EdfMisses

  lemma IndexUnique(t: seq<Record>, i: nat)
    requires NamesDistinct(t) && i < |t|
    ensures Registered(t, t[i].name) && IndexOf(t, t[i].name) == i
  {}

  lemma SameNames(t: seq<Record>, t': seq<Record>, name: Name)
    requires NamesDistinct(t) && |t| == |t'| && forall i :: 0 <= i < |t| ==> t'[i].name == t[i].name
    ensures NamesDistinct(t') && Registered(t', name) == Registered(t, name)
    ensures IndexOf(t', name) == IndexOf(t, name)
  {
    if Registered(t, name) {
      var i := IndexOf(t, name);
      IndexUnique(t', i);
    } else {
      assert forall i :: 0 <= i < |t'| ==> t'[i].name != name;
    }
  }

  // ----- One name -----------------------------------------------------------------------

  /** How a name stands: not registered, or armed with a deadline and running or going to wait. */
  datatype Arming = Unknown | Known(relative: u64, deadline: u64, state: int)

  function ArmingOf(t: seq<Record>, name: Name): Arming {
    var i := IndexOf(t, name);
    if i == |t| then Unknown else Known(t[i].relative, t[i].deadline, t[i].state)
  }

  function KnownFrom(relative: u64, now: u64): Arming {
    Known(relative, Add64(now, relative), RUNNING)
  }

  /**
   What a command makes of a name: only the creation of an absent name registers it, and
   creating it again does not arm it again; nothing but a creation concerns an absent name.
   */
  function NextArming(a: Arming, command: Command, relative: u64, t0: u64): Arming {
    match command
    case CREATE_TASK => if a.Unknown? then KnownFrom(relative, t0) else a
    case START_TASK => if a.Unknown? then a else KnownFrom(relative, t0)
    case SET_DEADLINE => if a.Unknown? then a else KnownFrom(relative, t0)
    case RESET_DEADLINE => if a.Unknown? then a else KnownFrom(a.relative, t0)
    case STOP_WATCHD => if a.Unknown? then a else a.(state := GOING_WAITP)
    case WAITP => if a.Unknown? then a else a.(state := GOING_WAITP)
    case UNKNOWN => a
  }

  function ArmingAfter(steps: seq<Step>, name: Name): Arming {
    if steps == [] then Unknown
    else
      var a := ArmingAfter(steps[..|steps| - 1], name);
      match steps[|steps| - 1]
      case Write(found, command, n, relative, t0, _) =>
        if found && n == name then NextArming(a, command, relative, t0) else a
      case TaskDeleted(n) => if n == name then Unknown else a
      case Service(_) => a
      case Foreign(_, _) => a
  }

  predicate Arms(a: Arming, command: Command) {
    match command
    case CREATE_TASK => a.Unknown?
    case START_TASK => a.Known?
    case SET_DEADLINE => a.Known?
    case RESET_DEADLINE => a.Known?
    case _ => false
  }

  /** The clock at which a name was last armed. */
  function LastArmed(steps: seq<Step>, name: Name): u64 {
    if steps == [] then 0
    else
      var before, step := steps[..|steps| - 1], steps[|steps| - 1];
      if step.Write? && step.found && step.name == name && Arms(ArmingAfter(before, name), step.command) then step.t0
      else LastArmed(before, name)
  }

  /**
   The deadline recorded for a name is the clock of its last arming plus its relative deadline
   exactly when that sum fits 64 bits.
   */
  lemma {:induction false} RecordedDeadline(steps: seq<Step>, name: Name)
    ensures var a, t := ArmingAfter(steps, name), LastArmed(steps, name);
      a.Known? ==>
        && a.deadline == (t + a.relative) % 0x1_0000_0000_0000_0000
        && (a.deadline == t + a.relative <==> t + a.relative < 0x1_0000_0000_0000_0000)
  {
    if steps != [] {
      RecordedDeadline(steps[..|steps| - 1], name);
    }
  }

  // ----- Every step ---------------------------------------------------------------------

  lemma ArmingAt(t: seq<Record>, i: nat)
    requires NamesDistinct(t) && i < |t|
    ensures ArmingOf(t, t[i].name) == Known(t[i].relative, t[i].deadline, t[i].state)
  {
    IndexUnique(t, i);
  }

  lemma RecalculateKeepsArming(s: State, now: u64, name: Name)
    requires NamesDistinct(s.table)
    ensures ArmingOf(Recalculate(s, now).table, name) == ArmingOf(s.table, name)
  {
    SameNames(s.table, Recalculate(s, now).table, name);
  }

  lemma ReplacedArming(t: seq<Record>, i: nat, r: Record, name: Name)
    requires NamesDistinct(t) && i < |t| && r.name == t[i].name
    ensures NamesDistinct(t[i := r])
    ensures ArmingOf(t[i := r], name)
         == if name == r.name then Known(r.relative, r.deadline, r.state) else ArmingOf(t, name)
  {
    SameNames(t, t[i := r], name);
    IndexUnique(t, i);
  }

  lemma AddedArming(t: seq<Record>, r: Record, name: Name)
    requires NamesDistinct(t) && !Registered(t, r.name)
    ensures NamesDistinct(t + [r])
    ensures ArmingOf(t + [r], name)
         == if name == r.name then Known(r.relative, r.deadline, r.state) else ArmingOf(t, name)
  {
    assert (t + [r])[..|t|] == t;
  }

  lemma RemovedArming(t: seq<Record>, k: nat, name: Name)
    requires NamesDistinct(t) && k < |t|
    ensures NamesDistinct(t[..k] + t[k + 1..])
    ensures ArmingOf(t[..k] + t[k + 1..], name) == if name == t[k].name then Unknown else ArmingOf(t, name)
  {
    var u := t[..k] + t[k + 1..];
    assert forall j :: 0 <= j < |u| ==> u[j] == t[if j < k then j else j + 1];
    var i := IndexOf(t, name);
    if name != t[k].name && i < |t| {
      ArmingAt(u, if i < k then i else i - 1);
    }
  }

  lemma WriteArms(s: State, command: Command, n: Name, relative: u64, t0: u64, t1: u64, name: Name)
    requires NamesDistinct(s.table)
    ensures ArmingOf(Dispatch(s, command, n, relative, t0, t1).table, name)
         == if n == name then NextArming(ArmingOf(s.table, name), command, relative, t0) else ArmingOf(s.table, name)
  {
    var i := IndexOf(s.table, n);
    hide NamesDistinct, Recalculate;
    if i == |s.table| {
      var r := Armed(n, relative, t0, |s.log|);
      AddedArming(s.table, r, name);
      RecalculateKeepsArming(s.(table := s.table + [r]), t1, name);
    } else {
      var reset := command == RESET_DEADLINE;
      var r := Armed(n, if reset then s.table[i].relative else relative, t0, |s.log|);
      ReplacedArming(s.table, i, r, name);
      ReplacedArming(s.table, i, s.table[i].(state := GOING_WAITP), name);
      RecalculateKeepsArming(s, t1, name);
      RecalculateKeepsArming(s.(table := s.table[i := r]), t1, name);
    }
  }

  lemma DeleteArms(s: State, n: Name, name: Name)
    requires NamesDistinct(s.table)
    ensures ArmingOf(Delete(s, n).table, name) == if n == name then Unknown else ArmingOf(s.table, name)
  {
    var k := IndexOf(s.table, n);
    if k < |s.table| {
      RemovedArming(s.table, k, name);
    }
  }

  /** In every run the record of a name is what the commands for that name make of it. */
  lemma {:induction false} RunsFollowArming(steps: seq<Step>, name: Name)
    ensures ArmingOf(Run(INIT, steps).table, name) == ArmingAfter(steps, name)
    ensures NamesDistinct(Run(INIT, steps).table)
  {
    RunsReportOnce(steps);
    if steps != [] {
      var before, step := steps[..|steps| - 1], steps[|steps| - 1];
      RunsFollowArming(before, name);
      var s := Run(INIT, before);
      hide NamesDistinct, Recalculate, ArmingOf, Dispatch;
      match step
      case Write(_, command, n, relative, t0, t1) => WriteArms(s, command, n, relative, t0, t1, name);
      case Service(t1) => RecalculateKeepsArming(s, t1, name);
      case TaskDeleted(n) => DeleteArms(s, n, name);
      case Foreign(_, _) =>
    }
  }

  // ----- When the driver reads the clock ------------------------------------------------

  datatype Option<T> = None | Some(value: T)

  /**
   The reading of the clock at which a step after `steps` recalculates priorities, if it does:
   creation always, the commands that arm a task if its name is registered, and the service.
   */
  function RecalculatesAt(steps: seq<Step>, step: Step): Option<u64> {
    match step
    case Write(found, command, name, _, _, t1) =>
      var known := ArmingAfter(steps, name).Known?;
      if found && (command == CREATE_TASK
                   || (known && (command == START_TASK || command == SET_DEADLINE || command == RESET_DEADLINE)))
      then Some(t1) else None
    case Service(t1) => Some(t1)
    case TaskDeleted(_) => None
    case Foreign(_, _) => None
  }

  /** The last reading of the clock at which a run has recalculated; 0 before the first. */
  function LastReading(steps: seq<Step>): u64 {
    if steps == [] then 0
    else
      var before := steps[..|steps| - 1];
      match RecalculatesAt(before, steps[|steps| - 1])
      case Some(t1) => t1
      case None => LastReading(before)
  }

  lemma StepReads(s: State, step: Step, known: bool)
    requires step.Write? ==> known == Registered(s.table, step.name)
    ensures Apply(s, step).clock ==
      match step
      case Write(found, command, name, _, _, t1) =>
        if found && (command == CREATE_TASK
                     || (known && (command == START_TASK || command == SET_DEADLINE || command == RESET_DEADLINE)))
        then t1 else s.clock
      case Service(t1) => t1
      case TaskDeleted(_) => s.clock
      case Foreign(_, _) => s.clock
  {}

  /** The clock of the state is the last reading of the last step that recalculated. */
  lemma {:induction false} RunsReadClock(steps: seq<Step>)
    ensures Run(INIT, steps).clock == LastReading(steps)
  {
    if steps != [] {
      var before, step := steps[..|steps| - 1], steps[|steps| - 1];
      var s := Run(INIT, before);
      RunsReadClock(before);
      if step.Write? {
        RunsFollowArming(before, step.name);
      }
      StepReads(s, step, step.Write? && Registered(s.table, step.name));
      hide Apply, IndexOf, ArmingAfter;
    }
  }

  /**
   After a step that recalculates at t1, every running task with a deadline at or before t1 is
   marked as missed, and the clock is t1.
   */
  lemma RecalculatesMarks(steps: seq<Step>, step: Step, i: nat)
    requires RecalculatesAt(steps, step).Some?
    requires i < |Run(INIT, steps + [step]).table| && Active(Run(INIT, steps + [step]).table[i])
    ensures var s, t1 := Run(INIT, steps + [step]), RecalculatesAt(steps, step).value;
      s.clock == t1 && (s.table[i].deadline <= t1 ==> s.table[i].status == MISSED)
  {
    assert (steps + [step])[..|steps|] == steps;
    RunsReadClock(steps + [step]);
    RunsMarkPast(steps + [step]);
    hide Run, RecalculatesAt, Active;
  }

  // ----- Order on true deadlines --------------------------------------------------------

  /** The clock of a name's last arming plus its relative deadline, in full. */
  function TrueDeadline(steps: seq<Step>, name: Name): nat
    requires ArmingAfter(steps, name).Known?
  {
    LastArmed(steps, name) + ArmingAfter(steps, name).relative
  }

  predicate RunningWithDeadline(a: Arming) {
    a.Known? && a.state == RUNNING && a.relative != NOTSET
  }

  /**
   In every admissible run: of two running tasks with deadlines, the one armed for the time
   that is not later has the priority that is not lower, as long as the later time fits 64 bits.
   */
  lemma RunsKeepTrueOrder(steps: seq<Step>, bound: nat, a: Name, b: Name)
    requires bound * 50 < U64 && AdmissibleRun(INIT, steps, bound)
    requires RunningWithDeadline(ArmingAfter(steps, a)) && RunningWithDeadline(ArmingAfter(steps, b))
    requires TrueDeadline(steps, a) <= TrueDeadline(steps, b) < 0x1_0000_0000_0000_0000
    ensures var s := Run(INIT, steps);
      PrioOf(s.prio, a) >= PrioOf(s.prio, b)
  {
    RunsKeepOrder(steps, bound);
    RunsFollowArming(steps, a);
    RunsFollowArming(steps, b);
    RecordedDeadline(steps, a);
    RecordedDeadline(steps, b);
    hide Run, AdmissibleRun, ArmingAfter, LastArmed, IndexOf, Timely, OverdueAtTop;
    var t := Run(INIT, steps).table;
    assert Active(t[IndexOf(t, a)]) && Active(t[IndexOf(t, b)]);
  }

  // ----- Reports are true ---------------------------------------------------------------

  /** A miss logged about a running task whose deadline has passed. */
  predicate TrueReport(m: Miss, a: Arming) {
    a.Known? && a.relative != NOTSET && a.state == RUNNING && a.deadline == m.deadline <= m.clock
  }

  lemma RecalculateReportsTruly(s: State, now: u64, m: Miss)
    requires NamesDistinct(s.table) && m in Recalculate(s, now).log && m !in s.log
    ensures m.clock == Recalculate(s, now).clock && TrueReport(m, ArmingOf(Recalculate(s, now).table, m.name))
  {
    MissesJustified(s.table, now, m);
    var i :| 0 <= i < |s.table| && s.table[i].name == m.name && Due(s.table[i])
             && s.table[i].deadline == m.deadline <= now == m.clock;
    RecalculateKeepsArming(s, now, m.name);
    ArmingAt(s.table, i);
    hide IndexOf, ArmingOf, NamesDistinct;
  }

  lemma StepReportsTruly(s: State, step: Step, m: Miss)
    requires NamesDistinct(s.table) && m in Apply(s, step).log && m !in s.log
    ensures m.clock == Apply(s, step).clock && TrueReport(m, ArmingOf(Apply(s, step).table, m.name))
  {
    hide NamesDistinct, Recalculate, ArmingOf, TrueReport;
    match step
    case Write(_, command, n, relative, t0, t1) =>
      var i := IndexOf(s.table, n);
      if i == |s.table| {
        var r := Armed(n, relative, t0, |s.log|);
        AddedArming(s.table, r, n);
        RecalculateReportsTruly(s.(table := s.table + [r]), t1, m);
      } else if command == CREATE_TASK {
        RecalculateReportsTruly(s, t1, m);
      } else {
        var r := Armed(n, if command == RESET_DEADLINE then s.table[i].relative else relative, t0, |s.log|);
        ReplacedArming(s.table, i, r, n);
        RecalculateReportsTruly(s.(table := s.table[i := r]), t1, m);
      }
    case Service(t1) => RecalculateReportsTruly(s, t1, m);
    case TaskDeleted(_) => assert false;
    case Foreign(_, _) => assert false;
  }

  /** In every run, each logged miss was true of its task, at the clock of a moment of the run. */
  lemma {:induction false} RunsReportTruly(steps: seq<Step>, m: Miss)
    requires m in Run(INIT, steps).log
    ensures exists k :: 0 <= k <= |steps| && m.clock == Run(INIT, steps[..k]).clock
                        && TrueReport(m, ArmingAfter(steps[..k], m.name))
  {
    var before := steps[..|steps| - 1];
    RunsFollowArming(before, m.name);
    if m in Run(INIT, before).log {
      RunsReportTruly(before, m);
      var k :| 0 <= k <= |before| && m.clock == Run(INIT, before[..k]).clock
               && TrueReport(m, ArmingAfter(before[..k], m.name));
      assert steps[..k] == before[..k];
    } else {
      RunsFollowArming(steps, m.name);
      StepReportsTruly(Run(INIT, before), steps[|steps| - 1], m);
      assert steps[..|steps|] == steps;
    }
  }
}
