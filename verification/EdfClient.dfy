/**
 The client side, edfomai-app.c: a task that registers itself once and then, period after
 period, stops its watchdog, sleeps, and has its deadline reset.

 While it sleeps the scheduler leaves it alone, whatever anyone else does.
 */
module EdfClient {
  import opened Priority
  import opened EdfModel
  import opened EdfOrder
  import opened EdfMisses
  import opened EdfRegistry

  /** The messages of edf_task_start, then of a number of calls of edf_task_wait_period. */
  function Messages(periods: nat): seq<Command> {
    if periods == 0 then [CREATE_TASK] else Messages(periods - 1) + [STOP_WATCHD, RESET_DEADLINE]
  }

  datatype Phase = Absent | Running | Waiting | Broken

  function NextCommand(phase: Phase, command: Command): Phase {
    match (phase, command)
    case (Absent, CREATE_TASK) => Running
    case (Running, STOP_WATCHD) => Waiting
    case (Waiting, RESET_DEADLINE) => Running
    case _ => Broken
  }

  /** Where a client stands after some of its messages. */
  function PhaseOf(commands: seq<Command>): Phase {
    if commands == [] then Absent
    else NextCommand(PhaseOf(commands[..|commands| - 1]), commands[|commands| - 1])
  }

  /** The client library keeps to the protocol: after any number of periods, and in between. */
  lemma {:induction false} LibraryKeepsProtocol(periods: nat)
    ensures PhaseOf(Messages(periods)) == Running
    ensures PhaseOf(Messages(periods) + [STOP_WATCHD]) == Waiting
  {
    if periods > 0 {
      LibraryKeepsProtocol(periods - 1);
      var m := Messages(periods - 1) + [STOP_WATCHD];
      assert Messages(periods) == m + [RESET_DEADLINE];
      assert (m + [RESET_DEADLINE])[..|m|] == m;
    } else {
      assert Messages(0)[..0] == [];
    }
    assert (Messages(periods) + [STOP_WATCHD])[..|Messages(periods)|] == Messages(periods);
  }

  // ----- One step while a task waits --------------------------------------------------

  /** The record, the priority and the reports of a registered task. */
  datatype Standing = Standing(record: Record, prio: int, reports: nat)

  ghost function StandingOf(s: State, name: Name): Standing
    requires Registered(s.table, name)
  {
    Standing(s.table[IndexOf(s.table, name)], PrioOf(s.prio, name), Count(s.log, name))
  }

  ghost predicate Waits(s: State, name: Name) {
    Registered(s.table, name) && s.table[IndexOf(s.table, name)].state == GOING_WAITP
  }

  /** A registered task that recalculations skip: it waits, or it has no deadline. */
  ghost predicate Idle(s: State, name: Name) {
    Registered(s.table, name) && !Active(s.table[IndexOf(s.table, name)])
  }

  ghost predicate Undisturbed(s: State, s': State, name: Name) {
    && NamesDistinct(s'.table)
    && Registered(s.table, name) && Registered(s'.table, name) && StandingOf(s', name) == StandingOf(s, name)
  }

  /** A recalculation does not touch an idle task. */
  lemma RecalculateSkips(s: State, now: u64, name: Name)
    requires NamesDistinct(s.table) && Idle(s, name)
    ensures Undisturbed(s, Recalculate(s, now), name)
  {
    var s' := Recalculate(s, now);
    var t := RefreshAll(s.table, now);
    var i := IndexOf(s.table, name);
    SameNames(s.table, s'.table, name);
    NewPrioOf(s.prio, t, MinRemain(t), MaxRemain(t), i);
    MissesOf(t, now, i);
    CountAppend(s.log, Misses(t, now), name);
    hide NewPrios, MinRemain, MaxRemain, Misses, Count, IndexOf;
  }

  lemma CreateLeaves(s: State, n: Name, relative: u64, t0: u64, t1: u64, name: Name)
    requires NamesDistinct(s.table) && Idle(s, name)
    ensures Undisturbed(s, Create(s, n, relative, t0, t1), name)
  {
    if Registered(s.table, n) {
      RecalculateSkips(s, t1, name);
    } else {
      var more := s.(table := s.table + [Armed(n, relative, t0, |s.log|)]);
      IndexUnique(more.table, IndexOf(s.table, name));
      RecalculateSkips(more, t1, name);
    }
  }

  lemma SetDeadlineLeaves(s: State, n: Name, relative: u64, t0: u64, t1: u64, name: Name)
    requires NamesDistinct(s.table) && Idle(s, name) && n != name
    ensures Undisturbed(s, SetDeadline(s, n, relative, t0, t1), name)
  {
    var i := IndexOf(s.table, n);
    if i < |s.table| {
      var armed := s.(table := s.table[i := Armed(n, relative, t0, |s.log|)]);
      SameNames(s.table, armed.table, name);
      RecalculateSkips(armed, t1, name);
    }
  }

  /** A task already waiting may be told again. */
  lemma GoingWaitPLeaves(s: State, n: Name, name: Name)
    requires NamesDistinct(s.table) && Idle(s, name) && (n != name || Waits(s, name))
    ensures Undisturbed(s, GoingWaitP(s, n), name)
  {
    SameNames(s.table, GoingWaitP(s, n).table, name);
  }

  lemma DeleteLeaves(s: State, n: Name, name: Name)
    requires NamesDistinct(s.table) && Idle(s, name) && n != name
    ensures Undisturbed(s, Delete(s, n), name)
  {
    var i, k := IndexOf(s.table, name), IndexOf(s.table, n);
    var t := Delete(s, n).table;
    assert t[if i < k then i else i - 1] == s.table[i];
    IndexUnique(t, if i < k then i else i - 1);
  }

  /** Only these steps may concern a waiting task. */
  predicate Disturbs(step: Step, name: Name) {
    match step
    case Write(found, command, n, _, _, _) =>
      n == name && found && (command == RESET_DEADLINE || command == SET_DEADLINE || command == START_TASK)
    case Service(_) => false
    case TaskDeleted(n) => n == name
    case Foreign(n, _) => n == name
  }

  lemma ForeignLeaves(s: State, n: Name, prio: int, name: Name)
    requires NamesDistinct(s.table) && Idle(s, name) && n != name
    ensures Undisturbed(s, s.(prio := s.prio[n := prio]), name)
  {}

  /** A message for the task itself that arms it again or has it wait. */
  predicate Addresses(step: Step, name: Name) {
    step.Write? && step.found && step.name == name
    && (step.command == RESET_DEADLINE || step.command == STOP_WATCHD || step.command == WAITP)
  }

  /** The step may give a task a deadline, deletes it, or sets its priority from outside. */
  predicate Schedules(step: Step, name: Name) {
    match step
    case Write(found, command, n, _, _, _) => n == name && found && (command == SET_DEADLINE || command == START_TASK)
    case Service(_) => false
    case TaskDeleted(n) => n == name
    case Foreign(n, _) => n == name
  }

  /** Steps that neither address an idle task, nor give it a deadline, nor remove it, leave it alone. */
  lemma OthersLeave(s: State, step: Step, name: Name)
    requires NamesDistinct(s.table) && Idle(s, name) && !Schedules(step, name) && !Addresses(step, name)
    ensures Undisturbed(s, Apply(s, step), name)
  {
    assert Undisturbed(s, s, name);
    hide Recalculate, Create, GoingWaitP, Delete, SetDeadline, Idle, StandingOf, Undisturbed;
    match step
    case Write(found, command, n, relative, t0, t1) =>
      if found {
        match command
        case CREATE_TASK => CreateLeaves(s, n, relative, t0, t1, name);
        case START_TASK => SetDeadlineLeaves(s, n, relative, t0, t1, name);
        case SET_DEADLINE => SetDeadlineLeaves(s, n, relative, t0, t1, name);
        case RESET_DEADLINE =>
          var i := IndexOf(s.table, n);
          if i < |s.table| {
            SetDeadlineLeaves(s, n, s.table[i].relative, t0, t1, name);
          }
        case STOP_WATCHD => GoingWaitPLeaves(s, n, name);
        case WAITP => GoingWaitPLeaves(s, n, name);
        case UNKNOWN =>
      }
    case Service(t1) => RecalculateSkips(s, t1, name);
    case TaskDeleted(n) => DeleteLeaves(s, n, name);
    case Foreign(n, _) => ForeignLeaves(s, step.name, step.prio, name);
  }

  /** Any other step leaves a waiting task's record, priority and reports alone. */
  lemma StepWhileWaiting(s: State, step: Step, name: Name)
    requires NamesDistinct(s.table) && Waits(s, name) && !Disturbs(step, name)
    ensures Undisturbed(s, Apply(s, step), name) && Waits(Apply(s, step), name)
  {
    if Addresses(step, name) {
      GoingWaitPLeaves(s, name, name);
    } else {
      OthersLeave(s, step, name);
    }
    hide Recalculate, Create, GoingWaitP, Delete, SetDeadline;
  }

  // ----- A task without a deadline ----------------------------------------------------

  /** A registered task armed with DEADLINENOTSET: -1 in an unsigned long long. */
  ghost predicate Unscheduled(s: State, name: Name) {
    Registered(s.table, name) && s.table[IndexOf(s.table, name)].relative == 0xFFFF_FFFF_FFFF_FFFF
  }

  /** Same priority, same reports. */
  ghost predicate Spared(s: State, s': State, name: Name) {
    PrioOf(s'.prio, name) == PrioOf(s.prio, name) && Count(s'.log, name) == Count(s.log, name)
  }

  /** Arming a registered task without a deadline gives it no priority and reports nothing. */
  lemma SetUnscheduled(s: State, name: Name, t0: u64, t1: u64)
    requires NamesDistinct(s.table) && Registered(s.table, name)
    ensures var s' := SetDeadline(s, name, 0xFFFF_FFFF_FFFF_FFFF, t0, t1);
      NamesDistinct(s'.table) && Unscheduled(s', name) && Spared(s, s', name)
  {
    var i := IndexOf(s.table, name);
    var armed := s.(table := s.table[i := Armed(name, 0xFFFF_FFFF_FFFF_FFFF, t0, |s.log|)]);
    SameNames(s.table, armed.table, name);
    RecalculateSkips(armed, t1, name);
    hide Recalculate;
  }

  /** So does creating a task without a deadline. */
  lemma CreateUnscheduled(s: State, name: Name, t0: u64, t1: u64)
    requires NamesDistinct(s.table) && !Registered(s.table, name)
    ensures var s' := Create(s, name, 0xFFFF_FFFF_FFFF_FFFF, t0, t1);
      NamesDistinct(s'.table) && Unscheduled(s', name) && Spared(s, s', name)
  {
    var more := s.(table := s.table + [Armed(name, 0xFFFF_FFFF_FFFF_FFFF, t0, |s.log|)]);
    IndexUnique(more.table, |s.table|);
    RecalculateSkips(more, t1, name);
    hide Recalculate;
  }

  lemma ParkUnscheduled(s: State, name: Name)
    requires NamesDistinct(s.table) && Unscheduled(s, name)
    ensures var s' := GoingWaitP(s, name);
      NamesDistinct(s'.table) && Unscheduled(s', name) && Spared(s, s', name)
  {
    SameNames(s.table, GoingWaitP(s, name).table, name);
  }

  lemma UnscheduledIs(s: State, name: Name)
    requires Unscheduled(s, name)
    ensures s.table[IndexOf(s.table, name)].relative == 0xFFFF_FFFF_FFFF_FFFF
  {}

  /**
   A task without a deadline stays out of the scheduling under every step that does not give
   it one, delete it or set its priority: no priority, no report; and if the step does not
   address it, its record stays as it is.
   */
  lemma StepWhileUnscheduled(s: State, step: Step, name: Name)
    requires NamesDistinct(s.table) && Unscheduled(s, name) && !Schedules(step, name)
    ensures var s' := Apply(s, step);
      && NamesDistinct(s'.table) && Unscheduled(s', name) && Spared(s, s', name)
      && (!Addresses(step, name) ==> Undisturbed(s, s', name))
  {
    assert Idle(s, name);
    if Addresses(step, name) {
      SetUnscheduled(s, name, step.t0, step.t1);
      ParkUnscheduled(s, name);
      hide SetDeadline, GoingWaitP, Unscheduled, Spared;
      assert s.table[IndexOf(s.table, name)].relative == 0xFFFF_FFFF_FFFF_FFFF by {
        UnscheduledIs(s, name);
      }
    } else {
      OthersLeave(s, step, name);
      hide Apply;
    }
  }

  // ----- Runs -------------------------------------------------------------------------

  /** The name is registered and its task waits, going by the messages for the name. */
  predicate Asleep(a: Arming) {
    a.Known? && a.state == GOING_WAITP
  }

  lemma AsleepWaits(steps: seq<Step>, name: Name)
    requires Asleep(ArmingAfter(steps, name))
    ensures NamesDistinct(Run(INIT, steps).table) && Waits(Run(INIT, steps), name)
  {
    RunsFollowArming(steps, name);
  }

  lemma UndisturbedAgain(s: State, s': State, s'': State, name: Name)
    requires Undisturbed(s, s', name) && Undisturbed(s', s'', name)
    ensures Undisturbed(s, s'', name)
  {}

  lemma StillWaits(s: State, s': State, name: Name)
    requires Waits(s, name) && Undisturbed(s, s', name)
    ensures NamesDistinct(s'.table) && Waits(s', name)
  {}

  lemma RunOneMore(steps: seq<Step>, more: seq<Step>)
    requires more != []
    ensures var last := |more| - 1;
      Run(INIT, steps + more) == Apply(Run(INIT, steps + more[..last]), more[last])
  {
    var last := |more| - 1;
    RunMore(INIT, steps + more[..last], more[last]);
    assert steps + more == steps + more[..last] + [more[last]];
  }

  /**
   From a STOP_WATCHD until the next message that arms it again a task is not reported, not
   given another priority and not changed, under any interleaving with other steps, and
   whatever happened before.
   */
  lemma {:induction false} WaitingIsUndisturbed(steps: seq<Step>, more: seq<Step>, name: Name)
    requires Asleep(ArmingAfter(steps, name))
    requires forall i :: 0 <= i < |more| ==> !Disturbs(more[i], name)
    ensures NamesDistinct(Run(INIT, steps).table)
    ensures Undisturbed(Run(INIT, steps), Run(INIT, steps + more), name)
  {
    AsleepWaits(steps, name);
    if more == [] {
      assert steps + more == steps;
    } else {
      var before := more[..|more| - 1];
      WaitingIsUndisturbed(steps, before, name);
      RunOneMore(steps, more);
      hide *;
      StillWaits(Run(INIT, steps), Run(INIT, steps + before), name);
      StepWhileWaiting(Run(INIT, steps + before), more[|more| - 1], name);
      UndisturbedAgain(Run(INIT, steps), Run(INIT, steps + before), Run(INIT, steps + more), name);
    }
  }

  // ----- The messages of the library --------------------------------------------------

  /** The commands that reach the task of a name, in the order in which they arrive. */
  function CommandsOf(steps: seq<Step>, name: Name): seq<Command> {
    if steps == [] then []
    else
      var before, step := CommandsOf(steps[..|steps| - 1], name), steps[|steps| - 1];
      if step.Write? && step.found && step.name == name then before + [step.command] else before
  }

  predicate Alive(steps: seq<Step>, name: Name) {
    TaskDeleted(name) !in steps
  }

  lemma PhaseMore(commands: seq<Command>, command: Command)
    ensures PhaseOf(commands + [command]) == NextCommand(PhaseOf(commands), command)
  {
    assert (commands + [command])[..|commands|] == commands;
  }

  lemma ArmingMore(history: seq<Step>, life: seq<Step>, name: Name)
    requires life != []
    ensures var before, step := ArmingAfter(history + life[..|life| - 1], name), life[|life| - 1];
      ArmingAfter(history + life, name) ==
        match step
        case Write(found, command, n, relative, t0, _) =>
          if found && n == name then NextArming(before, command, relative, t0) else before
        case TaskDeleted(n) => if n == name then Unknown else before
        case Service(_) => before
        case Foreign(_, _) => before
  {
    assert (history + life)[..|history + life| - 1] == history + life[..|life| - 1];
  }

  lemma NextAgrees(phase: Phase, a: Arming, command: Command, relative: u64, t0: u64)
    requires (phase == Running ==> a.Known?) && (phase == Waiting ==> Asleep(a))
    ensures NextCommand(phase, command) == Running ==> NextArming(a, command, relative, t0).Known?
    ensures NextCommand(phase, command) == Waiting ==> Asleep(NextArming(a, command, relative, t0))
  {}

  /**
   While a client keeps to the protocol, its own messages tell how its task stands, whatever
   the history before its life, and however others interleave with it.
   */
  lemma {:induction false} PhaseTellsArming(history: seq<Step>, life: seq<Step>, name: Name)
    requires Alive(life, name)
    ensures PhaseOf(CommandsOf(life, name)) == Running ==> ArmingAfter(history + life, name).Known?
    ensures PhaseOf(CommandsOf(life, name)) == Waiting ==> Asleep(ArmingAfter(history + life, name))
  {
    if life != [] {
      var before, step := life[..|life| - 1], life[|life| - 1];
      PhaseTellsArming(history, before, name);
      ArmingMore(history, life, name);
      var a := ArmingAfter(history + before, name);
      if step.Write? && step.found && step.name == name {
        PhaseMore(CommandsOf(before, name), step.command);
        assert CommandsOf(life, name) == CommandsOf(before, name) + [step.command];
        NextAgrees(PhaseOf(CommandsOf(before, name)), a, step.command, step.relative, step.t0);
      } else {
        assert CommandsOf(life, name) == CommandsOf(before, name);
        assert step in life;
      }
      hide ArmingAfter, PhaseOf, CommandsOf, NextCommand, NextArming;
    }
  }

  /** A registered task stays registered until it is deleted. */
  lemma {:induction false} KnownWhileAlive(history: seq<Step>, life: seq<Step>, name: Name)
    requires ArmingAfter(history, name).Known? && Alive(life, name)
    ensures ArmingAfter(history + life, name).Known?
  {
    if life == [] {
      assert history + life == history;
    } else {
      KnownWhileAlive(history, life[..|life| - 1], name);
      ArmingMore(history, life, name);
      hide ArmingAfter;
    }
  }

  /**
   A task driven only through the client library: after the messages of its start, of any
   number of periods and of the STOP_WATCHD of the next, it is left alone until it sends its
   RESET_DEADLINE. Before its life anything may have happened, to its name too, and during its
   life anything that is no message to it and not its deletion.
   */
  lemma SleepIsUndisturbed(history: seq<Step>, life: seq<Step>, more: seq<Step>, name: Name, periods: nat)
    requires Alive(life, name) && CommandsOf(life, name) == Messages(periods) + [STOP_WATCHD]
    requires forall i :: 0 <= i < |more| ==> !Disturbs(more[i], name)
    ensures NamesDistinct(Run(INIT, history + life).table)
    ensures Undisturbed(Run(INIT, history + life), Run(INIT, history + life + more), name)
  {
    LibraryKeepsProtocol(periods);
    PhaseTellsArming(history, life, name);
    hide *;
    WaitingIsUndisturbed(history + life, more, name);
  }

  lemma {:induction false} CommandsJoin(a: seq<Step>, b: seq<Step>, name: Name)
    ensures CommandsOf(a + b, name) == CommandsOf(a, name) + CommandsOf(b, name)
  {
    if b == [] {
      assert a + b == a;
    } else {
      assert (a + b)[..|a + b| - 1] == a + b[..|b| - 1];
      CommandsJoin(a, b[..|b| - 1], name);
    }
  }

  // ----- A waiting task does not count ------------------------------------------------

  /** Two tables that both passes see alike. */
  ghost predicate SeenAlike(t: seq<Record>, u: seq<Record>, prio: map<Name, int>, lo: u64, hi: u64, now: u64) {
    && MinRemain(u) == MinRemain(t) && MaxRemain(u) == MaxRemain(t)
    && NewPrios(prio, u, lo, hi) == NewPrios(prio, t, lo, hi) && Misses(u, now) == Misses(t, now)
  }

  /** What one more record adds to the passes. */
  lemma PassesMore(t: seq<Record>, x: Record, prio: map<Name, int>, lo: u64, hi: u64, now: u64)
    ensures MinRemain(t + [x]) == if Active(x) && x.remain < MinRemain(t) then x.remain else MinRemain(t)
    ensures MaxRemain(t + [x]) == if Active(x) && x.remain > MaxRemain(t) then x.remain else MaxRemain(t)
    ensures NewPrios(prio, t + [x], lo, hi)
         == if Due(x) then SetPrio(NewPrios(prio, t, lo, hi), x.name, CalculatePrio(x.remain, lo, hi))
            else NewPrios(prio, t, lo, hi)
    ensures Misses(t + [x], now)
         == Misses(t, now) + if Due(x) && x.remain == 0 then [Miss(x.name, x.deadline, now)] else []
  {
    assert (t + [x])[..|t|] == t;
    hide CalculatePrio, SetPrio, Active, Due;
  }

  lemma SeenAlikeStep(t: seq<Record>, u: seq<Record>, x: Record, prio: map<Name, int>, lo: u64, hi: u64, now: u64)
    requires SeenAlike(t, u, prio, lo, hi, now)
    ensures SeenAlike(t + [x], u + [x], prio, lo, hi, now)
  {
    hide CalculatePrio, SetPrio, MinRemain, MaxRemain, NewPrios, Misses, Active, Due;
    PassesMore(t, x, prio, lo, hi, now);
    PassesMore(u, x, prio, lo, hi, now);
  }

  lemma SeenAlikeInactive(t: seq<Record>, x: Record, prio: map<Name, int>, lo: u64, hi: u64, now: u64)
    requires !Active(x)
    ensures SeenAlike(t + [x], t, prio, lo, hi, now)
  {
    assert !Due(x);
    hide CalculatePrio, SetPrio, MinRemain, MaxRemain, NewPrios, Misses, Active, Due;
    PassesMore(t, x, prio, lo, hi, now);
    assert Misses(t, now) + [] == Misses(t, now);
  }

  lemma {:induction false} WithoutInactive(t: seq<Record>, x: Record, rest: seq<Record>,
                                           prio: map<Name, int>, lo: u64, hi: u64, now: u64)
    requires !Active(x)
    ensures SeenAlike(t + [x] + rest, t + rest, prio, lo, hi, now)
  {
    hide SeenAlike;
    if rest == [] {
      assert t + [x] + rest == t + [x] && t + rest == t;
      SeenAlikeInactive(t, x, prio, lo, hi, now);
    } else {
      var before, y := rest[..|rest| - 1], rest[|rest| - 1];
      WithoutInactive(t, x, before, prio, lo, hi, now);
      SeenAlikeStep(t + [x] + before, t + before, y, prio, lo, hi, now);
      assert t + [x] + before + [y] == t + [x] + rest && t + before + [y] == t + rest;
    }
  }

  lemma PassesWithout(t: seq<Record>, k: nat, now: u64)
    requires k < |t|
    ensures RefreshAll(t[..k] + t[k + 1..], now) == RefreshAll(t, now)[..k] + RefreshAll(t, now)[k + 1..]
    ensures MarkAll(t[..k] + t[k + 1..]) == MarkAll(t)[..k] + MarkAll(t)[k + 1..]
  {
    hide *;
  }

  lemma DeleteAt(s: State, name: Name, k: nat)
    requires NamesDistinct(s.table) && k < |s.table| && s.table[k].name == name
    ensures Delete(s, name) == s.(table := s.table[..k] + s.table[k + 1..])
  {
    IndexUnique(s.table, k);
  }

  lemma MarkedNames(t: seq<Record>, now: u64)
    requires NamesDistinct(t)
    ensures NamesDistinct(MarkAll(RefreshAll(t, now)))
  {}

  /** For the others, recalculating with an idle task is recalculating without it. */
  lemma IdleIsNotCounted(s: State, now: u64, name: Name)
    requires NamesDistinct(s.table) && Idle(s, name)
    ensures Recalculate(Delete(s, name), now) == Delete(Recalculate(s, now), name)
  {
    var k := IndexOf(s.table, name);
    var t := RefreshAll(s.table, now);
    assert t == t[..k] + [t[k]] + t[k + 1..];
    assert t[k].name == name && MarkAll(t)[k].name == name;
    MarkedNames(s.table, now);
    DeleteAt(s, name, k);
    DeleteAt(Recalculate(s, now), name, k);
    WithoutInactive(t[..k], t[k], t[k + 1..], s.prio, MinRemain(t), MaxRemain(t), now);
    PassesWithout(s.table, k, now);
    PassesWithout(t, k, now);
    hide NewPrios, MinRemain, MaxRemain, Misses, Delete, NamesDistinct, Mark, Refresh;
  }

  lemma WaitingIsNotCounted(s: State, now: u64, name: Name)
    requires NamesDistinct(s.table) && Waits(s, name)
    ensures Recalculate(Delete(s, name), now) == Delete(Recalculate(s, now), name)
  {
    assert Idle(s, name);
    hide *;
    IdleIsNotCounted(s, now, name);
  }

  lemma UnscheduledIsNotCounted(s: State, now: u64, name: Name)
    requires NamesDistinct(s.table) && Unscheduled(s, name)
    ensures Recalculate(Delete(s, name), now) == Delete(Recalculate(s, now), name)
  {
    assert Idle(s, name);
    hide *;
    IdleIsNotCounted(s, now, name);
  }

  // ----- Runs of a task without a deadline --------------------------------------------

  lemma SparedAgain(s: State, s': State, s'': State, name: Name)
    requires Spared(s, s', name) && Spared(s', s'', name)
    ensures Spared(s, s'', name)
  {}

  /**
   In every run: from where a task is armed with DEADLINENOTSET until it is given a deadline,
   it gets no priority, is not reported, and stays without a deadline.
   */
  lemma {:induction false} UnscheduledIsSpared(steps: seq<Step>, more: seq<Step>, name: Name)
    requires ArmingAfter(steps, name).Known? && ArmingAfter(steps, name).relative == 0xFFFF_FFFF_FFFF_FFFF
    requires forall i :: 0 <= i < |more| ==> !Schedules(more[i], name)
    ensures NamesDistinct(Run(INIT, steps + more).table) && Unscheduled(Run(INIT, steps + more), name)
    ensures Spared(Run(INIT, steps), Run(INIT, steps + more), name)
  {
    RunsFollowArming(steps, name);
    if more == [] {
      assert steps + more == steps;
    } else {
      var before := more[..|more| - 1];
      UnscheduledIsSpared(steps, before, name);
      RunOneMore(steps, more);
      hide *;
      StepWhileUnscheduled(Run(INIT, steps + before), more[|more| - 1], name);
      SparedAgain(Run(INIT, steps), Run(INIT, steps + before), Run(INIT, steps + more), name);
    }
  }
}
