/**
 The two tasks of exercise-xenomai/semaphore.c, which take turns at a global variable by two
 semaphores: every interleaving of their steps, for any number of iterations.

 Incrementing and decrementing the variable are two steps each, a load and a store.
 */
module Semaphore {
  datatype Who = One | Two

  /** Where a task is in its loop body. */
  datatype Pc = AtP | AtLoad | AtStore(loaded: int) | AtV

  datatype Task = Task(i: nat, pc: Pc)

  /** What a task prints. */
  datatype Line = Line(who: Who, value: int)

  datatype State = State(sem1: nat, sem2: nat, global: int, one: Task, two: Task, output: seq<Line>)

  const INIT := State(1, 0, 0, Task(0, AtP), Task(0, AtP), [])

  function TaskOf(s: State, who: Who): Task {
    if who == One then s.one else s.two
  }

  /** The semaphore a task waits for; it signals the other one. */
  function SemOf(s: State, who: Who): nat {
    if who == One then s.sem1 else s.sem2
  }

  function SetTask(s: State, who: Who, t: Task): State {
    if who == One then s.(one := t) else s.(two := t)
  }

  function AddToSem(s: State, who: Who, n: int): State
    requires SemOf(s, who) + n >= 0
  {
    if who == One then s.(sem1 := s.sem1 + n) else s.(sem2 := s.sem2 + n)
  }

  function Other(who: Who): Who {
    if who == One then Two else One
  }

  function Delta(who: Who): int {
    if who == One then 1 else -1
  }

  /** Whether a task can move: its loop is not over, and it is not blocked in its P. */
  predicate Enabled(iter: nat, s: State, who: Who) {
    TaskOf(s, who).i < iter && (TaskOf(s, who).pc == AtP ==> SemOf(s, who) > 0)
  }

  function Next(iter: nat, s: State, who: Who): State
    requires Enabled(iter, s, who)
  {
    var t := TaskOf(s, who);
    match t.pc
    case AtP => SetTask(AddToSem(s, who, -1), who, t.(pc := AtLoad))
    case AtLoad => SetTask(s, who, t.(pc := AtStore(s.global)))
    case AtStore(loaded) =>
      var v := loaded + Delta(who);
      SetTask(s.(global := v, output := s.output + [Line(who, v)]), who, t.(pc := AtV))
    case AtV => SetTask(AddToSem(s, Other(who), 1), who, Task(t.i + 1, AtP))
  }

  /** Both loops are over. */
  predicate Done(iter: nat, s: State) {
    s.one.i == iter && s.two.i == iter
  }

  /** The state a schedule leads to. */
  function Run(iter: nat, schedule: seq<Who>): State
    requires CanRun(iter, schedule)
    decreases |schedule|, 1
  {
    if schedule == [] then INIT
    else Next(iter, Run(iter, schedule[..|schedule| - 1]), schedule[|schedule| - 1])
  }

  predicate CanRun(iter: nat, schedule: seq<Who>)
    decreases |schedule|, 0
  {
    schedule == [] ||
      var before := schedule[..|schedule| - 1];
      CanRun(iter, before) && Enabled(iter, Run(iter, before), schedule[|schedule| - 1])
  }

  // ----- The invariant ------------------------------------------------------------------

  function Inside(t: Task): nat {
    if t.pc == AtP then 0 else 1
  }

  /** How far a task is in its loop body. */
  function Stage(t: Task): nat {
    match t.pc
    case AtP => 0
    case AtLoad => 1
    case AtStore(_) => 2
    case AtV => 3
  }

  function Progress(s: State): nat {
    4 * (s.one.i + s.two.i) + Stage(s.one) + Stage(s.two)
  }

  /** The k-th line printed: the tasks alternate, task one printing 1 and task two printing 0. */
  function Expected(k: nat): Line {
    if k % 2 == 0 then Line(One, 1) else Line(Two, 0)
  }

  ghost predicate TaskInv(iter: nat, s: State, t: Task) {
    && t.i <= iter
    && (t.i == iter ==> t.pc == AtP)
    && (t.pc.AtStore? ==> t.pc.loaded == s.global)
  }

  ghost predicate Inv(iter: nat, s: State) {
    && TaskInv(iter, s, s.one) && TaskInv(iter, s, s.two)
    && s.sem1 + s.sem2 + Inside(s.one) + Inside(s.two) == 1
    && s.one.i == s.two.i + (if s.sem1 + Inside(s.one) == 1 then 0 else 1)
    && |s.output| == s.one.i + s.two.i + (if s.one.pc == AtV || s.two.pc == AtV then 1 else 0)
    && s.global == |s.output| % 2
    && forall k :: 0 <= k < |s.output| ==> s.output[k] == Expected(k)
  }

  lemma NextKeepsInv(iter: nat, s: State, who: Who)
    requires Inv(iter, s) && Enabled(iter, s, who)
    ensures Inv(iter, Next(iter, s, who))
    ensures Progress(Next(iter, s, who)) == Progress(s) + 1
  {}

  /** Mutual exclusion and progress: unless both are done, exactly one task can move. */
  lemma OneCanMove(iter: nat, s: State)
    requires Inv(iter, s)
    ensures !(Enabled(iter, s, One) && Enabled(iter, s, Two))
    ensures Enabled(iter, s, One) || Enabled(iter, s, Two) <==> !Done(iter, s)
  {}

  // ----- Every schedule -----------------------------------------------------------------

  lemma {:induction false} RunsKeepInv(iter: nat, schedule: seq<Who>)
    requires CanRun(iter, schedule)
    ensures Inv(iter, Run(iter, schedule)) && Progress(Run(iter, schedule)) == |schedule|
  {
    if schedule != [] {
      var before, who := schedule[..|schedule| - 1], schedule[|schedule| - 1];
      RunsKeepInv(iter, before);
      NextKeepsInv(iter, Run(iter, before), who);
      hide Inv, Progress;
    }
  }

  lemma InvMeans(iter: nat, s: State)
    requires Inv(iter, s)
    ensures s.sem1 + s.sem2 + Inside(s.one) + Inside(s.two) == 1 && 0 <= s.global <= 1
    ensures forall k :: 0 <= k < |s.output| ==> s.output[k] == Expected(k)
  {}

  /**
   After any schedule: one token in all, a global of 0 or 1, and strictly alternating output.
   */
  lemma Turns(iter: nat, schedule: seq<Who>)
    requires CanRun(iter, schedule)
    ensures var s := Run(iter, schedule);
      && s.sem1 + s.sem2 + Inside(s.one) + Inside(s.two) == 1
      && 0 <= s.global <= 1
      && forall k :: 0 <= k < |s.output| ==> s.output[k] == Expected(k)
  {
    RunsKeepInv(iter, schedule);
    InvMeans(iter, Run(iter, schedule));
    hide Inv, Run, CanRun, Progress, Expected;
  }

  lemma CanExtend(iter: nat, schedule: seq<Who>, who: Who)
    requires CanRun(iter, schedule)
    ensures CanRun(iter, schedule + [who]) == Enabled(iter, Run(iter, schedule), who)
  {
    assert (schedule + [who])[..|schedule|] == schedule;
  }

  lemma ProgressBound(iter: nat, s: State)
    requires Inv(iter, s)
    ensures Progress(s) <= 8 * iter
    ensures Done(iter, s) <==> Progress(s) == 8 * iter
    ensures Done(iter, s) ==> |s.output| == 2 * iter && s.global == 0
  {}

  /**
   Every schedule ends, after exactly eight steps per iteration and never earlier; then both
   loops are over, each task has printed its line in every iteration, and the global is 0.
   */
  lemma EverySchedule(iter: nat, schedule: seq<Who>)
    requires CanRun(iter, schedule)
    ensures |schedule| <= 8 * iter
    ensures (forall who :: !CanRun(iter, schedule + [who])) <==> |schedule| == 8 * iter
    ensures var s := Run(iter, schedule);
      |schedule| == 8 * iter ==> Done(iter, s) && |s.output| == 2 * iter && s.global == 0
  {
    RunsKeepInv(iter, schedule);
    var s := Run(iter, schedule);
    ProgressBound(iter, s);
    OneCanMove(iter, s);
    CanExtend(iter, schedule, One);
    CanExtend(iter, schedule, Two);
    hide Run, CanRun, Inv, Progress, Enabled;
    if !Done(iter, s) {
      var who: Who :| CanRun(iter, schedule + [who]);
    } else {
      forall who: Who
        ensures !CanRun(iter, schedule + [who])
      {
        assert who == One || who == Two;
      }
    }
  }

  lemma SameSequence(a: seq<Who>, b: seq<Who>)
    requires |a| == |b| > 0 && a[..|a| - 1] == b[..|b| - 1] && a[|a| - 1] == b[|b| - 1]
    ensures a == b
  {
    assert a == a[..|a| - 1] + [a[|a| - 1]] && b == b[..|b| - 1] + [b[|b| - 1]];
  }

  lemma LastStep(iter: nat, schedule: seq<Who>)
    requires schedule != [] && CanRun(iter, schedule)
    ensures var before := schedule[..|schedule| - 1];
      CanRun(iter, before) && Enabled(iter, Run(iter, before), schedule[|schedule| - 1])
  {}

  /** There is only one schedule of each length: the tasks cannot overtake each other. */
  lemma {:induction false} OnlySchedule(iter: nat, a: seq<Who>, b: seq<Who>)
    requires CanRun(iter, a) && CanRun(iter, b) && |a| == |b|
    ensures a == b
  {
    if a != [] {
      var before := a[..|a| - 1];
      LastStep(iter, a);
      LastStep(iter, b);
      OnlySchedule(iter, before, b[..|b| - 1]);
      RunsKeepInv(iter, before);
      OneCanMove(iter, Run(iter, before));
      hide *;
      SameSequence(a, b);
    }
  }
}
