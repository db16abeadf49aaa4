/**
 The EDF scheduler of edfomai-drv-data.c as a state machine on values: the table of task
 records in registration order, the priorities Xenomai holds, and the log of deadline misses.

 Every driver command is one step. The driver reads the clock once when it arms a task and
 once more when it recalculates priorities; both readings are inputs of the step.
 */
module EdfModel {
  import opened Priority

  type Name = string
  type u64 = x: nat | x < 0x1_0000_0000_0000_0000

  /** DEADLINENOTSET, -1, as the unsigned field holds it. */
  const NOTSET: u64 := 0xFFFF_FFFF_FFFF_FFFF

  // TaskState values; going to wait stores the EDFCommand value GOING_WAITP instead.
  const RUNNING: int := 0
  const GOING_WAITP: int := 5

  datatype DeadlineState = OK | MISSED

  /** `armedAt` is history: the length of the miss log when the task was last armed. */
  datatype Record = Record(name: Name, deadline: u64, remain: u64, relative: u64,
                           status: DeadlineState, state: int, armedAt: nat)

  /** A logged miss; the queue carries the name, the rest is history. */
  datatype Miss = Miss(name: Name, deadline: u64, clock: u64)

  datatype State = State(table: seq<Record>, prio: map<Name, int>, log: seq<Miss>, clock: u64)

  const INIT := State([], map[], [], 0)

  /** The current priority rt_task_inquire reports. */
  function PrioOf(prio: map<Name, int>, name: Name): int {
    if name in prio then prio[name] else 0
  }

  /** rt_task_set_priority, which is only called for a priority that differs from the current one. */
  function SetPrio(prio: map<Name, int>, name: Name, newprio: int): map<Name, int> {
    if newprio != PrioOf(prio, name) then prio[name := newprio] else prio
  }

  // ----- Recalculating priorities -----------------------------------------------------

  predicate Active(r: Record) {
    r.relative != NOTSET && r.state == RUNNING
  }

  predicate Due(r: Record) {
    Active(r) && r.status == OK
  }

  function Left(deadline: u64, now: u64): u64 {
    if deadline > now then deadline - now else 0
  }

  /** First pass over a record. */
  function Refresh(r: Record, now: u64): Record {
    if Active(r) then r.(remain := Left(r.deadline, now)) else r
  }

  function RefreshAll(t: seq<Record>, now: u64): (r: seq<Record>)
    ensures |r| == |t| && forall i :: 0 <= i < |t| ==> r[i] == Refresh(t[i], now)
  {
    seq(|t|, i requires 0 <= i < |t| => Refresh(t[i], now))
  }

  function MinRemain(t: seq<Record>): u64 {
    if t == [] then 0xFFFF_FFFF_FFFF_FFFF
    else
      var last, m := t[|t| - 1], MinRemain(t[..|t| - 1]);
      if Active(last) && last.remain < m then last.remain else m
  }

  function MaxRemain(t: seq<Record>): u64 {
    if t == [] then 0
    else
      var last, m := t[|t| - 1], MaxRemain(t[..|t| - 1]);
      if Active(last) && last.remain > m then last.remain else m
  }

  /** Second pass over a record: a task without time left has missed its deadline. */
  function Mark(r: Record): Record {
    if Due(r) && r.remain == 0 then r.(status := MISSED) else r
  }

  function MarkAll(t: seq<Record>): (r: seq<Record>)
    ensures |r| == |t| && forall i :: 0 <= i < |t| ==> r[i] == Mark(t[i])
  {
    seq(|t|, i requires 0 <= i < |t| => Mark(t[i]))
  }

  function Misses(t: seq<Record>, now: u64): seq<Miss> {
    if t == [] then []
    else
      var last := t[|t| - 1];
      Misses(t[..|t| - 1], now)
      + (if Due(last) && last.remain == 0 then [Miss(last.name, last.deadline, now)] else [])
  }

  function NewPrios(prio: map<Name, int>, t: seq<Record>, lo: u64, hi: u64): map<Name, int> {
    if t == [] then prio
    else
      var last, p := t[|t| - 1], NewPrios(prio, t[..|t| - 1], lo, hi);
      if Due(last) then SetPrio(p, last.name, CalculatePrio(last.remain, lo, hi)) else p
  }

  /** rt_dtask_recalculateprio. */
  function Recalculate(s: State, now: u64): State {
    var t := RefreshAll(s.table, now);
    State(MarkAll(t), NewPrios(s.prio, t, MinRemain(t), MaxRemain(t)), s.log + Misses(t, now), now)
  }

  // ----- Commands ---------------------------------------------------------------------

  predicate Registered(t: seq<Record>, name: Name) {
    exists i :: 0 <= i < |t| && t[i].name == name
  }

  /** Where HASH_FIND_STR finds the record of a name. */
  function IndexOf(t: seq<Record>, name: Name): (i: nat)
    ensures i <= |t|
    ensures i < |t| ==> t[i].name == name
    ensures i == |t| <==> !Registered(t, name)
  {
    if t == [] then 0
    else
      var last, i := |t| - 1, IndexOf(t[..|t| - 1], name);
      if i < last then i else if t[last].name == name then last else |t|
  }

  function Add64(x: u64, y: u64): u64 {
    if x + y < 0x1_0000_0000_0000_0000 then x + y else x + y - 0x1_0000_0000_0000_0000
  }

  /** A record armed at clock `now` with a relative deadline. */
  function Armed(name: Name, relative: u64, now: u64, armedAt: nat): Record {
    Record(name, Add64(now, relative), relative, relative, OK, RUNNING, armedAt)
  }

  /** rt_dtask_create: an existing name keeps its record; priorities are recalculated either way. */
  function Create(s: State, name: Name, relative: u64, t0: u64, t1: u64): State {
    if Registered(s.table, name) then Recalculate(s, t1)
    else Recalculate(s.(table := s.table + [Armed(name, relative, t0, |s.log|)]), t1)
  }

  /** rt_dtask_setdeadline. */
  function SetDeadline(s: State, name: Name, relative: u64, t0: u64, t1: u64): State {
    var i := IndexOf(s.table, name);
    if i == |s.table| then s
    else Recalculate(s.(table := s.table[i := Armed(name, relative, t0, |s.log|)]), t1)
  }

  /** rt_dtask_resetdeadline: the same with the relative deadline set before. */
  function ResetDeadline(s: State, name: Name, t0: u64, t1: u64): State {
    var i := IndexOf(s.table, name);
    if i == |s.table| then s
    else SetDeadline(s, name, s.table[i].relative, t0, t1)
  }

  /** rt_dtask_goingwaitp, and rt_dtask_stopwatchdog, which only calls it. */
  function GoingWaitP(s: State, name: Name): State {
    var i := IndexOf(s.table, name);
    if i == |s.table| then s
    else s.(table := s.table[i := s.table[i].(state := GOING_WAITP)])
  }

  /** rt_dtask_delete. */
  function Delete(s: State, name: Name): State {
    var i := IndexOf(s.table, name);
    if i == |s.table| then s else s.(table := s.table[..i] + s.table[i + 1..])
  }

  // ----- Steps and runs ---------------------------------------------------------------

  datatype Command = CREATE_TASK | START_TASK | RESET_DEADLINE | SET_DEADLINE | STOP_WATCHD | WAITP | UNKNOWN

  /**
   What can happen: a message written to the device (`found` is whether Xenomai's registry
   knows the task), one round of the recalculation service, the deletion of a task, and
   anyone else setting the priority of a task.
   */
  datatype Step =
    | Write(found: bool, command: Command, name: Name, relative: u64, t0: u64, t1: u64)
    | Service(t1: u64)
    | TaskDeleted(name: Name)
    | Foreign(name: Name, prio: int)

  /** edf_rtdm_write_nrt: dispatch of one message. */
  function Dispatch(s: State, command: Command, name: Name, relative: u64, t0: u64, t1: u64): State {
    match command
    case CREATE_TASK => Create(s, name, relative, t0, t1)
    case START_TASK => SetDeadline(s, name, relative, t0, t1)
    case SET_DEADLINE => SetDeadline(s, name, relative, t0, t1)
    case RESET_DEADLINE => ResetDeadline(s, name, t0, t1)
    case STOP_WATCHD => GoingWaitP(s, name)
    case WAITP => GoingWaitP(s, name)
    case UNKNOWN => s
  }

  function Apply(s: State, step: Step): State {
    match step
    case Write(found, command, name, relative, t0, t1) =>
      if found then Dispatch(s, command, name, relative, t0, t1) else s
    case Service(t1) => Recalculate(s, t1)
    case TaskDeleted(name) => Delete(s, name)
    case Foreign(name, prio) => s.(prio := s.prio[name := prio])
  }

  function Run(s: State, steps: seq<Step>): State {
    if steps == [] then s else Apply(Run(s, steps[..|steps| - 1]), steps[|steps| - 1])
  }

  /** No deadline, or one of at most `bound`. */
  predicate Within(relative: u64, bound: nat) {
    relative == NOTSET || relative <= bound
  }

  /** A message that arms a task with the deadline it carries keeps that deadline within the bound. */
  predicate ArmsWithin(s: State, step: Step, bound: nat) {
    step.Write? && step.found ==>
      match step.command
      case CREATE_TASK => Registered(s.table, step.name) || Within(step.relative, bound)
      case START_TASK => !Registered(s.table, step.name) || Within(step.relative, bound)
      case SET_DEADLINE => !Registered(s.table, step.name) || Within(step.relative, bound)
      case _ => true
  }

  /** The clock does not run backwards over a step. */
  predicate ClockRuns(s: State, step: Step) {
    match step
    case Write(_, _, _, _, t0, t1) => s.clock <= t0 <= t1
    case Service(t1) => s.clock <= t1
    case TaskDeleted(_) => true
    case Foreign(_, _) => true
  }

  /**
   What EDF order assumes of a step: the clock does not run backwards, deadlines are bounded,
   and nobody else sets the priority of a registered task.
   */
  predicate Admissible(s: State, step: Step, bound: nat) {
    && ClockRuns(s, step) && ArmsWithin(s, step, bound)
    && (step.Foreign? ==> !Registered(s.table, step.name))
  }

  predicate AdmissibleRun(s: State, steps: seq<Step>, bound: nat) {
    steps == [] || (AdmissibleRun(s, steps[..|steps| - 1], bound)
                    && Admissible(Run(s, steps[..|steps| - 1]), steps[|steps| - 1], bound))
  }

  /** The clock does not run backwards; deadlines and foreign priorities may be anything. */
  predicate ClockedRun(s: State, steps: seq<Step>) {
    steps == [] || (ClockedRun(s, steps[..|steps| - 1])
                    && ClockRuns(Run(s, steps[..|steps| - 1]), steps[|steps| - 1]))
  }

  /** The clock does not run backwards and deadlines are bounded, but anyone may set any priority. */
  predicate TimelyRun(s: State, steps: seq<Step>, bound: nat) {
    steps == [] || (TimelyRun(s, steps[..|steps| - 1], bound)
                    && ClockRuns(Run(s, steps[..|steps| - 1]), steps[|steps| - 1])
                    && ArmsWithin(Run(s, steps[..|steps| - 1]), steps[|steps| - 1], bound))
  }
}
