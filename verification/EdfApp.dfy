/**
 The client library, edfomai-app.c: what a real-time task calls, on the driver itself. What
 Xenomai returns, and what happens to the driver while a task sleeps, are parameters.
 */
module EdfApp {
  import opened EdfModel
  import opened EdfOrder
  import opened EdfRegistry
  import opened EdfClient
  import opened EdfDriver

  /** The size of an EDFMessage. */
  const MESSAGE_SIZE: nat := 40
  const EBADF: int := 9

  /** EDFMessage. */
  datatype Message = Message(command: Command, task: Name, deadline: u64)

  /** How a message fares: whether it can be copied, whether its task is found, and the clock. */
  datatype Delivery = Delivery(copied: int, found: bool, t0: u64, t1: u64)

  /** The step of the driver a message amounts to. */
  function Steps(m: Message, d: Delivery): seq<Step> {
    if d.copied == EFAULT then [] else [Step.Write(d.found, m.command, m.task, m.deadline, d.t0, d.t1)]
  }

  /** One call of edf_task_wait_period. */
  datatype Period = Period(self: bool, inquire: int, stop: Delivery, others: seq<Step>, slept: int, reset: Delivery)

  /** What reaches the driver before the sleep of a period; nothing without a device. */
  function StopSteps(name: Name, open: bool, p: Period): seq<Step> {
    if open then Steps(Message(STOP_WATCHD, name, NOTSET), p.stop) else []
  }

  /** What happens to the driver over a period. */
  function PeriodSteps(name: Name, open: bool, p: Period): seq<Step> {
    if !p.self || p.inquire != 0 then []
    else StopSteps(name, open, p) + p.others
         + if open then Steps(Message(RESET_DEADLINE, name, NOTSET), p.reset) else []
  }

  /** Over the life of a task: its start and a number of periods. */
  function LifeSteps(name: Name, open: bool, deadline: u64, start: Delivery, periods: seq<Period>): seq<Step> {
    if periods == [] then (if open then Steps(Message(CREATE_TASK, name, deadline), start) else [])
    else
      var last := |periods| - 1;
      LifeSteps(name, open, deadline, start, periods[..last]) + PeriodSteps(name, open, periods[last])
  }

  /** The driver is where the steps of `history` have brought it since it was loaded. */
  ghost predicate At(driver: Driver, history: seq<Step>)
    reads driver, driver.Footprint(), Buckets.Members(driver.dtasks.chains)
  {
    driver.Valid() && driver.View() == Run(INIT, history)
  }

  lemma RunDelivery(history: seq<Step>, m: Message, d: Delivery)
    ensures if d.copied == EFAULT then history + Steps(m, d) == history
            else Run(INIT, history + Steps(m, d))
                   == Apply(Run(INIT, history), Step.Write(d.found, m.command, m.task, m.deadline, d.t0, d.t1))
  {
    RunMore(INIT, history, Step.Write(d.found, m.command, m.task, m.deadline, d.t0, d.t1));
  }

  /** rt_dev_write: the driver itself answers, unless there is no device. */
  method DevWrite(device: int, driver: Driver, m: Message, d: Delivery, ghost history: seq<Step>)
    returns (r: int, ghost history': seq<Step>)
    requires At(driver, history)
    modifies driver.Footprint()
    ensures At(driver, history')
    ensures forall o :: o in driver.Footprint() ==> o in old(driver.Footprint()) || fresh(o)
    ensures history' == history + if device == -1 then [] else Steps(m, d)
    ensures r == if device == -1 then -EBADF else if d.copied == EFAULT then -EFAULT
                 else if d.found then MESSAGE_SIZE else -1
  {
    history' := history;
    if device == -1 {
      return -EBADF, history;
    }
    RunDelivery(history, m, d);
    hide Driver.Valid, Driver.View, Driver.Footprint, Run, Apply;
    r := driver.WriteWithin(d.copied, d.found, m.command, m.task, m.deadline, d.t0, d.t1, MESSAGE_SIZE);
    history' := history + Steps(m, d);
  }

  lemma {:induction false} RunJoins(s: State, a: seq<Step>, b: seq<Step>)
    ensures Run(s, a + b) == Run(Run(s, a), b)
  {
    if b == [] {
      assert a + b == a;
    } else {
      assert (a + b)[..|a + b| - 1] == a + b[..|b| - 1];
      RunJoins(s, a, b[..|b| - 1]);
    }
  }

  /** What happens to the driver while a task sleeps. */
  method Sleep(driver: Driver, others: seq<Step>, ghost history: seq<Step>)
    requires At(driver, history)
    modifies driver.Footprint()
    ensures At(driver, history + others)
    ensures forall o :: o in driver.Footprint() ==> o in old(driver.Footprint()) || fresh(o)
  {
    RunJoins(INIT, history, others);
    hide Driver.Valid, Driver.View, Driver.Footprint, Run;
    driver.RunSteps(others);
  }

  /** edf_task_start: announces the task, whatever the driver answers, and starts it. */
  method TaskStart(device: int, driver: Driver, name: Name, deadline: u64, inquire: int, d: Delivery, started: int,
                   ghost history: seq<Step>)
    returns (ret: int, ghost history': seq<Step>)
    requires At(driver, history)
    modifies driver.Footprint()
    ensures At(driver, history')
    ensures forall o :: o in driver.Footprint() ==> o in old(driver.Footprint()) || fresh(o)
    ensures history' == history + if inquire == 0 && device != -1
                                  then Steps(Message(CREATE_TASK, name, deadline), d) else []
    ensures ret == if inquire == 0 && device != -1 then started else -1
  {
    history' := history;
    if inquire != 0 {
      return -1, history;
    }
    var message := Message(CREATE_TASK, name, deadline);
    if device == -1 {
      return -1, history;
    }
    hide At, Steps, Driver.Footprint;
    ret, history' := DevWrite(device, driver, message, d, history);
    ret := started;
  }

  lemma Constants(history: seq<Step>)
    ensures NOTSET == 0xFFFF_FFFF_FFFF_FFFF && MESSAGE_SIZE != 0 && EBADF != 0 && EFAULT != 0
    ensures history + [] == history
  {}

  /**
   edf_task_wait_period: stops the watchdog, sleeps until the next period, and has the deadline
   reset, even if the sleep fails. Its result is meant to be 0 on success, but it takes any
   answer of the device that is not 0 for a failure, and the driver never answers 0.
   */
  method TaskWaitPeriod(device: int, driver: Driver, name: Name, p: Period, ghost history: seq<Step>)
    returns (ret: int, ghost history': seq<Step>)
    requires At(driver, history)
    modifies driver.Footprint()
    ensures At(driver, history')
    ensures forall o :: o in driver.Footprint() ==> o in old(driver.Footprint()) || fresh(o)
    ensures history' ==
      if !p.self || p.inquire != 0 then history
      else if device == -1 then history + p.others
      else history + Steps(Message(STOP_WATCHD, name, 0xFFFF_FFFF_FFFF_FFFF), p.stop) + p.others
           + Steps(Message(RESET_DEADLINE, name, 0xFFFF_FFFF_FFFF_FFFF), p.reset)
    ensures ret == -1
  {
    Constants(history);
    hide *;
    history' := history;
    if !p.self {
      return -1, history;
    }
    if p.inquire != 0 {
      return -1, history;
    }
    var message := Message(STOP_WATCHD, name, NOTSET);
    var ret1;
    ret1, history' := DevWrite(device, driver, message, p.stop, history);
    Sleep(driver, p.others, history');
    history' := history' + p.others;
    ret := p.slept;
    ret := 0;
    if device == -1 {
      ret1 := -1;
    } else {
      message := message.(command := RESET_DEADLINE);
      ret1, history' := DevWrite(device, driver, message, p.reset, history');
    }
    ret := 0;
    if ret != 0 || ret1 != 0 {
      ret := -1;
    } else {
      ret := 0;
    }
  }

  // ----- The life of a task ---------------------------------------------------------------

  lemma PeriodJoins(name: Name, open: bool, p: Period, history: seq<Step>)
    ensures history + PeriodSteps(name, open, p) ==
      if !p.self || p.inquire != 0 then history
      else if !open then history + p.others
      else history + Steps(Message(STOP_WATCHD, name, 0xFFFF_FFFF_FFFF_FFFF), p.stop) + p.others
           + Steps(Message(RESET_DEADLINE, name, 0xFFFF_FFFF_FFFF_FFFF), p.reset)
  {
    if !open {
      assert history + ([] + p.others) == history + p.others;
    }
  }

  ghost function HistoryAfter(history: seq<Step>, name: Name, open: bool, deadline: u64, start: Delivery,
                              periods: seq<Period>, k: nat): seq<Step>
    requires k <= |periods|
  {
    history + LifeSteps(name, open, deadline, start, periods[..k])
  }

  lemma LifeGoesOn(name: Name, open: bool, deadline: u64, start: Delivery, periods: seq<Period>, k: nat,
                   history: seq<Step>)
    requires k < |periods|
    ensures HistoryAfter(history, name, open, deadline, start, periods, k + 1)
         == HistoryAfter(history, name, open, deadline, start, periods, k) + PeriodSteps(name, open, periods[k])
  {
    assert periods[..k + 1][..k] == periods[..k];
    var a, b := LifeSteps(name, open, deadline, start, periods[..k]), PeriodSteps(name, open, periods[k]);
    assert history + (a + b) == history + a + b;
  }

  method WaitPeriods(device: int, driver: Driver, name: Name, deadline: u64, start: Delivery, periods: seq<Period>,
                     ghost history: seq<Step>)
    requires At(driver, HistoryAfter(history, name, device != -1, deadline, start, periods, 0))
    modifies driver.Footprint()
    ensures At(driver, HistoryAfter(history, name, device != -1, deadline, start, periods, |periods|))
  {
    ghost var world := driver.Footprint();
    hide *;
    var k := 0;
    while k < |periods|
      invariant 0 <= k <= |periods|
      invariant At(driver, HistoryAfter(history, name, device != -1, deadline, start, periods, k))
      invariant forall o :: o in driver.Footprint() ==> o in world || fresh(o)
    {
      ghost var now := HistoryAfter(history, name, device != -1, deadline, start, periods, k);
      LifeGoesOn(name, device != -1, deadline, start, periods, k, history);
      PeriodJoins(name, device != -1, periods[k], now);
      var ret;
      ret, now := TaskWaitPeriod(device, driver, name, periods[k], now);
      assert now == HistoryAfter(history, name, device != -1, deadline, start, periods, k + 1);
      k := k + 1;
    }
  }

  lemma LifeStarts(name: Name, open: bool, deadline: u64, start: Delivery, periods: seq<Period>, history: seq<Step>)
    ensures HistoryAfter(history, name, open, deadline, start, periods, 0) ==
      history + if open then Steps(Message(CREATE_TASK, name, deadline), start) else []
    ensures HistoryAfter(history, name, open, deadline, start, periods, |periods|) ==
      history + LifeSteps(name, open, deadline, start, periods)
  {
    assert periods[..|periods|] == periods;
  }

  /** A task is started and then waits for its periods. */
  method Live(device: int, driver: Driver, name: Name, deadline: u64, start: Delivery, started: int,
              periods: seq<Period>, ghost history: seq<Step>)
    requires At(driver, history)
    modifies driver.Footprint()
    ensures At(driver, history + LifeSteps(name, device != -1, deadline, start, periods))
  {
    LifeStarts(name, device != -1, deadline, start, periods, history);
    hide *;
    var ret;
    ghost var now;
    ret, now := TaskStart(device, driver, name, deadline, 0, start, started, history);
    WaitPeriods(device, driver, name, deadline, start, periods, history);
  }

  predicate Delivered(d: Delivery) {
    d.copied != EFAULT && d.found
  }

  /** The library's calls reach Xenomai and the driver. */
  predicate Reaches(p: Period) {
    p.self && p.inquire == 0 && Delivered(p.stop) && Delivered(p.reset)
  }

  /** Meanwhile others send no messages to the task, and it is not deleted. */
  predicate Unaddressed(steps: seq<Step>, name: Name) {
    Alive(steps, name) && CommandsOf(steps, name) == []
  }

  lemma OneMessage(m: Message, d: Delivery)
    requires Delivered(d)
    ensures Alive(Steps(m, d), m.task) && CommandsOf(Steps(m, d), m.task) == [m.command]
  {
    assert CommandsOf(Steps(m, d)[..0], m.task) == [];
  }

  /** Up to the sleep of a period: its STOP_WATCHD is all there is for the name. */
  lemma StopCommands(name: Name, p: Period)
    requires Reaches(p)
    ensures Alive(StopSteps(name, true, p), name) && CommandsOf(StopSteps(name, true, p), name) == [STOP_WATCHD]
  {
    OneMessage(Message(STOP_WATCHD, name, NOTSET), p.stop);
    hide CommandsOf, Steps;
  }

  lemma PeriodCommands(name: Name, p: Period)
    requires Reaches(p) && Unaddressed(p.others, name)
    ensures Alive(PeriodSteps(name, true, p), name)
    ensures CommandsOf(PeriodSteps(name, true, p), name) == [STOP_WATCHD, RESET_DEADLINE]
  {
    var stop, reset := StopSteps(name, true, p), Steps(Message(RESET_DEADLINE, name, NOTSET), p.reset);
    StopCommands(name, p);
    OneMessage(Message(RESET_DEADLINE, name, NOTSET), p.reset);
    hide CommandsOf, Steps, StopSteps;
    CommandsJoin(stop, p.others, name);
    CommandsJoin(stop + p.others, reset, name);
  }

  lemma AliveJoin(a: seq<Step>, b: seq<Step>, name: Name)
    requires Alive(a, name) && Alive(b, name)
    ensures Alive(a + b, name)
  {}

  /** In the life of a task driven by the library, the messages for its name are the protocol's. */
  lemma {:induction false} LifeCommands(name: Name, deadline: u64, start: Delivery, periods: seq<Period>)
    requires Delivered(start)
    requires forall k :: 0 <= k < |periods| ==> Reaches(periods[k]) && Unaddressed(periods[k].others, name)
    ensures var life := LifeSteps(name, true, deadline, start, periods);
      Alive(life, name) && CommandsOf(life, name) == Messages(|periods|)
  {
    if periods == [] {
      OneMessage(Message(CREATE_TASK, name, deadline), start);
    } else {
      var last := |periods| - 1;
      LifeCommands(name, deadline, start, periods[..last]);
      PeriodCommands(name, periods[last]);
      var a, b := LifeSteps(name, true, deadline, start, periods[..last]), PeriodSteps(name, true, periods[last]);
      assert LifeSteps(name, true, deadline, start, periods) == a + b;
      assert Messages(|periods|) == Messages(last) + [STOP_WATCHD, RESET_DEADLINE];
      AliveJoin(a, b, name);
      hide *;
      CommandsJoin(a, b, name);
    }
  }

  lemma PeriodAlive(name: Name, p: Period)
    requires Alive(p.others, name)
    ensures Alive(PeriodSteps(name, true, p), name)
  {}

  lemma Regroup<T>(a: seq<T>, b: seq<T>, c: seq<T>)
    ensures a + (b + c) == a + b + c
  {}

  lemma StartRegisters(history: seq<Step>, name: Name, deadline: u64, start: Delivery)
    requires Delivered(start)
    ensures ArmingAfter(history + LifeSteps(name, true, deadline, start, []), name).Known?
  {
    var w := Steps(Message(CREATE_TASK, name, deadline), start);
    assert w[..0] == [] && history + [] == history;
    ArmingMore(history, w, name);
    hide ArmingAfter;
  }

  /** From its start on a task is registered, however its later messages fare. */
  lemma {:induction false} LifeRegisters(history: seq<Step>, name: Name, deadline: u64, start: Delivery, periods: seq<Period>)
    requires Delivered(start) && forall k :: 0 <= k < |periods| ==> Alive(periods[k].others, name)
    ensures ArmingAfter(history + LifeSteps(name, true, deadline, start, periods), name).Known?
  {
    if periods == [] {
      StartRegisters(history, name, deadline, start);
    } else {
      var last := |periods| - 1;
      LifeRegisters(history, name, deadline, start, periods[..last]);
      PeriodAlive(name, periods[last]);
      var a, b := LifeSteps(name, true, deadline, start, periods[..last]), PeriodSteps(name, true, periods[last]);
      assert LifeSteps(name, true, deadline, start, periods) == a + b;
      hide *;
      Regroup(history, a, b);
      KnownWhileAlive(history + a, b, name);
    }
  }

  lemma StopAsleep(history: seq<Step>, name: Name, p: Period)
    requires ArmingAfter(history, name).Known? && Delivered(p.stop)
    ensures Asleep(ArmingAfter(history + StopSteps(name, true, p), name))
  {
    var stop := StopSteps(name, true, p);
    assert stop[..0] == [] && history + [] == history;
    ArmingMore(history, stop, name);
    hide ArmingAfter;
  }

  /**
   In the life of a task, every sleep is undisturbed: what others do to the driver before and
   meanwhile, the service included, neither reports nor reprioritises nor changes the task.
   The history before its life is arbitrary, and so is what others do during it short of
   deleting the task; of the task's own messages, its start and the STOP_WATCHD must arrive.
   */
  lemma EverySleepIsUndisturbed(history: seq<Step>, name: Name, deadline: u64, start: Delivery,
                                periods: seq<Period>, next: Period)
    requires Delivered(start) && Delivered(next.stop)
    requires forall k :: 0 <= k < |periods| ==> Alive(periods[k].others, name)
    requires forall i :: 0 <= i < |next.others| ==> !Disturbs(next.others[i], name)
    ensures var asleep := history + LifeSteps(name, true, deadline, start, periods) + StopSteps(name, true, next);
      && NamesDistinct(Run(INIT, asleep).table)
      && Undisturbed(Run(INIT, asleep), Run(INIT, asleep + next.others), name)
  {
    var life := LifeSteps(name, true, deadline, start, periods);
    LifeRegisters(history, name, deadline, start, periods);
    StopAsleep(history + life, name, next);
    hide *;
    WaitingIsUndisturbed(history + life + StopSteps(name, true, next), next.others, name);
  }
}
