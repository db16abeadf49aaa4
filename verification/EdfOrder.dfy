/**
 Earliest-deadline-first order over runs of the driver: of two running tasks with deadlines,
 the one whose absolute deadline is not later has the priority that is not lower.
 */
module EdfOrder {
  import opened Priority
  import opened EdfModel

  ghost predicate NamesDistinct(t: seq<Record>) {
    forall i, j :: 0 <= i < j < |t| ==> t[i].name != t[j].name
  }

  /** Earliest deadline first, on absolute deadlines and the priorities in force. */
  ghost predicate EdfOrdered(s: State) {
    forall i, j ::
      (0 <= i < |s.table| && 0 <= j < |s.table| && Active(s.table[i]) && Active(s.table[j])
       && s.table[i].deadline <= s.table[j].deadline) ==>
        PrioOf(s.prio, s.table[i].name) >= PrioOf(s.prio, s.table[j].name)
  }

  /** A running task marked as missed: recalculations leave its priority as it is. */
  predicate Overdue(r: Record) {
    Active(r) && r.status == MISSED
  }

  /**
   No task can be further from its deadline than its relative deadline, and a running task
   marked as missed is past its deadline.
   */
  ghost predicate RecordTimely(r: Record, clock: u64) {
    && (r.relative != NOTSET ==> r.relative <= LAST_FIT)
    && (Active(r) ==> r.deadline <= clock + r.relative)
    && (Overdue(r) ==> r.deadline <= clock)
  }

  ghost predicate Timely(s: State) {
    && NamesDistinct(s.table)
    && forall i :: 0 <= i < |s.table| ==> RecordTimely(s.table[i], s.clock)
  }

  /** What EDF order rests on besides: a running task marked as missed is at the top. */
  ghost predicate OverdueAtTop(s: State) {
    forall i :: 0 <= i < |s.table| && Overdue(s.table[i]) ==> PrioOf(s.prio, s.table[i].name) == 50
  }

  ghost predicate Inv(s: State) {
    Timely(s) && OverdueAtTop(s)
  }

  // ----- The two passes ---------------------------------------------------------------

  lemma {:induction false} RemainsWithin(t: seq<Record>, i: nat)
    requires i < |t| && Active(t[i])
    ensures MinRemain(t) <= t[i].remain <= MaxRemain(t)
  {
    var last := |t| - 1;
    if i < last {
      RemainsWithin(t[..last], i);
    }
  }

  lemma {:induction false} MaxRemainBelow(t: seq<Record>, bound: nat)
    requires forall i :: 0 <= i < |t| && Active(t[i]) ==> t[i].remain <= bound
    ensures MaxRemain(t) <= bound
  {
    if t != [] {
      MaxRemainBelow(t[..|t| - 1], bound);
    }
  }

  lemma {:induction false} NewPrioOfOther(prio: map<Name, int>, t: seq<Record>, lo: u64, hi: u64, name: Name)
    requires forall i :: 0 <= i < |t| ==> t[i].name != name
    ensures PrioOf(NewPrios(prio, t, lo, hi), name) == PrioOf(prio, name)
  {
    if t != [] {
      NewPrioOfOther(prio, t[..|t| - 1], lo, hi, name);
    }
  }

  /** The second pass sets the priority of the tasks that are due, and of no other. */
  lemma {:induction false} NewPrioOf(prio: map<Name, int>, t: seq<Record>, lo: u64, hi: u64, i: nat)
    requires NamesDistinct(t) && i < |t|
    ensures PrioOf(NewPrios(prio, t, lo, hi), t[i].name)
         == if Due(t[i]) then CalculatePrio(t[i].remain, lo, hi) else PrioOf(prio, t[i].name)
  {
    var last := |t| - 1;
    if i < last {
      NewPrioOf(prio, t[..last], lo, hi, i);
    } else {
      NewPrioOfOther(prio, t[..last], lo, hi, t[i].name);
    }
  }

  /** At this clock no product wraps between the tasks nearest to and furthest from their deadlines. */
  ghost predicate SpanFitsAt(s: State, now: u64) {
    var t := RefreshAll(s.table, now);
    MinRemain(t) <= MaxRemain(t) ==> SpanFits(MinRemain(t), MaxRemain(t))
  }

  lemma SpanOfTimely(s: State, now: u64)
    requires Timely(s) && s.clock <= now
    ensures SpanFitsAt(s, now)
  {
    var t := RefreshAll(s.table, now);
    forall i | 0 <= i < |t| && Active(t[i])
      ensures t[i].remain <= LAST_FIT
    {
      assert RecordTimely(s.table[i], s.clock);
    }
    MaxRemainBelow(t, LAST_FIT);
  }

  /**
   After a recalculation every due task has the priority the formula gives it, and a running
   task marked as missed the one it had.
   */
  lemma RecalculatedPrio(s: State, now: u64, i: nat)
    requires NamesDistinct(s.table) && i < |s.table| && Active(s.table[i])
    ensures var t := RefreshAll(s.table, now);
      && MinRemain(t) <= Left(s.table[i].deadline, now) <= MaxRemain(t)
      && PrioOf(Recalculate(s, now).prio, s.table[i].name)
           == if Overdue(s.table[i]) then PrioOf(s.prio, s.table[i].name)
              else CalculatePrio(Left(s.table[i].deadline, now), MinRemain(t), MaxRemain(t))
  {
    var t := RefreshAll(s.table, now);
    RemainsWithin(t, i);
    NewPrioOf(s.prio, t, MinRemain(t), MaxRemain(t), i);
  }

  /** If the clock has not run backwards, a running missed task makes 0 the least remaining time. */
  lemma OverdueIsLeast(s: State, now: u64, i: nat)
    requires Timely(s) && s.clock <= now && i < |s.table| && Overdue(s.table[i])
    ensures MinRemain(RefreshAll(s.table, now)) == 0 && Left(s.table[i].deadline, now) == 0
  {
    RecalculatedPrio(s, now, i);
    assert RecordTimely(s.table[i], s.clock);
  }

  // ----- What a recalculation restores ------------------------------------------------

  ghost function PrioAfter(s: State, now: u64, i: nat): int
    requires i < |s.table|
  {
    PrioOf(Recalculate(s, now).prio, s.table[i].name)
  }

  ghost predicate PairOrdered(s: State, now: u64, i: nat, j: nat)
    requires i < |s.table| && j < |s.table|
  {
    s.table[i].deadline <= s.table[j].deadline ==> PrioAfter(s, now, i) >= PrioAfter(s, now, j)
  }

  lemma OrderedByPairs(s: State, now: u64)
    ensures EdfOrdered(Recalculate(s, now)) <==>
      forall i, j :: 0 <= i < |s.table| && 0 <= j < |s.table| && Active(s.table[i]) && Active(s.table[j]) ==>
        PairOrdered(s, now, i, j)
  {
    var s' := Recalculate(s, now);
    assert forall i :: 0 <= i < |s.table| ==> Active(s'.table[i]) == Active(s.table[i]);
    assert forall i :: 0 <= i < |s.table| ==>
      s'.table[i].name == s.table[i].name && s'.table[i].deadline == s.table[i].deadline;
    hide Recalculate, Active;
    if EdfOrdered(s') {
      forall i, j | 0 <= i < |s.table| && 0 <= j < |s.table| && Active(s.table[i]) && Active(s.table[j])
        ensures PairOrdered(s, now, i, j)
      {
        assert Active(s'.table[i]) && Active(s'.table[j]);
      }
    }
  }

  /** Tasks that are due come out in order. */
  lemma DuePairOrdered(s: State, now: u64, i: nat, j: nat)
    requires NamesDistinct(s.table) && SpanFitsAt(s, now) && i < |s.table| && j < |s.table|
    requires Due(s.table[i]) && Due(s.table[j])
    ensures PairOrdered(s, now, i, j)
  {
    var t := RefreshAll(s.table, now);
    RecalculatedPrio(s, now, i);
    RecalculatedPrio(s, now, j);
    hide Recalculate, CalculatePrio, MinRemain, MaxRemain;
    if s.table[i].deadline <= s.table[j].deadline {
      PrioMonotone(Left(s.table[i].deadline, now), Left(s.table[j].deadline, now), MinRemain(t), MaxRemain(t));
    }
  }

  /** The priority of a running missed task i is in place to a running task j. */
  ghost predicate PairInPlace(s: State, now: u64, i: nat, j: nat)
    requires i < |s.table| && j < |s.table|
  {
    var t, p := RefreshAll(s.table, now), PrioOf(s.prio, s.table[i].name);
    if Overdue(s.table[j]) then
      s.table[i].deadline <= s.table[j].deadline ==> p >= PrioOf(s.prio, s.table[j].name)
    else
      var q := CalculatePrio(Left(s.table[j].deadline, now), MinRemain(t), MaxRemain(t));
      && (s.table[j].deadline <= s.table[i].deadline ==> p <= q)
      && (s.table[i].deadline <= s.table[j].deadline ==> p >= q)
  }

  /**
   The priorities of running missed tasks are in order among themselves, and to what the
   formula gives the due tasks.
   */
  ghost predicate OverdueInPlace(s: State, now: u64) {
    forall i, j :: 0 <= i < |s.table| && 0 <= j < |s.table| && Overdue(s.table[i]) && Active(s.table[j]) ==>
      PairInPlace(s, now, i, j)
  }

  lemma InPlaceIff(s: State, now: u64, i: nat, j: nat)
    requires NamesDistinct(s.table) && i < |s.table| && j < |s.table|
    requires Overdue(s.table[i]) && Active(s.table[j])
    ensures PairInPlace(s, now, i, j) <==>
      PairOrdered(s, now, i, j) && (Due(s.table[j]) ==> PairOrdered(s, now, j, i))
  {
    RecalculatedPrio(s, now, i);
    RecalculatedPrio(s, now, j);
    assert Overdue(s.table[j]) || Due(s.table[j]);
    hide Recalculate, CalculatePrio, MinRemain, MaxRemain, RefreshAll, NamesDistinct;
  }

  lemma PairsInPlace(s: State, now: u64)
    requires NamesDistinct(s.table)
    requires forall i, j :: 0 <= i < |s.table| && 0 <= j < |s.table| && Active(s.table[i]) && Active(s.table[j]) ==>
      PairOrdered(s, now, i, j)
    ensures OverdueInPlace(s, now)
  {
    hide PairOrdered, PairInPlace, NamesDistinct;
    forall i, j | 0 <= i < |s.table| && 0 <= j < |s.table| && Overdue(s.table[i]) && Active(s.table[j])
      ensures PairInPlace(s, now, i, j)
    {
      InPlaceIff(s, now, i, j);
    }
  }

  lemma InPlaceOrders(s: State, now: u64, i: nat, j: nat)
    requires NamesDistinct(s.table) && SpanFitsAt(s, now) && OverdueInPlace(s, now)
    requires i < |s.table| && j < |s.table| && Active(s.table[i]) && Active(s.table[j])
    ensures PairOrdered(s, now, i, j)
  {
    hide PairOrdered, PairInPlace, NamesDistinct, SpanFitsAt;
    if Overdue(s.table[i]) {
      InPlaceIff(s, now, i, j);
    } else if Overdue(s.table[j]) {
      InPlaceIff(s, now, j, i);
    } else {
      DuePairOrdered(s, now, i, j);
    }
  }

  /**
   Whatever the priorities were and wherever the clock stands, as long as the span of remaining
   times fits, a recalculation leaves all running tasks in order exactly when the priorities
   of the running missed tasks, which it does not set, were in place.
   */
  lemma RecalculateOrdersIff(s: State, now: u64)
    requires NamesDistinct(s.table) && SpanFitsAt(s, now)
    ensures EdfOrdered(Recalculate(s, now)) <==> OverdueInPlace(s, now)
  {
    OrderedByPairs(s, now);
    hide *;
    if EdfOrdered(Recalculate(s, now)) {
      PairsInPlace(s, now);
    }
    if OverdueInPlace(s, now) {
      forall i, j | 0 <= i < |s.table| && 0 <= j < |s.table| && Active(s.table[i]) && Active(s.table[j])
        ensures PairOrdered(s, now, i, j)
      {
        InPlaceOrders(s, now, i, j);
      }
    }
  }

  /**
   If the clock has not run backwards, in place to a due task means: at most 50 if that task's
   deadline is not later, and no lower than its new priority if it is not earlier.
   */
  lemma TimelyInPlace(s: State, now: u64, i: nat, j: nat)
    requires Timely(s) && s.clock <= now && i < |s.table| && j < |s.table|
    requires Overdue(s.table[i]) && Due(s.table[j])
    ensures var t, p := RefreshAll(s.table, now), PrioOf(s.prio, s.table[i].name);
      PairInPlace(s, now, i, j) <==>
        && (s.table[j].deadline <= s.table[i].deadline ==> p <= 50)
        && (s.table[i].deadline <= s.table[j].deadline ==>
              p >= CalculatePrio(Left(s.table[j].deadline, now), 0, MaxRemain(t)))
    ensures Left(s.table[j].deadline, now) <= MaxRemain(RefreshAll(s.table, now))
    ensures SpanFits(0, MaxRemain(RefreshAll(s.table, now)))
  {
    var t := RefreshAll(s.table, now);
    OverdueIsLeast(s, now, i);
    SpanOfTimely(s, now);
    RecalculatedPrio(s, now, j);
    PrioRange(Left(s.table[j].deadline, now), 0, MaxRemain(t));
    hide Recalculate, CalculatePrio, MinRemain, MaxRemain, RefreshAll, Timely;
  }

  /** With every running missed task at 50, as the driver left it, a recalculation orders all. */
  lemma RecalculateOrders(s: State, now: u64)
    requires Inv(s) && s.clock <= now
    ensures EdfOrdered(Recalculate(s, now))
  {
    var t := RefreshAll(s.table, now);
    SpanOfTimely(s, now);
    RecalculateOrdersIff(s, now);
    hide CalculatePrio, MinRemain, MaxRemain, RefreshAll, Timely, Recalculate;
    forall i, j | 0 <= i < |s.table| && 0 <= j < |s.table| && Overdue(s.table[i]) && Active(s.table[j])
      ensures PairInPlace(s, now, i, j)
    {
      if Due(s.table[j]) {
        TimelyInPlace(s, now, i, j);
        PrioRange(Left(s.table[j].deadline, now), 0, MaxRemain(t));
      }
    }
  }

  /** With every running missed task at 50, the formula tells the priority of missed tasks too. */
  lemma FormulaForAll(s: State, now: u64, i: nat)
    requires Inv(s) && s.clock <= now && i < |s.table| && Active(s.table[i])
    ensures var t := RefreshAll(s.table, now);
      PrioAfter(s, now, i) == CalculatePrio(Left(s.table[i].deadline, now), MinRemain(t), MaxRemain(t))
  {
    var t := RefreshAll(s.table, now);
    RecalculatedPrio(s, now, i);
    SpanOfTimely(s, now);
    if Overdue(s.table[i]) {
      OverdueIsLeast(s, now, i);
      PrioRange(0, 0, MaxRemain(t));
    }
    hide CalculatePrio, MinRemain, MaxRemain, Recalculate;
  }

  /** A deadline earlier by a fiftieth of the span gets a strictly higher priority. */
  lemma RecalculateSeparates(s: State, now: u64, i: nat, j: nat)
    requires Inv(s) && s.clock <= now && i < |s.table| && j < |s.table|
    requires Active(s.table[i]) && Active(s.table[j]) && s.table[i].deadline <= s.table[j].deadline
    requires var t := RefreshAll(s.table, now);
      (Left(s.table[j].deadline, now) - Left(s.table[i].deadline, now)) * 50 >= MaxRemain(t) - MinRemain(t) > 0
    ensures PrioAfter(s, now, i) > PrioAfter(s, now, j)
  {
    var t := RefreshAll(s.table, now);
    FormulaForAll(s, now, i);
    FormulaForAll(s, now, j);
    RecalculatedPrio(s, now, i);
    RecalculatedPrio(s, now, j);
    SpanOfTimely(s, now);
    hide Recalculate, CalculatePrio, MinRemain, MaxRemain, PrioAfter;
    PrioMonotone(Left(s.table[i].deadline, now), Left(s.table[j].deadline, now), MinRemain(t), MaxRemain(t));
  }

  lemma RecalculateKeepsTimely(s: State, now: u64)
    requires Timely(s) && s.clock <= now
    ensures Timely(Recalculate(s, now))
  {
    var s' := Recalculate(s, now);
    forall i | 0 <= i < |s'.table|
      ensures RecordTimely(s'.table[i], s'.clock)
    {
      assert RecordTimely(s.table[i], s.clock);
    }
  }

  /** A task newly marked as missed gets the top priority. */
  lemma OverdueGetsTop(s: State, now: u64, i: nat)
    requires Inv(s) && s.clock <= now && i < |s.table| && Overdue(Recalculate(s, now).table[i])
    ensures PrioAfter(s, now, i) == 50
  {
    assert Active(s.table[i]) && (Due(s.table[i]) ==> Left(s.table[i].deadline, now) == 0);
    RecalculatedPrio(s, now, i);
    SpanOfTimely(s, now);
    if Due(s.table[i]) {
      PrioRange(0, 0, MaxRemain(RefreshAll(s.table, now)));
    }
    hide CalculatePrio, MinRemain, MaxRemain, Recalculate, RefreshAll, Timely;
  }

  lemma RecalculateKeepsInv(s: State, now: u64)
    requires Inv(s) && s.clock <= now
    ensures Inv(Recalculate(s, now))
  {
    var s' := Recalculate(s, now);
    RecalculateKeepsTimely(s, now);
    assert forall i :: 0 <= i < |s'.table| ==> s'.table[i].name == s.table[i].name;
    hide Recalculate, Timely;
    forall i | 0 <= i < |s'.table| && Overdue(s'.table[i])
      ensures PrioOf(s'.prio, s'.table[i].name) == 50
    {
      OverdueGetsTop(s, now, i);
    }
  }

  // ----- Every command ----------------------------------------------------------------

  /** What a step keeps: the times, the top for running missed tasks, and the order. */
  ghost predicate Keeps(s: State, s': State) {
    && Timely(s')
    && (OverdueAtTop(s) ==> OverdueAtTop(s'))
    && (OverdueAtTop(s) && EdfOrdered(s) ==> EdfOrdered(s'))
  }

  /** Arming a task, new or known, just before a recalculation. */
  lemma ArmedInv(s: State, t: seq<Record>, k: nat, relative: u64, t0: u64, armedAt: nat)
    requires Timely(s) && s.clock <= t0 && Within(relative, LAST_FIT)
    requires k < |t| && NamesDistinct(t) && t[k] == Armed(t[k].name, relative, t0, armedAt)
    requires forall i :: 0 <= i < |t| && i != k ==> i < |s.table| && t[i] == s.table[i]
    ensures Timely(s.(table := t, clock := t0))
    ensures OverdueAtTop(s) ==> OverdueAtTop(s.(table := t, clock := t0))
  {
    forall i | 0 <= i < |t|
      ensures RecordTimely(t[i], t0)
    {
      if i != k {
        var r := t[i];
        assert i < |s.table| && r == s.table[i];
      }
    }
    if OverdueAtTop(s) {
      forall i | 0 <= i < |t| && Overdue(t[i])
        ensures PrioOf(s.prio, t[i].name) == 50
      {
        var r := t[i];
        assert i < |s.table| && r == s.table[i];
      }
    }
  }

  lemma RecalculateIgnoresClock(s: State, clock: u64, now: u64)
    ensures Recalculate(s.(clock := clock), now) == Recalculate(s, now)
  {}

  lemma RecalculateKeeps(s: State, now: u64)
    requires Timely(s) && s.clock <= now
    ensures Keeps(s, Recalculate(s, now))
    ensures Inv(s) ==> EdfOrdered(Recalculate(s, now))
  {
    hide Recalculate, EdfOrdered, Timely, OverdueAtTop;
    RecalculateKeepsTimely(s, now);
    if OverdueAtTop(s) {
      RecalculateKeepsInv(s, now);
      RecalculateOrders(s, now);
    }
  }

  lemma CreateStep(s: State, name: Name, relative: u64, t0: u64, t1: u64)
    requires Timely(s) && s.clock <= t0 <= t1
    requires Registered(s.table, name) || Within(relative, LAST_FIT)
    ensures Keeps(s, Create(s, name, relative, t0, t1))
    ensures Inv(s) ==> EdfOrdered(Create(s, name, relative, t0, t1))
  {
    hide Recalculate, EdfOrdered, OverdueAtTop;
    if Registered(s.table, name) {
      RecalculateKeeps(s, t1);
    } else {
      var t := s.table + [Armed(name, relative, t0, |s.log|)];
      ArmedInv(s, t, |s.table|, relative, t0, |s.log|);
      RecalculateIgnoresClock(s.(table := t), t0, t1);
      hide Timely;
      RecalculateKeeps(s.(table := t, clock := t0), t1);
    }
  }

  lemma SetDeadlineStep(s: State, name: Name, relative: u64, t0: u64, t1: u64)
    requires Timely(s) && s.clock <= t0 <= t1
    requires !Registered(s.table, name) || Within(relative, LAST_FIT)
    ensures Keeps(s, SetDeadline(s, name, relative, t0, t1))
  {
    hide Recalculate, EdfOrdered, OverdueAtTop;
    var i := IndexOf(s.table, name);
    if i < |s.table| {
      var t := s.table[i := Armed(name, relative, t0, |s.log|)];
      ArmedInv(s, t, i, relative, t0, |s.log|);
      RecalculateIgnoresClock(s.(table := t), t0, t1);
      hide Timely;
      RecalculateKeeps(s.(table := t, clock := t0), t1);
    }
  }

  lemma ResetDeadlineStep(s: State, name: Name, t0: u64, t1: u64)
    requires Timely(s) && s.clock <= t0 <= t1
    ensures Keeps(s, ResetDeadline(s, name, t0, t1))
  {
    var i := IndexOf(s.table, name);
    hide Recalculate, EdfOrdered, OverdueAtTop, SetDeadline, IndexOf;
    if i < |s.table| {
      assert RecordTimely(s.table[i], s.clock);
      SetDeadlineStep(s, name, s.table[i].relative, t0, t1);
    }
  }

  lemma GoingWaitPStep(s: State, name: Name)
    requires Timely(s)
    ensures Keeps(s, GoingWaitP(s, name))
  {
    var s' := GoingWaitP(s, name);
    forall i | 0 <= i < |s'.table|
      ensures RecordTimely(s'.table[i], s'.clock)
    {
      assert RecordTimely(s.table[i], s.clock);
    }
  }

  lemma DeleteStep(s: State, name: Name)
    requires Timely(s)
    ensures Keeps(s, Delete(s, name))
  {
    var k := IndexOf(s.table, name);
    if k < |s.table| {
      var t := s.table[..k] + s.table[k + 1..];
      assert forall i :: 0 <= i < |t| ==> t[i] == s.table[if i < k then i else i + 1];
      hide IndexOf, Active, RecordTimely, PrioOf;
    }
  }

  /** The step does not set the priority of a running task marked as missed. */
  ghost predicate SparesOverdue(s: State, step: Step) {
    step.Foreign? ==> forall i :: 0 <= i < |s.table| && Overdue(s.table[i]) ==> s.table[i].name != step.name
  }

  /** A foreign priority spoils the top only for a running missed task, the order only for a registered one. */
  lemma ForeignStep(s: State, name: Name, prio: int)
    requires Timely(s)
    ensures var s' := s.(prio := s.prio[name := prio]);
      && Timely(s')
      && (OverdueAtTop(s) && SparesOverdue(s, Foreign(name, prio)) ==> OverdueAtTop(s'))
      && (!Registered(s.table, name) ==> Keeps(s, s'))
  {
    var s' := s.(prio := s.prio[name := prio]);
    assert forall i :: 0 <= i < |s.table| && s.table[i].name != name ==>
      PrioOf(s'.prio, s.table[i].name) == PrioOf(s.prio, s.table[i].name);
    assert forall i :: 0 <= i < |s.table| && !Registered(s.table, name) ==> s.table[i].name != name;
    hide RecordTimely, Active, PrioOf;
  }

  lemma StepKeeps(s: State, step: Step)
    requires Timely(s) && ClockRuns(s, step) && ArmsWithin(s, step, LAST_FIT)
    ensures Timely(Apply(s, step))
    ensures Inv(s) && SparesOverdue(s, step) ==> Inv(Apply(s, step))
    ensures Inv(s) && EdfOrdered(s) && (step.Foreign? ==> !Registered(s.table, step.name)) ==> EdfOrdered(Apply(s, step))
  {
    hide Timely, EdfOrdered, OverdueAtTop, Recalculate, Create, GoingWaitP, Delete, SetDeadline, ResetDeadline;
    match step
    case Write(found, command, name, relative, t0, t1) =>
      if found {
        match command
        case CREATE_TASK => CreateStep(s, name, relative, t0, t1);
        case START_TASK => SetDeadlineStep(s, name, relative, t0, t1);
        case SET_DEADLINE => SetDeadlineStep(s, name, relative, t0, t1);
        case RESET_DEADLINE => ResetDeadlineStep(s, name, t0, t1);
        case STOP_WATCHD => GoingWaitPStep(s, name);
        case WAITP => GoingWaitPStep(s, name);
        case UNKNOWN =>
      }
    case Service(t1) => RecalculateKeeps(s, t1);
    case TaskDeleted(name) => DeleteStep(s, name);
    case Foreign(name, prio) => ForeignStep(s, name, prio);
  }

  // ----- Every run --------------------------------------------------------------------

  lemma BoundFits(bound: nat, s: State, step: Step)
    requires bound * 50 < U64 && ArmsWithin(s, step, bound)
    ensures ArmsWithin(s, step, LAST_FIT)
  {}

  /** In every admissible run, after every step: earliest deadline first. */
  lemma {:induction false} RunsKeepOrder(steps: seq<Step>, bound: nat)
    requires bound * 50 < U64 && AdmissibleRun(INIT, steps, bound)
    ensures Inv(Run(INIT, steps)) && EdfOrdered(Run(INIT, steps))
  {
    if steps != [] {
      var before, step := steps[..|steps| - 1], steps[|steps| - 1];
      RunsKeepOrder(before, bound);
      hide Timely, EdfOrdered, OverdueAtTop, ArmsWithin, Apply;
      BoundFits(bound, Run(INIT, before), step);
      StepKeeps(Run(INIT, before), step);
    }
  }

  /** Whoever sets priorities, the times stay in order. */
  lemma {:induction false} RunsKeepTimely(steps: seq<Step>, bound: nat)
    requires bound * 50 < U64 && TimelyRun(INIT, steps, bound)
    ensures Timely(Run(INIT, steps))
  {
    if steps != [] {
      var before, step := steps[..|steps| - 1], steps[|steps| - 1];
      RunsKeepTimely(before, bound);
      hide Timely, EdfOrdered, OverdueAtTop, ArmsWithin, Apply;
      BoundFits(bound, Run(INIT, before), step);
      StepKeeps(Run(INIT, before), step);
    }
  }

  /**
   After any run in which anyone may have set any priority, the next recalculation restores
   the order exactly when the priorities of the running missed tasks are in place.
   */
  lemma RunsRestoreOrderIff(steps: seq<Step>, bound: nat, now: u64)
    requires bound * 50 < U64 && TimelyRun(INIT, steps, bound) && Run(INIT, steps).clock <= now
    ensures EdfOrdered(Recalculate(Run(INIT, steps), now)) <==> OverdueInPlace(Run(INIT, steps), now)
  {
    RunsKeepTimely(steps, bound);
    SpanOfTimely(Run(INIT, steps), now);
    RecalculateOrdersIff(Run(INIT, steps), now);
  }

  /** No step of a run sets the priority of a task that is running and marked as missed. */
  ghost predicate RunSparesOverdue(steps: seq<Step>) {
    forall k :: 0 <= k < |steps| ==> SparesOverdue(Run(INIT, steps[..k]), steps[k])
  }

  lemma SparesBefore(steps: seq<Step>)
    requires steps != [] && RunSparesOverdue(steps)
    ensures var last := |steps| - 1;
      RunSparesOverdue(steps[..last]) && SparesOverdue(Run(INIT, steps[..last]), steps[last])
  {
    var before := steps[..|steps| - 1];
    hide SparesOverdue, Run;
    forall k | 0 <= k < |before|
      ensures SparesOverdue(Run(INIT, before[..k]), before[k])
    {
      assert before[..k] == steps[..k];
      assert SparesOverdue(Run(INIT, steps[..k]), steps[k]);
    }
  }

  lemma {:induction false} RunsKeepInv(steps: seq<Step>, bound: nat)
    requires bound * 50 < U64 && TimelyRun(INIT, steps, bound) && RunSparesOverdue(steps)
    ensures Inv(Run(INIT, steps))
  {
    if steps != [] {
      var before, step := steps[..|steps| - 1], steps[|steps| - 1];
      SparesBefore(steps);
      RunsKeepInv(before, bound);
      hide Timely, EdfOrdered, OverdueAtTop, ArmsWithin, Apply, SparesOverdue, RunSparesOverdue;
      BoundFits(bound, Run(INIT, before), step);
      StepKeeps(Run(INIT, before), step);
    }
  }

  /** Foreign priorities of any other tasks last until the next recalculation only. */
  lemma RunsRestoreOrder(steps: seq<Step>, bound: nat, now: u64)
    requires bound * 50 < U64 && TimelyRun(INIT, steps, bound) && RunSparesOverdue(steps)
    requires Run(INIT, steps).clock <= now
    ensures EdfOrdered(Recalculate(Run(INIT, steps), now))
  {
    RunsKeepInv(steps, bound);
    RecalculateOrders(Run(INIT, steps), now);
  }

  lemma RunMore(s: State, steps: seq<Step>, step: Step)
    ensures Run(s, steps + [step]) == Apply(Run(s, steps), step)
  {
    assert (steps + [step])[..|steps|] == steps;
  }

  lemma EmptyRun(s: State)
    ensures Run(s, []) == s
  {}
}
