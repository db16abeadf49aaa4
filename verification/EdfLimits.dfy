/**
 The limits of earliest-deadline-first order: for each assumption a run without it that ends
 out of order, and the exact bound on deadlines.
 */
module EdfLimits {
  import opened Priority
  import opened EdfModel
  import opened EdfOrder
  import EdfMisses

  // ----- Following a run step by step -------------------------------------------------

  lemma AdmissibleMore(s: State, steps: seq<Step>, step: Step, bound: nat)
    ensures AdmissibleRun(s, steps + [step], bound)
      <==> AdmissibleRun(s, steps, bound) && Admissible(Run(s, steps), step, bound)
    ensures TimelyRun(s, steps + [step], bound)
      <==> TimelyRun(s, steps, bound) && ClockRuns(Run(s, steps), step) && ArmsWithin(Run(s, steps), step, bound)
  {
    assert (steps + [step])[..|steps|] == steps;
  }

  /** A record after a recalculation: a due task whose time is over has become missed. */
  predicate Aged(r: Record, r': Record, now: u64) {
    && r' == r.(remain := r'.remain, status := r'.status)
    && r'.status == if Due(r) && r.deadline <= now then MISSED else r.status
  }

  lemma RecalculateAges(s: State, now: u64)
    ensures var s' := Recalculate(s, now);
      |s'.table| == |s.table| && forall i :: 0 <= i < |s.table| ==> Aged(s.table[i], s'.table[i], now)
  {}

  function Added(s: State, name: Name, relative: u64, t0: u64): State {
    s.(table := s.table + [Armed(name, relative, t0, |s.log|)])
  }

  /** Creating an absent task adds its record and lets all of them age. */
  lemma CreateAges(s: State, name: Name, relative: u64, t0: u64, t1: u64)
    requires !Registered(s.table, name)
    ensures var s' := Create(s, name, relative, t0, t1);
      && s' == Recalculate(Added(s, name, relative, t0), t1)
      && |s'.table| == |s.table| + 1 && s'.clock == t1
      && (forall i :: 0 <= i < |s.table| ==> Aged(s.table[i], s'.table[i], t1))
      && Aged(Armed(name, relative, t0, |s.log|), s'.table[|s.table|], t1)
  {
    RecalculateAges(Added(s, name, relative, t0), t1);
    var t := s.table + [Armed(name, relative, t0, |s.log|)];
    assert forall i :: 0 <= i < |s.table| ==> t[i] == s.table[i];
    hide Recalculate, Aged;
  }

  lemma {:induction false} MinRemainAbove(t: seq<Record>, bound: u64)
    requires forall i :: 0 <= i < |t| && Active(t[i]) ==> bound <= t[i].remain
    ensures bound <= MinRemain(t)
  {
    if t != [] {
      MinRemainAbove(t[..|t| - 1], bound);
    }
  }

  /** Least and greatest remaining times, from the positions where they are. */
  lemma RemainsAt(t: seq<Record>, least: nat, most: nat)
    requires least < |t| && most < |t| && Active(t[least]) && Active(t[most])
    requires forall i :: 0 <= i < |t| && Active(t[i]) ==> t[least].remain <= t[i].remain <= t[most].remain
    ensures MinRemain(t) == t[least].remain && MaxRemain(t) == t[most].remain
  {
    RemainsWithin(t, least);
    RemainsWithin(t, most);
    MaxRemainBelow(t, t[most].remain);
    MinRemainAbove(t, t[least].remain);
  }

  // ----- Deadlines must be bounded ------------------------------------------------------

  function CreateAt0(name: Name, relative: u64): Step {
    Write(true, CREATE_TASK, name, relative, 0, 0)
  }

  lemma NamesDiffer()
    ensures "a" != "bb" && "a" != "ccc" && "bb" != "ccc"
  {
    assert |"a"| == 1 && |"bb"| == 2 && |"ccc"| == 3;
  }

  /** What the three creations at clock 0 leave; x is due at 0, the others are not yet. */
  ghost predicate ThreeTasks(s: State, x: u64, y: u64) {
    && s.clock == 0 && |s.table| == 3
    && s.table[0].name == "a" && s.table[1].name == "bb" && s.table[2].name == "ccc"
    && Overdue(s.table[0]) && s.table[0].deadline == 0
    && Due(s.table[1]) && s.table[1].deadline == x
    && Due(s.table[2]) && s.table[2].deadline == y
  }

  ghost predicate TwoTasks(s: State, x: u64) {
    && s.clock == 0 && |s.table| == 2 && s.table[0].name == "a" && s.table[1].name == "bb"
    && Overdue(s.table[0]) && s.table[0].deadline == 0
    && Due(s.table[1]) && s.table[1].deadline == x
  }

  lemma FirstTwo(x: u64)
    requires 0 < x < NOTSET
    ensures TwoTasks(Create(Create(INIT, "a", 0, 0, 0), "bb", x, 0, 0), x)
    ensures !Registered(INIT.table, "a") && !Registered(Create(INIT, "a", 0, 0, 0).table, "bb")
  {
    NamesDiffer();
    CreateAges(INIT, "a", 0, 0, 0);
    var s1 := Create(INIT, "a", 0, 0, 0);
    CreateAges(s1, "bb", x, 0, 0);
    hide Create, Recalculate;
  }

  lemma ThirdOne(s2: State, x: u64, y: u64)
    requires TwoTasks(s2, x) && 0 < x && 0 < y < NOTSET
    ensures !Registered(s2.table, "ccc")
    ensures ThreeTasks(Create(s2, "ccc", y, 0, 0), x, y)
  {
    NamesDiffer();
    CreateAges(s2, "ccc", y, 0, 0);
    hide Create, Recalculate;
  }

  /** Three tasks, the first one due at once. */
  function ThreeCreated(x: u64, y: u64): seq<Step> {
    [] + [CreateAt0("a", 0)] + [CreateAt0("bb", x)] + [CreateAt0("ccc", y)]
  }

  lemma RunOfThree(x: u64, y: u64, bound: nat)
    requires 0 < x <= bound && 0 < y <= bound && x < NOTSET && y < NOTSET
    ensures var s2 := Create(Create(INIT, "a", 0, 0, 0), "bb", x, 0, 0);
      TwoTasks(s2, x) && Run(INIT, ThreeCreated(x, y)) == Create(s2, "ccc", y, 0, 0)
    ensures AdmissibleRun(INIT, ThreeCreated(x, y), bound) && TimelyRun(INIT, ThreeCreated(x, y), bound)
    ensures ThreeTasks(Run(INIT, ThreeCreated(x, y)), x, y)
  {
    var w1, w2, w3 := CreateAt0("a", 0), CreateAt0("bb", x), CreateAt0("ccc", y);
    FirstTwo(x);
    ThirdOne(Create(Create(INIT, "a", 0, 0, 0), "bb", x, 0, 0), x, y);
    EmptyRun(INIT);
    RunMore(INIT, [], w1);
    RunMore(INIT, [] + [w1], w2);
    RunMore(INIT, [] + [w1] + [w2], w3);
    AdmissibleMore(INIT, [], w1, bound);
    AdmissibleMore(INIT, [] + [w1], w2, bound);
    AdmissibleMore(INIT, [] + [w1] + [w2], w3, bound);
    CreateAges(INIT, "a", 0, 0, 0);
    hide Create, Run, Recalculate, Registered;
  }

  /** One more tick than fits wins back the top priority. */
  lemma Misordered(s: State)
    requires NamesDistinct(s.table) && |s.table| == 3 && s.table[0].deadline == 0
    requires Active(s.table[0]) && Due(s.table[1]) && Due(s.table[2])
    requires s.table[1].deadline == LAST_FIT && s.table[2].deadline == LAST_FIT + 1
    ensures !EdfOrdered(Recalculate(s, 0))
  {
    var t := RefreshAll(s.table, 0);
    assert t[0].remain == 0 && t[1].remain == LAST_FIT && t[2].remain == LAST_FIT + 1;
    RemainsAt(t, 0, 2);
    NewPrioOf(s.prio, t, 0, LAST_FIT + 1, 1);
    NewPrioOf(s.prio, t, 0, LAST_FIT + 1, 2);
    WideSpanFails(0, LAST_FIT + 1);
    hide CalculatePrio, MinRemain, MaxRemain, NewPrios;
    var s' := Recalculate(s, 0);
    assert Active(s'.table[1]) && Active(s'.table[2]);
  }

  lemma MisorderedThird(s2: State)
    requires TwoTasks(s2, LAST_FIT)
    ensures !EdfOrdered(Create(s2, "ccc", LAST_FIT + 1, 0, 0))
  {
    NamesDiffer();
    CreateAges(s2, "ccc", LAST_FIT + 1, 0, 0);
    var s := Added(s2, "ccc", LAST_FIT + 1, 0);
    assert s.table[0] == s2.table[0] && s.table[1] == s2.table[1];
    hide Create, Recalculate, EdfOrdered;
    Misordered(s);
  }

  lemma TooFarApart(bound: nat)
    requires LAST_FIT < bound
    ensures AdmissibleRun(INIT, ThreeCreated(LAST_FIT, LAST_FIT + 1), bound)
    ensures !EdfOrdered(Run(INIT, ThreeCreated(LAST_FIT, LAST_FIT + 1)))
  {
    RunOfThree(LAST_FIT, LAST_FIT + 1, bound);
    hide *;
    MisorderedThird(Create(Create(INIT, "a", 0, 0, 0), "bb", LAST_FIT, 0, 0));
  }

  lemma FitsIff(bound: nat)
    ensures bound * 50 < U64 <==> bound <= LAST_FIT
  {}

  /**
   The exact bound: all runs with deadlines up to `bound` keep earliest-deadline-first order
   if and only if fifty times the bound fits 64 bits.
   */
  lemma OrderIffBoundFits(bound: nat)
    ensures (forall steps :: AdmissibleRun(INIT, steps, bound) ==> EdfOrdered(Run(INIT, steps)))
      <==> bound * 50 < U64
  {
    FitsIff(bound);
    if bound * 50 < U64 {
      forall steps | AdmissibleRun(INIT, steps, bound)
        ensures EdfOrdered(Run(INIT, steps))
      {
        RunsKeepOrder(steps, bound);
      }
    } else {
      TooFarApart(bound);
    }
  }

  // ----- Nobody may set the priority of a running missed task -------------------------

  /** A run in which someone lowers the priority of a running missed task. */
  function Lowered(): seq<Step> {
    ThreeCreated(10, 1000) + [Foreign("a", 3)]
  }

  lemma SmallQuotient(a: nat, b: nat)
    requires a < b
    ensures a / b == 0
  {}

  lemma TopOfTen(hi: nat)
    requires hi >= 1000 && SpanFits(0, hi)
    ensures CalculatePrio(10, 0, hi) >= 49
  {
    PrioClose(10, 0, hi);
    SmallQuotient(500, hi);
    hide *;
  }

  lemma LoweredIsOutOfPlace(s: State)
    requires Timely(s) && ThreeTasks(s, 10, 1000) && PrioOf(s.prio, "a") == 3
    ensures !OverdueInPlace(s, 0)
  {
    TimelyInPlace(s, 0, 0, 1);
    RecalculatedPrio(s, 0, 2);
    TopOfTen(MaxRemain(RefreshAll(s.table, 0)));
    hide CalculatePrio, MinRemain, MaxRemain, Recalculate;
    assert !PairInPlace(s, 0, 0, 1);
  }

  /** Its recalculations do not repair it: the run ends out of order, though deadlines and clock are fine. */
  lemma ForeignBreaksOrder()
    ensures TimelyRun(INIT, Lowered() + [Service(0)], LAST_FIT)
    ensures !EdfOrdered(Run(INIT, Lowered() + [Service(0)]))
  {
    var three, lower := ThreeCreated(10, 1000), Foreign("a", 3);
    RunOfThree(10, 1000, LAST_FIT);
    RunMore(INIT, three, lower);
    AdmissibleMore(INIT, three, lower, LAST_FIT);
    var s := Run(INIT, three);
    var s' := Run(INIT, Lowered());
    assert s' == s.(prio := s.prio["a" := 3]);
    assert ThreeTasks(s', 10, 1000) && PrioOf(s'.prio, "a") == 3;
    RunMore(INIT, Lowered(), Service(0));
    AdmissibleMore(INIT, Lowered(), Service(0), LAST_FIT);
    RunsKeepTimely(Lowered(), LAST_FIT);
    LoweredIsOutOfPlace(s');
    SpanOfTimely(s', 0);
    RecalculateOrdersIff(s', 0);
    hide Run, Recalculate, EdfOrdered, Timely, OverdueInPlace, Lowered, ThreeCreated, ThreeTasks;
  }

  // ----- The clock may not run backwards ----------------------------------------------

  /** A task misses its deadline at clock 5; then the clock is set back to 0. */
  function SetBack(): seq<Step> {
    [] + [CreateAt0("a", 5)] + [Service(5)] + [CreateAt0("bb", 1)] + [CreateAt0("ccc", 2)]
  }

  ghost predicate MissedAtTop(s: State) {
    && |s.table| >= 1 && s.table[0].name == "a" && Overdue(s.table[0]) && s.table[0].deadline == 5
    && PrioOf(s.prio, "a") == 50 && NamesDistinct(s.table)
  }

  lemma MissedAt5()
    ensures var s := Recalculate(Create(INIT, "a", 5, 0, 0), 5);
      MissedAtTop(s) && |s.table| == 1
    ensures Run(INIT, [] + [CreateAt0("a", 5)] + [Service(5)]) == Recalculate(Create(INIT, "a", 5, 0, 0), 5)
  {
    var w, steps := CreateAt0("a", 5), [] + [CreateAt0("a", 5)] + [Service(5)];
    EmptyRun(INIT);
    RunMore(INIT, [], w);
    RunMore(INIT, [] + [w], Service(5));
    AdmissibleMore(INIT, [], w, LAST_FIT);
    AdmissibleMore(INIT, [] + [w], Service(5), LAST_FIT);
    CreateAges(INIT, "a", 5, 0, 0);
    RecalculateAges(Create(INIT, "a", 5, 0, 0), 5);
    RunsKeepOrder(steps, LAST_FIT);
    hide Run, Create, Recalculate;
  }

  /** Creating a task leaves a running missed one as it is. */
  lemma StaysAtTop(s: State, name: Name, relative: u64)
    requires MissedAtTop(s) && !Registered(s.table, name)
    ensures MissedAtTop(Create(s, name, relative, 0, 0))
  {
    CreateAges(s, name, relative, 0, 0);
    var t := RefreshAll(Added(s, name, relative, 0).table, 0);
    NewPrioOf(s.prio, t, MinRemain(t), MaxRemain(t), 0);
    hide NewPrios, MinRemain, MaxRemain;
  }

  lemma PrioOfLast(s: State)
    requires MissedAtTop(s) && |s.table| == 2 && s.table[1].name == "bb" && Due(s.table[1]) && s.table[1].deadline == 1
    ensures !Registered(s.table, "ccc")
    ensures !EdfOrdered(Create(s, "ccc", 2, 0, 0))
  {
    NamesDiffer();
    StaysAtTop(s, "ccc", 2);
    CreateAges(s, "ccc", 2, 0, 0);
    var t := RefreshAll(Added(s, "ccc", 2, 0).table, 0);
    RemainsAt(t, 1, 0);
    NewPrioOf(s.prio, t, 1, 5, 2);
    PrioClose(2, 1, 5);
    hide CalculatePrio, NewPrios, MinRemain, MaxRemain;
    var s' := Create(s, "ccc", 2, 0, 0);
    assert Active(s'.table[2]) && Active(s'.table[0]);
  }

  lemma SetBackWithinBounds()
    ensures forall k :: 0 <= k < |SetBack()| ==>
      SetBack()[k].Service? || (SetBack()[k].Write? && SetBack()[k].relative <= LAST_FIT)
  {}

  lemma SecondAfterMiss(s: State)
    requires MissedAtTop(s) && |s.table| == 1
    ensures !EdfOrdered(Create(Create(s, "bb", 1, 0, 0), "ccc", 2, 0, 0))
  {
    NamesDiffer();
    assert !Registered(s.table, "bb");
    StaysAtTop(s, "bb", 1);
    CreateAges(s, "bb", 1, 0, 0);
    hide Recalculate, Create, Registered, EdfOrdered;
    PrioOfLast(Create(s, "bb", 1, 0, 0));
  }

  /** With a clock set back, a run ends out of order though deadlines and priorities are fine. */
  lemma ClockBreaksOrder()
    ensures forall k :: 0 <= k < |SetBack()| ==>
      SetBack()[k].Service? || (SetBack()[k].Write? && SetBack()[k].relative <= LAST_FIT)
    ensures !EdfOrdered(Run(INIT, SetBack()))
  {
    var two, w3, w4 := [] + [CreateAt0("a", 5)] + [Service(5)], CreateAt0("bb", 1), CreateAt0("ccc", 2);
    SetBackWithinBounds();
    MissedAt5();
    RunMore(INIT, two, w3);
    RunMore(INIT, two + [w3], w4);
    hide Run, Recalculate, Create, MissedAtTop, EdfOrdered;
    SecondAfterMiss(Run(INIT, two));
  }

  /**
   When a clock set back, or anything else, does no harm: after any run at all, if the span of
   remaining times fits at the clock of the next recalculation, that recalculation leaves the
   tasks in order exactly when the priorities of the running missed tasks are in place.
   */
  lemma AnyRunOrdersIff(steps: seq<Step>, now: u64)
    requires SpanFitsAt(Run(INIT, steps), now)
    ensures EdfOrdered(Recalculate(Run(INIT, steps), now)) <==> OverdueInPlace(Run(INIT, steps), now)
  {
    EdfMisses.RunsReportOnce(steps);
    RecalculateOrdersIff(Run(INIT, steps), now);
  }
}
