/**
 The two passes of rt_dtask_recalculateprio over the task records, which hang in the
 application order of the driver's hash table.
 */
module EdfPasses {
  import opened Nodes
  import opened Priority
  import opened EdfModel
  import opened EdfOrder

  /** RT_DTASK: a task with a deadline. Its name is the key it is registered under. */
  class DTask {
    const name: Name
    var deadline: u64
    var remain: u64
    var relative: u64
    var status: DeadlineState
    var state: int
    /** The priority Xenomai last reported. */
    var cprio: int
    ghost var armedAt: nat

    ghost function Rec(): (r: Record)
      reads this
      ensures r.name == name
    {
      Record(name, deadline, remain, relative, status, state, armedAt)
    }

    /** A task about to be registered: init_dtask, and its relative deadline counted from now. */
    constructor (name: Name, newdeadline: u64, now: u64, ghost logged: nat)
      ensures this.name == name
      ensures relative == remain == newdeadline && deadline == (now + newdeadline) % 0x1_0000_0000_0000_0000
      ensures status == OK && state == 0
      ensures Rec() == Armed(name, newdeadline, now, logged)
    {
      this.name := name;
      relative := newdeadline;
      deadline := Add64(now, newdeadline);
      remain := newdeadline;
      status, state := OK, RUNNING;
      cprio := 0;
      armedAt := logged;
    }

    method Arm(newdeadline: u64, now: u64, ghost logged: nat)
      modifies this
      ensures relative == remain == newdeadline && deadline == (now + newdeadline) % 0x1_0000_0000_0000_0000
      ensures status == OK && state == 0
      ensures Rec() == Armed(name, newdeadline, now, logged)
    {
      relative := newdeadline;
      deadline := Add64(now, relative);
      remain := relative;
      status := OK;
      state := RUNNING;
      armedAt := logged;
    }

    method Wait()
      modifies this
      ensures state == 5 && Rec() == old(Rec()).(state := 5)
    {
      state := GOING_WAITP;
    }
  }

  /** What the first pass does at one task. */
  method RefreshTask(d: DTask, now: u64, prio: map<Name, int>, lo: u64, hi: u64) returns (lo': u64, hi': u64)
    modifies d`remain, d`cprio
    ensures d.Rec() == Refresh(old(d.Rec()), now)
    ensures lo' == if Active(d.Rec()) && d.remain < lo then d.remain else lo
    ensures hi' == if Active(d.Rec()) && d.remain > hi then d.remain else hi
    ensures Active(d.Rec()) ==> d.cprio == PrioOf(prio, d.name)
  {
    lo', hi' := lo, hi;
    if d.relative != NOTSET && d.state == RUNNING {
      d.remain := if d.deadline > now then d.deadline - now else 0;
      lo' := if d.remain < lo then d.remain else lo;
      hi' := if d.remain > hi then d.remain else hi;
      d.cprio := PrioOf(prio, d.name);
    }
  }

  /** What the second pass does at one task. */
  method MarkTask(d: DTask, now: u64, lo: u64, hi: u64, prio: map<Name, int>, log: seq<Miss>)
    returns (newPrio: map<Name, int>, newLog: seq<Miss>)
    requires Active(d.Rec()) ==> d.cprio == PrioOf(prio, d.name)
    modifies d`status
    ensures d.Rec() == Mark(old(d.Rec()))
    ensures newPrio == if old(Due(d.Rec())) then SetPrio(prio, d.name, CalculatePrio(d.remain, lo, hi)) else prio
    ensures newLog == log + if old(Due(d.Rec())) && d.remain == 0 then [Miss(d.name, d.deadline, now)] else []
  {
    hide CalculatePrio;
    newPrio, newLog := prio, log;
    if d.relative != NOTSET && d.status == OK && d.state == RUNNING {
      if d.remain == 0 {
        d.status := MISSED;
        newLog := newLog + [Miss(d.name, d.deadline, now)];
      }
      var newprio := CalculatePrio(d.remain, lo, hi);
      if newprio != d.cprio {
        newPrio := newPrio[d.name := newprio];
      }
    }
  }

  /** The tasks the nodes of a table carry. */
  ghost function Tasks(items: seq<Node<DTask>>): (ds: seq<DTask>)
    ensures |ds| == |items| && forall i :: 0 <= i < |items| ==> ds[i] == items[i].val
  {
    seq(|items|, i requires 0 <= i < |items| => items[i].val)
  }

  ghost function TaskSet(items: seq<Node<DTask>>): (r: set<object>)
    ensures forall i :: 0 <= i < |items| ==> items[i].val in r
  {
    set x | x in items :: x.val
  }

  ghost function Records(ds: seq<DTask>): (t: seq<Record>)
    reads ds
    ensures |t| == |ds| && forall i :: 0 <= i < |ds| ==> t[i] == ds[i].Rec()
  {
    seq(|ds|, i requires 0 <= i < |ds| reads ds => ds[i].Rec())
  }

  /** The first i tasks are as in `after`, the others still as in `before`. */
  ghost predicate HalfDone(ds: seq<DTask>, i: nat, after: seq<Record>, before: seq<Record>)
    reads ds
  {
    |after| == |before| == |ds| && forall j :: 0 <= j < |ds| ==> ds[j].Rec() == if j < i then after[j] else before[j]
  }

  lemma PrefixUnfolds(t: seq<Record>, i: nat, prio: map<Name, int>, lo: u64, hi: u64, now: u64)
    requires i < |t|
    ensures MinRemain(t[..i + 1]) == if Active(t[i]) && t[i].remain < MinRemain(t[..i]) then t[i].remain else MinRemain(t[..i])
    ensures MaxRemain(t[..i + 1]) == if Active(t[i]) && t[i].remain > MaxRemain(t[..i]) then t[i].remain else MaxRemain(t[..i])
    ensures NewPrios(prio, t[..i + 1], lo, hi)
         == if Due(t[i]) then SetPrio(NewPrios(prio, t[..i], lo, hi), t[i].name, CalculatePrio(t[i].remain, lo, hi))
            else NewPrios(prio, t[..i], lo, hi)
    ensures Misses(t[..i + 1], now)
         == Misses(t[..i], now) + if Due(t[i]) && t[i].remain == 0 then [Miss(t[i].name, t[i].deadline, now)] else []
  {
    assert t[..i + 1][..i] == t[..i];
    hide CalculatePrio, SetPrio;
  }

  /** The priorities of the first n tasks, as far as they are active, are known to their records. */
  ghost predicate InquiredUpTo(ds: seq<DTask>, n: nat, prio: map<Name, int>)
    reads ds
  {
    forall i :: 0 <= i < n && i < |ds| && Active(ds[i].Rec()) ==> ds[i].cprio == PrioOf(prio, ds[i].name)
  }

  ghost predicate Refreshed(ds: seq<DTask>, i: nat, t: seq<Record>, prio: map<Name, int>, lo: u64, hi: u64)
    requires i <= |t|
    reads ds
  {
    InquiredUpTo(ds, i, prio) && lo == MinRemain(t[..i]) && hi == MaxRemain(t[..i])
  }

  method RefreshNext(d: DTask, now: u64, prio: map<Name, int>, lo: u64, hi: u64,
                     ghost ds: seq<DTask>, ghost i: nat, ghost t: seq<Record>, ghost r: seq<Record>)
    returns (lo': u64, hi': u64)
    requires i < |ds| && Distinct(ds) && d == ds[i] && HalfDone(ds, i, t, r) && t[i] == Refresh(r[i], now)
    requires Refreshed(ds, i, t, prio, lo, hi)
    modifies d`remain, d`cprio
    ensures HalfDone(ds, i + 1, t, r) && Refreshed(ds, i + 1, t, prio, lo', hi')
  {
    PrefixUnfolds(t, i, prio, 0, 0, now);
    DistinctFrom(ds, i);
    hide PrioOf, Distinct, Refresh, MinRemain, MaxRemain, NewPrios, Misses;
    lo', hi' := RefreshTask(d, now, prio, lo, hi);
  }

  /** What has been set and reported once the first i tasks are done. */
  ghost predicate Marked(t: seq<Record>, i: nat, now: u64, lo: u64, hi: u64, prio0: map<Name, int>, log0: seq<Miss>,
                         prio: map<Name, int>, log: seq<Miss>)
    requires i <= |t|
  {
    prio == NewPrios(prio0, t[..i], lo, hi) && log == log0 + Misses(t[..i], now)
  }

  /** The priority inquired in the first pass is still the one in force when a task's turn comes. */
  lemma NotYetSet(t: seq<Record>, i: nat, prio: map<Name, int>, lo: u64, hi: u64)
    requires NamesDistinct(t) && i < |t|
    ensures PrioOf(NewPrios(prio, t[..i], lo, hi), t[i].name) == PrioOf(prio, t[i].name)
  {
    NewPrioOfOther(prio, t[..i], lo, hi, t[i].name);
  }

  method MarkNext(d: DTask, now: u64, lo: u64, hi: u64, prio: map<Name, int>, log: seq<Miss>,
                  ghost ds: seq<DTask>, ghost i: nat, ghost m: seq<Record>, ghost t: seq<Record>,
                  ghost prio0: map<Name, int>, ghost log0: seq<Miss>)
    returns (newPrio: map<Name, int>, newLog: seq<Miss>)
    requires i < |ds| && Distinct(ds) && d == ds[i] && HalfDone(ds, i, m, t) && m[i] == Mark(t[i])
    requires NamesDistinct(t) && (Active(t[i]) ==> d.cprio == PrioOf(prio0, d.name))
    requires Marked(t, i, now, lo, hi, prio0, log0, prio, log)
    modifies d`status
    ensures HalfDone(ds, i + 1, m, t) && Marked(t, i + 1, now, lo, hi, prio0, log0, newPrio, newLog)
  {
    PrefixUnfolds(t, i, prio0, lo, hi, now);
    NotYetSet(t, i, prio0, lo, hi);
    DistinctFrom(ds, i);
    hide PrioOf, Distinct, NamesDistinct, Mark, CalculatePrio, SetPrio, NewPrios, Misses;
    newPrio, newLog := MarkTask(d, now, lo, hi, prio, log);
  }

  lemma NothingSeen(prio: map<Name, int>, lo: u64, hi: u64, now: u64)
    ensures MinRemain([]) == 0xFFFF_FFFF_FFFF_FFFF && MaxRemain([]) == 0
    ensures NewPrios(prio, [], lo, hi) == prio && Misses([], now) == []
  {}

  lemma NextNodes(items: seq<Node<DTask>>, i: nat)
    requires Linked(HH, items)
    ensures i + 1 < |items| ==> items[i + 1].next == NodeAt(items, i + 2)
  {}

  lemma FirstNodes(items: seq<Node<DTask>>)
    requires Linked(HH, items)
    ensures items != [] ==> items[0].next == NodeAt(items, 1)
  {}

  lemma AllDone(ds: seq<DTask>, after: seq<Record>, before: seq<Record>)
    requires HalfDone(ds, |ds|, after, before)
    ensures Records(ds) == after
  {}

  method RefreshEach(head: Node?<DTask>, now: u64, prio: map<Name, int>, ghost items: seq<Node<DTask>>,
                     ghost ds: seq<DTask>, ghost r: seq<Record>, ghost t: seq<Record>)
    returns (lo: u64, hi: u64)
    requires Linked(HH, items) && head == NodeAt(items, 0) && |t| == |r| == |items|
    requires ds == Tasks(items) && Distinct(ds) && HalfDone(ds, 0, t, r)
    requires forall i :: 0 <= i < |t| ==> t[i] == Refresh(r[i], now)
    requires Refreshed(ds, 0, t, prio, 0xFFFF_FFFF_FFFF_FFFF, 0)
    modifies ds`remain, ds`cprio
    ensures HalfDone(ds, |ds|, t, r) && Refreshed(ds, |ds|, t, prio, lo, hi)
  {
    hide Distinct, HalfDone, Refresh, Refreshed, Linked, Tasks;
    lo, hi := 0xFFFF_FFFF_FFFF_FFFF, 0;
    FirstNodes(items);
    var el, i := head, 0;
    var tmp := if head != null then head.next else null;
    while el != null
      invariant 0 <= i <= |items| && Linked(HH, items)
      invariant el == NodeAt(items, i) && tmp == NodeAt(items, i + 1)
      invariant HalfDone(ds, i, t, r) && Refreshed(ds, i, t, prio, lo, hi)
      modifies ds`remain, ds`cprio
      decreases |items| - i
    {
      NextNodes(items, i);
      lo, hi := RefreshNext(el.val, now, prio, lo, hi, ds, i, t, r);
      el := tmp;
      tmp := if tmp != null then tmp.next else null;
      i := i + 1;
    }
  }

  /** Refreshes the remaining times of active tasks and finds the least and the greatest. */
  method FirstPass(head: Node?<DTask>, now: u64, prio: map<Name, int>, ghost items: seq<Node<DTask>>,
                   ghost ds: seq<DTask>, ghost r: seq<Record>)
    returns (lo: u64, hi: u64)
    requires Linked(HH, items) && head == NodeAt(items, 0)
    requires ds == Tasks(items) && Distinct(ds) && r == Records(ds)
    modifies TaskSet(items)
    ensures Records(ds) == RefreshAll(r, now) && InquiredUpTo(ds, |ds|, prio)
    ensures lo == MinRemain(RefreshAll(r, now)) && hi == MaxRemain(RefreshAll(r, now))
  {
    ghost var t := RefreshAll(r, now);
    NothingSeen(prio, 0, 0, now);
    assert t[..0] == [] && t[..|t|] == t;
    assert Refreshed(ds, 0, t, prio, 0xFFFF_FFFF_FFFF_FFFF, 0) && HalfDone(ds, 0, t, r);
    hide MinRemain, MaxRemain, PrioOf, Distinct, Refresh, RefreshAll, Linked, HalfDone, InquiredUpTo;
    lo, hi := RefreshEach(head, now, prio, items, ds, r, t);
    AllDone(ds, t, r);
  }

  method MarkEach(head: Node?<DTask>, now: u64, lo: u64, hi: u64, prio: map<Name, int>, log: seq<Miss>,
                  ghost items: seq<Node<DTask>>, ghost ds: seq<DTask>, ghost m: seq<Record>, ghost t: seq<Record>)
    returns (newPrio: map<Name, int>, newLog: seq<Miss>)
    requires Linked(HH, items) && head == NodeAt(items, 0) && |t| == |m| == |items|
    requires ds == Tasks(items) && Distinct(ds) && HalfDone(ds, 0, m, t) && NamesDistinct(t)
    requires forall i :: 0 <= i < |t| ==> m[i] == Mark(t[i])
    requires forall j :: 0 <= j < |t| && Active(t[j]) ==> ds[j].cprio == PrioOf(prio, ds[j].name)
    requires Marked(t, 0, now, lo, hi, prio, log, prio, log)
    modifies ds`status
    ensures HalfDone(ds, |ds|, m, t) && Marked(t, |t|, now, lo, hi, prio, log, newPrio, newLog)
  {
    hide Distinct, NamesDistinct, HalfDone, Mark, PrioOf, Active, Marked, Linked, Tasks;
    newPrio, newLog := prio, log;
    FirstNodes(items);
    var el, i := head, 0;
    var tmp := if head != null then head.next else null;
    while el != null
      invariant 0 <= i <= |items| && Linked(HH, items)
      invariant el == NodeAt(items, i) && tmp == NodeAt(items, i + 1)
      invariant HalfDone(ds, i, m, t) && Marked(t, i, now, lo, hi, prio, log, newPrio, newLog)
      modifies ds`status
      decreases |items| - i
    {
      NextNodes(items, i);
      newPrio, newLog := MarkNext(el.val, now, lo, hi, newPrio, newLog, ds, i, m, t, prio, log);
      el := tmp;
      tmp := if tmp != null then tmp.next else null;
      i := i + 1;
    }
  }

  /** Reports the tasks whose time is over, and sets the priority of each task that was due. */
  method SecondPass(head: Node?<DTask>, now: u64, lo: u64, hi: u64, prio: map<Name, int>, log: seq<Miss>,
                    ghost items: seq<Node<DTask>>, ghost ds: seq<DTask>, ghost t: seq<Record>)
    returns (newPrio: map<Name, int>, newLog: seq<Miss>)
    requires Linked(HH, items) && head == NodeAt(items, 0)
    requires ds == Tasks(items) && Distinct(ds) && t == Records(ds)
    requires NamesDistinct(t) && InquiredUpTo(ds, |ds|, prio)
    modifies TaskSet(items)
    ensures Records(ds) == MarkAll(t)
    ensures newPrio == NewPrios(prio, t, lo, hi) && newLog == log + Misses(t, now)
  {
    ghost var m := MarkAll(t);
    NothingSeen(prio, lo, hi, now);
    assert t[..0] == [] && t[..|t|] == t && log + [] == log;
    assert Marked(t, 0, now, lo, hi, prio, log, prio, log);
    assert HalfDone(ds, 0, m, t);
    assert forall j :: 0 <= j < |t| && Active(t[j]) ==> ds[j].cprio == PrioOf(prio, ds[j].name);
    hide MinRemain, MaxRemain, PrioOf, NewPrios, Misses, Distinct, Mark, MarkAll, Linked, HalfDone, InquiredUpTo;
    newPrio, newLog := MarkEach(head, now, lo, hi, prio, log, items, ds, m, t);
    AllDone(ds, m, t);
  }
}
