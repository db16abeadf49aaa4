/**
 The driver of edfomai-drv.c and edfomai-drv-data.c on its real data: task records in a uthash
 table, priorities held by Xenomai, and the queue of missed deadlines.

 Each command is proved to do to the records what EdfModel says, so that what is proved about
 runs of that model holds of runs of the driver.
 */
module EdfDriver {
  import opened Nodes
  import Buckets
  import opened UtHash
  import opened Priority
  import opened EdfModel
  import opened EdfOrder
  import EdfMisses
  import opened EdfPasses

  function NameOf(d: DTask): Name {
    d.name
  }

  /** What Xenomai keeps: priorities, the queue of missed deadlines, and the clock as last read. */
  datatype Kernel = Kernel(prio: map<Name, int>, log: seq<Miss>, clock: u64)

  const EFAULT: int := 14

  lemma NamesAreKeys(items: seq<Node<DTask>>)
    requires KeysDistinct(NameOf, items)
    ensures Distinct(Tasks(items)) && NamesDistinct(Records(Tasks(items)))
  {}

  lemma PassesAre(s: State, now: u64)
    ensures var t := RefreshAll(s.table, now);
      Recalculate(s, now)
        == State(MarkAll(t), NewPrios(s.prio, t, MinRemain(t), MaxRemain(t)), s.log + Misses(t, now), now)
  {}

  lemma FoundAt(t: seq<Record>, k: nat)
    requires NamesDistinct(t) && k < |t|
    ensures IndexOf(t, t[k].name) == k
  {}

  lemma Tail<T>(s: seq<T>, i: nat)
    requires i < |s|
    ensures Without(s[i..], 0) == s[i + 1..]
  {}

  lemma NodesAt(all: seq<Node<DTask>>, i: nat)
    ensures NodeAt(all, i) == (if i < |all| then all[i] else null)
    ensures i + 1 < |all| ==> NodeAt(all, i + 1) == all[i + 1]
    ensures i + 1 >= |all| ==> NodeAt(all, i + 1) == null == NodeAt(all, i + 2)
  {}

  class Driver {
    const dtasks: HashTable<Name, DTask>
    var kernel: Kernel

    ghost function Table(): seq<Record>
      reads dtasks`items, Tasks(dtasks.items)
    {
      Records(Tasks(dtasks.items))
    }

    /** What the state machine of EdfModel sees of the driver. */
    ghost function View(): State
      reads this, dtasks`items, Tasks(dtasks.items)
    {
      State(Table(), kernel.prio, kernel.log, kernel.clock)
    }

    ghost predicate Valid()
      reads dtasks, dtasks.items, dtasks.buckets, dtasks.bloomBv
      reads Buckets.Members(dtasks.chains)`hhNext, Buckets.Members(dtasks.chains)`hhPrev
    {
      dtasks.Valid() && dtasks.keyOf == NameOf && KeysDistinct(NameOf, dtasks.items)
    }

    ghost function Footprint(): set<object>
      reads this, dtasks
    {
      {this, dtasks, dtasks.buckets, dtasks.bloomBv} + (set x | x in dtasks.items) + TaskSet(dtasks.items)
    }

    /** rt_dtask_init; the hash function is the table's affair. */
    constructor (fcn: Name -> nat)
      ensures Valid() && View() == INIT
      ensures forall o :: o in Footprint() ==> fresh(o)
    {
      dtasks := new HashTable<Name, DTask>(NameOf, fcn, false, 0);
      kernel := Kernel(map[], [], 0);
    }

    lemma Parts()
      requires Valid()
      ensures dtasks.Valid() && dtasks.keyOf == NameOf && KeysDistinct(NameOf, dtasks.items)
      ensures Linked(HH, dtasks.items) && dtasks.head == NodeAt(dtasks.items, 0)
      ensures (dtasks.head == null) == (dtasks.items == [])
      ensures Distinct(Tasks(dtasks.items)) && NamesDistinct(Table())
    {
      NamesAreKeys(dtasks.items);
    }

    lemma TableIs()
      ensures Table() == Records(Tasks(dtasks.items))
    {}

    twostate lemma OldParts()
      requires old(Valid())
      ensures old(dtasks.Valid())
    {}

    /** What happens to task records does not touch the table. */
    twostate lemma OnlyTasksChanged()
      requires old(Valid()) && unchanged(dtasks) && unchanged(dtasks.buckets)
      requires unchanged(dtasks.bloomBv) && unchanged(dtasks.items)
      ensures Valid()
    {
      OldParts();
      hide HashTable.Valid, HashTable.Repr, KeysDistinct;
      dtasks.StaysValid();
    }

    /** Task records are none of the objects that make up the table. */
    lemma Apart()
      ensures dtasks.Repr() !! TaskSet(dtasks.items)
      ensures this !in dtasks.Repr() && this !in TaskSet(dtasks.items)
    {}

    method RunFirstPass(now: u64) returns (lo: u64, hi: u64)
      requires Valid()
      modifies TaskSet(dtasks.items)
      ensures Valid() && unchanged(dtasks) && Table() == RefreshAll(old(Table()), now)
      ensures InquiredUpTo(Tasks(dtasks.items), |Table()|, kernel.prio)
      ensures lo == MinRemain(Table()) && hi == MaxRemain(Table())
    {
      Parts();
      Apart();
      hide *;
      TableIs();
      lo, hi := FirstPass(dtasks.head, now, kernel.prio, dtasks.items, Tasks(dtasks.items), Table());
      OnlyTasksChanged();
      TableIs();
    }

    method RunSecondPass(now: u64, lo: u64, hi: u64) returns (prio: map<Name, int>, log: seq<Miss>)
      requires Valid() && InquiredUpTo(Tasks(dtasks.items), |Table()|, kernel.prio)
      modifies TaskSet(dtasks.items)
      ensures Valid() && unchanged(dtasks) && Table() == MarkAll(old(Table()))
      ensures prio == NewPrios(kernel.prio, old(Table()), lo, hi)
      ensures log == kernel.log + Misses(old(Table()), now)
    {
      Parts();
      Apart();
      hide *;
      TableIs();
      prio, log := SecondPass(dtasks.head, now, lo, hi, kernel.prio, kernel.log, dtasks.items, Tasks(dtasks.items), Table());
      OnlyTasksChanged();
      TableIs();
    }

    method RunPasses(now: u64) returns (prio: map<Name, int>, log: seq<Miss>)
      requires Valid()
      modifies TaskSet(dtasks.items)
      ensures Valid() && unchanged(dtasks)
      ensures State(Table(), prio, log, now) == Recalculate(old(View()), now)
    {
      PassesAre(View(), now);
      assert View().table == Table() && View().prio == kernel.prio && View().log == kernel.log;
      Apart();
      hide *;
      var lo, hi := RunFirstPass(now);
      prio, log := RunSecondPass(now, lo, hi);
    }

    method SetKernel(k: Kernel)
      requires Valid()
      modifies this`kernel
      ensures Valid() && unchanged(dtasks) && kernel == k && Table() == old(Table())
    {
      Parts();
      Apart();
      hide *;
      TableIs();
      kernel := k;
      OnlyTasksChanged();
      TableIs();
    }

    lemma ViewIs()
      ensures View() == State(Table(), kernel.prio, kernel.log, kernel.clock)
    {}

    /** rt_dtask_recalculateprio; without tasks it returns at once. */
    method RecalculatePrio(now: u64)
      requires Valid()
      modifies this, TaskSet(dtasks.items)
      ensures Valid() && unchanged(dtasks) && View() == Recalculate(old(View()), now)
    {
      Parts();
      if dtasks.head != null {
        hide *;
        var prio, log := RunPasses(now);
        SetKernel(Kernel(prio, log, now));
        ViewIs();
      } else {
        SetKernel(kernel.(clock := now));
      }
    }

    // ----- Commands ----------------------------------------------------------------------

    lemma AbsentKey(name: Name)
      requires !Registered(Table(), name)
      ensures KeyAbsent(NameOf, dtasks.items, name)
    {
      forall x | x in dtasks.items
        ensures x.val.name != name
      {
        var i :| 0 <= i < |dtasks.items| && dtasks.items[i] == x;
        assert Table()[i].name == x.val.name;
      }
    }

    lemma RecordsWith(items: seq<Node<DTask>>, node: Node<DTask>)
      ensures Records(Tasks(items + [node])) == Records(Tasks(items)) + [node.val.Rec()]
    {
      hide Tasks, Records;
    }

    lemma Appended(items: seq<Node<DTask>>, node: Node<DTask>, t: seq<Record>)
      requires dtasks.Valid() && dtasks.keyOf == NameOf && dtasks.items == items + [node]
      requires KeysDistinct(NameOf, items) && KeyAbsent(NameOf, items, node.val.name)
      requires Records(Tasks(items)) == t
      ensures Valid() && Table() == t + [node.val.Rec()]
    {
      MapOfAdd(NameOf, items, node);
      RecordsWith(items, node);
      hide HashTable.Valid, KeysDistinct, MapOf, Tasks, Records, KeyAbsent;
    }

    /** HASH_ADD_STR. */
    method Register(node: Node<DTask>)
      requires Valid() && node !in dtasks.items && !Registered(Table(), node.val.name)
      modifies dtasks, dtasks.buckets, dtasks.bloomBv, dtasks.items, node
      ensures Valid() && Table() == old(Table()) + [node.val.Rec()]
      ensures dtasks.buckets == old(dtasks.buckets) || fresh(dtasks.buckets)
      ensures dtasks.bloomBv == old(dtasks.bloomBv) || fresh(dtasks.bloomBv)
      ensures dtasks.items == old(dtasks.items) + [node]
    {
      ghost var items, ds, t := dtasks.items, Tasks(dtasks.items), Table();
      Parts();
      Apart();
      AbsentKey(node.val.name);
      TableIs();
      assert node.val as object != dtasks;
      hide *;
      dtasks.Add(node);
      assert unchanged(ds);
      Appended(items, node, t);
    }

    lemma NotRegistered(name: Name)
      requires KeyAbsent(NameOf, dtasks.items, name)
      ensures !Registered(Table(), name)
    {}

    lemma Located(name: Name, found: Node?<DTask>) returns (i: nat)
      requires Valid()
      requires found != null ==> found in dtasks.items && found.val.name == name
      requires found == null ==> KeyAbsent(NameOf, dtasks.items, name)
      ensures i == IndexOf(Table(), name) && found == NodeAt(dtasks.items, i) && |Table()| == |dtasks.items|
      ensures found == null <==> i == |dtasks.items|
      ensures found != null ==> found.val.relative == Table()[i].relative
    {
      Parts();
      i := IndexOf(Table(), name);
      hide HashTable.Valid, IndexOf;
      if found == null {
        NotRegistered(name);
      } else {
        var k :| 0 <= k < |dtasks.items| && dtasks.items[k] == found;
        FoundAt(Table(), k);
      }
    }

    /** HASH_FIND_STR: the record the state machine finds. */
    method FindTask(name: Name) returns (found: Node?<DTask>, ghost i: nat)
      requires Valid()
      ensures Valid() && View() == old(View()) && Table() == old(Table())
      ensures i == IndexOf(Table(), name) && found == NodeAt(dtasks.items, i)
      ensures found == null <==> i == |dtasks.items|
      ensures found != null ==> found.val.name == name && found.val.relative == Table()[i].relative
      ensures |Table()| == |dtasks.items|
    {
      Parts();
      hide *;
      ghost var t, s := Table(), View();
      found := dtasks.Find(name);
      assert unchanged(dtasks) && unchanged(dtasks.items);
      assert Table() == t;
      assert View() == s;
      OnlyTasksChanged();
      i := Located(name, found);
    }

    method Arm(node: Node<DTask>, ghost i: nat, relative: u64, t0: u64)
      requires Valid() && i < |dtasks.items| && dtasks.items[i] == node
      modifies node.val
      ensures Valid() && unchanged(dtasks) && kernel == old(kernel) && |Table()| == |old(Table())|
      ensures Table() == old(Table())[i := Armed(node.val.name, relative, t0, |kernel.log|)]
    {
      ghost var ds := Tasks(dtasks.items);
      Parts();
      Apart();
      DistinctFrom(ds, i);
      TableIs();
      hide *;
      node.val.Arm(relative, t0, |kernel.log|);
      OnlyTasksChanged();
      TableIs();
      assert forall j :: 0 <= j < |ds| && j != i ==> ds[j] != node.val;
    }

    /** Marks a task as going to wait. */
    method Park(node: Node<DTask>, ghost i: nat)
      requires Valid() && i < |dtasks.items| && dtasks.items[i] == node
      modifies node.val
      ensures Valid() && unchanged(dtasks) && kernel == old(kernel)
      ensures Table() == old(Table())[i := old(Table()[i]).(state := GOING_WAITP)]
    {
      ghost var ds := Tasks(dtasks.items);
      Parts();
      Apart();
      DistinctFrom(ds, i);
      TableIs();
      hide *;
      node.val.Wait();
      OnlyTasksChanged();
      TableIs();
      assert forall j :: 0 <= j < |ds| && j != i ==> ds[j] != node.val;
    }

    /** Arms a task and recalculates. */
    method Rearm(node: Node<DTask>, ghost i: nat, relative: u64, t0: u64, t1: u64)
      requires Valid() && i < |dtasks.items| && dtasks.items[i] == node && |Table()| == |dtasks.items|
      modifies this, TaskSet(dtasks.items)
      ensures Valid() && unchanged(dtasks)
      ensures var s := old(View());
        View() == Recalculate(s.(table := s.table[i := Armed(node.val.name, relative, t0, |s.log|)]), t1)
    {
      ViewIs();
      hide *;
      Arm(node, i, relative, t0);
      ViewIs();
      RecalculatePrio(t1);
    }

    /** rt_dtask_setdeadline. */
    method SetDeadline(name: Name, newdeadline: u64, t0: u64, t1: u64) returns (ret: int)
      requires Valid()
      modifies this, TaskSet(dtasks.items)
      ensures Valid() && unchanged(dtasks) && View() == EdfModel.SetDeadline(old(View()), name, newdeadline, t0, t1)
      ensures ret == if old(Registered(Table(), name)) then 0 else -1
    {
      ghost var s := View();
      hide Valid, Recalculate, View, Table, IndexOf, Armed, Registered, TaskSet;
      ViewIs();
      ret := -1;
      var found, i := FindTask(name);
      if found != null {
        Rearm(found, i, newdeadline, t0, t1);
        ret := 0;
      }
    }

    /** rt_dtask_resetdeadline. */
    method ResetDeadline(name: Name, t0: u64, t1: u64) returns (ret: int)
      requires Valid()
      modifies this, TaskSet(dtasks.items)
      ensures Valid() && unchanged(dtasks) && View() == EdfModel.ResetDeadline(old(View()), name, t0, t1)
      ensures ret == if old(Registered(Table(), name)) then 0 else -1
    {
      ghost var s := View();
      hide Valid, Recalculate, View, Table, IndexOf, Armed, Registered, TaskSet;
      ViewIs();
      ret := -1;
      var found, i := FindTask(name);
      if found != null {
        Rearm(found, i, found.val.relative, t0, t1);
        ret := 0;
      }
    }

    /** rt_dtask_goingwaitp. */
    method GoingWaitP(name: Name) returns (ret: int)
      requires Valid()
      modifies this, TaskSet(dtasks.items)
      ensures Valid() && unchanged(dtasks) && View() == EdfModel.GoingWaitP(old(View()), name)
      ensures ret == if old(Registered(Table(), name)) then 0 else -1
    {
      hide Valid, View, Table, IndexOf, Registered, TaskSet;
      ViewIs();
      ret := -1;
      var found, i := FindTask(name);
      if found != null {
        Park(found, i);
        ViewIs();
        ret := 0;
      }
    }

    /** Registers a record unless its name is taken. */
    method AddUnlessPresent(node: Node<DTask>) returns (res: int)
      requires Valid() && node !in dtasks.items
      modifies dtasks, dtasks.buckets, dtasks.bloomBv, dtasks.items, node
      ensures Valid() && kernel == old(kernel)
      ensures dtasks.buckets == old(dtasks.buckets) || fresh(dtasks.buckets)
      ensures dtasks.bloomBv == old(dtasks.bloomBv) || fresh(dtasks.bloomBv)
      ensures res == if old(Registered(Table(), node.val.name)) then -1 else 0
      ensures res == -1 ==> Table() == old(Table()) && dtasks.items == old(dtasks.items)
      ensures res == 0 ==> Table() == old(Table()) + [old(node.val.Rec())] && dtasks.items == old(dtasks.items) + [node]
    {
      Apart();
      assert this as object != node && node.val as object != dtasks;
      ghost var r := node.val.Rec();
      hide Valid, View, Table, IndexOf, Registered, TaskSet, HashTable.Repr, KeysDistinct;
      var tmp, i := FindTask(node.val.name);
      if tmp == null {
        Register(node);
        res := 0;
      } else {
        res := -1;
      }
    }

    /** A record about to be registered. */
    method NewRecord(name: Name, relative: u64, t0: u64) returns (node: Node<DTask>)
      requires Valid()
      ensures Valid() && Table() == old(Table())
      ensures fresh(node) && fresh(node.val) && node.val.name == name
      ensures node.val.Rec() == Armed(name, relative, t0, |kernel.log|)
    {
      hide *;
      TableIs();
      var d := new DTask(name, relative, t0, |kernel.log|);
      node := new Node(d);
      OnlyTasksChanged();
      TableIs();
    }

    lemma MoreTasks(items: seq<Node<DTask>>, node: Node<DTask>)
      ensures forall o :: o in TaskSet(items + [node]) ==> o in TaskSet(items) || o == node.val
    {}

    method AddNew(name: Name, relative: u64, t0: u64) returns (res: int)
      requires Valid()
      modifies dtasks, dtasks.buckets, dtasks.bloomBv, dtasks.items
      ensures Valid() && kernel == old(kernel)
      ensures dtasks.buckets == old(dtasks.buckets) || fresh(dtasks.buckets)
      ensures dtasks.bloomBv == old(dtasks.bloomBv) || fresh(dtasks.bloomBv)
      ensures forall o :: o in TaskSet(dtasks.items) ==> o in old(TaskSet(dtasks.items)) || fresh(o)
      ensures forall x :: x in dtasks.items ==> x in old(dtasks.items) || fresh(x)
      ensures res == if old(Registered(Table(), name)) then -1 else 0
      ensures Table() == if res == -1 then old(Table()) else old(Table()) + [Armed(name, relative, t0, |kernel.log|)]
    {
      hide *;
      var node := NewRecord(name, relative, t0);
      MoreTasks(dtasks.items, node);
      res := AddUnlessPresent(node);
    }

    /** rt_dtask_create: refuses a name that is registered, but recalculates in any case. */
    method Create(name: Name, relative: u64, t0: u64, t1: u64) returns (res: int)
      requires Valid()
      modifies this, dtasks, dtasks.buckets, dtasks.bloomBv, dtasks.items, TaskSet(dtasks.items)
      ensures Valid() && View() == EdfModel.Create(old(View()), name, relative, t0, t1)
      ensures dtasks.buckets == old(dtasks.buckets) || fresh(dtasks.buckets)
      ensures dtasks.bloomBv == old(dtasks.bloomBv) || fresh(dtasks.bloomBv)
      ensures forall o :: o in TaskSet(dtasks.items) ==> o in old(TaskSet(dtasks.items)) || fresh(o)
      ensures forall x :: x in dtasks.items ==> x in old(dtasks.items) || fresh(x)
      ensures res == if old(Registered(Table(), name)) then -1 else 0
    {
      ViewIs();
      hide Valid, View, Table, Registered, TaskSet, HashTable.Repr, Recalculate;
      res := AddNew(name, relative, t0);
      ViewIs();
      RecalculatePrio(t1);
    }

    lemma NothingToPark(s: State, name: Name)
      requires IndexOf(s.table, name) == |s.table|
      ensures EdfModel.GoingWaitP(s, name) == s
    {}

    /** rt_dtask_stopwatchdog: no watchdog is left to stop, the task goes to wait. */
    method StopWatchdog(name: Name) returns (ret: int)
      requires Valid()
      modifies this, TaskSet(dtasks.items)
      ensures Valid() && unchanged(dtasks) && View() == EdfModel.GoingWaitP(old(View()), name)
      ensures ret == if old(Registered(Table(), name)) then 0 else -1
    {
      hide Valid, View, Table, IndexOf, Registered, TaskSet, EdfModel.GoingWaitP;
      ret := -1;
      var found, i := FindTask(name);
      if found != null {
        var inner := GoingWaitP(found.val.name);
        ret := 0;
      } else {
        ViewIs();
        NothingToPark(View(), name);
      }
    }

    lemma RecordsWithout(items: seq<Node<DTask>>, k: nat)
      requires k < |items|
      ensures Records(Tasks(Without(items, k))) == Without(Records(Tasks(items)), k)
    {
      hide Tasks, Records, Without;
    }

    lemma Removed(items: seq<Node<DTask>>, k: nat, t: seq<Record>)
      requires k < |items| && dtasks.Valid() && dtasks.keyOf == NameOf && dtasks.items == Without(items, k)
      requires KeysDistinct(NameOf, items) && Records(Tasks(items)) == t
      ensures Valid() && Table() == Without(t, k)
    {
      MapOfDelete(NameOf, items, k);
      RecordsWithout(items, k);
      hide HashTable.Valid, KeysDistinct, MapOf, Tasks, Records, Without;
    }

    /** HASH_DEL of the k-th record. */
    method Unregister(node: Node<DTask>, ghost k: nat)
      requires Valid() && k < |dtasks.items| && dtasks.items[k] == node
      modifies dtasks, dtasks.buckets, dtasks.items
      ensures Valid() && kernel == old(kernel) && Table() == Without(old(Table()), k)
      ensures dtasks.buckets == old(dtasks.buckets) && dtasks.bloomBv == old(dtasks.bloomBv)
      ensures dtasks.items == Without(old(dtasks.items), k)
    {
      ghost var items, ds, t := dtasks.items, Tasks(dtasks.items), Table();
      Parts();
      Apart();
      TableIs();
      hide *;
      dtasks.Delete(node, k);
      assert unchanged(ds);
      Removed(items, k, t);
    }

    /** rt_dtask_delete. */
    method Delete(name: Name) returns (ret: int)
      requires Valid()
      modifies dtasks, dtasks.buckets, dtasks.items
      ensures Valid() && View() == EdfModel.Delete(old(View()), name)
      ensures dtasks.buckets == old(dtasks.buckets) && dtasks.bloomBv == old(dtasks.bloomBv)
      ensures forall x :: x in dtasks.items ==> x in old(dtasks.items)
      ensures ret == if old(Registered(Table(), name)) then 0 else -1
    {
      ViewIs();
      hide Valid, View, Table, IndexOf, Registered, TaskSet;
      ret := -1;
      var found, i := FindTask(name);
      if found != null {
        Unregister(found, i);
        ret := 0;
      }
      ViewIs();
    }

    lemma Links(all: seq<Node<DTask>>, i: nat)
      requires Valid() && i <= |all| && dtasks.items == all[i..]
      ensures dtasks.head == NodeAt(all, i)
      ensures i < |all| ==> all[i].next == NodeAt(all, i + 1)
    {
      assert i < |all| ==> dtasks.items[0] == all[i] && NodeAt(dtasks.items, 1) == NodeAt(all, i + 1);
    }

    /** Holds with the i-th record at hand, the next one fetched, and the first i released. */
    ghost predicate Releasing(all: seq<Node<DTask>>, i: nat, el: Node?<DTask>, tmp: Node?<DTask>, released: seq<DTask>)
      requires i <= |all|
      reads dtasks
    {
      && dtasks.items == all[i..] && el == NodeAt(all, i) && tmp == NodeAt(all, i + 1)
      && released == Tasks(all)[..i]
    }

    lemma ReleasingParts(all: seq<Node<DTask>>, i: nat, el: Node?<DTask>, tmp: Node?<DTask>, released: seq<DTask>)
      requires i <= |all| && Releasing(all, i, el, tmp, released)
      ensures el == null <==> i == |all|
      ensures i < |all| ==> dtasks.items == all[i..] && |dtasks.items| > 0 && dtasks.items[0] == el == all[i]
      ensures i < |all| ==> tmp == NodeAt(all, i + 1) && released + [all[i].val] == Tasks(all)[..i + 1]
      ensures i == |all| ==> dtasks.items == [] && released == Tasks(all)
    {}

    lemma ReleasingHolds(all: seq<Node<DTask>>, i: nat, el: Node?<DTask>, tmp: Node?<DTask>, released: seq<DTask>)
      requires i <= |all| && dtasks.items == all[i..] && el == NodeAt(all, i) && tmp == NodeAt(all, i + 1)
      requires released == Tasks(all)[..i]
      ensures Releasing(all, i, el, tmp, released)
    {}

    /** Deletes the record at hand; the next one was fetched before. */
    method ReleaseNext(el: Node<DTask>, tmp: Node?<DTask>, ghost all: seq<Node<DTask>>, ghost i: nat,
                       ghost released: seq<DTask>)
      returns (el': Node?<DTask>, tmp': Node?<DTask>)
      requires i < |all| && Valid() && Releasing(all, i, el, tmp, released)
      modifies dtasks, dtasks.buckets, all
      ensures Valid() && kernel == old(kernel) && dtasks.buckets == old(dtasks.buckets)
      ensures Releasing(all, i + 1, el', tmp', released + [el.val])
    {
      ReleasingParts(all, i, el, tmp, released);
      hide *;
      Unregister(el, 0);
      Tail(all, i);
      Links(all, i + 1);
      NodesAt(all, i);
      el' := tmp;
      tmp' := if tmp != null then tmp.next else null;
      ReleasingHolds(all, i + 1, el', tmp', released + [el.val]);
    }

    method ReleaseEach(first: Node?<DTask>, second: Node?<DTask>, ghost all: seq<Node<DTask>>)
      returns (ghost released: seq<DTask>)
      requires Valid() && Releasing(all, 0, first, second, [])
      modifies dtasks, dtasks.buckets, all
      ensures Valid() && kernel == old(kernel) && dtasks.items == [] && released == Tasks(all)
    {
      hide *;
      var el, tmp := first, second;
      ghost var i := 0;
      released := [];
      ReleasingParts(all, i, el, tmp, released);
      while el != null
        invariant 0 <= i <= |all| && (el == null <==> i == |all|)
        invariant Valid() && kernel == old(kernel) && dtasks.buckets == old(dtasks.buckets)
        invariant Releasing(all, i, el, tmp, released)
        decreases |all| - i
      {
        ghost var task := el.val;
        el, tmp := ReleaseNext(el, tmp, all, i, released);
        released := released + [task];
        i := i + 1;
        ReleasingParts(all, i, el, tmp, released);
      }
      ReleasingParts(all, i, el, tmp, released);
    }

    method ReleaseAll(ghost all: seq<Node<DTask>>) returns (ghost released: seq<DTask>)
      requires Valid() && dtasks.items == all
      modifies dtasks, dtasks.buckets, all
      ensures Valid() && kernel == old(kernel) && dtasks.items == []
      ensures released == Tasks(all)
    {
      assert all[0..] == all;
      Links(all, 0);
      hide Valid, Tasks, Linked, HashTable.Valid;
      var el := dtasks.head;
      var tmp := if el != null then el.next else null;
      released := ReleaseEach(el, tmp, all);
    }

    lemma EmptyHead()
      requires Valid() && dtasks.items == []
      ensures dtasks.head == null
    {}

    /**
     rt_dtask_dispose: deletes while it iterates, and so visits and releases every record
     exactly once and leaves the table empty.
     */
    method Dispose() returns (ret: int, ghost released: seq<DTask>)
      requires Valid()
      modifies dtasks, dtasks.buckets, dtasks.items
      ensures Valid() && dtasks.items == [] && dtasks.head == null && kernel == old(kernel)
      ensures released == old(Tasks(dtasks.items)) && Distinct(released)
      ensures ret == 0
    {
      Parts();
      hide *;
      released := ReleaseAll(dtasks.items);
      EmptyHead();
      ret := 0;
    }

    // ----- Messages, and whole runs ---------------------------------------------------------

    /** Whatever the driver holds that it did not hold before is new. */
    twostate predicate Grown()
      reads this, dtasks
    {
      && (dtasks.buckets == old(dtasks.buckets) || fresh(dtasks.buckets))
      && (dtasks.bloomBv == old(dtasks.bloomBv) || fresh(dtasks.bloomBv))
      && (forall x :: x in dtasks.items ==> x in old(dtasks.items) || fresh(x))
      && (forall o :: o in TaskSet(dtasks.items) ==> o in old(TaskSet(dtasks.items)) || fresh(o))
    }

    twostate lemma SameTableGrown()
      requires unchanged(dtasks)
      ensures Grown()
    {}

    /**
     edf_rtdm_write_nrt: a message that could be copied and whose task is found is answered by
     its size, whatever became of the command.
     */
    method Write(copied: int, found: bool, command: Command, name: Name, relative: u64, t0: u64, t1: u64, nbyte: nat)
      returns (ret: int)
      requires Valid()
      modifies this, dtasks, dtasks.buckets, dtasks.bloomBv, dtasks.items, TaskSet(dtasks.items)
      ensures Valid() && Grown()
      ensures View() == if copied == EFAULT then old(View())
                        else Apply(old(View()), Step.Write(found, command, name, relative, t0, t1))
      ensures ret == if copied == EFAULT then -EFAULT else if found then nbyte else -1
    {
      hide Valid, View, Recalculate, EdfModel.Create, EdfModel.SetDeadline, EdfModel.ResetDeadline, EdfModel.GoingWaitP, TaskSet, Table;
      if copied == EFAULT {
        SameTableGrown();
        return -EFAULT;
      }
      if !found {
        SameTableGrown();
        return -1;
      }
      var status;
      match command {
        case CREATE_TASK =>
          status := Create(name, relative, t0, t1);
        case START_TASK =>
          status := SetDeadline(name, relative, t0, t1);
        case STOP_WATCHD =>
          status := StopWatchdog(name);
        case WAITP =>
          status := GoingWaitP(name);
        case RESET_DEADLINE =>
          status := ResetDeadline(name, t0, t1);
        case SET_DEADLINE =>
          status := SetDeadline(name, relative, t0, t1);
        case UNKNOWN =>
      }
      ret := nbyte;
    }

    twostate lemma FewerGrown()
      requires dtasks.buckets == old(dtasks.buckets) && dtasks.bloomBv == old(dtasks.bloomBv)
      requires forall x :: x in dtasks.items ==> x in old(dtasks.items)
      ensures Grown()
    {}

    /** One step of a run: a message, a round of the service, a deleted task, a foreign priority. */
    method DoStep(step: Step)
      requires Valid()
      modifies this, dtasks, dtasks.buckets, dtasks.bloomBv, dtasks.items, TaskSet(dtasks.items)
      ensures Valid() && Grown() && View() == Apply(old(View()), step)
    {
      ViewIs();
      hide Valid, View, Recalculate, TaskSet, Table, EdfModel.Delete, Dispatch, Grown;
      match step {
        case Write(found, command, name, relative, t0, t1) =>
          var ret := Write(0, found, command, name, relative, t0, t1, 0);
        case Service(t1) =>
          RecalculatePrio(t1);
          SameTableGrown();
        case TaskDeleted(name) =>
          var ret := Delete(name);
          FewerGrown();
        case Foreign(name, prio) =>
          SetKernel(kernel.(prio := kernel.prio[name := prio]));
          ViewIs();
          SameTableGrown();
      }
    }

    twostate lemma GrownFootprint()
      requires Grown()
      ensures forall o :: o in Footprint() ==> o in old(Footprint()) || fresh(o)
    {
      hide TaskSet;
    }

    method DoStepWithin(step: Step)
      requires Valid()
      modifies Footprint()
      ensures Valid() && View() == Apply(old(View()), step)
      ensures forall o :: o in Footprint() ==> o in old(Footprint()) || fresh(o)
    {
      hide Valid, View, Apply, Grown, TaskSet;
      DoStep(step);
      GrownFootprint();
    }

    method WriteWithin(copied: int, found: bool, command: Command, name: Name, relative: u64, t0: u64, t1: u64, nbyte: nat)
      returns (ret: int)
      requires Valid()
      modifies Footprint()
      ensures Valid()
      ensures View() == if copied == EFAULT then old(View())
                        else Apply(old(View()), Step.Write(found, command, name, relative, t0, t1))
      ensures ret == if copied == EFAULT then -EFAULT else if found then nbyte else -1
      ensures forall o :: o in Footprint() ==> o in old(Footprint()) || fresh(o)
    {
      hide Valid, View, Apply, Grown, TaskSet;
      ret := Write(copied, found, command, name, relative, t0, t1, nbyte);
      GrownFootprint();
    }

    lemma RunNext(s: State, steps: seq<Step>, i: nat)
      requires i < |steps|
      ensures Run(s, steps[..i + 1]) == Apply(Run(s, steps[..i]), steps[i])
    {
      assert steps[..i + 1] == steps[..i] + [steps[i]];
      RunMore(s, steps[..i], steps[i]);
    }

    /** A run of the driver is a run of the state machine. */
    method RunSteps(steps: seq<Step>)
      requires Valid()
      modifies Footprint()
      ensures Valid() && View() == Run(old(View()), steps)
      ensures forall o :: o in Footprint() ==> o in old(Footprint()) || fresh(o)
    {
      ghost var s, world := View(), Footprint();
      EmptyRun(s);
      assert steps[..0] == [];
      hide *;
      var i := 0;
      while i < |steps|
        invariant 0 <= i <= |steps|
        invariant Valid() && View() == Run(s, steps[..i])
        invariant forall o :: o in Footprint() ==> o in world || fresh(o)
      {
        RunNext(s, steps, i);
        DoStepWithin(steps[i]);
        i := i + 1;
      }
      assert steps[..i] == steps;
    }
  }

  lemma LastFitFits()
    ensures LAST_FIT * 50 < U64
  {}

  /**
   From the loading of the driver on, every admissible run keeps earliest-deadline-first order,
   and every run reports each missed deadline once.
   */
  method RunDriver(fcn: Name -> nat, steps: seq<Step>) returns (driver: Driver)
    ensures driver.Valid() && driver.View() == Run(INIT, steps)
    ensures AdmissibleRun(INIT, steps, LAST_FIT) ==> EdfOrdered(driver.View())
    ensures EdfMisses.AllReportedOnce(driver.View())
  {
    driver := new Driver(fcn);
    hide *;
    driver.RunSteps(steps);
    EdfMisses.RunsReportOnce(steps);
    if AdmissibleRun(INIT, steps, LAST_FIT) {
      LastFitFits();
      RunsKeepOrder(steps, LAST_FIT);
    }
  }
}
