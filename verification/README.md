# Earliest deadline first over Xenomai: a verified model

The repository puts an earliest-deadline-first (EDF) scheduler on top of Xenomai's fixed
priorities. Real-time tasks announce their deadlines to a driver; the driver keeps a table of
them and, at each command and each round of its service, turns remaining times into
priorities between 0 and 50. The table is a `uthash`, and the headers it comes from
(`uthash.h`, `utlist.h`, `utstring.h`) are part of the repository. This project models that
code in Dafny, in its own form, and proves what it is for.

| file | what it models |
|---|---|
| `Priority.dfy` | the truncating 64-bit division and the priority formula |
| `EdfModel.dfy` | the driver as a state machine on values: records, priorities, misses |
| `EdfOrder.dfy`, `EdfLimits.dfy` | earliest-deadline-first order over every run; its exact limits |
| `EdfMisses.dfy`, `EdfRegistry.dfy` | each miss reported once and truly; what is recorded about a name |
| `EdfClient.dfy`, `EdfApp.dfy` | the client library's protocol on the driver, and what it protects a sleeping task from |
| `EdfPasses.dfy`, `EdfDriver.dfy` | the driver's own code over the hash table, proved to be the state machine |
| `UtHash.dfy` with `Buckets`, `HashChains`, `Bloom`, `Bits` | the hash table: add, find, delete, expansion, sort, integrity check |
| `HashRuns.dfy` | whole runs of the table against a finite map and an insertion order |
| `Nodes.dfy`, `UtList.dfy`, `ListSort.dfy`, `MergeSort.dfy` | linked lists and their in-place mergesort |
| `UtString.dfy` | Knuth-Morris-Pratt search in both directions |
| `Jenkins.dfy`, `JenkinsValues.dfy` | the Jenkins hash, and its values at two keys |
| `Semaphore.dfy` | two processes taking turns by two semaphores |

How the layers meet: `UtHash` proves each table operation against ghost sequences (the
application order and the bucket chains), and `EdfDriver` is written on that table. Each of its
methods is proved to do to the records what the matching function of `EdfModel` says;
`EdfDriver.RunDriver` composes them, so the theorems about runs of `EdfModel` are theorems
about the driver on its hash table. The sorts are one text for the four macros
(`LL_SORT2`, `DL_SORT2`, `CDL_SORT2`, `HASH_SRT`), which differ in the links they keep; `Kind`
selects those. A loop body is a method of its own where the source's text repeats or where it
is proved on its own.

Assumptions of the EDF order (predicate `EdfModel.Admissible`): the clock does not run
backwards, every relative deadline a task is armed with is bounded (fifty times the bound stays
below 2^64), and nobody else changes the priority of a registered task. Setting a priority
succeeds, and a task keeps its name. `EdfLimits` has, for each of the first three, a run
without it that ends out of order, and shows that the bound is exact; `AnyRunOrdersIff` there
says exactly when the next recalculation orders the tasks all the same. Foreign priorities are
treated in full: on any task but a running one marked as missed they last until the next
recalculation; on such a task they stay, because the second pass skips it, and
`EdfOrder.RunsRestoreOrderIff` says exactly when the others still come out in order. That the
sum of clock and deadline fits is not needed for the order of recorded deadlines; it is what
makes a recorded deadline the true one (`EdfRegistry.RecordedDeadline`, `RunsKeepTrueOrder`).
The results about reports, about the registry and about sleeping clients hold of every run,
without these assumptions; only that no miss is reported early needs the clock
(`EdfMisses.RunsReportIffPast`).

What the code does and its comments do not say:

- `edf_task_wait_period` is meant to return 0 on success, but it treats every answer of the
  device other than 0 as a failure, and the driver answers with the size of the message. It
  returns -1 always (`EdfApp.TaskWaitPeriod`).
- The quotient of `div64_64` is not exact: from a divisor of 2^32 on it can be one too large,
  never more (`Priority.Div64Close`), exactly when the next quotient's multiple of the truncated
  divisor still fits (`Priority.Div64ExactIff`). A priority can lose one step by it
  (`Priority.PrioCanLoseAStep`).
- A foreign priority on a running task marked as missed survives every recalculation.
- The searches keep lengths in an int. Of a string of 2^31 characters or more they see only as
  many as the int then says.
- `rt_dtask_create` under a name that is registered returns -1 and arms nothing, but it does
  recalculate all priorities.
- `edf_rtdm_write_nrt` answers with the size of the message even if the command failed.
- A task going to wait gets the state `GOING_WAITP`, which is a command and not one of the task
  states. Only whether the state is `RUNNING` ever matters.

## Model

| member | source | states |
|---|---|---|
| Priority.Div64 | edfomai-drv-data.c:20-31 | `div64_64`: shifts both operands by `fls` of the divisor's high word, then divides by 32 bits; every divisor it meets there is shown to fit and not to be 0 |
| Priority.TruncatedFits | edfomai-drv-data.c:22-27 | the shifted divisor fits 32 bits and is never 0, and loses less than one scale unit |
| Priority.Div64AtLeast | edfomai-drv-data.c:20-31 | what the truncating division computes exactly: k is at most the result iff k truncated divisors fit into the dividend |
| Priority.Div64Close | edfomai-drv-data.c:20-31 | for all 64-bit operands the result is the true quotient or one more, and the true one below a divisor of 2^32 |
| Priority.Div64ExactIff | edfomai-drv-data.c:20-31 | exactly when it is the true one: iff the dividend is below the next quotient's multiple of the truncated divisor |
| Priority.PrioRange | edfomai-drv-data.c:53-62 | while the span times 50 fits, priorities lie in 0..50, are 50 at the least remaining time and exactly 0 at a greater largest one |
| Priority.PrioMonotone | edfomai-drv-data.c:53-62 | less time left never gives a lower priority, and a fiftieth of the span less gives a strictly higher one |
| Priority.WideSpanFails | edfomai-drv-data.c:55 | beyond that span there is a tick at which the product wraps and the priority jumps back to 50 |
| Priority.OrdersIffSpanFits | edfomai-drv-data.c:53-62 | the formula orders all remaining times between min and max iff the span times 50 fits 64 bits |
| Priority.SampleLog | exercise-edfomai/mars_rover.klog:180-182 | the three priorities of the sample log: 50, 17, 0 |
| Priority.PrioClose | edfomai-drv-data.c:53-62 | what the division costs a priority: the exact formula's value or one less, and exactly that value iff the division is exact |
| Priority.PrioCanLoseAStep | edfomai-drv-data.c:53-62 | remaining times at which the formula's quotient is 11 instead of 10, and the priority 39 instead of 40 |
| EdfOrder.RecalculatedPrio | edfomai-drv-data.c:69-125 | after a recalculation each due task has the priority the formula gives its remaining time, within min and max, and a running missed task the one it had |
| EdfOrder.RecalculateOrdersIff | edfomai-drv-data.c:69-125 | whatever the priorities were and wherever the clock stands, as long as the span of remaining times fits: a recalculation leaves all running tasks in EDF order iff those of the running missed tasks, which it skips, were in place |
| EdfOrder.TimelyInPlace | edfomai-drv-data.c:102-104 | with a clock that has not run backwards, in place to a due task means at most 50, and no lower than its new priority if it is not earlier |
| EdfOrder.RecalculateOrders | edfomai-drv-data.c:69-125 | with running missed tasks at 50, as the driver leaves them, all running tasks come out in EDF order on absolute deadlines |
| EdfOrder.RecalculateSeparates | edfomai-drv-data.c:69-125 | a deadline earlier by a fiftieth of the span gets a strictly higher priority |
| EdfOrder.RecalculateKeepsInv | edfomai-drv-data.c:69-125 | recalculating keeps: no task further from its deadline than its relative one; a running missed task is past its deadline and has 50 |
| EdfOrder.CreateStep | edfomai-drv-data.c:255-293 | creating a task keeps the invariant and leaves EDF order; the deadline sent for a registered name may be anything |
| EdfOrder.SetDeadlineStep | edfomai-drv-data.c:221-245 | setting a deadline keeps the invariant and EDF order |
| EdfOrder.ResetDeadlineStep | edfomai-drv-data.c:188-210 | resetting a deadline does, with no condition on the message |
| EdfOrder.GoingWaitPStep | edfomai-drv-data.c:129-144 | a task going to wait leaves the others in order |
| EdfOrder.DeleteStep | edfomai-drv-data.c:300-318 | deleting a task keeps the invariant and EDF order |
| EdfOrder.ForeignStep | edfomai-drv-data.c:102-104 | a foreign priority spoils the invariant only on a running missed task, and the order only on a registered one |
| EdfOrder.StepKeeps | edfomai-drv.c:181-349 | every message, service round, deletion or foreign priority keeps the times, the invariant and the order, each under its own condition |
| EdfOrder.RunsKeepOrder | edfomai-drv.c:181-349 | in every admissible run with a bound on deadlines that fits, after every step: names distinct and EDF order |
| EdfOrder.RunsRestoreOrderIff | edfomai-drv-data.c:69-125 | after every run in which anyone may have set any priority, the next recalculation restores EDF order iff the running missed tasks are in place |
| EdfOrder.RunsRestoreOrder | edfomai-drv-data.c:69-125 | it does restore it if no foreign priority fell on a running missed task |
| EdfLimits.OrderIffBoundFits | edfomai-drv-data.c:55 | for every bound on deadlines: all admissible runs within it keep EDF order iff fifty times the bound is below 2^64 |
| EdfLimits.TooFarApart | edfomai-drv-data.c:55 | for every greater bound, a run of three CREATE commands that ends out of order |
| EdfLimits.ForeignBreaksOrder | edfomai-drv-data.c:103-104 | a run in which a foreign priority on a running missed task survives the next recalculation and leaves the tasks out of order |
| EdfLimits.ClockBreaksOrder | edfomai-drv-data.c:82-86 | a run with the clock set back, and everything else in bounds, that ends out of order |
| EdfLimits.AnyRunOrdersIff | edfomai-drv-data.c:69-125 | the exact condition for every run at all, with any clock, deadlines and foreign priorities: if the span of remaining times fits, the next recalculation leaves EDF order iff the running missed tasks are in place |
| EdfMisses.MissesOf | edfomai-drv-data.c:102-113 | a recalculation reports a task once if it is due and has no time left, otherwise not at all |
| EdfMisses.MissesJustified | edfomai-drv-data.c:102-113 | every report of a recalculation is about a running task whose deadline is at or before the clock |
| EdfMisses.MissesInOrder | edfomai-drv-data.c:102-113 | a recalculation reports missed tasks in the order of their registration |
| EdfMisses.RecalculateReports | edfomai-drv-data.c:69-125 | recalculating keeps: since its last arming, one report of a task marked as missed, none of any other |
| EdfMisses.StepReports | edfomai-drv.c:181-349 | every step keeps that, without any assumption |
| EdfMisses.RunsReportOnce | edfomai-drv.c:105-117 | in every run each registered task is reported exactly once per arming iff it is marked as missed |
| EdfMisses.RunsMarkPast | edfomai-drv-data.c:84-106 | in every run, even with a clock set back, a running task whose deadline the clock has reached is marked as missed |
| EdfMisses.RunsReportIffPast | edfomai-drv.c:105-117 | in every run whose clock does not run backwards, a running task has been reported since its last arming exactly once if the clock has reached its deadline, and not at all otherwise |
| EdfRegistry.WriteArms | edfomai-drv.c:181-349 | a message changes what is recorded about its own name as the command says, and about no other name |
| EdfRegistry.RunsFollowArming | edfomai-drv-data.c:255-318 | in every run what is recorded about a name follows from the messages for that name alone: creating it again does not re-arm it, commands for an unknown name do nothing |
| EdfRegistry.RecalculateKeepsArming | edfomai-drv-data.c:69-125 | a recalculation changes nobody's deadline, relative deadline or state |
| EdfRegistry.RecordedDeadline | edfomai-drv-data.c:199 | in every run the recorded deadline of a name is the clock of its last arming plus its relative deadline iff that sum fits 64 bits, and wraps otherwise |
| EdfRegistry.RunsReadClock | edfomai-drv-data.c:82 | in every run the clock that counts is the last reading of the last step that recalculated: a creation, the arming of a registered name, or a round of the service |
| EdfRegistry.RecalculatesMarks | edfomai-drv-data.c:206 | after such a step every running task with a deadline at or before that reading is marked as missed |
| EdfRegistry.RunsKeepTrueOrder | edfomai-drv.c:181-349 | in every admissible run: of two running tasks the one armed for the time that is not later, clock of arming plus relative deadline in full, has the priority that is not lower, if the later time fits 64 bits |
| EdfRegistry.StepReportsTruly | edfomai-drv-data.c:102-114 | whatever a step reports carries the clock of that step and is true of the table it leaves |
| EdfRegistry.RunsReportTruly | edfomai-drv.c:105-117 | in every run each reported miss was true at some moment whose clock it carries: the task was registered, running, had that deadline, and that clock had reached it |
| EdfClient.LibraryKeepsProtocol | edfomai-app.c:153-255 | the messages of a start and any number of periods follow the protocol, and with one STOP_WATCHD more the task waits |
| EdfClient.PhaseTellsArming | edfomai-app.c:153-255 | after any history, the messages of a client's life tell whether its task is registered and waiting, however other steps interleave |
| EdfClient.KnownWhileAlive | edfomai-drv-data.c:300-318 | a registered name stays registered until its task is deleted |
| EdfClient.RecalculateSkips | edfomai-drv-data.c:84 | a recalculation leaves the record, priority and reports of a task alone that waits or has no deadline |
| EdfClient.StepWhileWaiting | edfomai-drv.c:181-349 | so does any step that is not a reset, set or start for that name, its deletion, or a foreign change |
| EdfClient.AsleepWaits | edfomai-app.c:197-255 | a name whose messages have left it waiting has a registered, waiting task, whatever else happened |
| EdfClient.WaitingIsUndisturbed | edfomai-app.c:197-255 | from there on, as long as no step disturbs it, its record, priority and reports stay as they are; the history before is arbitrary |
| EdfClient.SleepIsUndisturbed | edfomai-app.c:197-255 | after any history, a task whose messages are those of a start, any number of periods and one STOP_WATCHD is left alone until its next message |
| EdfClient.WaitingIsNotCounted | edfomai-drv-data.c:83-113 | for the others, recalculating with a waiting task in the table is recalculating without it: it counts in no minimum or maximum |
| EdfClient.CreateUnscheduled | edfomai-drv.c:232-237 | a task created with DEADLINENOTSET, 2^64 - 1, is registered without a deadline, gets no priority and is not reported |
| EdfClient.SetUnscheduled | edfomai-drv-data.c:221-245 | so is a registered task whose deadline is set to that |
| EdfClient.StepWhileUnscheduled | edfomai-drv-data.c:84 | a task without a deadline keeps its priority and reports under every step that gives it no deadline, and its record too if the step is no message to it |
| EdfClient.UnscheduledIsSpared | edfomai-drv-data.c:84 | in every run, from where a task is armed with 2^64 - 1 until it is given a deadline, it gets no priority and is not reported |
| EdfClient.UnscheduledIsNotCounted | edfomai-drv-data.c:83-113 | for the others, recalculating with it is recalculating without it |
| EdfApp.DevWrite | edfomai-drv.c:181-199 | a message is a step of the driver iff the device is open and the message can be copied; the answer is the driver's |
| EdfApp.TaskStart | edfomai-app.c:153-190 | announces the task to the driver and returns what starting it returned, or returns -1 and sends nothing |
| EdfApp.TaskWaitPeriod | edfomai-app.c:197-255 | the driver takes STOP_WATCHD, whatever happens during the sleep and, even after a failed sleep, RESET_DEADLINE; returns -1 always |
| EdfApp.Live | edfomai-app.c:153-255 | a task started once that waits for any periods takes the driver through exactly those steps |
| EdfApp.LifeCommands | edfomai-app.c:153-255 | among them the messages for its name are exactly those of the protocol |
| EdfApp.LifeRegisters | edfomai-app.c:153-255 | after any history, a task whose start has arrived is registered for life, however its later messages fare |
| EdfApp.EverySleepIsUndisturbed | edfomai-app.c:197-255 | on the driver, after any history, in every period of a life whose start and STOP_WATCHD have arrived, nothing that happens during the sleep reports, reprioritises or changes the task |
| EdfPasses.DTask.constructor | edfomai-drv-data.h:22-30 | a new record holds the relative deadline, the clock plus it modulo 2^64, OK and RUNNING; it is the armed record of the state machine |
| EdfPasses.DTask.Arm | edfomai-drv-data.c:198-202 | arming sets the relative deadline and remaining time, the clock plus it modulo 2^64, OK and RUNNING |
| EdfPasses.FirstPass | edfomai-drv-data.c:83-97 | the first iteration refreshes all remaining times, finds their minimum and maximum, and inquires the current priorities |
| EdfPasses.SecondPass | edfomai-drv-data.c:102-123 | the second iteration marks, reports and reprioritises exactly the due tasks, in order |
| EdfPasses.NotYetSet | edfomai-drv-data.c:94 | the priority inquired in the first pass is still in force when the second reaches the task |
| EdfDriver.Driver.constructor | edfomai-drv-data.c:322-328 | a loaded driver has an empty table and is in the initial state |
| EdfDriver.Driver.RecalculatePrio | edfomai-drv-data.c:69-125 | does to records, priorities and queue what the state machine's recalculation does |
| EdfDriver.Driver.FindTask | edfomai-drv-data.c:134 | the hash lookup finds the record the state machine finds |
| EdfDriver.Driver.Register | edfomai-drv-data.c:281 | HASH_ADD_STR appends the record |
| EdfDriver.Driver.AddUnlessPresent | edfomai-drv-data.c:268-291 | registers a record iff its name is absent; otherwise the table is as before and the result is -1 |
| EdfDriver.Driver.Create | edfomai-drv-data.c:255-293 | refines the state machine's creation, returns 0 or, for a registered name, -1 |
| EdfDriver.Driver.SetDeadline | edfomai-drv-data.c:221-245 | refines the state machine's setting of a deadline, returns -1 for an unknown name |
| EdfDriver.Driver.ResetDeadline | edfomai-drv-data.c:188-210 | the same with the relative deadline set before |
| EdfDriver.Driver.GoingWaitP | edfomai-drv-data.c:129-144 | refines the state machine's going to wait |
| EdfDriver.Driver.StopWatchdog | edfomai-drv-data.c:148-163 | stopping the watchdog is going to wait |
| EdfDriver.Driver.Unregister | edfomai-drv-data.c:311 | HASH_DEL takes exactly that record out |
| EdfDriver.Driver.Delete | edfomai-drv-data.c:300-318 | refines the state machine's deletion, returns -1 for an unknown name |
| EdfDriver.Driver.Dispose | edfomai-drv-data.c:332-345 | deleting while iterating visits and releases every record exactly once, in order, and leaves an empty table |
| EdfDriver.Driver.Write | edfomai-drv.c:181-349 | each message does what the state machine's dispatch does; the answer is its size, -EFAULT if it cannot be copied, or -1 for a task Xenomai does not know |
| EdfDriver.Driver.DoStep | edfomai-drv.c:121-138 | messages, service rounds, deletion hooks and foreign priorities refine the state machine's steps |
| EdfDriver.Driver.RunSteps | edfomai-drv.c:181-349 | any sequence of steps of the driver is the run of the state machine |
| EdfDriver.RunDriver | edfomai-drv.c:409-461 | from loading on: every admissible run of the driver on its hash table keeps EDF order, and every run reports each miss once |
| UtHash.HashTable.constructor | datastructures/uthash.h:120-124 | an empty table is a null head |
| UtHash.HashTable.Find | datastructures/uthash.h:120-131 | agrees with the finite map, with the Bloom filter or without: returns the item of the key, or null iff no item has it |
| UtHash.HashTable.MakeTable | datastructures/uthash.h:166-183 | the new table is a valid one for no items |
| UtHash.HashTable.Add | datastructures/uthash.h:188-211 | keeps the whole representation invariant and appends the item to the application order; the first item makes 32 buckets; a later one fills its bucket, chosen by the hash modulo the number of buckets, or doubles the table as AddToBkt says |
| UtHash.HashTable.LinkAtTail | datastructures/uthash.h:199-201 | links the item after the tail |
| UtHash.HashTable.AddToBkt | datastructures/uthash.h:620-631 | puts the item into its bucket; the buckets double iff its new count reaches ten times its multiplier plus one and expansion is not inhibited, and otherwise nothing else changes; keeps the bound on every chain |
| UtHash.HashTable.Delete | datastructures/uthash.h:230-263 | keeps the whole representation invariant and takes exactly that item out; the record of expansions stays; the table goes with the last |
| UtHash.HashTable.UnlinkOrder | datastructures/uthash.h:242-257 | unlinks an item of the application order; head and tail stay its ends |
| UtHash.HashTable.LeaveBucket | datastructures/uthash.h:258-259 | takes the item out of the bucket its hash selects, and keeps bounded chains bounded |
| UtHash.HashTable.ExpandBuckets | datastructures/uthash.h:675-721 | keeps items and places, doubles the buckets; ideal length is the ceiling of items over buckets, every multiplier is count over ideal where that is exceeded and 0 elsewhere; nonideal items are those at places beyond the ideal; an expansion that leaves at most half of the items there resets the count of ineffective ones, and one that leaves more inhibits further ones iff the last was ineffective too |
| UtHash.HashTable.HistoryTells | datastructures/uthash.h:714-719 | of every valid table: its buckets are 32 doubled for each expansion; expansion is inhibited iff two in a row were ineffective; if not, while the ideal is at most 9, every count is below ten times its multiplier plus one |
| UtHash.HashTable.SortOrder | datastructures/uthash.h:728-805 | the application order becomes its sorted order; every link, head and tail are valid; no bucket changes |
| UtHash.HashTable.FsckChain | datastructures/uthash.h:296-312 | the authors' check of one chain passes iff its back links and its count are right, and counts it |
| UtHash.HashTable.FsckOrder | datastructures/uthash.h:319-331 | the authors' check of the application order passes iff its back links are right, and counts it |
| UtHash.HashTable.Fsck | datastructures/uthash.h:287-337 | the authors' integrity check, of any table whose forward links end, passes iff every back link and all counts are right; on a table that satisfies the invariant it does |
| UtHash.IdealChain | datastructures/uthash.h:686-688 | shift and mask compute the ceiling of items over buckets, at least 1 |
| UtHash.CeilingIs | datastructures/uthash.h:665 | that ceiling is the quotient of items plus buckets less one by buckets |
| UtHash.AllBounded | datastructures/uthash.h:620-631 | after an expansion every count is at most ideal times multiplier plus one, and below ten times that if the ideal is at most 9 |
| UtHash.MapOfAdd | datastructures/uthash.h:188-211 | adding under an absent key adds one entry to the map and keeps keys distinct |
| UtHash.MapOfDelete | datastructures/uthash.h:230-263 | deleting an item removes exactly its entry |
| UtHash.MapOfReordered | datastructures/uthash.h:728-805 | reordering the items changes no lookup |
| UtHash.OrderAround | datastructures/uthash.h:247-257 | links that step over one item spell out the order without it |
| HashRuns.RunOp | datastructures/uthash.h:120-263 | each add of an absent key, deletion by key or sort keeps the table valid, and does to the map and to the application order what it does to a finite map and to a sequence |
| HashRuns.RunOps | datastructures/uthash.h:120-263 | so does every sequence of operations: the table is a finite map with an insertion order; unless two expansions in a row were ineffective, expansion is not inhibited and, while the ideal is at most 9, every chain is bounded |
| HashRuns.AddFew | datastructures/uthash.h:627-630 | fewer than ten additions to an empty table leave its 32 buckets |
| HashRuns.SortKeepsMap | datastructures/uthash.h:728-805 | sorting keeps keys distinct and the map the same |
| Buckets.ToBktIsSlot | datastructures/uthash.h:213-216 | the mask is the remainder by the number of buckets, a power of two |
| Buckets.PushFront | datastructures/uthash.h:620-626 | links an item before a chain and counts it |
| Buckets.FindInBkt | datastructures/uthash.h:606-617 | finds an item of the chain with that key, or there is none |
| Buckets.DelInBkt | datastructures/uthash.h:634-644 | unlinks an item of a chain and counts it out; other buckets do not change |
| Buckets.ChainAround | datastructures/uthash.h:634-644 | chain links that step over one item spell out the chain without it |
| Buckets.MoveItem | datastructures/uthash.h:696-706 | moves one item and keeps counts, excess and multipliers exact |
| Buckets.Redistribute | datastructures/uthash.h:690-709 | moves every item of every chain to its bucket among twice as many |
| Buckets.ExcessCounts | datastructures/uthash.h:697-698 | the count of nonideal items is the number of places in chains beyond the ideal length |
| Buckets.MultIs | datastructures/uthash.h:697-700 | an exact multiplier is count over ideal length where the count exceeds it, and 0 elsewhere |
| Buckets.ExpansionBounds | datastructures/uthash.h:697-701 | an exact multiplier bounds its bucket's count |
| HashChains.PlacedPush | datastructures/uthash.h:620-626 | pushing an item into the bucket of its hash keeps every item in its place |
| HashChains.PlacedRemove | datastructures/uthash.h:634-644 | removing an item from order and chain keeps every other in its place |
| HashChains.SpreadPlaced | datastructures/uthash.h:690-709 | distributing the items over any number of buckets puts each in its place |
| HashChains.DoublingSplits | datastructures/uthash.h:690-709 | the items of old bucket i land in bucket i or i plus the old number of buckets, and in no other |
| HashChains.FlatPlaced | datastructures/uthash.h:314-317 | the chains together hold each item exactly once |
| Bits.AndMask | datastructures/uthash.h:213-216 | `x & (2^k - 1)` is the remainder by 2^k |
| Bits.ModDouble | datastructures/uthash.h:695 | the remainder by twice n is that by n, or n more |
| Bits.CeilByShift | datastructures/uthash.h:672 | `(n >> lb) + ((n & (b-1)) ? 1 : 0)` is the quotient rounded up |
| Bloom.BloomBit | datastructures/uthash.h:153-157 | the bit of a hash is its remainder by the number of bits, and lies in the vector |
| Bloom.BitSetThenTest | datastructures/uthash.h:150-151 | after setting one bit exactly that bit and those set before test as set |
| Bloom.CoversMore | datastructures/uthash.h:153-157 | the filter never denies an item that was added |
| Jenkins.MixInverse | datastructures/uthash.h:412-423 | mixing is a bijection on triples of words, with this inverse on both sides |
| Jenkins.WordInjective | datastructures/uthash.h:433-441 | four bytes are determined by the word they add up to, chars signed or not |
| Jenkins.AbsorbInjective | datastructures/uthash.h:432-447 | from one state two different blocks of 12 bytes lead to different states |
| Jenkins.StateKeepsApart | datastructures/uthash.h:425-464 | different states stay different whatever key follows |
| Jenkins.PadInjective | datastructures/uthash.h:448-461 | the last bytes of keys of one length are kept apart too |
| Jenkins.OneBlockApart | datastructures/uthash.h:425-464 | keys of one length that differ in one block only never end in the same triple |
| Jenkins.HashJen | datastructures/uthash.h:425-464 | the hash is the third word of the state after all blocks, the length and the padded rest; the bucket is its masked value |
| JenkinsValues.EmptyKeyHash | datastructures/uthash.h:425-464 | the hash of the empty key is 0x0ee1c8aa |
| JenkinsValues.SampleKeyHash | datastructures/uthash.h:425-464 | the hashes of a key of 23 characters, some above 127, with signed and unsigned chars |
| MergeSort.PassDoublesRuns | datastructures/utlist.h:113-160 | a pass over sorted runs leaves sorted runs of twice the length |
| MergeSort.PassIsStable | datastructures/utlist.h:113-160 | a pass keeps equal elements in order |
| MergeSort.MergeIsStable | datastructures/utlist.h:129-152 | merging takes equal elements from the first run first |
| MergeSort.SortCorrect | datastructures/utlist.h:105-163 | for a total preorder the result is sorted, a permutation, and stable |
| MergeSort.SortFromPermutes | datastructures/utlist.h:105-163 | for any comparison at all the result is a permutation |
| MergeSort.SortIsTheStableSort | datastructures/utlist.h:105-163 | it is the only sequence that is sorted, a permutation and stable |
| ListSort.MergeRuns | datastructures/utlist.h:192-219 | relinks two adjacent runs into the merge of the two behind the list built so far |
| ListSort.SortPass | datastructures/utlist.h:176-226 | one pass relinks the list into the merge of its runs in pairs; at most one merge iff the list was that short |
| ListSort.Sort2 | datastructures/utlist.h:169-229 | the in-place sort ends, and leaves the same nodes in sorted order as a valid list of its kind, with its head and tail |
| UtList.LinkedList.Sort2 | datastructures/utlist.h:234-306 | the same of a list object of any kind, the empty one too: singly linked, doubly linked, circular |
| UtList.LinkedList.DlPrepend | datastructures/utlist.h:500-510 | the list is the node and then the old list; head.prev is the tail |
| UtList.LinkedList.DlAppend | datastructures/utlist.h:515-527 | the list is the old list and then the node |
| UtList.LinkedList.DlConcat | datastructures/utlist.h:532-545 | the list is the one list and then the other |
| UtList.LinkedList.DlDelete | datastructures/utlist.h:550-566 | the list is the old list without the node, whose own links stay |
| UtList.LinkedList.DlReplaceElem | datastructures/utlist.h:588-612 | the list is the old list with the node in the other's place |
| UtString.StrongEntry | datastructures/utstring.h:175-185 | skipping a fallback that repeats the character gives the strong table entry |
| UtString.FallBackExtending | datastructures/utstring.h:169-172 | no border that the next character extends is lost by falling back |
| UtString.ExtendingDone | datastructures/utstring.h:169-174 | the fallback found gives the longest border of the next prefix |
| UtString.LastEntry | datastructures/utstring.h:186-189 | the last entry is the longest proper border of the needle |
| UtString.BuildTable | datastructures/utstring.h:157-193 | for a needle whose length an unsigned int holds, entry k is the longest proper border of the first k characters that does not repeat the character at k, or -1; fewer fallbacks than characters |
| UtString.MatchFallsBack | datastructures/utstring.h:251-254 | falling back in a search skips no occurrence |
| UtString.Find | datastructures/utstring.h:237-266 | for lengths an int holds, the leftmost occurrence, or -1 iff there is none, in at most twice the haystack's length of comparisons, and at least one for each position passed |
| UtString.BuildTableR | datastructures/utstring.h:197-233 | for a needle that is not empty, entry k is the first position whose following characters also start the needle from k on and which does not repeat the character before k, or the needle's length |
| UtString.FallbackMirrors | datastructures/utstring.h:209-219 | a fallback of the right-to-left table, by the needle's own suffixes, is one of the left-to-right table of the reversed needle, position for position |
| UtString.FailRMirrors | datastructures/utstring.h:197-233 | so the first usable fallback from the right mirrors the largest one from the left, entry by entry |
| UtString.FindR | datastructures/utstring.h:270-300 | for last positions an int holds, the rightmost occurrence, or -1 iff there is none, in linear time |
| UtString.SearchMirrored | datastructures/utstring.h:270-300 | searching from the right is searching the reversed haystack for the reversed needle, index for index, and back |
| UtString.OccursMirrored | datastructures/utstring.h:270-300 | occurrences correspond under reversal |
| UtString.UtstringFind | datastructures/utstring.h:304-346 | the first occurrence at or after the start, or the length of the string plus the start if that is negative, among the characters an int can count; -1 iff there is none or the needle is empty |
| UtString.UtstringFindR | datastructures/utstring.h:350-388 | the last occurrence that ends at or before the start, or the length of the string plus the start if that is negative, among the characters an int can count; -1 iff there is none or the needle is empty |
| Semaphore.NextKeepsInv | exercise-xenomai/semaphore.c:45-61 | every step of either process keeps the invariant and is progress by one |
| Semaphore.OneCanMove | exercise-xenomai/semaphore.c:45-61 | until both are done exactly one process can move: mutual exclusion and no deadlock |
| Semaphore.Turns | exercise-xenomai/semaphore.c:45-61 | after every interleaving: semaphores plus processes inside are 1, global is 0 or 1, the output alternates strictly |
| Semaphore.EverySchedule | exercise-xenomai/semaphore.c:45-74 | for any iteration count every schedule ends after exactly eight steps per iteration, with both loops done, all lines printed and global 0 |
| Semaphore.OnlySchedule | exercise-xenomai/semaphore.c:45-74 | there is only one schedule of each length |

## Left out

- EdfDriver.Driver.Write: the lock around a command, the copy of the message and the registry of names belong to the kernel; a command is one step, and the results of copying and of looking a name up are parameters.
- EdfDriver.Driver.Delete: the deletion hook takes no lock in the source; it is one step here, and its race with a locked command is not modelled.
- EdfDriver.Driver.DoStep: the service waits for an event; a round may happen at any moment here, whatever wakes it.
- EdfDriver.Driver.Create: the clock is a parameter, read once for the deadline and once for the recalculation; memory is never short, and release of memory is not modelled beyond leaving the table.
- EdfDriver.Driver.RecalculatePrio: reading and setting priorities never fails; without tasks only the history of the clock moves.
- EdfModel.Recalculate: the queue entry carries the name only; deadline, clock and position of the last arming are history that the statements need.
- EdfApp.TaskStart: the results of Xenomai's calls are parameters; names are shorter than their buffer, so copying them is exact; the device is a parameter that stays as it is.
- EdfApp.EverySleepIsUndisturbed: of a task that is not deleted meanwhile; another task that resets, sets or starts its deadline during the sleep, or sets its priority, does disturb it.
- UtHash.HashTable.Add: the table struct behind the head, and each handle's pointer to it, are fields of the table object; key and hash function are parameters; counters do not wrap at 32 bits. The source lets a caller add a key twice, and so does this method; `HashRuns.RunOps` adds absent keys only.
- UtHash.HashTable.Find: equality of keys is abstract and stands for equal length and bytes.
- UtHash.HashTable.SortOrder: the links of the handles are modelled as links between items.
- UtList.LinkedList.Sort2: one text for the sort macros, whose choices depend on the kind of list.
- UtString.BuildTable: the length of the needle is an unsigned int in the source; the right-to-left table needs a needle that is not empty besides.
- UtString.Find: the lengths are kept in ints, and longer strings are the caller's affair; `UtstringFind` and `UtstringFindR` pass only the part that the int counts.
- UtString.UtstringFind: the start position lies in the string's bounds from below, and past the end not so far that the length as an int turns positive, as the source needs in order not to read outside the string; needles are shorter than 2^31; the table is never refused memory.
- UtString.UtstringFindR: the same from the other end: a start position below the length, and not so far below the beginning that it turns positive as an int.
- Jenkins.HashJen: keys are shorter than 2^32 bytes.
- Semaphore.EverySchedule: the operations on a semaphore are atomic counters; that a signal may hand over directly to a waiter, and the order of starting, give no other interleavings.
- The other hash functions, HASH_SELECT, HASH_CLEAR, the emission of keys and the variants without decltype.
- The LL_ and CDL_ editing macros, DL_PREPEND_ELEM and the searches by iteration: easier members on the same invariant.
- utarray.h, and the growth, copying and formatting of utstring.h.
- Loading and unloading the module, opening and closing the device, the demonstration programs and their logs.
- Schedulability: no code here decides it.
