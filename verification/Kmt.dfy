/** kernel/src/kmt.c on the heap: tasks, the tables of the kernel and linked wait queues, each call a step of Sched. */
module Kmt {
  import opened Sched
  import opened Wrappers

  class Task {
    var run: bool
    var sleep: bool
    var id: nat

    constructor ()
      ensures !run && !sleep && id == 0
    {
      run, sleep, id := false, false, 0;
    }
  }

  ghost function InfoOf(known: set<Task>): map<Task, Info>
    reads known
  {
    map t | t in known :: Info(t.run, t.sleep, t.id)
  }

  /** tasknode_t */
  class TaskNode {
    var task: Task
    var nxt: TaskNode?
    var pre: TaskNode?

    constructor (task: Task, nxt: TaskNode?)
      ensures this.task == task && this.nxt == nxt && pre == null
    {
      this.task, this.nxt, pre := task, nxt, null;
    }
  }

  /** nodes are doubly linked in their order, from head on. */
  ghost predicate Linked(head: TaskNode?, nodes: seq<TaskNode>)
    reads nodes`nxt, nodes`pre
  {
    && head == (if nodes == [] then null else nodes[0])
    && (forall i, j :: 0 <= i < j < |nodes| ==> Differ(nodes, i, j))
    && (forall i {:trigger nodes[i].nxt} :: 0 <= i < |nodes| ==> nodes[i].nxt == if i + 1 < |nodes| then nodes[i + 1] else null)
    && (forall i {:trigger nodes[i].pre} :: 0 <= i < |nodes| ==> nodes[i].pre == if i > 0 then nodes[i - 1] else null)
  }

  ghost predicate Differ(nodes: seq<TaskNode>, i: nat, j: nat)
    requires i < |nodes| && j < |nodes|
  {
    nodes[i] != nodes[j]
  }

  /** The nodes hold the tasks of queue. */
  ghost predicate Holds(nodes: seq<TaskNode>, queue: seq<Task>)
    reads nodes`task
  {
    |nodes| == |queue| && forall i :: 0 <= i < |nodes| ==> nodes[i].task == queue[i]
  }

  /** sem_t */
  class Semaphore {
    var count: int
    var cntTasks: int
    var pcb: TaskNode?
    ghost var nodes: seq<TaskNode>
    ghost var queue: seq<Task>
    ghost var init: nat
    ghost var signals: nat
    ghost var passed: nat
    ghost var blocked: seq<Task>
    ghost var woken: seq<Task>
    ghost var waking: bool

    /** sem_init */
    constructor (value: nat)
      ensures Valid() && nodes == [] && Abs() == Sem(value, 0, [], false, value, 0, 0, [], [])
    {
      count, cntTasks, pcb := value, 0, null;
      nodes, queue, init, signals, passed, blocked, woken, waking := [], [], value, 0, 0, [], [], false;
    }

    ghost predicate Valid()
      reads this`pcb, this`nodes, this`queue, nodes`nxt, nodes`pre, nodes`task
    {
      Linked(pcb, nodes) && Holds(nodes, queue)
    }

    ghost function Abs(): Sem<Task>
      reads this
    {
      Sem(count, cntTasks, queue, waking, init, signals, passed, blocked, woken)
    }

    /** sem_list_add */
    method ListAdd(task: Task)
      requires Valid()
      modifies this`pcb, this`nodes, this`queue, nodes`nxt, nodes`pre
      ensures Valid() && queue == [task] + old(queue)
      ensures nodes != [] && fresh(nodes[0]) && nodes[1..] == old(nodes)
    {
      var node := new TaskNode(task, pcb);
      if pcb != null {
        assert pcb.pre == null;
        assert pcb.nxt != null ==> pcb.nxt.pre == pcb by { assert nodes[0].nxt != null ==> nodes[0].nxt == nodes[1]; }
        pcb.pre := node;
      }
      pcb := node;
      ghost var rest := nodes;
      nodes, queue := [node] + nodes, [task] + queue;
      forall i, j | 0 <= i < j < |nodes| ensures Differ(nodes, i, j) {
        assert i > 0 ==> Differ(rest, i - 1, j - 1);
      }
    }

    /** What sem_wait does to the semaphore. */
    method Take(task: Task)
      requires Valid()
      modifies this, nodes`nxt, nodes`pre
      ensures Valid()
      ensures forall n :: n in nodes ==> n in old(nodes) || fresh(n)
      ensures Abs() == TakeSem(old(Abs()), task)
    {
      count := count - 1;
      if count < 0 {
        cntTasks := cntTasks + 1;
        ListAdd(task);
        blocked := blocked + [task];
      } else {
        passed := passed + 1;
      }
    }

    /** What sem_signal does to the semaphore after it has woken the waiter of ptr, or without one when ptr is null. */
    method Give(ptr: TaskNode?)
      requires Valid() && (ptr != null <==> waking)
      requires waking ==> nodes != [] && ptr == nodes[|nodes| - 1]
      modifies this, nodes`nxt, nodes`pre
      ensures Valid() && Abs() == GiveSem(old(Abs()))
    {
      if ptr != null {
        Dequeue(ptr);
      }
      count := count + 1;
      signals := signals + 1;
    }

    method Dequeue(ptr: TaskNode)
      requires Valid() && waking && nodes != [] && ptr == nodes[|nodes| - 1]
      modifies this, nodes`nxt, nodes`pre
      ensures Valid() && count == old(count) && signals == old(signals) && init == old(init) && blocked == old(blocked)
      ensures !waking && cntTasks == old(cntTasks) - 1 && passed == old(passed) + 1
      ensures queue == old(queue)[..|old(queue)| - 1] && woken == old(woken) + [old(queue)[|old(queue)| - 1]]
    {
      waking, passed, woken := false, passed + 1, woken + [queue[|queue| - 1]];
      Unlink(ptr);
      cntTasks := cntTasks - 1;
    }

    /** The walk of sem_list_delete to the oldest waiter. */
    method Oldest() returns (ptr: TaskNode)
      requires Valid() && nodes != []
      ensures ptr == nodes[|nodes| - 1] && ptr.task == queue[|nodes| - 1]
    {
      ptr := pcb;
      ghost var i := 0;
      while ptr.nxt != null
        invariant i < |nodes| && ptr == nodes[i]
        decreases |nodes| - i
      {
        assert nodes[i].nxt != null;
        ptr := ptr.nxt;
        i := i + 1;
      }
      assert nodes[i].nxt == null;
    }

    /** The rest of sem_list_delete: it unlinks the oldest waiter. */
    method Unlink(ptr: TaskNode)
      requires Valid() && nodes != [] && ptr == nodes[|nodes| - 1]
      modifies this`pcb, this`nodes, this`queue, nodes`nxt, nodes`pre
      ensures Valid() && nodes == old(nodes)[..|old(nodes)| - 1] && queue == old(queue)[..|old(queue)| - 1]
    {
      assert ptr.nxt == null && (ptr == pcb <==> |nodes| == 1);
      if ptr == pcb {
        pcb := pcb.nxt;
      } else {
        assert ptr.pre == nodes[|nodes| - 2];
        ptr.pre.nxt := ptr.nxt;
      }
      ghost var all := nodes;
      nodes, queue := nodes[..|nodes| - 1], queue[..|queue| - 1];
      forall i, j | 0 <= i < j < |nodes| ensures Differ(nodes, i, j) {
        assert Differ(all, i, j);
      }
    }
  }

  /** The semaphore is in the given state and its queue is linked. */
  ghost predicate In(sem: Semaphore, state: Sem<Task>)
    reads sem, sem.nodes`nxt, sem.nodes`pre, sem.nodes`task
  {
    sem.Valid() && sem.Abs() == state
  }

  class Kernel {
    const tasks: array<Option<Task>>
    var cntTasks: nat
    const cputask: array<Option<Task>>
    const cputaskLast: array<Option<Task>>
    const cpudefault: seq<Task>
    ghost var known: set<Task>
    ghost var sems: seq<Sem<Task>>
    ghost var yielding: seq<bool>

    ghost predicate Valid()
      reads this
    {
      && tasks.Length == MAXTASK && cputask.Length == cputaskLast.Length == |cpudefault| == |yielding|
      && tasks != cputask && tasks != cputaskLast && cputask != cputaskLast
    }

    ghost function Abs(): State<Task>
      reads this, tasks, cputask, cputaskLast, known
    {
      State(tasks[..], cntTasks, cputask[..], cputaskLast[..], cpudefault, InfoOf(known), yielding, sems)
    }

    /** kmt_init, with the CPUs' default tasks and the semaphores made by sem_init. */
    constructor (defaults: seq<Task>, ghost sems: seq<Sem<Task>>)
      requires forall c, d :: 0 <= c < d < |defaults| ==> defaults[c] != defaults[d]
      requires forall t :: t in defaults ==> !t.run && !t.sleep && t.id == 0
      requires forall m :: 0 <= m < |sems| ==> sems[m] == Sem(sems[m].init, 0, [], false, sems[m].init, 0, 0, [], [])
      ensures Valid() && Initial(Abs()) && cpudefault == defaults && this.sems == sems
    {
      tasks := new Option<Task>[MAXTASK](_ => None);
      cputask := new Option<Task>[|defaults|](_ => None);
      cputaskLast := new Option<Task>[|defaults|](_ => None);
      cntTasks, cpudefault := 0, defaults;
      known := set t | t in defaults;
      yielding := seq(|defaults|, _ => false);
      this.sems := sems;
      new;
    }

    /** kmt_context_save on CPU c */
    method ContextSave(c: nat)
      requires Valid() && Shape(Abs()) && c < cputask.Length
      modifies known`run, cputaskLast
      ensures Valid() && Abs() == Save(old(Abs()), c)
    {
      ghost var s := Abs();
      assert cputask[c] == s.cur[c] && cputaskLast[c] == s.last[c];
      if cputaskLast[c].Some? && cputaskLast[c] != cputask[c] {
        SetRunFlag(cputaskLast[c].value, false);
      }
      cputaskLast[c] := cputask[c];
    }

    method SetSleepFlag(t: Task, sleep: bool)
      requires t in known
      modifies t`sleep
      ensures Abs() == old(Abs()).(info := SetSleep(old(Abs()).info, t, sleep))
    {
      t.sleep := sleep;
    }

    method SetRunFlag(t: Task, run: bool)
      requires t in known
      modifies t`run
      ensures Abs() == old(Abs()).(info := SetRun(old(Abs()).info, t, run))
    {
      t.run := run;
    }

    /** kmt_context_switch on CPU c; it leaves the chosen task in cputask[c]. */
    method ContextSwitch(c: nat, rnd: nat)
      requires Valid() && Shape(Abs()) && c < cputask.Length
      modifies this`yielding, known`run, cputask
      ensures Valid() && Abs() == Switch(old(Abs()), c, rnd)
    {
      var ret := FindRunnable(c, rnd);
      SetRunFlag(ret, true);
      RunNext(c, ret);
    }

    method RunNext(c: nat, ret: Task)
      requires Valid() && c < cputask.Length
      modifies this`yielding, cputask
      ensures Valid()
      ensures Abs() == old(Abs()).(cur := old(Abs()).cur[c := Some(ret)], yielding := old(yielding)[c := false])
    {
      cputask[c] := Some(ret);
      yielding := yielding[c := false];
    }

    /** The scheduler's search. */
    method FindRunnable(c: nat, rnd: nat) returns (ret: Task)
      requires Valid() && Shape(Abs()) && c < cputask.Length
      ensures ret == Pick(Abs(), c, rnd) && ret in known
    {
      var seed := FirstSeed(c, rnd);
      var r := Search(seed);
      ChosenRunnable(Abs(), seed, 0);
      if r < MAXTASK {
        assert tasks[Slot(seed, r)] == Abs().tasks[Slot(seed, r)];
        ret := tasks[Slot(seed, r)].value;
      } else {
        ret := cpudefault[c];
      }
    }

    /** Its loop: the round in which it ends. */
    method Search(seed: nat) returns (r: nat)
      requires Valid() && Shape(Abs())
      ensures r == Choose(Abs(), seed, 0)
    {
      for i := 0 to MAXTASK
        invariant Choose(Abs(), seed, 0) == Choose(Abs(), seed, i)
      {
        var runnable := IsRunnable(Slot(seed, i));
        if runnable {
          return i;
        }
      }
      return MAXTASK;
    }

    method FirstSeed(c: nat, rnd: nat) returns (seed: nat)
      requires Valid() && Shape(Abs()) && c < cputask.Length
      ensures seed == Seed(Abs(), c, rnd)
    {
      assert cputask[c] == Abs().cur[c];
      seed := if cputask[c].Some? then cputask[c].value.id else rnd % MAXTASK;
    }

    method IsRunnable(k: nat) returns (runnable: bool)
      requires Valid() && Shape(Abs()) && k < MAXTASK
      ensures runnable == Runnable(Abs(), k)
    {
      var nxt := tasks[k];
      assert nxt == Abs().tasks[k];
      runnable := nxt.Some? && !nxt.value.run && !nxt.value.sleep;
    }

    /** kmt_create; room says whether a stack could be allocated. */
    method KmtCreate(task: Task, room: bool, rnd: nat) returns (err: int)
      requires Valid() && Shape(Abs())
      modifies this`cntTasks, this`known, tasks, task
      ensures Valid() && err == (if old(cntTasks) >= MAXTASK || !room then 1 else 0)
      ensures Abs() == if room then Create(old(Abs()), task, rnd) else old(Abs())
    {
      if cntTasks >= MAXTASK || !room {
        return 1;
      }
      task.run, task.sleep := false, false;
      var k := FindFree(rnd);
      Enter(task, k);
      return 0;
    }

    /** The search of kmt_create. */
    method FindFree(rnd: nat) returns (k: nat)
      requires tasks.Length == MAXTASK
      ensures k < MAXTASK && k == FreeSlot(tasks[..], rnd)
    {
      var i, seed := 0, rnd % MAXTASK;
      while i < MAXTASK && tasks[(seed + i) % MAXTASK].Some?
        invariant 0 <= i <= MAXTASK
        invariant FreeRound(tasks[..], seed, 0) == FreeRound(tasks[..], seed, i)
      {
        assert tasks[(seed + i) % MAXTASK] == tasks[..][CreateSlot(seed, i)];
        i := i + 1;
      }
      assert i < MAXTASK ==> tasks[(seed + i) % MAXTASK] == tasks[..][CreateSlot(seed, i)];
      k := (seed + i) % MAXTASK;
    }

    method Enter(task: Task, k: nat)
      requires Valid() && !task.run && !task.sleep && k < MAXTASK
      modifies this`cntTasks, this`known, tasks, task`id
      ensures Valid() && known == old(known) + {task}
      ensures tasks[..] == old(tasks[..])[k := Some(task)] && cntTasks == old(cntTasks) + 1
      ensures InfoOf(known) == old(InfoOf(known))[task := Info(false, false, k)]
    {
      cntTasks := cntTasks + 1;
      tasks[k] := Some(task);
      task.id := k;
      known := known + {task};
    }

    /** kmt_teardown, after the stack is freed. */
    method KmtTeardown(task: Task)
      requires Valid() && Shape(Abs()) && Created(Abs().tasks, Abs().info, task) && cntTasks > 0
      modifies this`cntTasks, tasks
      ensures Valid() && Abs() == Teardown(old(Abs()), task)
    {
      assert task in known && task.id == Abs().info[task].id;
      cntTasks := cntTasks - 1;
      tasks[task.id] := None;
    }

    /** sem_wait on semaphore m, up to its _yield; blocked says whether it yields. */
    method SemWait(c: nat, ghost m: nat, sem: Semaphore) returns (blocked: bool)
      requires Valid() && Shape(Abs()) && c < cputask.Length && cputask[c].Some? && m < |sems| && In(sem, sems[m])
      modifies this`yielding, this`sems, cputask[c].value`sleep, sem, sem.nodes`nxt, sem.nodes`pre
      ensures Valid() && Abs() == Wait(old(Abs()), c, m) && In(sem, sems[m])
      ensures forall n :: n in sem.nodes ==> n in old(sem.nodes) || fresh(n)
      ensures blocked <==> old(sem.count) <= 0
    {
      ghost var s := Abs();
      assert cputask[c] == s.cur[c];
      blocked := sem.count - 1 < 0;
      if blocked {
        Block(c);
      }
      TakeFrom(m, sem, cputask[c].value);
    }

    method Block(c: nat)
      requires Valid() && Shape(Abs()) && c < cputask.Length && cputask[c].Some? && cputask[c].value in known
      modifies this`yielding, cputask[c].value`sleep
      ensures Valid()
      ensures var s := old(Abs()); Abs() == s.(info := SetSleep(s.info, cputask[c].value, true), yielding := s.yielding[c := true])
    {
      SetSleepFlag(cputask[c].value, true);
      yielding := yielding[c := true];
    }

    method TakeFrom(ghost m: nat, sem: Semaphore, task: Task)
      requires m < |sems| && In(sem, sems[m])
      modifies this`sems, sem, sem.nodes`nxt, sem.nodes`pre
      ensures m < |sems| && In(sem, sems[m])
      ensures forall n :: n in sem.nodes ==> n in old(sem.nodes) || fresh(n)
      ensures Abs() == old(Abs()).(sems := old(sems)[m := TakeSem(old(sems[m]), task)])
    {
      sem.Take(task);
      sems := sems[m := sem.Abs()];
    }

    /** sem_signal on semaphore m up to the point where the oldest waiter is awake, when there is one. */
    method SemSignalWake(ghost m: nat, sem: Semaphore) returns (ptr: TaskNode)
      requires Valid() && Shape(Abs()) && m < |sems| && In(sem, sems[m]) && sem.nodes != []
      modifies this`sems, known`sleep, sem`waking
      ensures Valid() && Abs() == SignalWake(old(Abs()), m) && In(sem, sems[m])
      ensures ptr == sem.nodes[|sem.nodes| - 1]
    {
      ptr := sem.Oldest();
      SetSleepFlag(ptr.task, false);
      StartWaking(m, sem);
    }

    ghost method StartWaking(m: nat, sem: Semaphore)
      requires m < |sems| && In(sem, sems[m])
      modifies this`sems, sem`waking
      ensures m < |sems| && In(sem, sems[m]) && Abs() == old(Abs()).(sems := old(sems)[m := old(sems[m]).(waking := true)])
    {
      sem.waking := true;
      sems := sems[m := sem.Abs()];
    }

    /** The rest of sem_signal. */
    method SemSignalFinish(ghost m: nat, sem: Semaphore, ptr: TaskNode?)
      requires m < |sems| && In(sem, sems[m])
      requires sem.waking ==> sem.nodes != [] && ptr == sem.nodes[|sem.nodes| - 1]
      requires ptr != null <==> sem.waking
      modifies this`sems, sem, sem.nodes`nxt, sem.nodes`pre
      ensures Abs() == SignalFinish(old(Abs()), m) && In(sem, sems[m])
    {
      sem.Give(ptr);
      sems := sems[m := sem.Abs()];
    }

    /** sem_signal when nothing else happens in between. */
    method SemSignal(ghost m: nat, sem: Semaphore)
      requires Valid() && Shape(Abs()) && m < |sems| && In(sem, sems[m]) && !sem.waking
      requires sem.cntTasks > 0 ==> sem.pcb != null
      modifies this`sems, known`sleep, sem, sem.nodes`nxt, sem.nodes`pre
      ensures Valid() && m < |sems| && In(sem, sems[m])
      ensures Abs() == Signal(old(Abs()), m)
    {
      var ptr: TaskNode? := null;
      if sem.cntTasks > 0 {
        ptr := SemSignalWake(m, sem);
      }
      SemSignalFinish(m, sem, ptr);
    }
  }
}
