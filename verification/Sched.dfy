/** kernel/src/kmt.c: scheduler and semaphores as a state machine over atomic steps of any number of CPUs. */
module Sched {
  import opened Wrappers

  const MAXTASK: nat := 1024

  /** task_t, without name, context, stack and files. */
  datatype Info = Info(run: bool, sleep: bool, id: nat)

  /**
   * sem_t. The head of the wait queue is the newest waiter. While a signal has cleared its waiter's sleep flag but not
   * yet unlinked it, waking is set; the semaphore's lock is held then. The last five fields are history.
   */
  datatype Sem<T> = Sem(count: int, cntTasks: int, queue: seq<T>, waking: bool,
                        init: nat, signals: nat, passed: nat, blocked: seq<T>, woken: seq<T>)

  datatype State<T> = State(
    tasks: seq<Option<T>>,
    cntTasks: nat,
    cur: seq<Option<T>>,
    last: seq<Option<T>>,
    dflt: seq<T>,
    info: map<T, Info>,
    yielding: seq<bool>,
    sems: seq<Sem<T>>)

  // ---- Steps ----

  function SetRun<T(==)>(info: map<T, Info>, t: T, run: bool): map<T, Info>
    requires t in info
  {
    info[t := info[t].(run := run)]
  }

  function SetSleep<T(==)>(info: map<T, Info>, t: T, sleep: bool): map<T, Info>
    requires t in info
  {
    info[t := info[t].(sleep := sleep)]
  }

  /** kmt_context_save */
  function Save<T(==)>(s: State<T>, c: nat): State<T>
    requires Shape(s) && c < |s.cur|
  {
    var info := if s.last[c].Some? && s.last[c] != s.cur[c] then SetRun(s.info, s.last[c].value, false) else s.info;
    s.(info := info, last := s.last[c := s.cur[c]])
  }

  predicate Runnable<T(==)>(s: State<T>, k: nat)
    requires Shape(s) && k < MAXTASK
  {
    s.tasks[k].Some? && !s.info[s.tasks[k].value].run && !s.info[s.tasks[k].value].sleep
  }

  /** The slot the scheduler looks at in round i when it starts from seed. */
  function Slot(seed: nat, i: nat): (k: nat)
    ensures k < MAXTASK
  {
    (seed + i + 1) % MAXTASK
  }

  /** The first round from i on whose slot is runnable, or MAXTASK. */
  function Choose<T(==)>(s: State<T>, seed: nat, i: nat): (r: nat)
    requires Shape(s) && i <= MAXTASK
    ensures i <= r <= MAXTASK
    decreases MAXTASK - i
  {
    if i == MAXTASK || Runnable(s, Slot(seed, i)) then i else Choose(s, seed, i + 1)
  }

  lemma {:induction false} ChosenRunnable<T>(s: State<T>, seed: nat, i: nat)
    requires Shape(s) && i <= MAXTASK
    ensures Choose(s, seed, i) < MAXTASK ==> Runnable(s, Slot(seed, Choose(s, seed, i)))
    decreases MAXTASK - i
  {
    if i < MAXTASK && !Runnable(s, Slot(seed, i)) {
      ChosenRunnable(s, seed, i + 1);
    }
  }

  /** It does not pass over a runnable slot. */
  lemma {:induction false} ChooseFirst<T>(s: State<T>, seed: nat, i: nat, j: nat)
    requires Shape(s) && i <= j < MAXTASK && Runnable(s, Slot(seed, j))
    ensures Choose(s, seed, i) <= j
    decreases j - i
  {
    if i < j {
      ChooseFirst(s, seed, i + 1, j);
    }
  }

  function Seed<T(==)>(s: State<T>, c: nat, rnd: nat): nat
    requires Shape(s) && c < |s.cur|
  {
    if s.cur[c].Some? then s.info[s.cur[c].value].id else rnd % MAXTASK
  }

  function Pick<T(==)>(s: State<T>, c: nat, rnd: nat): (t: T)
    requires Shape(s) && c < |s.cur|
    ensures t in s.info
  {
    var r := Choose(s, Seed(s, c, rnd), 0);
    ChosenRunnable(s, Seed(s, c, rnd), 0);
    if r < MAXTASK then s.tasks[Slot(Seed(s, c, rnd), r)].value else s.dflt[c]
  }

  /** kmt_context_switch */
  function Switch<T(==)>(s: State<T>, c: nat, rnd: nat): State<T>
    requires Shape(s) && c < |s.cur|
  {
    var t := Pick(s, c, rnd);
    s.(info := SetRun(s.info, t, true), cur := s.cur[c := Some(t)], yielding := s.yielding[c := false])
  }

  /** The slot kmt_create looks at in round i. */
  function CreateSlot(seed: nat, i: nat): nat { (seed + i) % MAXTASK }

  /** The first round from i on whose slot is free, or MAXTASK. */
  function FreeRound<T>(tasks: seq<Option<T>>, seed: nat, i: nat): (r: nat)
    requires |tasks| == MAXTASK && i <= MAXTASK
    ensures i <= r <= MAXTASK
    ensures r < MAXTASK ==> tasks[CreateSlot(seed, r)].None?
    ensures forall j :: i <= j < r ==> tasks[CreateSlot(seed, j)].Some?
    decreases MAXTASK - i
  {
    if i == MAXTASK || tasks[CreateSlot(seed, i)].None? then i else FreeRound(tasks, seed, i + 1)
  }

  function FreeSlot<T>(tasks: seq<Option<T>>, rnd: nat): nat
    requires |tasks| == MAXTASK
  {
    CreateSlot(rnd % MAXTASK, FreeRound(tasks, rnd % MAXTASK, 0))
  }

  /** kmt_create; it refuses when all slots are taken. */
  function Create<T(==)>(s: State<T>, t: T, rnd: nat): State<T>
    requires Shape(s)
  {
    if s.cntTasks >= MAXTASK then s
    else
      var k := FreeSlot(s.tasks, rnd);
      s.(tasks := s.tasks[k := Some(t)], cntTasks := s.cntTasks + 1, info := s.info[t := Info(false, false, k)])
  }

  /** kmt_teardown; the slot of the task becomes free. */
  function Teardown<T(==)>(s: State<T>, t: T): State<T>
    requires Shape(s) && Created(s.tasks, s.info, t) && s.cntTasks > 0
  {
    s.(tasks := s.tasks[s.info[t].id := None], cntTasks := s.cntTasks - 1)
  }

  /** sem_wait as the semaphore sees it, called by t. */
  function TakeSem<T(==)>(sem: Sem<T>, t: T): Sem<T> {
    if sem.count - 1 < 0 then
      sem.(count := sem.count - 1, cntTasks := sem.cntTasks + 1, queue := [t] + sem.queue, blocked := sem.blocked + [t])
    else
      sem.(count := sem.count - 1, passed := sem.passed + 1)
  }

  /** sem_wait up to the _yield, by the task that runs on CPU c. */
  function Wait<T(==)>(s: State<T>, c: nat, m: nat): State<T>
    requires Shape(s) && c < |s.cur| && s.cur[c].Some? && m < |s.sems|
  {
    var t := s.cur[c].value;
    var s1 := if s.sems[m].count - 1 < 0 then s.(info := SetSleep(s.info, t, true), yielding := s.yielding[c := true]) else s;
    s1.(sems := s.sems[m := TakeSem(s.sems[m], t)])
  }

  /** sem_signal up to the point where the oldest waiter's sleep flag is cleared. */
  function SignalWake<T(==)>(s: State<T>, m: nat): State<T>
    requires Shape(s) && m < |s.sems| && s.sems[m].queue != []
  {
    var sem := s.sems[m];
    s.(info := SetSleep(s.info, sem.queue[|sem.queue| - 1], false), sems := s.sems[m := sem.(waking := true)])
  }

  function GiveSem<T(==)>(sem: Sem<T>): Sem<T>
    requires sem.waking ==> sem.queue != []
  {
    if sem.waking then
      var q := sem.queue;
      sem.(count := sem.count + 1, cntTasks := sem.cntTasks - 1, queue := q[..|q| - 1], waking := false,
           signals := sem.signals + 1, passed := sem.passed + 1, woken := sem.woken + [q[|q| - 1]])
    else
      sem.(count := sem.count + 1, signals := sem.signals + 1)
  }

  /** The rest of sem_signal. */
  function SignalFinish<T(==)>(s: State<T>, m: nat): State<T>
    requires m < |s.sems| && (s.sems[m].waking ==> s.sems[m].queue != [])
  {
    s.(sems := s.sems[m := GiveSem(s.sems[m])])
  }

  // ---- Invariant ----

  /** t is in the task table, at its own id. */
  predicate Created<T(==)>(tasks: seq<Option<T>>, info: map<T, Info>, t: T) {
    t in info && info[t].id < |tasks| && tasks[info[t].id] == Some(t)
  }

  /** What a CPU points to: a created task, or its own default. */
  predicate Known<T(==)>(tasks: seq<Option<T>>, info: map<T, Info>, dflt: T, o: Option<T>) {
    o.Some? ==> o.value in info && (Created(tasks, info, o.value) || o.value == dflt)
  }

  predicate Table<T(==)>(tasks: seq<Option<T>>, info: map<T, Info>) {
    |tasks| == MAXTASK
    && forall k :: 0 <= k < MAXTASK && tasks[k].Some? ==> tasks[k].value in info && info[tasks[k].value].id == k
  }

  predicate Shape<T(==)>(s: State<T>) {
    && |s.cur| == |s.last| == |s.dflt| == |s.yielding|
    && Table(s.tasks, s.info)
    && (forall c :: 0 <= c < |s.dflt| ==> s.dflt[c] in s.info && s.info[s.dflt[c]].id == 0 && !Created(s.tasks, s.info, s.dflt[c]))
    && (forall c, d :: 0 <= c < d < |s.dflt| ==> s.dflt[c] != s.dflt[d])
    && (forall c :: 0 <= c < |s.cur| ==> Known(s.tasks, s.info, s.dflt[c], s.cur[c]) && Known(s.tasks, s.info, s.dflt[c], s.last[c]))
    && (forall m, p :: 0 <= m < |s.sems| && 0 <= p < |s.sems[m].queue| ==> Created(s.tasks, s.info, s.sems[m].queue[p]))
  }

  /** CPU c runs t, or may still be on its stack. */
  predicate On<T(==)>(cur: seq<Option<T>>, last: seq<Option<T>>, c: nat, t: T) {
    c < |cur| == |last| && (cur[c] == Some(t) || last[c] == Some(t))
  }

  /** No task is on two CPUs, and a created task has its run flag set exactly when it is on one. */
  ghost predicate Placed<T>(tasks: seq<Option<T>>, info: map<T, Info>, cur: seq<Option<T>>, last: seq<Option<T>>) {
    && (forall c, d, t :: t in info && On(cur, last, c, t) && On(cur, last, d, t) ==> c == d)
    && (forall c, t :: t in info && On(cur, last, c, t) ==> info[t].run)
    && (forall t :: t in info && Created(tasks, info, t) && info[t].run ==> exists c :: On(cur, last, c, t))
  }

  /** t waits at position p of the queue of semaphore m, and no signal is waking it. */
  predicate Waits<T(==)>(sems: seq<Sem<T>>, m: nat, p: nat, t: T) {
    m < |sems| && p < |sems[m].queue| && sems[m].queue[p] == t && !(sems[m].waking && p == |sems[m].queue| - 1)
  }

  /** A task's sleep flag is set exactly when it waits, and it waits in one place. */
  ghost predicate Queued<T>(info: map<T, Info>, sems: seq<Sem<T>>) {
    && (forall m, p, t :: t in info && Waits(sems, m, p, t) ==> info[t].sleep)
    && (forall m, p, n, q, t :: t in info && Waits(sems, m, p, t) && Waits(sems, n, q, t) ==> m == n && p == q)
    && (forall t :: t in info && info[t].sleep ==> exists m, p :: Waits(sems, m, p, t))
  }

  /** Who runs on after a wait is awake. */
  ghost predicate Awake<T>(info: map<T, Info>, cur: seq<Option<T>>, yielding: seq<bool>) {
    |cur| == |yielding| &&
    forall c :: 0 <= c < |cur| && cur[c].Some? && cur[c].value in info && !yielding[c] ==> !info[cur[c].value].sleep
  }

  function Reversed<T>(s: seq<T>): (r: seq<T>)
    ensures |r| == |s|
  {
    if s == [] then [] else Reversed(s[1..]) + [s[0]]
  }

  /** Queue length, conservation of passes, and first-come first-served. */
  ghost predicate SemOk<T>(sem: Sem<T>) {
    && sem.cntTasks == |sem.queue| == (if sem.count < 0 then -sem.count else 0)
    && (sem.waking ==> sem.queue != [])
    && sem.init + sem.signals == sem.passed + (if sem.count > 0 then sem.count else 0)
    && sem.blocked == sem.woken + Reversed(sem.queue)
  }

  ghost predicate Sems<T>(s: State<T>) { forall m :: 0 <= m < |s.sems| ==> SemOk(s.sems[m]) }

  /** Taken slots among the first n. */
  function Taken<T>(tasks: seq<Option<T>>, n: nat): nat
    requires n <= |tasks|
  {
    if n == 0 then 0 else Taken(tasks, n - 1) + (if tasks[n - 1].Some? then 1 else 0)
  }

  ghost predicate Counted<T>(s: State<T>) {
    |s.tasks| == MAXTASK && s.cntTasks == Taken(s.tasks, MAXTASK)
  }

  ghost predicate Inv<T>(s: State<T>) {
    && Shape(s)
    && Placed(s.tasks, s.info, s.cur, s.last)
    && Queued(s.info, s.sems) && Awake(s.info, s.cur, s.yielding)
    && Sems(s) && Counted(s)
  }

  // ---- Scheduler steps ----

  /** Created, Known and the table speak of ids only. */
  lemma FlagsOnly<T>(tasks: seq<Option<T>>, info: map<T, Info>, t: T, i: Info)
    requires t in info && i.id == info[t].id
    ensures forall u :: u in info ==> Created(tasks, info[t := i], u) == Created(tasks, info, u)
  {
  }

  lemma FlagsKeepShape<T>(s: State<T>, t: T, i: Info)
    requires Shape(s) && t in s.info && i.id == s.info[t].id
    ensures Shape(s.(info := s.info[t := i]))
  {
    FlagsOnly(s.tasks, s.info, t, i);
  }

  lemma SaveKeeps<T>(s: State<T>, c: nat)
    requires Inv(s) && c < |s.cur|
    ensures Inv(Save(s, c)) && Save(s, c).last[c] == Save(s, c).cur[c]
  {
    var s2 := Save(s, c);
    if s.last[c].Some? && s.last[c] != s.cur[c] {
      var t := s.last[c].value;
      FlagsKeepShape(s, t, s.info[t].(run := false));
      FlagsOnly(s.tasks, s.info, t, s.info[t].(run := false));
    }
    SavePlaced(s, c);
  }

  lemma SavePlaced<T>(s: State<T>, c: nat)
    requires Inv(s) && c < |s.cur|
    ensures var s2 := Save(s, c); Placed(s2.tasks, s2.info, s2.cur, s2.last)
  {
    var s2 := Save(s, c);
    forall d, t | t in s.info && On(s2.cur, s2.last, d, t) ensures On(s.cur, s.last, d, t) && s2.info[t].run {
      assert On(s.cur, s.last, d, t);
      if s.last[c] == Some(t) {
        assert On(s.cur, s.last, c, t);
        assert d == c;
      }
    }
    forall t | t in s.info && Created(s2.tasks, s2.info, t) && s2.info[t].run
      ensures exists d :: On(s2.cur, s2.last, d, t)
    {
      var d :| On(s.cur, s.last, d, t);
      assert On(s2.cur, s2.last, d, t);
    }
  }

  lemma SwitchKeeps<T>(s: State<T>, c: nat, rnd: nat)
    requires Inv(s) && c < |s.cur| && s.last[c] == s.cur[c]
    ensures Inv(Switch(s, c, rnd))
  {
    SwitchShape(s, c, rnd);
    SwitchFlags(s, c, rnd);
    SwitchPlaced(s, c, rnd);
  }

  lemma SwitchShape<T>(s: State<T>, c: nat, rnd: nat)
    requires Inv(s) && c < |s.cur|
    ensures Shape(Switch(s, c, rnd))
  {
    var t := Pick(s, c, rnd);
    PickOk(s, c, rnd);
    FlagsKeepShape(s, t, s.info[t].(run := true));
    FlagsOnly(s.tasks, s.info, t, s.info[t].(run := true));
  }

  lemma SwitchFlags<T>(s: State<T>, c: nat, rnd: nat)
    requires Inv(s) && c < |s.cur|
    ensures var s2 := Switch(s, c, rnd); Queued(s2.info, s2.sems) && Awake(s2.info, s2.cur, s2.yielding)
  {
    PickOk(s, c, rnd);
    DefaultAwake(s, s.dflt[c]);
  }

  /** A default waits nowhere: whoever waits is created. */
  lemma DefaultAwake<T>(s: State<T>, t: T)
    requires Inv(s) && t in s.info && !Created(s.tasks, s.info, t)
    ensures !s.info[t].sleep
  {
  }

  /** The scheduler picks a created task that runs nowhere and sleeps nowhere, or the CPU's default. */
  lemma PickOk<T>(s: State<T>, c: nat, rnd: nat)
    requires Inv(s) && c < |s.cur|
    ensures var t := Pick(s, c, rnd);
      t in s.info && (t == s.dflt[c] || (Created(s.tasks, s.info, t) && !s.info[t].run && !s.info[t].sleep))
  {
    ChosenRunnable(s, Seed(s, c, rnd), 0);
  }

  lemma SwitchPlaced<T>(s: State<T>, c: nat, rnd: nat)
    requires Inv(s) && c < |s.cur| && s.last[c] == s.cur[c]
    ensures var s2 := Switch(s, c, rnd); Placed(s2.tasks, s2.info, s2.cur, s2.last)
  {
    var s2, u := Switch(s, c, rnd), Pick(s, c, rnd);
    PickOk(s, c, rnd);
    forall d | On(s.cur, s.last, d, u) ensures d == c {
      DefaultAtHome(s, c, d);
    }
    forall d, t | t in s.info && On(s2.cur, s2.last, d, t)
      ensures (On(s.cur, s.last, d, t) || (d == c && t == u)) && s2.info[t].run
    {
    }
    forall t | t in s.info && Created(s2.tasks, s2.info, t) && s2.info[t].run
      ensures exists d :: On(s2.cur, s2.last, d, t)
    {
      if t == u {
        assert On(s2.cur, s2.last, c, t);
      } else {
        var d :| On(s.cur, s.last, d, t);
        assert On(s2.cur, s2.last, d, t);
      }
    }
  }

  /** A default task is never on another CPU. */
  lemma DefaultAtHome<T>(s: State<T>, c: nat, d: nat)
    requires Shape(s) && c < |s.dflt| && On(s.cur, s.last, d, s.dflt[c])
    ensures d == c
  {
  }

  // ---- Creation ----

  lemma {:induction false} TakenAll<T>(tasks: seq<Option<T>>, n: nat)
    requires n <= |tasks| && forall k :: 0 <= k < n ==> tasks[k].Some?
    ensures Taken(tasks, n) == n
  {
    if n > 0 {
      TakenAll(tasks, n - 1);
    }
  }

  lemma {:induction false} TakenUpdate<T>(tasks: seq<Option<T>>, k: nat, t: T, n: nat)
    requires n <= |tasks| && k < |tasks| && tasks[k].None?
    ensures Taken(tasks[k := Some(t)], n) == Taken(tasks, n) + (if k < n then 1 else 0)
  {
    if n > 0 {
      TakenUpdate(tasks, k, t, n - 1);
    }
  }

  /** While the count is below the table size the search finds a free slot. */
  lemma FreeRoundFound<T>(s: State<T>, rnd: nat)
    requires Shape(s) && Counted(s) && s.cntTasks < MAXTASK
    ensures FreeRound(s.tasks, rnd, 0) < MAXTASK
  {
    if FreeRound(s.tasks, rnd, 0) == MAXTASK {
      forall k | 0 <= k < MAXTASK ensures s.tasks[k].Some? {
        var j := (k - rnd) % MAXTASK;
        SlotReached(k, rnd);
        assert s.tasks[CreateSlot(rnd, j)].Some?;
      }
      TakenAll(s.tasks, MAXTASK);
    }
  }

  /** A new task gets the free slot that is nearest behind the random one. */
  lemma FreeNearest<T>(s: State<T>, rnd: nat, k: nat)
    requires Shape(s) && Counted(s) && s.cntTasks < MAXTASK && k < MAXTASK && s.tasks[k].None?
    ensures var f := FreeSlot(s.tasks, rnd); s.tasks[f].None? && (f - rnd) % MAXTASK <= (k - rnd) % MAXTASK
  {
    var seed := rnd % MAXTASK;
    FreeRoundFound(s, seed);
    SlotReached(k, seed);
    RoundOf(seed, FreeRound(s.tasks, seed, 0));
    FromRandom(k, rnd);
    FromRandom(FreeSlot(s.tasks, rnd), rnd);
  }

  lemma RoundOf(seed: nat, r: nat)
    requires seed < MAXTASK && r < MAXTASK
    ensures CreateSlot(seed, r) < MAXTASK && (CreateSlot(seed, r) - seed) % MAXTASK == r
  {
  }

  lemma FromRandom(k: nat, rnd: nat)
    ensures (k - rnd) % MAXTASK == (k - rnd % MAXTASK) % MAXTASK
  {
    assert k - rnd == k - rnd % MAXTASK - MAXTASK * (rnd / MAXTASK);
  }

  lemma SlotReached(k: nat, rnd: nat)
    requires k < MAXTASK
    ensures 0 <= (k - rnd) % MAXTASK < MAXTASK && CreateSlot(rnd, (k - rnd) % MAXTASK) == k
  {
  }

  /** Not in the table, and no CPU's default. Then no CPU and no queue refers to it either. */
  ghost predicate Unused<T>(s: State<T>, t: T) {
    !Created(s.tasks, s.info, t) && forall c :: 0 <= c < |s.dflt| ==> s.dflt[c] != t
  }

  /** Creating a task, new or torn down before. */
  lemma CreateKeeps<T>(s: State<T>, t: T, rnd: nat)
    requires Inv(s) && Unused(s, t)
    ensures Inv(Create(s, t, rnd))
    ensures s.cntTasks < MAXTASK ==> Created(Create(s, t, rnd).tasks, Create(s, t, rnd).info, t)
  {
    if s.cntTasks < MAXTASK {
      var k := FreeSlot(s.tasks, rnd);
      FreeRoundFound(s, rnd % MAXTASK);
      TakenUpdate(s.tasks, k, t, MAXTASK);
      CreatedMore(s.tasks, s.info, t, k);
      NowhereYet(s, t);
      CreateShape(s, t, k);
      CreateFlags(s, t, k);
    }
  }

  lemma CreatedMore<T>(tasks: seq<Option<T>>, info: map<T, Info>, t: T, k: nat)
    requires Table(tasks, info) && k < MAXTASK && tasks[k].None? && !Created(tasks, info, t)
    ensures Table(tasks[k := Some(t)], info[t := Info(false, false, k)])
    ensures forall u :: u in info && u != t ==> Created(tasks[k := Some(t)], info[t := Info(false, false, k)], u) == Created(tasks, info, u)
    ensures Created(tasks[k := Some(t)], info[t := Info(false, false, k)], t)
  {
  }

  lemma NowhereYet<T>(s: State<T>, t: T)
    requires Shape(s) && Unused(s, t)
    ensures forall c :: !On(s.cur, s.last, c, t)
    ensures forall m, p :: !Waits(s.sems, m, p, t)
  {
  }

  lemma CreateShape<T>(s: State<T>, t: T, k: nat)
    requires Shape(s) && Unused(s, t) && k < MAXTASK && s.tasks[k].None?
    ensures Shape(s.(tasks := s.tasks[k := Some(t)], info := s.info[t := Info(false, false, k)]))
  {
    CreatedMore(s.tasks, s.info, t, k);
  }

  lemma CreateFlags<T>(s: State<T>, t: T, k: nat)
    requires Inv(s) && Unused(s, t) && k < MAXTASK && s.tasks[k].None?
    ensures Placed(s.tasks[k := Some(t)], s.info[t := Info(false, false, k)], s.cur, s.last)
    ensures Queued(s.info[t := Info(false, false, k)], s.sems) && Awake(s.info[t := Info(false, false, k)], s.cur, s.yielding)
  {
    CreatedMore(s.tasks, s.info, t, k);
    NowhereYet(s, t);
  }

  /** Creating any other task breaks the table, or makes a default schedulable everywhere. */
  lemma CreateOnlyUnused<T>(s: State<T>, t: T, rnd: nat)
    requires Inv(s) && s.cntTasks < MAXTASK
    ensures Inv(Create(s, t, rnd)) <==> Unused(s, t)
  {
    FreeRoundFound(s, rnd % MAXTASK);
    if Unused(s, t) {
      CreateKeeps(s, t, rnd);
    } else {
      var s2, k := Create(s, t, rnd), FreeSlot(s.tasks, rnd);
      assert Created(s2.tasks, s2.info, t);
      if Created(s.tasks, s.info, t) {
        assert s2.tasks[s.info[t].id] == Some(t);
      }
    }
  }

  // ---- Teardown ----

  /** A task that is created, on no CPU and in no queue. */
  ghost predicate Detached<T>(s: State<T>, t: T) {
    Created(s.tasks, s.info, t) && !s.info[t].run
    && forall m, p :: 0 <= m < |s.sems| && 0 <= p < |s.sems[m].queue| ==> s.sems[m].queue[p] != t
  }

  lemma {:induction false} TakenRemoved<T>(tasks: seq<Option<T>>, k: nat, n: nat)
    requires n <= |tasks| && k < |tasks| && tasks[k].Some?
    ensures Taken(tasks[k := None], n) == Taken(tasks, n) - (if k < n then 1 else 0)
  {
    if n > 0 {
      TakenRemoved(tasks, k, n - 1);
    }
  }

  lemma CreatedFewer<T>(tasks: seq<Option<T>>, info: map<T, Info>, t: T)
    requires Table(tasks, info) && Created(tasks, info, t)
    ensures Table(tasks[info[t].id := None], info)
    ensures forall u :: Created(tasks[info[t].id := None], info, u) <==> u != t && Created(tasks, info, u)
  {
  }

  lemma TeardownShape<T>(s: State<T>, t: T)
    requires Inv(s) && Detached(s, t) && s.cntTasks > 0
    ensures Shape(Teardown(s, t))
  {
    CreatedFewer(s.tasks, s.info, t);
    forall c | 0 <= c < |s.cur| ensures s.cur[c] != Some(t) && s.last[c] != Some(t) {
      assert !On(s.cur, s.last, c, t);
    }
  }

  /** Tearing down a task that no CPU and no queue refers to. */
  lemma TeardownKeeps<T>(s: State<T>, t: T)
    requires Inv(s) && Detached(s, t)
    ensures s.cntTasks > 0 && Inv(Teardown(s, t)) && !Created(Teardown(s, t).tasks, Teardown(s, t).info, t)
  {
    TakenRemoved(s.tasks, s.info[t].id, MAXTASK);
    TeardownShape(s, t);
    CreatedFewer(s.tasks, s.info, t);
  }

  lemma NotDefault<T>(s: State<T>, c: nat, t: T)
    requires Shape(s) && Created(s.tasks, s.info, t) && c < |s.dflt|
    ensures s.dflt[c] != t
  {
  }

  /** Tearing down any other task leaves a CPU or a queue with a task that is gone. */
  lemma TeardownOnlyDetached<T>(s: State<T>, t: T)
    requires Inv(s) && Created(s.tasks, s.info, t)
    ensures s.cntTasks > 0
    ensures Inv(Teardown(s, t)) <==> Detached(s, t)
  {
    TakenRemoved(s.tasks, s.info[t].id, MAXTASK);
    if Detached(s, t) {
      TeardownKeeps(s, t);
    } else {
      CreatedFewer(s.tasks, s.info, t);
      if s.info[t].run {
        var c: nat :| On(s.cur, s.last, c, t);
        NotDefault(s, c, t);
      }
    }
  }

  // ---- Semaphore steps ----

  lemma WaitKeeps<T>(s: State<T>, c: nat, m: nat)
    requires Inv(s) && c < |s.cur| && m < |s.sems| && !s.sems[m].waking
    requires s.cur[c].Some? && Created(s.tasks, s.info, s.cur[c].value) && !s.yielding[c]
    ensures Inv(Wait(s, c, m))
  {
    var t, sem, s2 := s.cur[c].value, s.sems[m], Wait(s, c, m);
    WaitSemOk(sem, t);
    if sem.count - 1 < 0 {
      FlagsKeepShape(s, t, s.info[t].(sleep := true));
      FlagsOnly(s.tasks, s.info, t, s.info[t].(sleep := true));
      WaitQueued(s, t, m, s2.sems[m]);
      OneCpu(s, c, t);
    } else {
      FinishQueued(s, m, s2.sems[m]);
    }
  }

  /** Who waits where after t joins the queue of semaphore m. */
  lemma WaitsAfterJoin<T>(sems: seq<Sem<T>>, m: nat, t: T, joined: Sem<T>, n: nat, p: nat, u: T)
    requires m < |sems| && !sems[m].waking && !joined.waking && joined.queue == [t] + sems[m].queue
    ensures Waits(sems[m := joined], n, p, u) <==>
      (n != m && Waits(sems, n, p, u)) || (n == m && p == 0 && u == t) || (n == m && p > 0 && Waits(sems, m, p - 1, u))
  {
  }

  lemma WaitQueued<T>(s: State<T>, t: T, m: nat, joined: Sem<T>)
    requires Queued(s.info, s.sems) && t in s.info && !s.info[t].sleep
    requires m < |s.sems| && !s.sems[m].waking && !joined.waking && joined.queue == [t] + s.sems[m].queue
    ensures Queued(SetSleep(s.info, t, true), s.sems[m := joined])
  {
    var sems2, info2 := s.sems[m := joined], SetSleep(s.info, t, true);
    forall n, p, u | u in s.info && Waits(sems2, n, p, u)
      ensures info2[u].sleep && (u == t ==> n == m && p == 0)
    {
      WaitsAfterJoin(s.sems, m, t, joined, n, p, u);
    }
    forall n, p, n', p', u | u in s.info && Waits(sems2, n, p, u) && Waits(sems2, n', p', u)
      ensures n == n' && p == p'
    {
      WaitsAfterJoin(s.sems, m, t, joined, n, p, u);
      WaitsAfterJoin(s.sems, m, t, joined, n', p', u);
    }
    forall u | u in s.info && info2[u].sleep ensures exists n, p :: Waits(sems2, n, p, u) {
      if u == t {
        assert Waits(sems2, m, 0, t);
      } else {
        var n, p :| Waits(s.sems, n, p, u);
        var p2 := if n == m then p + 1 else p;
        WaitsAfterJoin(s.sems, m, t, joined, n, p2, u);
        assert Waits(sems2, n, p2, u);
      }
    }
  }

  lemma WaitSemOk<T>(sem: Sem<T>, t: T)
    requires SemOk(sem) && !sem.waking
    ensures SemOk(TakeSem(sem, t))
  {
    assert ([t] + sem.queue)[1..] == sem.queue;
    assert sem.woken + Reversed(sem.queue) + [t] == sem.woken + (Reversed(sem.queue) + [t]);
  }

  lemma OneCpu<T>(s: State<T>, c: nat, t: T)
    requires Inv(s) && c < |s.cur| && s.cur[c] == Some(t)
    ensures forall d :: 0 <= d < |s.cur| && s.cur[d] == Some(t) ==> d == c
  {
    forall d | 0 <= d < |s.cur| && s.cur[d] == Some(t) ensures d == c {
      assert On(s.cur, s.last, d, t) && On(s.cur, s.last, c, t);
    }
  }

  /** Who waits where after a signal has chosen the oldest waiter of semaphore m, and after it has finished. */
  lemma WaitsAfterWake<T>(sems: seq<Sem<T>>, m: nat, woken: Sem<T>, n: nat, p: nat, u: T)
    requires m < |sems| && sems[m].queue != [] && !sems[m].waking && woken == sems[m].(waking := true)
    ensures Waits(sems[m := woken], n, p, u) <==> Waits(sems, n, p, u) && !(n == m && p == |sems[m].queue| - 1)
  {
  }

  lemma WaitsAfterFinish<T>(sems: seq<Sem<T>>, m: nat, done: Sem<T>, n: nat, p: nat, u: T)
    requires m < |sems| && !done.waking
    requires done.queue == if sems[m].waking && sems[m].queue != [] then sems[m].queue[..|sems[m].queue| - 1] else sems[m].queue
    requires sems[m].waking ==> sems[m].queue != []
    ensures Waits(sems[m := done], n, p, u) <==> Waits(sems, n, p, u)
  {
  }

  lemma WakeKeeps<T>(s: State<T>, m: nat)
    requires Inv(s) && m < |s.sems| && !s.sems[m].waking && s.sems[m].cntTasks > 0
    ensures Inv(SignalWake(s, m))
  {
    var q := s.sems[m].queue;
    var t := q[|q| - 1];
    FlagsOnly(s.tasks, s.info, t, s.info[t].(sleep := false));
    WakeQueued(s, m, t);
    WakeShape(s, m);
    WakeSems(s, m);
  }

  lemma WakeShape<T>(s: State<T>, m: nat)
    requires Shape(s) && m < |s.sems| && s.sems[m].queue != []
    ensures Shape(SignalWake(s, m))
  {
    var t := s.sems[m].queue[|s.sems[m].queue| - 1];
    FlagsKeepShape(s, t, s.info[t].(sleep := false));
  }

  lemma WakeSems<T>(s: State<T>, m: nat)
    requires Inv(s) && m < |s.sems| && s.sems[m].queue != []
    ensures Sems(SignalWake(s, m))
  {
  }

  lemma WakeQueued<T>(s: State<T>, m: nat, t: T)
    requires Queued(s.info, s.sems) && m < |s.sems| && !s.sems[m].waking && s.sems[m].queue != []
    requires t == s.sems[m].queue[|s.sems[m].queue| - 1] && t in s.info
    ensures Queued(SetSleep(s.info, t, false), s.sems[m := s.sems[m].(waking := true)])
  {
    var woken := s.sems[m].(waking := true);
    var sems2, info2 := s.sems[m := woken], SetSleep(s.info, t, false);
    var last := |s.sems[m].queue| - 1;
    assert Waits(s.sems, m, last, t);
    forall n, p, u | u in s.info && Waits(sems2, n, p, u) ensures Waits(s.sems, n, p, u) && info2[u].sleep {
      WaitsAfterWake(s.sems, m, woken, n, p, u);
    }
    forall u | u in s.info && info2[u].sleep ensures exists n, p :: Waits(sems2, n, p, u) {
      var n, p :| Waits(s.sems, n, p, u);
      WaitsAfterWake(s.sems, m, woken, n, p, u);
      assert Waits(sems2, n, p, u);
    }
  }

  lemma FinishKeeps<T>(s: State<T>, m: nat)
    requires Inv(s) && m < |s.sems| && (s.sems[m].waking || s.sems[m].cntTasks <= 0)
    ensures Inv(SignalFinish(s, m))
  {
    FinishSemOk(s.sems[m]);
    FinishQueued(s, m, SignalFinish(s, m).sems[m]);
  }

  lemma FinishQueued<T>(s: State<T>, m: nat, done: Sem<T>)
    requires Queued(s.info, s.sems) && m < |s.sems| && !done.waking
    requires done.queue == if s.sems[m].waking && s.sems[m].queue != [] then s.sems[m].queue[..|s.sems[m].queue| - 1] else s.sems[m].queue
    requires s.sems[m].waking ==> s.sems[m].queue != []
    ensures Queued(s.info, s.sems[m := done])
  {
    var sems2 := s.sems[m := done];
    forall n, p, u | u in s.info && Waits(sems2, n, p, u) ensures Waits(s.sems, n, p, u) {
      WaitsAfterFinish(s.sems, m, done, n, p, u);
    }
    forall u | u in s.info && s.info[u].sleep ensures exists n, p :: Waits(sems2, n, p, u) {
      var n, p :| Waits(s.sems, n, p, u);
      WaitsAfterFinish(s.sems, m, done, n, p, u);
      assert Waits(sems2, n, p, u);
    }
  }

  lemma FinishSemOk<T>(sem: Sem<T>)
    requires SemOk(sem) && (sem.waking || sem.cntTasks <= 0)
    ensures SemOk(GiveSem(sem))
  {
    if sem.waking {
      ReversedSnoc(sem.queue);
    }
  }

  lemma {:induction false} ReversedSnoc<T>(q: seq<T>)
    requires q != []
    ensures Reversed(q) == [q[|q| - 1]] + Reversed(q[..|q| - 1])
  {
    if |q| > 1 {
      ReversedSnoc(q[1..]);
      assert q[1..][..|q| - 2] == q[..|q| - 1][1..];
    }
  }

  /** sem_signal when nothing else happens in between. */
  ghost function Signal<T>(s: State<T>, m: nat): State<T>
    requires Shape(s) && m < |s.sems| && !s.sems[m].waking && (s.sems[m].cntTasks > 0 ==> s.sems[m].queue != [])
  {
    SignalFinish(if s.sems[m].cntTasks > 0 then SignalWake(s, m) else s, m)
  }

  lemma SignalKeeps<T>(s: State<T>, m: nat)
    requires Inv(s) && m < |s.sems| && !s.sems[m].waking
    ensures s.sems[m].cntTasks > 0 ==> s.sems[m].queue != []
    ensures Inv(Signal(s, m))
  {
    if s.sems[m].cntTasks > 0 {
      WakeKeeps(s, m);
      FinishKeeps(SignalWake(s, m), m);
    } else {
      FinishKeeps(s, m);
    }
  }

  // ---- Runs ----

  /** Atomic steps. A trap runs the save and the switch handler under one lock; a signal takes two steps. */
  datatype Step<T> =
    | Trap(cpu: nat, rnd: nat)
    | CreateTask(task: T, rnd: nat)
    | EndTask(task: T)
    | SemWait(cpu: nat, sem: nat)
    | Wake(sem: nat)
    | Finish(sem: nat)

  /** When a step can happen: locks exclude each other, and a task that has blocked must yield before it runs on. */
  ghost predicate Enabled<T>(s: State<T>, step: Step<T>) {
    match step
    case Trap(c, _) => c < |s.cur|
    case CreateTask(t, _) => Unused(s, t)
    case EndTask(t) => Detached(s, t)
    case SemWait(c, m) =>
      && c < |s.cur| && c < |s.yielding| && m < |s.sems| && !s.sems[m].waking && !s.yielding[c]
      && s.cur[c].Some? && Created(s.tasks, s.info, s.cur[c].value)
    case Wake(m) => m < |s.sems| && !s.sems[m].waking && s.sems[m].cntTasks > 0
    case Finish(m) => m < |s.sems| && (s.sems[m].waking || s.sems[m].cntTasks <= 0)
  }

  lemma TrapKeeps<T>(s: State<T>, c: nat, rnd: nat)
    requires Inv(s) && c < |s.cur|
    ensures Inv(Save(s, c)) && Inv(Switch(Save(s, c), c, rnd))
  {
    SaveKeeps(s, c);
    SwitchKeeps(Save(s, c), c, rnd);
  }

  ghost function Next<T>(s: State<T>, step: Step<T>): (s2: State<T>)
    requires Inv(s) && Enabled(s, step)
    ensures Inv(s2)
  {
    match step
    case Trap(c, rnd) => TrapKeeps(s, c, rnd); Switch(Save(s, c), c, rnd)
    case CreateTask(t, rnd) => CreateKeeps(s, t, rnd); Create(s, t, rnd)
    case EndTask(t) => TeardownKeeps(s, t); Teardown(s, t)
    case SemWait(c, m) => WaitKeeps(s, c, m); Wait(s, c, m)
    case Wake(m) => WakeKeeps(s, m); SignalWake(s, m)
    case Finish(m) => FinishKeeps(s, m); SignalFinish(s, m)
  }

  /** kmt_init: no tasks, every CPU idle, semaphores with a non-negative value and nobody waiting. */
  ghost predicate Initial<T>(s: State<T>) {
    && s.tasks == seq(MAXTASK, _ => None) && s.cntTasks == 0
    && |s.cur| == |s.last| == |s.dflt| == |s.yielding|
    && (forall c :: 0 <= c < |s.cur| ==> s.cur[c] == None && s.last[c] == None && !s.yielding[c])
    && (forall c :: 0 <= c < |s.dflt| ==> s.dflt[c] in s.info)
    && (forall c, d :: 0 <= c < d < |s.dflt| ==> s.dflt[c] != s.dflt[d])
    && (forall t :: t in s.info ==> s.info[t] == Info(false, false, 0))
    && (forall m :: 0 <= m < |s.sems| ==> s.sems[m] == Sem(s.sems[m].init, 0, [], false, s.sems[m].init, 0, 0, [], []))
  }

  /** states[0..n] is a run: each state is what one enabled step makes of the one before. */
  ghost predicate Run<T>(states: seq<State<T>>, steps: seq<Step<T>>) {
    && |states| == |steps| + 1 && Initial(states[0])
    && forall i :: 0 <= i < |steps| ==> StepsAt(states, steps, i)
  }

  ghost predicate StepsAt<T>(states: seq<State<T>>, steps: seq<Step<T>>, i: nat)
    requires i < |steps| && i + 1 < |states|
  {
    Steps(states[i], steps[i], states[i + 1])
  }

  ghost predicate Steps<T>(s: State<T>, step: Step<T>, s2: State<T>) {
    Inv(s) ==> Enabled(s, step) && s2 == Next(s, step)
  }

  lemma InitialInv<T>(s: State<T>)
    requires Initial(s)
    ensures Inv(s)
  {
    TakenNone(s.tasks, MAXTASK);
  }

  lemma {:induction false} TakenNone<T>(tasks: seq<Option<T>>, n: nat)
    requires n <= |tasks| && forall k :: 0 <= k < n ==> tasks[k].None?
    ensures Taken(tasks, n) == 0
  {
    if n > 0 {
      TakenNone(tasks, n - 1);
    }
  }

  /** Every state of every run satisfies the invariant. */
  lemma {:induction false} RunInv<T>(states: seq<State<T>>, steps: seq<Step<T>>, i: nat)
    requires Run(states, steps) && i < |states|
    ensures Inv(states[i])
  {
    if i == 0 {
      InitialInv(states[0]);
    } else {
      RunInv(states, steps, i - 1);
      assert StepsAt(states, steps, i - 1);
    }
  }

  /**
   * Nothing but locks and a pending yield stands in the way of a step: every CPU can trap, every unused task be created and
   * every detached one torn down, a semaphore that no signal has begun to wake a task of can be waited on and signalled, and
   * a signal that has begun can end.
   */
  lemma StepsPossible<T>(s: State<T>, c: nat, rnd: nat, t: T, m: nat)
    requires Inv(s)
    ensures c < |s.cur| ==> Enabled(s, Trap(c, rnd))
    ensures Unused(s, t) ==> Enabled(s, CreateTask(t, rnd))
    ensures Detached(s, t) ==> Enabled(s, EndTask(t))
    ensures c < |s.cur| && s.cur[c] == Some(t) && Created(s.tasks, s.info, t) && !s.yielding[c] && m < |s.sems| && !s.sems[m].waking ==>
      Enabled(s, SemWait(c, m))
    ensures m < |s.sems| && !s.sems[m].waking ==> Enabled(s, if s.sems[m].count < 0 then Wake(m) else Finish(m))
    ensures m < |s.sems| && s.sems[m].waking ==> Enabled(s, Finish(m))
  {
  }

  /** After a trap nothing is pending on its CPU, which goes on with what it was handed. */
  lemma TrapEnds<T>(s: State<T>, c: nat, rnd: nat)
    requires Inv(s) && c < |s.cur|
    ensures var s2 := Next(s, Trap(c, rnd));
      && |s2.cur| == |s.cur| && s2.last == s.last[c := s.cur[c]] && s2.cur[c].Some? && s2.info[s2.cur[c].value].run
      && s2.yielding == s.yielding[c := false] && s2.sems == s.sems && s2.tasks == s.tasks
      && forall d :: 0 <= d < |s.cur| && d != c ==> s2.cur[d] == s.cur[d]
  {
    TrapKeeps(s, c, rnd);
  }

  // ---- What the invariant means ----

  /** What a CPU is handed to run next is on no CPU, not even on the stack of one that is about to leave it. */
  lemma ResumeIsSafe<T>(s: State<T>, c: nat, rnd: nat, d: nat)
    requires Inv(s) && c < |s.cur|
    ensures Shape(Save(s, c))
    ensures var s1 := Save(s, c); var t := Pick(s1, c, rnd);
      t != s.dflt[c] ==> Created(s1.tasks, s1.info, t) && !On(s1.cur, s1.last, d, t)
  {
    SaveKeeps(s, c);
    PickOk(Save(s, c), c, rnd);
  }

  /** A created task has its run flag set exactly when it is on a CPU. */
  lemma RunsIffOn<T>(s: State<T>, t: T)
    requires Inv(s) && Created(s.tasks, s.info, t)
    ensures s.info[t].run <==> exists c :: On(s.cur, s.last, c, t)
  {
  }

  /** The kernel's assertions: a CPU's task is running, and a semaphore that counts waiters has a queue. */
  lemma AssertionsHold<T>(s: State<T>, c: nat, m: nat)
    requires Inv(s)
    ensures c < |s.cur| && s.cur[c].Some? ==> s.info[s.cur[c].value].run
    ensures m < |s.sems| && s.sems[m].cntTasks > 0 ==> s.sems[m].queue != []
  {
    if c < |s.cur| && s.cur[c].Some? {
      assert On(s.cur, s.last, c, s.cur[c].value);
    }
  }

  ghost predicate Ready<T>(s: State<T>, t: T) {
    Created(s.tasks, s.info, t) && !s.info[t].run && !s.info[t].sleep
  }

  /**
   * A signal is not lost on a waiter that has not yielded yet: whoever it wakes is created and awake, wherever it is,
   * and ready as soon as no CPU is on it.
   */
  lemma WakeIsNotLost<T>(s: State<T>, m: nat)
    requires Inv(s) && Enabled(s, Wake(m))
    ensures var q := s.sems[m].queue; var t := q[|q| - 1]; var s2 := SignalWake(s, m);
      && s.info[t].sleep && !s2.info[t].sleep && Created(s2.tasks, s2.info, t)
      && (Ready(s2, t) <==> forall c :: !On(s2.cur, s2.last, c, t))
  {
    var q := s.sems[m].queue;
    assert Waits(s.sems, m, |q| - 1, q[|q| - 1]);
    WakeKeeps(s, m);
  }

  /**
   * In every state of every run: the queue is as long as the count is negative, every pass is paid for by the initial value
   * or a signal, and waiters are woken in the order in which they blocked.
   */
  lemma SemaphoreLaw<T>(states: seq<State<T>>, steps: seq<Step<T>>, i: nat, m: nat)
    requires Run(states, steps) && i < |states| && m < |states[i].sems|
    ensures var sem := states[i].sems[m];
      && sem.cntTasks == |sem.queue| == (if sem.count < 0 then -sem.count else 0)
      && sem.init + sem.signals == sem.passed + (if sem.count > 0 then sem.count else 0)
      && sem.woken <= sem.blocked && |sem.blocked| == |sem.woken| + |sem.queue|
      && (sem.queue != [] ==> sem.blocked[|sem.woken|] == sem.queue[|sem.queue| - 1])
  {
    RunInv(states, steps, i);
    var sem := states[i].sems[m];
    if sem.queue != [] {
      ReversedSnoc(sem.queue);
    }
  }

  // ---- Semaphores by the calls made on them ----

  /** Calls of sem_wait on semaphore m among the first i steps, and of sem_signal, counted at their last step. */
  ghost function Waited<T>(steps: seq<Step<T>>, m: nat, i: nat): nat
    requires i <= |steps|
  {
    if i == 0 then 0 else Waited(steps, m, i - 1) + (if steps[i - 1].SemWait? && steps[i - 1].sem == m then 1 else 0)
  }

  ghost function Signalled<T>(steps: seq<Step<T>>, m: nat, i: nat): nat
    requires i <= |steps|
  {
    if i == 0 then 0 else Signalled(steps, m, i - 1) + (if steps[i - 1] == Finish(m) then 1 else 0)
  }

  /** How often a signal has cleared a waiter's sleep flag. */
  ghost function Woken<T>(steps: seq<Step<T>>, m: nat, i: nat): nat
    requires i <= |steps|
  {
    if i == 0 then 0 else Woken(steps, m, i - 1) + (if steps[i - 1] == Wake(m) then 1 else 0)
  }

  /** The tasks that have called sem_wait when the count was not positive, in the order of their calls. */
  ghost function Blockers<T>(states: seq<State<T>>, steps: seq<Step<T>>, m: nat, i: nat): seq<T>
    requires i <= |steps| && i <= |states|
  {
    if i == 0 then [] else
      var s, step, before := states[i - 1], steps[i - 1], Blockers(states, steps, m, i - 1);
      if step.SemWait? && step.sem == m && m < |s.sems| && s.sems[m].count <= 0 && step.cpu < |s.cur| && s.cur[step.cpu].Some? then
        before + [s.cur[step.cpu].value]
      else before
  }

  /** What a semaphore has to do with the calls made on it. */
  ghost predicate Tallies<T>(sem: Sem<T>, init: nat, waited: nat, signalled: nat, woken: nat, blockers: seq<T>) {
    && sem.init == init && sem.count == init + signalled - waited && sem.signals == signalled
    && sem.passed + |sem.queue| == waited
    && sem.blocked == blockers && |sem.woken| + (if sem.waking then 1 else 0) == woken
  }

  lemma StepTallies<T>(s: State<T>, step: Step<T>, m: nat, init: nat, waited: nat, signalled: nat, woken: nat, blockers: seq<T>)
    requires Inv(s) && Enabled(s, step) && m < |s.sems| && Tallies(s.sems[m], init, waited, signalled, woken, blockers)
    ensures m < |Next(s, step).sems|
    ensures Tallies(Next(s, step).sems[m], init,
                    waited + (if step.SemWait? && step.sem == m then 1 else 0),
                    signalled + (if step == Finish(m) then 1 else 0),
                    woken + (if step == Wake(m) then 1 else 0),
                    if step.SemWait? && step.sem == m && s.sems[m].count <= 0 then blockers + [s.cur[step.cpu].value] else blockers)
  {
  }

  lemma InitialTallies<T>(s: State<T>, m: nat)
    requires Initial(s) && m < |s.sems|
    ensures Tallies(s.sems[m], s.sems[m].init, 0, 0, 0, [])
  {
  }

  /** Semaphore m before step i, against the first i steps. */
  ghost predicate TalliesAt<T>(states: seq<State<T>>, steps: seq<Step<T>>, init: nat, m: nat, i: nat)
    requires i <= |steps| && i < |states|
  {
    m < |states[i].sems| &&
    Tallies(states[i].sems[m], init, Waited(steps, m, i), Signalled(steps, m, i), Woken(steps, m, i), Blockers(states, steps, m, i))
  }

  lemma TalliesNext<T>(states: seq<State<T>>, steps: seq<Step<T>>, init: nat, m: nat, i: nat)
    requires i < |steps| && i + 1 < |states| && TalliesAt(states, steps, init, m, i)
    requires Inv(states[i]) && Enabled(states[i], steps[i]) && states[i + 1] == Next(states[i], steps[i])
    ensures TalliesAt(states, steps, init, m, i + 1)
  {
    StepTallies(states[i], steps[i], m, init, Waited(steps, m, i), Signalled(steps, m, i), Woken(steps, m, i),
                Blockers(states, steps, m, i));
  }

  lemma {:induction false} RunTallies<T>(states: seq<State<T>>, steps: seq<Step<T>>, i: nat, m: nat)
    requires Run(states, steps) && i < |states| && m < |states[0].sems|
    ensures TalliesAt(states, steps, states[0].sems[m].init, m, i)
  {
    if i == 0 {
      InitialTallies(states[0], m);
    } else {
      RunTallies(states, steps, i - 1, m);
      RunStep(states, steps, i - 1);
      TalliesNext(states, steps, states[0].sems[m].init, m, i - 1);
    }
  }

  /**
   * In every state of every run the count is the initial value, plus the signals, less the waits. As many tasks are queued as it
   * is below zero, and all other waits have passed.
   */
  lemma CountLaw<T>(states: seq<State<T>>, steps: seq<Step<T>>, i: nat, m: nat)
    requires Run(states, steps) && i < |states| && m < |states[0].sems|
    ensures m < |states[i].sems|
    ensures var sem := states[i].sems[m];
      && sem.count == states[0].sems[m].count + Signalled(steps, m, i) - Waited(steps, m, i)
      && sem.cntTasks == |sem.queue| == (if sem.count < 0 then -sem.count else 0)
      && sem.signals == Signalled(steps, m, i) && sem.passed == Waited(steps, m, i) - |sem.queue|
  {
    RunInv(states, steps, i);
    RunTallies(states, steps, i, m);
  }

  /**
   * First come, first served: the n-th signal to wake a task wakes the task that made the n-th sem_wait to find no positive
   * count. Nobody else's flags change.
   */
  lemma FirstServed<T>(states: seq<State<T>>, steps: seq<Step<T>>, i: nat, m: nat)
    requires Run(states, steps) && i < |steps| && m < |states[0].sems| && steps[i] == Wake(m)
    ensures Woken(steps, m, i) < |Blockers(states, steps, m, i)|
    ensures var t := Blockers(states, steps, m, i)[Woken(steps, m, i)];
      && t in states[i].info && states[i].info[t].sleep
      && states[i + 1].info == states[i].info[t := states[i].info[t].(sleep := false)]
  {
    RunStep(states, steps, i);
    RunTallies(states, steps, i, m);
    var q := states[i].sems[m].queue;
    ReversedSnoc(q);
    WakeIsNotLost(states[i], m);
  }

  /** A sem_wait puts its caller to sleep, and makes its CPU yield, exactly when the count is not positive. */
  lemma WaitBlocks<T>(states: seq<State<T>>, steps: seq<Step<T>>, i: nat, c: nat, m: nat)
    requires Run(states, steps) && i < |steps| && steps[i] == SemWait(c, m)
    ensures c < |states[i].cur| && states[i].cur[c].Some? && m < |states[i].sems|
    ensures var s, t := states[i], states[i].cur[c].value;
      && t in s.info && c < |s.yielding|
      && states[i + 1].info == (if s.sems[m].count <= 0 then s.info[t := s.info[t].(sleep := true)] else s.info)
      && states[i + 1].yielding == (if s.sems[m].count <= 0 then s.yielding[c := true] else s.yielding)
  {
    RunStep(states, steps, i);
  }

  /** In every state of every run a task sleeps exactly when it waits, and it waits in one place of one queue. */
  lemma SleepsIffWaits<T>(states: seq<State<T>>, steps: seq<Step<T>>, i: nat, t: T)
    requires Run(states, steps) && i < |states| && t in states[i].info
    ensures states[i].info[t].sleep <==> exists m, p :: Waits(states[i].sems, m, p, t)
    ensures forall m, p, n, q :: Waits(states[i].sems, m, p, t) && Waits(states[i].sems, n, q, t) ==> m == n && p == q
  {
    RunInv(states, steps, i);
  }

  /** In every state of every run a task is on one CPU at most, counting a CPU that is still on its stack, and then it is marked. */
  lemma OneCpuAtATime<T>(states: seq<State<T>>, steps: seq<Step<T>>, i: nat, c: nat, d: nat, t: T)
    requires Run(states, steps) && i < |states| && t in states[i].info
    requires On(states[i].cur, states[i].last, c, t) && On(states[i].cur, states[i].last, d, t)
    ensures c == d && states[i].info[t].run
  {
    RunInv(states, steps, i);
  }

  // ---- Bounded overtaking ----

  /** In how many rounds a search from seed finds the slot id: their cyclic distance. */
  function Gap(id: nat, seed: nat): nat { (id - seed - 1) % MAXTASK }

  lemma GapFinds(seed: nat, id: nat)
    requires seed < MAXTASK && id < MAXTASK
    ensures Gap(id, seed) < MAXTASK && Slot(seed, Gap(id, seed)) == id
  {
  }

  lemma GapShrinks(seed: nat, id: nat, r: nat)
    requires seed < MAXTASK && id < MAXTASK && r < Gap(id, seed)
    ensures Gap(id, Slot(seed, r)) == Gap(id, seed) - r - 1
  {
    var g := Gap(id, seed);
    assert id == if seed + g + 1 < MAXTASK then seed + g + 1 else seed + g + 1 - MAXTASK by { GapFinds(seed, id); }
  }

  /** The slot from is nearer before a than before b, going round, or as near. */
  predicate Nearer(from: nat, a: nat, b: nat) { (a - from - 1) % MAXTASK <= (b - from - 1) % MAXTASK }

  /** The CPU is handed a ready task when there is one, and no ready task has its slot nearer behind the current task's. */
  lemma PickNearest<T>(s: State<T>, c: nat, rnd: nat, t: T)
    requires Inv(s) && c < |s.cur| && Ready(s, t)
    ensures var u := Pick(s, c, rnd);
      Ready(s, u) && (s.cur[c].Some? ==> Nearer(s.info[s.cur[c].value].id, s.info[u].id, s.info[t].id))
  {
    var r := PickRound(s, c, rnd, t);
    PickOk(s, c, rnd);
    RoundIsNearest(Seed(s, c, rnd), r, s.info[t].id);
  }

  lemma RoundIsNearest(seed: nat, r: nat, id: nat)
    requires seed < MAXTASK && r < MAXTASK && r <= Gap(id, seed)
    ensures Nearer(seed, Slot(seed, r), id)
  {
    SlotGap(seed, r);
  }

  lemma SlotGap(seed: nat, r: nat)
    requires seed < MAXTASK && r < MAXTASK
    ensures Gap(Slot(seed, r), seed) == r
  {
  }

  /** Otherwise it is handed its default. */
  lemma PickDefault<T>(s: State<T>, c: nat, rnd: nat)
    requires Inv(s) && c < |s.cur| && forall t :: t in s.info ==> !Ready(s, t)
    ensures Pick(s, c, rnd) == s.dflt[c]
  {
    var t := Pick(s, c, rnd);
    PickOk(s, c, rnd);
    assert !Ready(s, t);
  }

  ghost function Distance<T>(s: State<T>, c: nat, t: T): nat
    requires Shape(s) && c < |s.cur| && t in s.info
  {
    Gap(s.info[t].id, Seed(s, c, 0))
  }

  /** The search stops at t's round at the latest. */
  lemma PickRound<T>(s: State<T>, c: nat, rnd: nat, t: T) returns (r: nat)
    requires Inv(s) && c < |s.cur| && Ready(s, t)
    ensures var u := Pick(s, c, rnd); var seed := Seed(s, c, rnd);
      && seed < MAXTASK && r <= Gap(s.info[t].id, seed) && r < MAXTASK
      && Created(s.tasks, s.info, u) && s.info[u].id == Slot(seed, r)
  {
    var seed, id := Seed(s, c, rnd), s.info[t].id;
    GapFinds(seed, id);
    ChooseFirst(s, seed, 0, Gap(id, seed));
    ChosenRunnable(s, seed, 0);
    r := Choose(s, seed, 0);
  }

  lemma StillReady<T>(s: State<T>, c: nat, rnd: nat, t: T)
    requires Inv(s) && c < |s.cur| && Ready(s, t) && Ready(Next(s, Trap(c, rnd)), t)
    ensures Inv(Save(s, c)) && Ready(Save(s, c), t) && Pick(Save(s, c), c, rnd) != t
  {
    SaveKeeps(s, c);
  }

  /** A trap that passes over a ready task leaves that task strictly closer. */
  lemma TrapCloses<T>(s: State<T>, c: nat, rnd: nat, t: T)
    requires Inv(s) && c < |s.cur| && Ready(s, t) && Ready(Next(s, Trap(c, rnd)), t)
    ensures var s2 := Next(s, Trap(c, rnd));
      && c < |s2.cur| && s2.cur[c].Some? && Distance(s2, c, t) <= MAXTASK - 2
      && (s.cur[c].Some? ==> Distance(s2, c, t) < Distance(s, c, t))
  {
    StillReady(s, c, rnd, t);
    var s1 := Save(s, c);
    var r := PickRound(s1, c, rnd, t);
    Closer(s1, c, rnd, t, r);
    if s.cur[c].Some? {
      assert Seed(s1, c, rnd) == Seed(s, c, 0);
    }
  }

  lemma SeedAfter<T>(s: State<T>, c: nat, rnd: nat, t: T)
    requires Inv(s) && c < |s.cur| && s.last[c] == s.cur[c] && t in s.info
    ensures Inv(Switch(s, c, rnd)) && Pick(s, c, rnd) in s.info && t in Switch(s, c, rnd).info
    ensures Seed(Switch(s, c, rnd), c, 0) == s.info[Pick(s, c, rnd)].id
    ensures Switch(s, c, rnd).info[t].id == s.info[t].id
  {
    PickOk(s, c, rnd);
    SwitchKeeps(s, c, rnd);
  }

  lemma Closer<T>(s: State<T>, c: nat, rnd: nat, t: T, r: nat)
    requires Inv(s) && c < |s.cur| && s.last[c] == s.cur[c] && Ready(s, t) && Pick(s, c, rnd) != t
    requires var u := Pick(s, c, rnd); var seed := Seed(s, c, rnd);
      && seed < MAXTASK && r <= Gap(s.info[t].id, seed) && r < MAXTASK
      && Created(s.tasks, s.info, u) && s.info[u].id == Slot(seed, r)
    ensures Inv(Switch(s, c, rnd))
    ensures Distance(Switch(s, c, rnd), c, t) == Gap(s.info[t].id, Seed(s, c, rnd)) - r - 1
  {
    SeedAfter(s, c, rnd, t);
    var seed, id := Seed(s, c, rnd), s.info[t].id;
    GapFinds(seed, id);
    assert r != Gap(id, seed);
    GapShrinks(seed, id, r);
  }

  ghost predicate IsTrap<T>(step: Step<T>, c: nat) { step.Trap? && step.cpu == c }

  /** Traps on CPU c among steps[i..j]. */
  ghost function Traps<T>(steps: seq<Step<T>>, c: nat, i: nat, j: nat): nat
    requires i <= j <= |steps|
    decreases j
  {
    if i == j then 0 else Traps(steps, c, i, j - 1) + (if IsTrap(steps[j - 1], c) then 1 else 0)
  }

  predicate SameId<T(==)>(info: map<T, Info>, info2: map<T, Info>, t: T) {
    t in info && t in info2 && info2[t].id == info[t].id
  }

  ghost predicate SameCpu<T>(s: State<T>, s2: State<T>, c: nat, t: T) {
    && c < |s.cur| == |s2.cur| && s2.cur[c] == s.cur[c] && SameId(s.info, s2.info, t)
    && (s.cur[c].Some? ==> SameId(s.info, s2.info, s.cur[c].value))
  }

  lemma SaveSameCpu<T>(s: State<T>, d: nat, c: nat, t: T)
    requires Shape(s) && d < |s.cur| && c < |s.cur| && t in s.info
    ensures SameCpu(s, Save(s, d), c, t)
  {
  }

  lemma SwitchSameCpu<T>(s: State<T>, d: nat, rnd: nat, c: nat, t: T)
    requires Shape(s) && d < |s.cur| && c < |s.cur| && t in s.info && d != c
    ensures SameCpu(s, Switch(s, d, rnd), c, t)
  {
  }

  lemma CreateSameCpu<T>(s: State<T>, u: T, rnd: nat, c: nat, t: T)
    requires Shape(s) && Unused(s, u) && c < |s.cur| && t in s.info && t != u
    ensures SameCpu(s, Create(s, u, rnd), c, t)
  {
    NowhereYet(s, u);
    assert !On(s.cur, s.last, c, u);
  }

  /** Nothing but a trap on CPU c moves its task or any id. */
  lemma OtherSameCpu<T>(s: State<T>, step: Step<T>, c: nat, t: T)
    requires Inv(s) && Enabled(s, step) && !IsTrap(step, c) && c < |s.cur| && Created(s.tasks, s.info, t)
    ensures SameCpu(s, Next(s, step), c, t)
  {
    match step
    case Trap(d, rnd) =>
      TrapKeeps(s, d, rnd);
      SaveSameCpu(s, d, c, t);
      SwitchSameCpu(Save(s, d), d, rnd, c, t);
    case CreateTask(u, rnd) => CreateSameCpu(s, u, rnd, c, t);
    case EndTask(u) =>
    case _ => SemSameCpu(s, step, c, t);
  }

  lemma SemSameCpu<T>(s: State<T>, step: Step<T>, c: nat, t: T)
    requires Inv(s) && Enabled(s, step) && (step.SemWait? || step.Wake? || step.Finish?) && c < |s.cur| && t in s.info
    ensures SameCpu(s, Next(s, step), c, t)
  {
  }

  /** After n traps on CPU c during which t was ready, t is at most MAXTASK - 1 - n rounds away from that CPU's task. */
  ghost predicate Closing<T>(s: State<T>, c: nat, t: T, n: nat) {
    && Shape(s) && c < |s.cur| && t in s.info && n < MAXTASK
    && (n > 0 ==> s.cur[c].Some? && n + Distance(s, c, t) < MAXTASK)
  }

  lemma OtherKeepsClosing<T>(s: State<T>, s2: State<T>, c: nat, t: T, n: nat)
    requires Closing(s, c, t, n) && Shape(s2) && SameCpu(s, s2, c, t)
    ensures Closing(s2, c, t, n)
  {
  }

  lemma TrapKeepsClosing<T>(s: State<T>, c: nat, rnd: nat, t: T, n: nat)
    requires Inv(s) && Closing(s, c, t, n) && Ready(s, t) && Ready(Next(s, Trap(c, rnd)), t)
    ensures Closing(Next(s, Trap(c, rnd)), c, t, n + 1)
  {
    TrapCloses(s, c, rnd, t);
  }

  /** Throughout states[i..j], t is ready. */
  ghost predicate ReadyThroughout<T>(states: seq<State<T>>, t: T, i: nat, j: nat) {
    forall k :: i <= k <= j && k < |states| ==> Ready(states[k], t)
  }

  lemma RunStep<T>(states: seq<State<T>>, steps: seq<Step<T>>, i: nat)
    requires Run(states, steps) && i < |steps|
    ensures Inv(states[i]) && Enabled(states[i], steps[i]) && states[i + 1] == Next(states[i], steps[i])
  {
    RunInv(states, steps, i);
    assert StepsAt(states, steps, i);
  }

  /**
   * Bounded overtaking: while a task stays ready, each CPU can trap fewer than MAXTASK times. So it is chosen within
   * MAXTASK switches of any one CPU.
   */
  lemma {:induction false} Overtaking<T>(states: seq<State<T>>, steps: seq<Step<T>>, c: nat, t: T, i: nat, j: nat)
    requires Run(states, steps) && i <= j < |states|
    requires c < |states[i].cur| && ReadyThroughout(states, t, i, j)
    ensures Traps(steps, c, i, j) < MAXTASK
    ensures Closing(states[j], c, t, Traps(steps, c, i, j))
    decreases j
  {
    if i == j {
      RunInv(states, steps, j);
    } else {
      Overtaking(states, steps, c, t, i, j - 1);
      OvertakingStep(states, steps, c, t, j - 1, Traps(steps, c, i, j - 1));
    }
  }

  lemma OvertakingStep<T>(states: seq<State<T>>, steps: seq<Step<T>>, c: nat, t: T, k: nat, n: nat)
    requires Run(states, steps) && k < |steps| && Closing(states[k], c, t, n)
    requires Ready(states[k], t) && Ready(states[k + 1], t)
    ensures Closing(states[k + 1], c, t, if IsTrap(steps[k], c) then n + 1 else n)
  {
    RunStep(states, steps, k);
    var s, step := states[k], steps[k];
    if IsTrap(step, c) {
      TrapKeepsClosing(s, c, step.rnd, t, n);
    } else {
      OtherSameCpu(s, step, c, t);
      OtherKeepsClosing(s, states[k + 1], c, t, n);
    }
  }
}
