/**
 * kernel/src/kmt.c: spinlocks and the interrupt flag, as a state machine whose steps are single shared-memory accesses
 * of any number of CPUs.
 */
module Spin {
  import opened Wrappers

  /** Where a CPU is in spin_lock or spin_unlock of lock l; saw is what holding has read from the locked word. */
  datatype Pc =
    | Idle
    | LockHolding(l: nat)
    | LockCheck(l: nat, saw: bool)
    | Try(l: nat)
    | Claim(l: nat)
    | UnlockCheck(l: nat, saw: bool)
    | Clear(l: nat)
    | Store(l: nat)
    | Pop(l: nat)
    | Panic(l: nat)

  /**
   * depth is cpuncli. The last two fields are history: the locks between their successful exchange and their releasing
   * store, and the interrupt flag as the CPU last set it outside of any lock.
   */
  datatype Cpu = Cpu(pc: Pc, depth: int, intena: bool, flag: bool, held: set<nat>, wish: bool)

  /** spinlock_t */
  datatype Lock = Lock(locked: bool, cpu: Option<nat>)

  datatype State = State(cpus: seq<Cpu>, locks: seq<Lock>)

  /** What an idle CPU begins, or the next access of one that is inside a call. */
  datatype Act = Acquire(l: nat) | Release(l: nat) | SetFlag(flag: bool) | Go

  // ---- Steps ----

  /** pushcli */
  function PushCli(p: Cpu): Cpu {
    p.(flag := false, intena := if p.depth == 0 then p.flag else p.intena, depth := p.depth + 1)
  }

  /** popcli, where it does not panic */
  function PopCli(p: Cpu): Cpu {
    p.(depth := p.depth - 1, flag := if p.depth - 1 == 0 && p.intena then true else p.flag)
  }

  /** The lock a step of CPU p looks at. */
  function Target(p: Cpu, act: Act): nat {
    match act
    case Acquire(l) => l
    case Release(l) => l
    case SetFlag(_) => 0
    case Go => if p.pc.Idle? then 0 else p.pc.l
  }

  predicate Enabled(p: Cpu, act: Act) {
    match act
    case Go => !p.pc.Idle? && !p.pc.Panic?
    case SetFlag(_) => p.pc.Idle? && p.depth == 0
    case _ => p.pc.Idle?
  }

  /** One access of CPU me to lock k. */
  function Access(me: nat, p: Cpu, k: Lock, act: Act): (Cpu, Lock)
    requires Enabled(p, act)
  {
    match act
    case Acquire(l) => (PushCli(p).(pc := LockHolding(l)), k)
    case Release(l) => (PushCli(p).(pc := UnlockCheck(l, k.locked)), k)
    case SetFlag(b) => (p.(flag := b, wish := b), k)
    case Go =>
      match p.pc
      case LockHolding(l) => (PushCli(p).(pc := LockCheck(l, k.locked)), k)
      case LockCheck(l, saw) =>
        (PopCli(p).(pc := if saw && k.cpu == Some(me) then Panic(l) else Try(l)), k)
      case Try(l) =>
        if k.locked then (p, k) else (p.(pc := Claim(l), held := p.held + {l}), k.(locked := true))
      case Claim(l) => (p.(pc := Idle), k.(cpu := Some(me)))
      case UnlockCheck(l, saw) =>
        (PopCli(p).(pc := if saw && k.cpu == Some(me) then Clear(l) else Panic(l)), k)
      case Clear(l) => (p.(pc := Store(l)), k.(cpu := None))
      case Store(l) => (p.(pc := Pop(l), held := p.held - {l}), k.(locked := false))
      case Pop(l) => (PopCli(p).(pc := Idle), k)
  }

  predicate CanStep(s: State, c: nat, act: Act) {
    c < |s.cpus| && Enabled(s.cpus[c], act) && Target(s.cpus[c], act) < |s.locks|
  }

  function Next(s: State, c: nat, act: Act): State
    requires CanStep(s, c, act)
  {
    var l := Target(s.cpus[c], act);
    var (p, k) := Access(c, s.cpus[c], s.locks[l], act);
    State(s.cpus[c := p], s.locks[l := k])
  }

  // ---- Invariant ----

  /** How many pushcli of a CPU are not due to a lock in held. */
  function Pending(pc: Pc): nat {
    match pc
    case LockHolding(_) | Try(_) | UnlockCheck(_, _) | Pop(_) => 1
    case LockCheck(_, _) => 2
    case _ => 0
  }

  /** The depth counts the locks held or being acquired, and the flag is off, with its old value kept, while it is positive. */
  predicate Counts(p: Cpu) {
    && (!p.pc.Panic? ==> p.depth == |p.held| + Pending(p.pc))
    && (p.depth > 0 ==> !p.flag && p.intena == p.wish)
    && (p.depth == 0 ==> p.flag == p.wish)
    && p.depth >= 0
  }

  predicate PcOk(p: Cpu) {
    match p.pc
    case Claim(l) => l in p.held
    case Clear(l) => l in p.held
    case Store(l) => l in p.held
    case Try(l) => l !in p.held
    case LockCheck(l, saw) => l in p.held ==> saw
    case UnlockCheck(l, saw) => l in p.held ==> saw
    case _ => true
  }

  /** Lock l as CPU c sees it: its cpu field names c exactly while c owns it, but for the two steps at the ends. */
  predicate Sees(c: nat, p: Cpu, l: nat, k: Lock) {
    && (k.cpu == Some(c) <==> l in p.held && p.pc != Claim(l) && p.pc != Store(l))
    && (l in p.held ==> k.locked)
  }

  ghost predicate Exclusive(cpus: seq<Cpu>) {
    forall c, d, l :: 0 <= c < |cpus| && 0 <= d < |cpus| && l in cpus[c].held && l in cpus[d].held ==> c == d
  }

  ghost predicate Owned(cpus: seq<Cpu>, locks: seq<Lock>) {
    forall l :: 0 <= l < |locks| && locks[l].locked ==> exists c :: 0 <= c < |cpus| && l in cpus[c].held
  }

  ghost predicate Inv(s: State) {
    && (forall c :: 0 <= c < |s.cpus| ==> Counts(s.cpus[c]) && PcOk(s.cpus[c]))
    && (forall c, l :: 0 <= c < |s.cpus| && 0 <= l < |s.locks| ==> Sees(c, s.cpus[c], l, s.locks[l]))
    && Exclusive(s.cpus) && Owned(s.cpus, s.locks)
  }

  lemma CountsKept(me: nat, p: Cpu, k: Lock, act: Act)
    requires Enabled(p, act) && Counts(p) && PcOk(p)
    ensures Counts(Access(me, p, k, act).0)
  {
    if act.Go? && p.pc.Store? {
      assert |p.held - {p.pc.l}| == |p.held| - 1;
    }
    if act.Go? && p.pc.Try? {
      assert |p.held + {p.pc.l}| == |p.held| + 1;
    }
  }

  lemma PcKept(me: nat, p: Cpu, k: Lock, act: Act)
    requires Enabled(p, act) && PcOk(p) && Sees(me, p, Target(p, act), k)
    ensures PcOk(Access(me, p, k, act).0)
  {
  }

  /** The CPU that moves, on the lock it moves. */
  lemma SeesKept(me: nat, p: Cpu, k: Lock, act: Act)
    requires Enabled(p, act) && PcOk(p) && Sees(me, p, Target(p, act), k)
    ensures Sees(me, Access(me, p, k, act).0, Target(p, act), Access(me, p, k, act).1)
  {
  }

  /** The CPU that moves, on another lock. */
  lemma SeesOtherLock(me: nat, p: Cpu, k: Lock, act: Act, l: nat, k2: Lock)
    requires Enabled(p, act) && Sees(me, p, l, k2) && l != Target(p, act)
    ensures Sees(me, Access(me, p, k, act).0, l, k2)
  {
  }

  /** Another CPU, on the lock that is moved: only an owner clears or stores, and only a free lock is taken. */
  lemma SeesOtherCpu(me: nat, p: Cpu, k: Lock, act: Act, d: nat, q: Cpu)
    requires Enabled(p, act) && PcOk(p) && Sees(d, q, Target(p, act), k) && d != me
    requires forall l :: l in p.held ==> l !in q.held
    ensures Sees(d, q, Target(p, act), Access(me, p, k, act).1)
  {
  }

  /** What a step does to the set of owned locks. */
  lemma HeldStep(me: nat, p: Cpu, k: Lock, act: Act, l: nat)
    requires Enabled(p, act) && PcOk(p)
    ensures var (p2, k2) := Access(me, p, k, act);
      && (l in p2.held && l !in p.held ==> l == Target(p, act) && !k.locked && k2.locked)
      && (l in p.held && l !in p2.held ==> l == Target(p, act) && !k2.locked)
      && (k2.locked && !k.locked ==> Target(p, act) in p2.held)
  {
  }

  lemma ExclusiveKept(s: State, c: nat, act: Act)
    requires Inv(s) && CanStep(s, c, act)
    ensures Exclusive(Next(s, c, act).cpus)
  {
    var p, t := s.cpus[c], Target(s.cpus[c], act);
    var p2 := Access(c, p, s.locks[t], act).0;
    forall d | 0 <= d < |s.cpus| && d != c ensures forall l :: l in p2.held ==> l !in s.cpus[d].held {
      assert Sees(d, s.cpus[d], t, s.locks[t]);
      forall l | l in p2.held ensures l !in s.cpus[d].held {
        HeldStep(c, p, s.locks[t], act, l);
      }
    }
  }

  lemma OwnedKept(s: State, c: nat, act: Act)
    requires Inv(s) && CanStep(s, c, act)
    ensures Owned(Next(s, c, act).cpus, Next(s, c, act).locks)
  {
    var p, t, s2 := s.cpus[c], Target(s.cpus[c], act), Next(s, c, act);
    forall l | 0 <= l < |s2.locks| && s2.locks[l].locked ensures exists d :: 0 <= d < |s2.cpus| && l in s2.cpus[d].held {
      HeldStep(c, p, s.locks[t], act, l);
      if s.locks[l].locked {
        var d :| 0 <= d < |s.cpus| && l in s.cpus[d].held;
        assert l in s2.cpus[d].held;
      } else {
        assert l in s2.cpus[c].held;
      }
    }
  }

  lemma StepKeeps(s: State, c: nat, act: Act)
    requires Inv(s) && CanStep(s, c, act)
    ensures Inv(Next(s, c, act))
  {
    var p, t, s2 := s.cpus[c], Target(s.cpus[c], act), Next(s, c, act);
    var k := s.locks[t];
    CountsKept(c, p, k, act);
    PcKept(c, p, k, act);
    ExclusiveKept(s, c, act);
    OwnedKept(s, c, act);
    forall d, l | 0 <= d < |s.cpus| && 0 <= l < |s.locks| ensures Sees(d, s2.cpus[d], l, s2.locks[l]) {
      assert Sees(d, s.cpus[d], l, s.locks[l]);
      if d == c && l == t {
        SeesKept(c, p, k, act);
      } else if d == c {
        SeesOtherLock(c, p, k, act, l, s.locks[l]);
      } else if l == t {
        SeesOtherCpu(c, p, k, act, d, s.cpus[d]);
      }
    }
  }

  // ---- Runs ----

  /** After spin_init of every lock, with all CPUs outside of any lock. */
  ghost predicate Initial(s: State) {
    && (forall l :: 0 <= l < |s.locks| ==> s.locks[l] == Lock(false, None))
    && (forall c :: 0 <= c < |s.cpus| ==>
      s.cpus[c].pc == Idle && s.cpus[c].depth == 0 && s.cpus[c].held == {} && s.cpus[c].wish == s.cpus[c].flag)
  }

  datatype Move = Move(cpu: nat, act: Act)

  ghost predicate Run(states: seq<State>, moves: seq<Move>) {
    && |states| == |moves| + 1 && Initial(states[0])
    && forall i :: 0 <= i < |moves| ==> Moves(states[i], moves[i], states[i + 1])
  }

  ghost predicate Moves(s: State, m: Move, s2: State) {
    CanStep(s, m.cpu, m.act) && s2 == Next(s, m.cpu, m.act)
  }

  lemma {:induction false} RunInv(states: seq<State>, moves: seq<Move>, i: nat)
    requires Run(states, moves) && i < |states|
    ensures Inv(states[i])
  {
    if i > 0 {
      RunInv(states, moves, i - 1);
      assert Moves(states[i - 1], moves[i - 1], states[i]);
      StepKeeps(states[i - 1], moves[i - 1].cpu, moves[i - 1].act);
    }
  }

  /** At most one CPU is between its successful exchange on a lock and the releasing store, in every state of every run. */
  lemma MutualExclusion(states: seq<State>, moves: seq<Move>, i: nat, l: nat, c: nat, d: nat)
    requires Run(states, moves) && i < |states| && c < |states[i].cpus| && d < |states[i].cpus|
    requires l in states[i].cpus[c].held && l in states[i].cpus[d].held
    ensures c == d
  {
    RunInv(states, moves, i);
  }

  /** The cpu field is trustworthy: if it names c, then c owns the lock, and the locked word is set. */
  lemma CpuFieldNamesOwner(states: seq<State>, moves: seq<Move>, i: nat, l: nat, c: nat)
    requires Run(states, moves) && i < |states| && c < |states[i].cpus| && l < |states[i].locks|
    requires states[i].locks[l].cpu == Some(c)
    ensures l in states[i].cpus[c].held && states[i].locks[l].locked
  {
    RunInv(states, moves, i);
  }

  /**
   * The assertion of spin_unlock fails exactly for a CPU that does not own the lock, and that of spin_lock exactly for
   * one that does, although holding reads the two fields at different times.
   */
  lemma ChecksAreExact(states: seq<State>, moves: seq<Move>, i: nat, c: nat)
    requires Run(states, moves) && i < |moves| && moves[i] == Move(c, Go) && c < |states[i].cpus|
    ensures var pc, pc2 := states[i].cpus[c].pc, states[i + 1].cpus[c].pc;
      && (pc.UnlockCheck? ==> (pc2 == Panic(pc.l) <==> pc.l !in states[i].cpus[c].held))
      && (pc.LockCheck? ==> (pc2 == Panic(pc.l) <==> pc.l in states[i].cpus[c].held))
  {
    RunInv(states, moves, i);
    assert Moves(states[i], moves[i], states[i + 1]);
    var p := states[i].cpus[c];
    var t := Target(p, Go);
    assert Sees(c, p, t, states[i].locks[t]);
  }

  /** cpuncli is the number of locks held or being acquired or released, and popcli never panics or sees interrupts on. */
  lemma DepthCountsLocks(states: seq<State>, moves: seq<Move>, i: nat, c: nat)
    requires Run(states, moves) && i < |states| && c < |states[i].cpus| && !states[i].cpus[c].pc.Panic?
    ensures var p := states[i].cpus[c];
      && p.depth == |p.held| + Pending(p.pc)
      && (p.pc.LockCheck? || p.pc.UnlockCheck? || p.pc.Pop? ==> p.depth > 0 && !p.flag)
      && (p.held != {} ==> !p.flag)
  {
    RunInv(states, moves, i);
    var p := states[i].cpus[c];
    if p.held != {} {
      var l :| l in p.held;
      assert |p.held| == |p.held - {l}| + 1;
    }
  }

  predicate SetsFlag(m: Move, c: nat) { m.cpu == c && m.act.SetFlag? }

  lemma {:induction false} WishKept(states: seq<State>, moves: seq<Move>, i: nat, j: nat, c: nat)
    requires Run(states, moves) && i <= j < |states| && c < |states[i].cpus|
    requires forall k :: i <= k < j ==> !SetsFlag(moves[k], c)
    ensures c < |states[j].cpus| && states[j].cpus[c].wish == states[i].cpus[c].wish
    decreases j
  {
    if i < j {
      WishKept(states, moves, i, j - 1, c);
      assert Moves(states[j - 1], moves[j - 1], states[j]);
      assert !SetsFlag(moves[j - 1], c);
    }
  }

  /**
   * However the locks are nested or interleaved: when a CPU holds no lock before and after, and has not itself set the
   * interrupt flag in between, the flag is back at its value.
   */
  lemma FlagRestored(states: seq<State>, moves: seq<Move>, i: nat, j: nat, c: nat)
    requires Run(states, moves) && i <= j < |states| && c < |states[i].cpus|
    requires forall k :: i <= k < j ==> !SetsFlag(moves[k], c)
    ensures c < |states[j].cpus|
    ensures var p, q := states[i].cpus[c], states[j].cpus[c];
      p.pc == Idle == q.pc && p.held == {} == q.held ==> q.flag == p.flag
  {
    WishKept(states, moves, i, j, c);
    RunInv(states, moves, i);
    RunInv(states, moves, j);
  }

  // ---- What the calls do ----

  /** The exchange succeeds exactly when the lock is free, and then takes it for the CPU. */
  lemma TryTakes(states: seq<State>, moves: seq<Move>, i: nat, c: nat, l: nat)
    requires Run(states, moves) && i < |moves| && moves[i] == Move(c, Go) && c < |states[i].cpus| && states[i].cpus[c].pc == Try(l)
    ensures l < |states[i].locks| == |states[i + 1].locks| && c < |states[i + 1].cpus|
    ensures states[i + 1].cpus[c].pc == Try(l) <==> states[i].locks[l].locked
    ensures !states[i].locks[l].locked ==>
      l in states[i + 1].cpus[c].held && states[i + 1].locks[l].locked && states[i].cpus[c].held == states[i + 1].cpus[c].held - {l}
    ensures states[i].locks[l].locked ==> states[i + 1] == states[i]
  {
    RunInv(states, moves, i);
    assert Moves(states[i], moves[i], states[i + 1]);
  }

  /** Between calls a CPU may begin any; inside one it can go on, unless it has panicked. */
  lemma StepsPossible(s: State, c: nat, l: nat)
    requires Inv(s) && c < |s.cpus| && l < |s.locks|
    ensures s.cpus[c].pc == Idle ==> CanStep(s, c, Acquire(l)) && CanStep(s, c, Release(l))
    ensures !s.cpus[c].pc.Idle? && !s.cpus[c].pc.Panic? ==> Enabled(s.cpus[c], Go)
  {
  }

  /** How many accesses a call has still to make, when its exchange succeeds and its assertion holds. */
  function Left(pc: Pc): nat {
    match pc
    case LockHolding(_) => 4
    case LockCheck(_, _) => 3
    case Try(_) => 2
    case Claim(_) => 1
    case UnlockCheck(_, _) => 4
    case Clear(_) => 3
    case Store(_) => 2
    case Pop(_) => 1
    case _ => 0
  }

  /** A CPU inside a call can always go on, and comes closer to the end, unless it spins on a lock that is taken or panics. */
  lemma GoAdvances(states: seq<State>, moves: seq<Move>, i: nat, c: nat)
    requires Run(states, moves) && i < |moves| && moves[i] == Move(c, Go) && c < |states[i].cpus|
    ensures c < |states[i + 1].cpus|
    ensures var p, p2 := states[i].cpus[c], states[i + 1].cpus[c];
      (p2.pc.Panic? && (p.pc.LockCheck? || p.pc.UnlockCheck?)) || Left(p2.pc) == Left(p.pc) - 1 || (p.pc.Try? && p2 == p && states[i].locks[p.pc.l].locked)
  {
    assert Moves(states[i], moves[i], states[i + 1]);
  }

  /** In a call of spin_lock that began with the locks before held. */
  ghost predicate Taking(p: Cpu, l: nat, before: set<nat>) {
    if p.pc == Idle || p.pc == Claim(l) then l !in before && p.held == before + {l}
    else p.held == before && (p.pc == LockHolding(l) || (p.pc.LockCheck? && p.pc.l == l) || p.pc == Try(l) || p.pc == Panic(l))
  }

  /** In a call of spin_unlock. */
  ghost predicate Releasing(p: Cpu, l: nat, before: set<nat>) {
    if p.pc == Idle || p.pc == Pop(l) then l in before && p.held == before - {l}
    else p.held == before && ((p.pc.UnlockCheck? && p.pc.l == l) || ((p.pc == Clear(l) || p.pc == Store(l)) && l in before) || p.pc == Panic(l))
  }

  lemma OthersStay(s: State, m: Move, s2: State, c: nat)
    requires Moves(s, m, s2) && c < |s.cpus|
    ensures |s2.cpus| == |s.cpus| && |s2.locks| == |s.locks| && (m.cpu != c ==> s2.cpus[c] == s.cpus[c])
  {
  }

  lemma InsideStep(me: nat, p: Cpu, k: Lock, act: Act, l: nat, before: set<nat>)
    requires Enabled(p, act) && PcOk(p) && p.pc != Idle && Sees(me, p, Target(p, act), k)
    ensures Taking(p, l, before) ==> Taking(Access(me, p, k, act).0, l, before)
    ensures Releasing(p, l, before) ==> Releasing(Access(me, p, k, act).0, l, before)
  {
  }

  /** CPU c is inside a call throughout states[i + 1..j]. */
  ghost predicate Busy(states: seq<State>, i: nat, j: nat, c: nat) {
    forall k :: i < k < j && k < |states| && c < |states[k].cpus| ==> states[k].cpus[c].pc != Idle
  }

  lemma {:induction false} Inside(states: seq<State>, moves: seq<Move>, i: nat, j: nat, c: nat, l: nat)
    requires Run(states, moves) && i < j < |states| && c < |states[i].cpus| && Busy(states, i, j, c)
    requires moves[i] == Move(c, Acquire(l)) || moves[i] == Move(c, Release(l))
    ensures |states[j].cpus| == |states[i].cpus| && |states[j].locks| == |states[i].locks| && l < |states[i].locks|
    ensures moves[i].act.Acquire? ==> Taking(states[j].cpus[c], l, states[i].cpus[c].held)
    ensures moves[i].act.Release? ==> Releasing(states[j].cpus[c], l, states[i].cpus[c].held)
    decreases j
  {
    assert Moves(states[j - 1], moves[j - 1], states[j]);
    if j == i + 1 {
      OthersStay(states[i], moves[i], states[j], c);
    } else {
      Inside(states, moves, i, j - 1, c, l);
      OthersStay(states[j - 1], moves[j - 1], states[j], c);
      RunInv(states, moves, j - 1);
      InsideMove(states[j - 1], moves[j - 1], states[j], c, l, states[i].cpus[c].held);
    }
  }

  lemma InsideMove(s: State, m: Move, s2: State, c: nat, l: nat, before: set<nat>)
    requires Inv(s) && Moves(s, m, s2) && c < |s.cpus| == |s2.cpus| && s.cpus[c].pc != Idle
    ensures Taking(s.cpus[c], l, before) ==> Taking(s2.cpus[c], l, before)
    ensures Releasing(s.cpus[c], l, before) ==> Releasing(s2.cpus[c], l, before)
  {
    OthersStay(s, m, s2, c);
    if m.cpu == c {
      var p := s.cpus[c];
      assert Sees(c, p, Target(p, m.act), s.locks[Target(p, m.act)]);
      InsideStep(c, p, s.locks[Target(p, m.act)], m.act, l, before);
    }
  }

  /**
   * When spin_lock returns, its CPU holds the lock, which it did not before, and no other lock has come or gone; the lock is
   * locked and names the CPU, and interrupts are off.
   */
  lemma AcquireReturns(states: seq<State>, moves: seq<Move>, i: nat, j: nat, c: nat, l: nat)
    requires Run(states, moves) && i < j < |states| && c < |states[i].cpus|
    requires moves[i] == Move(c, Acquire(l)) && Busy(states, i, j, c) && c < |states[j].cpus| && states[j].cpus[c].pc == Idle
    ensures l !in states[i].cpus[c].held && states[j].cpus[c].held == states[i].cpus[c].held + {l}
    ensures l < |states[j].locks| && states[j].locks[l] == Lock(true, Some(c)) && !states[j].cpus[c].flag
    ensures states[j].cpus[c].depth == states[i].cpus[c].depth + 1
  {
    Inside(states, moves, i, j, c, l);
    RunInv(states, moves, i);
    RunInv(states, moves, j);
    assert Sees(c, states[j].cpus[c], l, states[j].locks[l]);
    IdleCounts(states[j], c);
    assert Moves(states[i], moves[i], states[i + 1]);
    IdleCounts(states[i], c);
    assert |states[i].cpus[c].held + {l}| == |states[i].cpus[c].held| + 1;
  }

  lemma IdleCounts(s: State, c: nat)
    requires Inv(s) && c < |s.cpus| && s.cpus[c].pc == Idle
    ensures s.cpus[c].depth == |s.cpus[c].held| && (s.cpus[c].held != {} ==> !s.cpus[c].flag)
  {
    var p := s.cpus[c];
    assert Counts(p);
    if p.held != {} {
      var l :| l in p.held;
      assert |p.held| == |p.held - {l}| + 1;
    }
  }

  /** When spin_unlock returns, its CPU no longer holds the lock, which it did before, and no other lock has come or gone. */
  lemma ReleaseReturns(states: seq<State>, moves: seq<Move>, i: nat, j: nat, c: nat, l: nat)
    requires Run(states, moves) && i < j < |states| && c < |states[i].cpus|
    requires moves[i] == Move(c, Release(l)) && Busy(states, i, j, c) && c < |states[j].cpus| && states[j].cpus[c].pc == Idle
    ensures l in states[i].cpus[c].held && states[j].cpus[c].held == states[i].cpus[c].held - {l}
    ensures l < |states[j].locks| && states[j].locks[l].cpu != Some(c)
    ensures states[j].cpus[c].depth == states[i].cpus[c].depth - 1
  {
    Inside(states, moves, i, j, c, l);
    RunInv(states, moves, i);
    RunInv(states, moves, j);
    assert Sees(c, states[j].cpus[c], l, states[j].locks[l]);
    IdleCounts(states[j], c);
    assert Moves(states[i], moves[i], states[i + 1]);
    IdleCounts(states[i], c);
    assert |states[i].cpus[c].held - {l}| == |states[i].cpus[c].held| - 1;
  }

  lemma {:induction false} NamesSome(states: seq<State>, moves: seq<Move>, i: nat, l: nat)
    requires Run(states, moves) && i < |states| && l < |states[i].locks|
    ensures states[i].locks[l].cpu.Some? ==> states[i].locks[l].cpu.value < |states[i].cpus|
  {
    if i > 0 {
      assert Moves(states[i - 1], moves[i - 1], states[i]);
      NamesSome(states, moves, i - 1, l);
    }
  }

  /** The releasing store frees the lock, for whichever CPU comes next. */
  lemma StoreFrees(states: seq<State>, moves: seq<Move>, i: nat, c: nat, l: nat)
    requires Run(states, moves) && i < |moves| && moves[i] == Move(c, Go) && c < |states[i].cpus| && states[i].cpus[c].pc == Store(l)
    ensures l < |states[i + 1].locks| && states[i + 1].locks[l] == Lock(false, None)
  {
    RunInv(states, moves, i);
    assert Moves(states[i], moves[i], states[i + 1]);
    NamesSome(states, moves, i, l);
    forall d | 0 <= d < |states[i].cpus| ensures states[i].locks[l].cpu != Some(d) {
      assert Sees(d, states[i].cpus[d], l, states[i].locks[l]);
    }
  }
}
