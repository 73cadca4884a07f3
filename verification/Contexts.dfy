/** kernel/src/kmt.c: the saved contexts of tasks, as opaque values beside the scheduler's steps. */
module Contexts {
  import opened Sched
  import opened Wrappers

  /** The context field of every task that has one, and notdefault. */
  datatype Store<T> = Store(context: map<T, nat>, notdefault: seq<bool>)

  /** kmt_context_save on CPU c, with the context that the trap has pushed. */
  function Saved<T(==)>(x: Store<T>, s: State<T>, c: nat, pushed: nat): Store<T>
    requires c < |s.cur| == |s.dflt| == |x.notdefault|
  {
    var m := if x.notdefault[c] then x.context else x.context[s.dflt[c] := pushed];
    Store(if s.cur[c].Some? then m[s.cur[c].value := pushed] else m, x.notdefault[c := true])
  }

  /** What a step does to the contexts; for a creation pushed is what _kcontext makes. */
  function After<T(==)>(x: Store<T>, s: State<T>, step: Step<T>, pushed: nat): Store<T>
    requires |s.cur| == |s.dflt| == |x.notdefault|
  {
    match step
    case Trap(c, _) => if c < |s.cur| then Saved(x, s, c, pushed) else x
    case CreateTask(t, _) => if s.cntTasks < MAXTASK then x.(context := x.context[t := pushed]) else x
    case _ => x
  }

  /** A run, with the contexts that its steps push and what is stored before, between and after them. */
  ghost predicate Kept<T>(states: seq<State<T>>, steps: seq<Step<T>>, pushed: seq<nat>, stores: seq<Store<T>>) {
    && Run(states, steps) && |pushed| == |steps| && |stores| == |states|
    && stores[0] == Store(map[], seq(|states[0].cur|, _ => false))
    && forall i :: 0 <= i < |steps| ==> KeptAt(states, steps, pushed, stores, i)
  }

  ghost predicate KeptAt<T>(states: seq<State<T>>, steps: seq<Step<T>>, pushed: seq<nat>, stores: seq<Store<T>>, i: nat) {
    && i < |steps| == |pushed| && i + 1 < |states| && i + 1 < |stores|
    && (|states[i].cur| == |states[i].dflt| == |stores[i].notdefault| ==> stores[i + 1] == After(stores[i], states[i], steps[i], pushed[i]))
  }

  /**
   * Step i saves a context for t: it is a trap on the CPU that runs t, or the first trap on the CPU whose default t is, or
   * the creation of t.
   */
  ghost predicate Saves<T>(states: seq<State<T>>, steps: seq<Step<T>>, i: nat, t: T)
    requires i < |steps| && i < |states|
  {
    var s := states[i];
    match steps[i]
    case Trap(c, _) => c < |s.cur| && (s.cur[c] == Some(t) || (c < |s.dflt| && s.dflt[c] == t && Traps(steps, c, 0, i) == 0))
    case CreateTask(u, _) => u == t && s.cntTasks < MAXTASK
    case _ => false
  }

  lemma NextSizes<T>(s: State<T>, step: Step<T>)
    requires Inv(s) && Enabled(s, step)
    ensures |Next(s, step).cur| == |s.cur| && Next(s, step).dflt == s.dflt
  {
  }

  lemma {:induction false} Sizes<T>(states: seq<State<T>>, steps: seq<Step<T>>, pushed: seq<nat>, stores: seq<Store<T>>, i: nat)
    requires Kept(states, steps, pushed, stores) && i < |states|
    ensures |states[i].cur| == |states[i].dflt| == |stores[i].notdefault|
    ensures i < |steps| ==> |states[i + 1].cur| == |states[i].cur| && states[i + 1].dflt == states[i].dflt
    ensures i < |steps| ==> stores[i + 1] == After(stores[i], states[i], steps[i], pushed[i])
  {
    RunInv(states, steps, i);
    if i > 0 {
      Sizes(states, steps, pushed, stores, i - 1);
    }
    if i < |steps| {
      assert KeptAt(states, steps, pushed, stores, i);
      RunStep(states, steps, i);
      NextSizes(states[i], steps[i]);
    }
  }

  /** notdefault says whether the CPU has trapped before. */
  lemma {:induction false} TrappedBefore<T>(states: seq<State<T>>, steps: seq<Step<T>>, pushed: seq<nat>, stores: seq<Store<T>>, i: nat, c: nat)
    requires Kept(states, steps, pushed, stores) && i < |states| && c < |states[i].cur| && |stores[i].notdefault| == |states[i].cur|
    ensures stores[i].notdefault[c] <==> Traps(steps, c, 0, i) > 0
  {
    if i > 0 {
      Sizes(states, steps, pushed, stores, i - 1);
      TrappedBefore(states, steps, pushed, stores, i - 1, c);
    }
  }

  /** A step changes the context of a task exactly when it saves one for it. */
  lemma StepSaves<T>(states: seq<State<T>>, steps: seq<Step<T>>, pushed: seq<nat>, stores: seq<Store<T>>, i: nat, t: T)
    requires Kept(states, steps, pushed, stores) && i < |steps|
    ensures var x, y := stores[i].context, stores[i + 1].context;
      if Saves(states, steps, i, t) then t in y && y[t] == pushed[i]
      else (t in y <==> t in x) && (t in x ==> y[t] == x[t])
  {
    Sizes(states, steps, pushed, stores, i);
    if steps[i].Trap? && steps[i].cpu < |states[i].cur| {
      TrappedBefore(states, steps, pushed, stores, i, steps[i].cpu);
    }
  }

  /** Step j is the last before i that saves a context for t. */
  ghost predicate LastSave<T>(states: seq<State<T>>, steps: seq<Step<T>>, i: nat, t: T, j: nat)
    requires i <= |steps| && i <= |states|
  {
    j < i && Saves(states, steps, j, t) && forall k :: j < k < i ==> !Saves(states, steps, k, t)
  }

  /** What is stored for a task is what was last saved for it. */
  lemma {:induction false} Stored<T>(states: seq<State<T>>, steps: seq<Step<T>>, pushed: seq<nat>, stores: seq<Store<T>>, i: nat, t: T)
      returns (j: nat)
    requires Kept(states, steps, pushed, stores) && i < |states| && t in stores[i].context
    ensures LastSave(states, steps, i, t, j) && stores[i].context[t] == pushed[j]
  {
    StepSaves(states, steps, pushed, stores, i - 1, t);
    if Saves(states, steps, i - 1, t) {
      j := i - 1;
    } else {
      j := Stored(states, steps, pushed, stores, i - 1, t);
    }
  }

  lemma CreateCreates<T>(s: State<T>, u: T, rnd: nat, t: T)
    requires Inv(s) && Unused(s, u) && t != u && Created(Create(s, u, rnd).tasks, Create(s, u, rnd).info, t)
    ensures Created(s.tasks, s.info, t)
  {
    if s.cntTasks < MAXTASK {
      FreeRoundFound(s, rnd % MAXTASK);
      CreatedMore(s.tasks, s.info, u, FreeSlot(s.tasks, rnd));
    }
  }

  lemma TrapCreates<T>(s: State<T>, c: nat, rnd: nat, t: T)
    requires Inv(s) && c < |s.cur|
    ensures var s2 := Next(s, Trap(c, rnd)); Created(s2.tasks, s2.info, t) ==> Created(s.tasks, s.info, t)
  {
    TrapKeeps(s, c, rnd);
    var s1 := Save(s, c);
    assert s1.tasks == s.tasks && (t in s1.info ==> t in s.info && s1.info[t].id == s.info[t].id);
  }

  /** A step creates no other task than it says. */
  lemma CreatedBy<T>(s: State<T>, step: Step<T>, t: T)
    requires Inv(s) && Enabled(s, step) && Created(Next(s, step).tasks, Next(s, step).info, t)
    ensures Created(s.tasks, s.info, t) || (step.CreateTask? && step.task == t && s.cntTasks < MAXTASK)
  {
    match step
    case Trap(c, rnd) => TrapCreates(s, c, rnd, t);
    case CreateTask(u, rnd) =>
      if t != u {
        CreateCreates(s, u, rnd, t);
      }
    case EndTask(u) => CreatedFewer(s.tasks, s.info, u);
    case _ => assert Next(s, step).tasks == s.tasks;
  }

  /** Whoever is created had been before, or is by this step. */
  lemma CreatedBefore<T>(states: seq<State<T>>, steps: seq<Step<T>>, i: nat, t: T)
    requires Run(states, steps) && i < |steps| && Created(states[i + 1].tasks, states[i + 1].info, t)
    ensures Created(states[i].tasks, states[i].info, t) || Saves(states, steps, i, t)
  {
    RunStep(states, steps, i);
    CreatedBy(states[i], steps[i], t);
  }

  /** Created tasks have contexts, and so have the defaults of CPUs that have trapped. */
  lemma {:induction false} CreatedHas<T>(states: seq<State<T>>, steps: seq<Step<T>>, pushed: seq<nat>, stores: seq<Store<T>>, i: nat, t: T)
    requires Kept(states, steps, pushed, stores) && i < |states| && Created(states[i].tasks, states[i].info, t)
    ensures t in stores[i].context
  {
    if i > 0 {
      CreatedBefore(states, steps, i - 1, t);
      if !Saves(states, steps, i - 1, t) {
        CreatedHas(states, steps, pushed, stores, i - 1, t);
      }
      StepSaves(states, steps, pushed, stores, i - 1, t);
    }
  }

  lemma {:induction false} DefaultHas<T>(states: seq<State<T>>, steps: seq<Step<T>>, pushed: seq<nat>, stores: seq<Store<T>>, i: nat, c: nat)
    requires Kept(states, steps, pushed, stores) && i < |states| && c < |states[i].dflt| && Traps(steps, c, 0, i) > 0
    ensures states[i].dflt[c] in stores[i].context
  {
    Sizes(states, steps, pushed, stores, i - 1);
    StepSaves(states, steps, pushed, stores, i - 1, states[i].dflt[c]);
    if Traps(steps, c, 0, i - 1) > 0 {
      DefaultHas(states, steps, pushed, stores, i - 1, c);
    }
  }

  /** What a trap puts on its CPU. */
  lemma TrapPicks<T>(s: State<T>, c: nat, rnd: nat)
    requires Inv(s) && c < |s.cur|
    ensures var s2 := Next(s, Trap(c, rnd)); s2.cur[c].Some? && (Created(s2.tasks, s2.info, s2.cur[c].value) || s2.cur[c].value == s2.dflt[c])
  {
    TrapKeeps(s, c, rnd);
  }

  /**
   * Whatever a trap resumes, it resumes with the context that was last saved for it: pushed by the trap that took it off a
   * CPU, or by the first trap of the CPU whose default it is, or made when it was created.
   */
  lemma ResumesWhatWasSaved<T>(states: seq<State<T>>, steps: seq<Step<T>>, pushed: seq<nat>, stores: seq<Store<T>>, i: nat, c: nat)
      returns (t: T, j: nat)
    requires Kept(states, steps, pushed, stores) && i < |steps| && IsTrap(steps[i], c)
    ensures c < |states[i + 1].cur| && states[i + 1].cur[c] == Some(t)
    ensures LastSave(states, steps, i + 1, t, j)
    ensures t in stores[i + 1].context && stores[i + 1].context[t] == pushed[j]
  {
    RunStep(states, steps, i);
    TrapPicks(states[i], c, steps[i].rnd);
    t := states[i + 1].cur[c].value;
    if Created(states[i + 1].tasks, states[i + 1].info, t) {
      CreatedHas(states, steps, pushed, stores, i + 1, t);
    } else {
      DefaultHas(states, steps, pushed, stores, i + 1, c);
    }
    j := Stored(states, steps, pushed, stores, i + 1, t);
  }
}
