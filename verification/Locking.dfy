/**
  Shard locking as a transition system.  Any number of threads run bursts: a
  burst locks an ascending set of shards one by one, runs a handler that can
  only reach the shards it locked, and releases them one by one.  A keyed
  command is one burst; SCAN, active expiry and eviction are sequences of bursts
  that lock at most one shard each.
  */
module Locking {
  import opened ByteStrings

  /** One access of a handler: it picks a shard from what it knows and sees it,
      or `None` when the shard is not among the locked ones. */
  datatype Op<!L, !D> = Op(pick: L -> nat, act: (L, Option<D>) -> (L, D))

  datatype Burst<!L, !D> = Burst(locks: seq<nat>, ops: seq<Op<L, D>>)

  datatype Phase = Acquiring | Running | Releasing

  /** A thread: its local state, the bursts it still has to run, and how far it
      is in the first: locks held and accesses made. */
  datatype Thread<!L, !D> = Thread(local: L, todo: seq<Burst<L, D>>, phase: Phase, got: nat, pc: nat)

  /** `log` lists the threads in the order of their last lock acquisitions. */
  datatype State<!L, !D> = State(owner: seq<Option<nat>>, data: seq<D>, threads: seq<Thread<L, D>>, log: seq<nat>)

  // -------------------------------------------------------- the transitions

  ghost function Access<L, D>(op: Op<L, D>, locks: seq<nat>, local: L, data: seq<D>): (r: (L, seq<D>))
    ensures |r.1| == |data|
  {
    var i := op.pick(local);
    if i in locks && i < |data| then
      var (l, d) := op.act(local, Some(data[i]));
      (l, data[i := d])
    else (op.act(local, None).0, data)
  }

  ghost predicate CanStep<L, D>(s: State<L, D>, t: nat) {
    && t < |s.threads|
    && var th := s.threads[t];
    && th.todo != []
    && (th.phase.Acquiring? && th.got < |th.todo[0].locks| ==>
          th.todo[0].locks[th.got] < |s.owner| && s.owner[th.todo[0].locks[th.got]] == None)
  }

  /** The one step thread `t` takes next. */
  ghost function Step<L, D>(s: State<L, D>, t: nat): State<L, D>
    requires CanStep(s, t)
  {
    var th := s.threads[t];
    var b := th.todo[0];
    match th.phase
    case Acquiring =>
      if th.got < |b.locks| then
        var last := th.got + 1 == |b.locks|;
        s.(owner := s.owner[b.locks[th.got] := Some(t)],
           threads := s.threads[t := th.(got := th.got + 1, phase := if last then Running else Acquiring)],
           log := if last then s.log + [t] else s.log)
      else
        s.(threads := s.threads[t := th.(phase := Running)], log := s.log + [t])
    case Running =>
      if th.pc < |b.ops| then
        var (l, d) := Access(b.ops[th.pc], b.locks, th.local, s.data);
        s.(data := d, threads := s.threads[t := th.(local := l, pc := th.pc + 1)])
      else
        s.(threads := s.threads[t := th.(phase := Releasing)])
    case Releasing =>
      if 0 < th.got <= |b.locks| && b.locks[th.got - 1] < |s.owner| then
        s.(owner := s.owner[b.locks[th.got - 1] := None], threads := s.threads[t := th.(got := th.got - 1)])
      else
        s.(threads := s.threads[t := Thread(th.local, th.todo[1..], Acquiring, 0, 0)])
  }

  /** A schedule names the thread that steps next. */
  ghost predicate Schedule<L, D>(s: State<L, D>, order: seq<nat>)
    decreases |order|
  {
    |order| > 0 ==> CanStep(s, order[0]) && Schedule(Step(s, order[0]), order[1..])
  }

  ghost function Run<L, D>(s: State<L, D>, order: seq<nat>): State<L, D>
    requires Schedule(s, order)
    decreases |order|
  {
    if |order| == 0 then s else Run(Step(s, order[0]), order[1..])
  }

  // -------------------------------------------------------------- invariant

  ghost predicate BurstOk<L, D>(b: Burst<L, D>, n: nat) {
    StrictlyAscending(b.locks) && forall i :: 0 <= i < |b.locks| ==> b.locks[i] < n
  }

  ghost predicate ThreadOk<L, D>(th: Thread<L, D>, n: nat) {
    && (forall k :: 0 <= k < |th.todo| ==> BurstOk(th.todo[k], n))
    && (if th.todo == [] then th.phase.Acquiring? && th.got == 0 && th.pc == 0
        else
          var b := th.todo[0];
          && th.got <= |b.locks| && th.pc <= |b.ops|
          && (th.phase.Acquiring? ==> th.pc == 0 && (th.got < |b.locks| || |b.locks| == 0))
          && (th.phase.Running? ==> th.got == |b.locks|)
          && (th.phase.Releasing? ==> th.pc == |b.ops|))
  }

  ghost predicate Holds<L, D>(th: Thread<L, D>, i: nat) {
    th.todo != [] && th.got <= |th.todo[0].locks| && i in th.todo[0].locks[..th.got]
  }

  ghost predicate OwnerOk<L, D>(s: State<L, D>, i: nat, t: nat)
    requires i < |s.owner| && t < |s.threads|
  {
    s.owner[i] == Some(t) <==> Holds(s.threads[t], i)
  }

  ghost predicate Inv<L, D>(s: State<L, D>) {
    && |s.owner| == |s.data|
    && (forall t :: 0 <= t < |s.threads| ==> ThreadOk(s.threads[t], |s.owner|))
    && (forall i, t :: 0 <= i < |s.owner| && 0 <= t < |s.threads| ==> OwnerOk(s, i, t))
    && (forall i :: 0 <= i < |s.owner| && s.owner[i].Some? ==> s.owner[i].value < |s.threads|)
  }

  ghost predicate Initial<L, D>(s: State<L, D>) {
    && |s.owner| == |s.data| && s.log == []
    && (forall i :: 0 <= i < |s.owner| ==> s.owner[i] == None)
    && (forall t :: 0 <= t < |s.threads| ==>
          var th := s.threads[t];
          th.phase.Acquiring? && th.got == 0 && th.pc == 0
          && forall k :: 0 <= k < |th.todo| ==> BurstOk(th.todo[k], |s.owner|))
  }

  lemma InitialInv<L, D>(s: State<L, D>)
    requires Initial(s)
    ensures Inv(s)
  {
  }

  /** (I) A thread only ever blocks on a shard above every shard it holds. */
  lemma BlocksAbove<L, D>(th: Thread<L, D>, n: nat, i: nat)
    requires ThreadOk(th, n) && th.todo != [] && th.got < |th.todo[0].locks| && Holds(th, i)
    ensures i < th.todo[0].locks[th.got]
  {
    assert BurstOk(th.todo[0], n);
  }

  /** The thread after its step, whatever the others do. */
  lemma StepThreadOk<L, D>(s: State<L, D>, t: nat)
    requires Inv(s) && CanStep(s, t)
    ensures ThreadOk(Step(s, t).threads[t], |s.owner|)
  {
    assert ThreadOk(s.threads[t], |s.owner|);
  }

  lemma StepOwners<L, D>(s: State<L, D>, t: nat, i: nat, u: nat)
    requires Inv(s) && CanStep(s, t) && i < |s.owner| && u < |s.threads|
    ensures OwnerOk(Step(s, t), i, u)
  {
    var th := s.threads[t];
    assert ThreadOk(th, |s.owner|) && OwnerOk(s, i, u) && OwnerOk(s, i, t);
    var b := th.todo[0];
    assert BurstOk(b, |s.owner|);
    if th.phase.Acquiring? && th.got < |b.locks| {
      var w := b.locks[th.got];
      assert b.locks[..th.got + 1] == b.locks[..th.got] + [w];
      assert OwnerOk(s, w, u);
    } else if th.phase.Releasing? && th.got > 0 {
      var w := b.locks[th.got - 1];
      assert b.locks[..th.got] == b.locks[..th.got - 1] + [w];
      assert OwnerOk(s, w, u) && OwnerOk(s, w, t);
    }
  }

  lemma StepInv<L, D>(s: State<L, D>, t: nat)
    requires Inv(s) && CanStep(s, t)
    ensures Inv(Step(s, t)) && |Step(s, t).owner| == |s.owner| && |Step(s, t).threads| == |s.threads|
    ensures forall u :: 0 <= u < |s.threads| && u != t ==> Step(s, t).threads[u] == s.threads[u]
  {
    hide OwnerOk;
    var s' := Step(s, t);
    StepThreadOk(s, t);
    forall i, u | 0 <= i < |s'.owner| && 0 <= u < |s'.threads|
      ensures OwnerOk(s', i, u)
    {
      StepOwners(s, t, i, u);
    }
    hide ThreadOk;
  }

  lemma {:induction false} RunInv<L, D>(s: State<L, D>, order: seq<nat>)
    requires Inv(s) && Schedule(s, order)
    ensures Inv(Run(s, order))
    decreases |order|
  {
    hide Inv, CanStep, Step;
    if |order| > 0 {
      StepInv(s, order[0]);
      RunInv(Step(s, order[0]), order[1..]);
    }
  }

  // ------------------------------------------------------ deadlock freedom

  /** The shard a thread is about to lock. */
  ghost predicate Wants<L, D>(th: Thread<L, D>, w: nat) {
    th.todo != [] && th.phase.Acquiring? && th.got < |th.todo[0].locks| && th.todo[0].locks[th.got] == w
  }

  /** `a` is blocked on a shard that `b` holds. */
  ghost predicate WaitsFor<L, D>(s: State<L, D>, a: nat, b: nat) {
    && a < |s.threads| && b < |s.threads|
    && exists w :: 0 <= w < |s.owner| && Wants(s.threads[a], w) && s.owner[w] == Some(b)
  }

  /** What a blocked thread wants lies strictly below what its holder wants. */
  lemma WantsAscend<L, D>(s: State<L, D>, a: nat, b: nat, w: nat, w': nat)
    requires Inv(s) && a < |s.threads| && b < |s.threads| && w < |s.owner|
    requires Wants(s.threads[a], w) && s.owner[w] == Some(b) && Wants(s.threads[b], w')
    ensures w < w' < |s.owner|
  {
    assert OwnerOk(s, w, b) && ThreadOk(s.threads[b], |s.owner|);
    BlocksAbove(s.threads[b], |s.owner|, w);
    assert BurstOk(s.threads[b].todo[0], |s.owner|);
  }

  ghost predicate WaitPath<L, D>(s: State<L, D>, path: seq<nat>) {
    forall k :: 0 <= k && k + 1 < |path| ==> WaitsFor(s, path[k], path[k + 1])
  }

  lemma {:induction false} WaitPathAscends<L, D>(s: State<L, D>, path: seq<nat>, w: nat, w': nat)
    requires Inv(s) && |path| >= 2 && WaitPath(s, path)
    requires path[0] < |s.threads| && path[|path| - 1] < |s.threads|
    requires Wants(s.threads[path[0]], w) && Wants(s.threads[path[|path| - 1]], w')
    ensures w < w'
    decreases |path|
  {
    hide Inv;
    assert WaitsFor(s, path[0], path[1]);
    var v :| 0 <= v < |s.owner| && Wants(s.threads[path[0]], v) && s.owner[v] == Some(path[1]);
    if |path| == 2 {
      WantsAscend(s, path[0], path[1], w, w');
    } else {
      var rest := path[1..];
      forall k | 0 <= k && k + 1 < |rest|
        ensures WaitsFor(s, rest[k], rest[k + 1])
      {
        assert rest[k] == path[k + 1] && rest[k + 1] == path[(k + 1) + 1];
      }
      assert WaitsFor(s, path[1], path[2]);
      var v' :| 0 <= v' < |s.owner| && Wants(s.threads[path[1]], v') && s.owner[v'] == Some(path[2]);
      WantsAscend(s, path[0], path[1], w, v');
      WaitPathAscends(s, rest, v', w');
    }
  }

  /** (No deadlock) No reachable state has a cycle of waiting threads. */
  lemma NoWaitCycle<L, D>(s: State<L, D>, order: seq<nat>, path: seq<nat>)
    requires Initial(s) && Schedule(s, order)
    requires |path| >= 2 && path[0] == path[|path| - 1]
    ensures !WaitPath(Run(s, order), path)
  {
    InitialInv(s);
    RunInv(s, order);
    var s' := Run(s, order);
    if WaitPath(s', path) {
      assert WaitsFor(s', path[0], path[1]);
      var w :| 0 <= w < |s'.owner| && Wants(s'.threads[path[0]], w) && s'.owner[w] == Some(path[1]);
      WaitPathAscends(s', path, w, w);
    }
  }

  /** An unfinished thread can step exactly if it waits for no other. */
  lemma StuckMeansWaiting<L, D>(s: State<L, D>, order: seq<nat>, t: nat)
    requires Initial(s) && Schedule(s, order)
    requires var s' := Run(s, order); t < |s'.threads| && s'.threads[t].todo != []
    ensures var s' := Run(s, order); !CanStep(s', t) <==> exists b :: WaitsFor(s', t, b) && b != t
  {
    InitialInv(s);
    RunInv(s, order);
    var s' := Run(s, order);
    var th := s'.threads[t];
    assert ThreadOk(th, |s'.owner|) && BurstOk(th.todo[0], |s'.owner|);
    if !CanStep(s', t) {
      var w := th.todo[0].locks[th.got];
      var b := s'.owner[w].value;
      assert OwnerOk(s', w, b) && Wants(th, w);
      if b == t {
        BlocksAbove(th, |s'.owner|, w);
        assert false;
      }
      assert WaitsFor(s', t, b);
    }
  }

  // ----------------------------------------------------------- every run ends

  ghost predicate Finished<L, D>(s: State<L, D>) {
    forall t :: 0 <= t < |s.threads| ==> s.threads[t].todo == []
  }

  /** Follow the holders upwards to a thread that can step. */
  lemma {:induction false} SomeoneSteps<L, D>(s: State<L, D>, t: nat) returns (u: nat)
    requires Inv(s) && t < |s.threads| && s.threads[t].todo != []
    ensures CanStep(s, u)
    decreases if s.threads[t].phase.Acquiring? && s.threads[t].got < |s.threads[t].todo[0].locks|
              then |s.owner| - s.threads[t].todo[0].locks[s.threads[t].got] else -1
  {
    var th := s.threads[t];
    assert ThreadOk(th, |s.owner|) && BurstOk(th.todo[0], |s.owner|);
    if CanStep(s, t) {
      u := t;
    } else {
      var w := th.todo[0].locks[th.got];
      var b := s.owner[w].value;
      assert OwnerOk(s, w, b) && ThreadOk(s.threads[b], |s.owner|);
      if s.threads[b].phase.Acquiring? && s.threads[b].got < |s.threads[b].todo[0].locks| {
        WantsAscend(s, t, b, w, s.threads[b].todo[0].locks[s.threads[b].got]);
      }
      u := SomeoneSteps(s, b);
    }
  }

  /** (Progress) While any thread is unfinished, some thread can step. */
  lemma Progress<L, D>(s: State<L, D>, order: seq<nat>) returns (u: nat)
    requires Initial(s) && Schedule(s, order) && !Finished(Run(s, order))
    ensures CanStep(Run(s, order), u)
  {
    InitialInv(s);
    RunInv(s, order);
    var s' := Run(s, order);
    var t :| 0 <= t < |s'.threads| && s'.threads[t].todo != [];
    u := SomeoneSteps(s', t);
  }

  ghost function BurstWork<L, D>(todo: seq<Burst<L, D>>): nat {
    if |todo| == 0 then 0 else 2 * |todo[0].locks| + |todo[0].ops| + 3 + BurstWork(todo[1..])
  }

  /** Steps a thread still has to make, at most. */
  ghost function ThreadWork<L, D>(th: Thread<L, D>): int {
    BurstWork(th.todo) - match th.phase
      case Acquiring => th.got
      case Running => th.got + th.pc + 1
      case Releasing => (if th.todo == [] then 0 else 2 * |th.todo[0].locks|) - th.got + th.pc + 2
  }

  lemma ThreadWorkDrops<L, D>(s: State<L, D>, t: nat)
    requires Inv(s) && CanStep(s, t)
    ensures 0 <= ThreadWork(Step(s, t).threads[t]) < ThreadWork(s.threads[t])
  {
    var th := s.threads[t];
    assert ThreadOk(th, |s.owner|) && BurstOk(th.todo[0], |s.owner|);
    assert BurstWork(th.todo) == 2 * |th.todo[0].locks| + |th.todo[0].ops| + 3 + BurstWork(th.todo[1..]);
  }

  ghost function Work<L, D>(threads: seq<Thread<L, D>>): int {
    if |threads| == 0 then 0 else ThreadWork(threads[0]) + Work(threads[1..])
  }

  lemma {:induction false} WorkUpdate<L, D>(threads: seq<Thread<L, D>>, t: nat, th: Thread<L, D>)
    requires t < |threads|
    ensures Work(threads[t := th]) == Work(threads) - ThreadWork(threads[t]) + ThreadWork(th)
  {
    if t > 0 {
      WorkUpdate(threads[1..], t - 1, th);
      assert threads[t := th][1..] == threads[1..][t - 1 := th];
    } else {
      assert threads[t := th][1..] == threads[1..];
    }
  }

  lemma {:induction false} WorkIsNat<L, D>(threads: seq<Thread<L, D>>, n: nat)
    requires forall t :: 0 <= t < |threads| ==> ThreadOk(threads[t], n)
    ensures Work(threads) >= 0
  {
    hide ThreadOk, ThreadWork;
    if |threads| > 0 {
      ThreadWorkIsNat(threads[0], n);
      WorkIsNat(threads[1..], n);
    }
  }

  lemma ThreadWorkIsNat<L, D>(th: Thread<L, D>, n: nat)
    requires ThreadOk(th, n)
    ensures ThreadWork(th) >= 0
  {
  }

  /** (Termination) No run is longer than the work of its initial state, so a run
      that cannot be extended ends with every thread finished. */
  lemma {:induction false} RunsEnd<L, D>(s: State<L, D>, order: seq<nat>)
    requires Inv(s) && Schedule(s, order)
    ensures |order| <= Work(s.threads) - Work(Run(s, order).threads)
    ensures |order| <= Work(s.threads)
    decreases |order|
  {
    hide Inv, CanStep, Step, Work, ThreadWork;
    InvThreads(s);
    if |order| > 0 {
      var s' := Step(s, order[0]);
      StepInv(s, order[0]);
      StepWork(s, order[0]);
      RunsEnd(s', order[1..]);
    }
  }

  lemma InvThreads<L, D>(s: State<L, D>)
    requires Inv(s)
    ensures Work(s.threads) >= 0
  {
    WorkIsNat(s.threads, |s.owner|);
  }

  lemma StepWork<L, D>(s: State<L, D>, t: nat)
    requires Inv(s) && CanStep(s, t)
    ensures Work(Step(s, t).threads) < Work(s.threads)
  {
    ThreadWorkDrops(s, t);
    hide ThreadWork, Inv, Access;
    var s' := Step(s, t);
    WorkUpdate(s.threads, t, s'.threads[t]);
    assert s'.threads == s.threads[t := s'.threads[t]];
  }

  // --------------------------------------------------------- serializability

  /** The shards and threads of an execution that runs whole bursts. */
  datatype Serial<!L, !D> = Serial(data: seq<D>, locals: seq<L>, todos: seq<seq<Burst<L, D>>>)

  ghost function RunOps<L, D>(ops: seq<Op<L, D>>, locks: seq<nat>, local: L, data: seq<D>): (r: (L, seq<D>))
    ensures |r.1| == |data|
    decreases |ops|
  {
    if |ops| == 0 then (local, data)
    else
      var (l, d) := Access(ops[0], locks, local, data);
      RunOps(ops[1..], locks, l, d)
  }

  /** Thread `t` runs its next burst, alone. */
  ghost function SerialStep<L, D>(z: Serial<L, D>, t: nat): Serial<L, D>
    requires t < |z.todos| == |z.locals| && z.todos[t] != []
  {
    var b := z.todos[t][0];
    var (l, d) := RunOps(b.ops, b.locks, z.locals[t], z.data);
    Serial(d, z.locals[t := l], z.todos[t := z.todos[t][1..]])
  }

  /** Running the bursts one at a time in the order of `log`. */
  ghost function SerialRun<L, D>(start: Serial<L, D>, log: seq<nat>): Option<Serial<L, D>>
    decreases |log|
  {
    if |log| == 0 then Some(start)
    else
      match SerialRun(start, log[..|log| - 1])
      case None => None
      case Some(y) =>
        var t := log[|log| - 1];
        if t < |y.todos| && |y.todos| == |y.locals| && y.todos[t] != [] then Some(SerialStep(y, t)) else None
  }

  ghost function Projection<L, D>(s: State<L, D>): Serial<L, D> {
    Serial(s.data, seq(|s.threads|, t requires 0 <= t < |s.threads| => s.threads[t].local),
           seq(|s.threads|, t requires 0 <= t < |s.threads| => s.threads[t].todo))
  }

  /** The rest of the handler of `th`, run on the current shards. */
  ghost function Rest<L, D>(th: Thread<L, D>, data: seq<D>): (L, seq<D>)
    requires th.todo != [] && th.pc <= |th.todo[0].ops|
  {
    RunOps(th.todo[0].ops[th.pc..], th.todo[0].locks, th.local, data)
  }

  /** The serial execution is ahead of thread `t` by the rest of its handler. */
  ghost predicate ThreadAgrees<L, D>(s: State<L, D>, z: Serial<L, D>, t: nat)
    requires t < |s.threads| == |z.locals| == |z.todos|
  {
    var th := s.threads[t];
    if th.phase.Acquiring? then z.locals[t] == th.local && z.todos[t] == th.todo
    else
      && th.todo != [] && th.pc <= |th.todo[0].ops|
      && z.todos[t] == th.todo[1..] && z.locals[t] == Rest(th, s.data).0
  }

  ghost predicate ShardAgrees<L, D>(s: State<L, D>, z: Serial<L, D>, i: nat)
    requires i < |s.data| == |z.data| == |s.owner|
  {
    if s.owner[i].Some? && s.owner[i].value < |s.threads| && !s.threads[s.owner[i].value].phase.Acquiring? then
      var th := s.threads[s.owner[i].value];
      th.todo != [] && th.pc <= |th.todo[0].ops| && z.data[i] == Rest(th, s.data).1[i]
    else z.data[i] == s.data[i]
  }

  ghost predicate Agrees<L, D>(s: State<L, D>, z: Serial<L, D>) {
    && |s.data| == |z.data| == |s.owner|
    && |s.threads| == |z.locals| == |z.todos|
    && (forall t :: 0 <= t < |s.threads| ==> ThreadAgrees(s, z, t))
    && (forall i :: 0 <= i < |s.data| ==> ShardAgrees(s, z, i))
  }

  /** (Locality) A handler depends on and changes the locked shards only. */
  lemma {:induction false} RunOpsLocal<L, D>(ops: seq<Op<L, D>>, locks: seq<nat>, local: L, data: seq<D>, data': seq<D>)
    requires |data| == |data'| && forall i :: 0 <= i < |data| && i in locks ==> data[i] == data'[i]
    ensures RunOps(ops, locks, local, data).0 == RunOps(ops, locks, local, data').0
    ensures forall i :: 0 <= i < |data| && i in locks ==>
      RunOps(ops, locks, local, data).1[i] == RunOps(ops, locks, local, data').1[i]
    ensures forall i :: 0 <= i < |data| && i !in locks ==> RunOps(ops, locks, local, data).1[i] == data[i]
    decreases |ops|
  {
    if |ops| > 0 {
      var (l, d) := Access(ops[0], locks, local, data);
      var (l', d') := Access(ops[0], locks, local, data');
      RunOpsLocal(ops[1..], locks, l, d, d');
    }
  }

  lemma OwnersDiffer<L, D>(s: State<L, D>, t: nat, u: nat, i: nat)
    requires Inv(s) && t < |s.threads| && u < |s.threads| && i < |s.owner|
    requires Holds(s.threads[t], i) && Holds(s.threads[u], i)
    ensures t == u
  {
    assert OwnerOk(s, i, t) && OwnerOk(s, i, u);
  }

  /** A thread past its last acquisition holds all the shards of its burst. */
  lemma RunningHoldsAll<L, D>(th: Thread<L, D>, n: nat, i: nat)
    requires ThreadOk(th, n) && th.phase.Running? && i in th.todo[0].locks
    ensures Holds(th, i)
  {
    assert th.todo[0].locks[..th.got] == th.todo[0].locks;
  }

  // ---- a handler access: the serial execution stays put

  lemma AccessShifts<L, D>(th: Thread<L, D>, data: seq<D>)
    requires th.todo != [] && th.pc < |th.todo[0].ops|
    ensures var b := th.todo[0]; var (l, d) := Access(b.ops[th.pc], b.locks, th.local, data);
      Rest(th, data) == Rest(th.(local := l, pc := th.pc + 1), d)
  {
    var b := th.todo[0];
    assert b.ops[th.pc..][0] == b.ops[th.pc] && b.ops[th.pc..][1..] == b.ops[th.pc + 1..];
  }

  lemma AccessLocal<L, D>(op: Op<L, D>, locks: seq<nat>, local: L, data: seq<D>, i: nat)
    requires i < |data| && i !in locks
    ensures Access(op, locks, local, data).1[i] == data[i]
  {
  }

  /** The step takes the last lock of a burst (or starts one without locks). */
  ghost predicate Commits<L, D>(s: State<L, D>, t: nat)
    requires CanStep(s, t)
  {
    s.threads[t].phase.Acquiring? && s.threads[t].got + 1 >= |s.threads[t].todo[0].locks|
  }

  lemma CommitShard<L, D>(s: State<L, D>, z: Serial<L, D>, t: nat, i: nat)
    requires Inv(s) && CanStep(s, t) && Agrees(s, z) && Commits(s, t) && i < |s.data| && i in s.threads[t].todo[0].locks
    ensures z.data[i] == s.data[i] && Step(s, t).owner[i] == Some(t)
  {
    var th := s.threads[t];
    assert ThreadOk(th, |s.owner|) && ShardAgrees(s, z, i) && OwnerOk(s, i, t);
    var locks := th.todo[0].locks;
    assert locks == locks[..th.got] + [locks[th.got]];
  }

  lemma CommitOther<L, D>(s: State<L, D>, t: nat, i: nat)
    requires Inv(s) && CanStep(s, t) && Commits(s, t) && i < |s.data| && i !in s.threads[t].todo[0].locks
    ensures Step(s, t).owner[i] == s.owner[i] != Some(t)
  {
    var th := s.threads[t];
    assert ThreadOk(th, |s.owner|) && OwnerOk(s, i, t);
  }

  lemma CommitThread<L, D>(s: State<L, D>, z: Serial<L, D>, t: nat)
    requires Inv(s) && CanStep(s, t) && Agrees(s, z) && Commits(s, t)
    ensures t < |s.threads| == |z.todos| == |z.locals| && s.threads[t].todo != []
    ensures z.todos[t] == s.threads[t].todo && z.locals[t] == s.threads[t].local
    ensures var th, th' := s.threads[t], Step(s, t).threads[t];
      && th'.phase.Running? && th'.todo == th.todo && th'.local == th.local && th'.pc == 0
      && Step(s, t).data == s.data
      && Rest(th', s.data) == RunOps(th.todo[0].ops, th.todo[0].locks, th.local, s.data)
  {
    var th := s.threads[t];
    assert ThreadOk(th, |s.owner|) && ThreadAgrees(s, z, t);
    assert th.todo[0].ops[0..] == th.todo[0].ops;
  }

  lemma SimulateCommit<L, D>(s: State<L, D>, z: Serial<L, D>, t: nat)
    requires Inv(s) && CanStep(s, t) && Agrees(s, z) && Commits(s, t)
    ensures z.todos[t] != [] && Agrees(Step(s, t), SerialStep(z, t))
  {
    hide Inv, CanStep, Rest, Step, RunOps;
    CommitThread(s, z, t);
    StepInv(s, t);
    var th := s.threads[t];
    var s', z' := Step(s, t), SerialStep(z, t);
    var locks := th.todo[0].locks;
    forall i | 0 <= i < |s.data| && i in locks
      ensures z.data[i] == s.data[i]
    {
      CommitShard(s, z, t, i);
    }
    RunOpsLocal(th.todo[0].ops, locks, th.local, z.data, s.data);
    forall i | 0 <= i < |s'.data|
      ensures ShardAgrees(s', z', i)
    {
      assert ShardAgrees(s, z, i);
      if i in locks {
        CommitShard(s, z, t, i);
      } else {
        CommitOther(s, t, i);
      }
    }
    forall u | 0 <= u < |s'.threads|
      ensures ThreadAgrees(s', z', u)
    {
      assert ThreadAgrees(s, z, u);
    }
  }

  lemma SimulateAccess<L, D>(s: State<L, D>, z: Serial<L, D>, t: nat)
    requires Inv(s) && CanStep(s, t) && Agrees(s, z)
    requires s.threads[t].phase.Running? && s.threads[t].pc < |s.threads[t].todo[0].ops|
    ensures Agrees(Step(s, t), z)
  {
    hide Rest, RunOps, Access;
    var th := s.threads[t];
    var s' := Step(s, t);
    AccessShifts(th, s.data);
    forall i | 0 <= i < |s.data| && !Holds(th, i)
      ensures s'.data[i] == s.data[i]
    {
      AccessElsewhere(s, t, i);
    }
    forall u | 0 <= u < |s.threads|
      ensures ThreadAgrees(s', z, u)
    {
      assert ThreadAgrees(s, z, u);
      if u != t && !s.threads[u].phase.Acquiring? {
        OtherRest(s, t, u, s'.data);
      }
    }
    forall i | 0 <= i < |s.data|
      ensures ShardAgrees(s', z, i)
    {
      assert ShardAgrees(s, z, i) && OwnerOk(s, i, t);
      if s.owner[i].Some? && s.owner[i].value != t {
        var u := s.owner[i].value;
        assert OwnerOk(s, i, u);
        if !s.threads[u].phase.Acquiring? {
          OtherRest(s, t, u, s'.data);
        }
      }
    }
  }

  lemma AccessElsewhere<L, D>(s: State<L, D>, t: nat, i: nat)
    requires Inv(s) && t < |s.threads| && s.threads[t].phase.Running? && s.threads[t].todo != []
    requires s.threads[t].pc < |s.threads[t].todo[0].ops| && i < |s.data| && !Holds(s.threads[t], i)
    ensures var th := s.threads[t]; Access(th.todo[0].ops[th.pc], th.todo[0].locks, th.local, s.data).1[i] == s.data[i]
  {
    hide Access;
    var th := s.threads[t];
    assert ThreadOk(th, |s.owner|);
    if i in th.todo[0].locks {
      RunningHoldsAll(th, |s.owner|, i);
    }
    AccessLocal(th.todo[0].ops[th.pc], th.todo[0].locks, th.local, s.data, i);
  }

  /** What `t` does to its shards is invisible to the rest of another handler. */
  lemma OtherRest<L, D>(s: State<L, D>, t: nat, u: nat, data': seq<D>)
    requires Inv(s) && t < |s.threads| && u < |s.threads| && u != t && !s.threads[u].phase.Acquiring?
    requires |data'| == |s.data| && forall i :: 0 <= i < |s.data| && !Holds(s.threads[t], i) ==> data'[i] == s.data[i]
    ensures s.threads[u].todo != [] && s.threads[u].pc <= |s.threads[u].todo[0].ops|
    ensures Rest(s.threads[u], data').0 == Rest(s.threads[u], s.data).0
    ensures forall i :: 0 <= i < |s.data| && Holds(s.threads[u], i) ==>
      Rest(s.threads[u], data').1[i] == Rest(s.threads[u], s.data).1[i]
  {
    var th := s.threads[u];
    assert ThreadOk(th, |s.owner|);
    var ops, locks := th.todo[0].ops[th.pc..], th.todo[0].locks;
    forall i | 0 <= i < |s.data| && Holds(th, i)
      ensures data'[i] == s.data[i]
    {
      if Holds(s.threads[t], i) {
        OwnersDiffer(s, t, u, i);
      }
    }
    if th.phase.Running? {
      assert locks[..th.got] == locks;
      RunOpsLocal(ops, locks, th.local, s.data, data');
    }
  }

  /** The steps that neither commit nor touch data. */
  lemma SimulateQuiet<L, D>(s: State<L, D>, z: Serial<L, D>, t: nat)
    requires Inv(s) && CanStep(s, t) && Agrees(s, z) && !Commits(s, t)
    requires !(s.threads[t].phase.Running? && s.threads[t].pc < |s.threads[t].todo[0].ops|)
    ensures Agrees(Step(s, t), z)
  {
    hide RunOps, Access;
    var th := s.threads[t];
    var s' := Step(s, t);
    assert ThreadOk(th, |s.owner|);
    if th.phase.Releasing? {
      NothingLeft(th, s.data);
    }
    hide Rest;
    forall u | 0 <= u < |s.threads|
      ensures ThreadAgrees(s', z, u)
    {
      assert ThreadAgrees(s, z, u);
    }
    forall i | 0 <= i < |s.data|
      ensures ShardAgrees(s', z, i)
    {
      assert ShardAgrees(s, z, i) && OwnerOk(s, i, t);
    }
  }

  lemma NothingLeft<L, D>(th: Thread<L, D>, data: seq<D>)
    requires th.todo != [] && th.pc == |th.todo[0].ops|
    ensures Rest(th, data) == (th.local, data)
  {
  }

  lemma SimulateStep<L, D>(start: Serial<L, D>, s: State<L, D>, z: Serial<L, D>, t: nat) returns (z': Serial<L, D>)
    requires Inv(s) && CanStep(s, t) && Agrees(s, z) && SerialRun(start, s.log) == Some(z)
    ensures Agrees(Step(s, t), z') && SerialRun(start, Step(s, t).log) == Some(z')
  {
    assert ThreadOk(s.threads[t], |s.owner|);
    if Commits(s, t) {
      SimulateCommit(s, z, t);
      z' := SerialStep(z, t);
      var log := s.log + [t];
      assert log[..|log| - 1] == s.log;
    } else {
      z' := z;
      if s.threads[t].phase.Running? && s.threads[t].pc < |s.threads[t].todo[0].ops| {
        SimulateAccess(s, z, t);
      } else {
        SimulateQuiet(s, z, t);
      }
    }
  }

  /** In every reachable state the shards and threads stand where the serial run
      in the order of last acquisitions puts them, up to the handlers that are
      still in the middle of their bursts. */
  lemma {:induction false} Simulation<L, D>(start: Serial<L, D>, s: State<L, D>, z: Serial<L, D>, order: seq<nat>) returns (z': Serial<L, D>)
    requires Inv(s) && Agrees(s, z) && SerialRun(start, s.log) == Some(z) && Schedule(s, order)
    ensures Agrees(Run(s, order), z') && SerialRun(start, Run(s, order).log) == Some(z')
    decreases |order|
  {
    hide Inv, CanStep, Step, Agrees, SerialRun;
    z' := z;
    if |order| > 0 {
      StepInv(s, order[0]);
      z' := SimulateStep(start, s, z, order[0]);
      z' := Simulation(start, Step(s, order[0]), z', order[1..]);
    }
  }

  lemma InitiallyAgrees<L, D>(s: State<L, D>)
    requires Initial(s)
    ensures Agrees(s, Projection(s)) && SerialRun(Projection(s), s.log) == Some(Projection(s))
  {
  }

  lemma FinishedAgrees<L, D>(s: State<L, D>, z: Serial<L, D>)
    requires Inv(s) && Agrees(s, z) && Finished(s)
    ensures z == Projection(s)
  {
    forall i | 0 <= i < |s.data|
      ensures z.data[i] == s.data[i]
    {
      assert ShardAgrees(s, z, i);
      if s.owner[i].Some? {
        assert OwnerOk(s, i, s.owner[i].value);
      }
    }
    forall t | 0 <= t < |s.threads|
      ensures z.locals[t] == s.threads[t].local && z.todos[t] == s.threads[t].todo
    {
      assert ThreadAgrees(s, z, t) && ThreadOk(s.threads[t], |s.owner|);
    }
    var p := Projection(s);
    assert z.data == p.data && z.locals == p.locals && z.todos == p.todos;
  }

  /** (Serializability) When every thread is done, the shards and what each thread
      has seen are those of running the bursts one at a time, in the order of
      their last lock acquisitions. */
  lemma Serializable<L, D>(s: State<L, D>, order: seq<nat>)
    requires Initial(s) && Schedule(s, order) && Finished(Run(s, order))
    ensures SerialRun(Projection(s), Run(s, order).log) == Some(Projection(Run(s, order)))
  {
    InitialInv(s);
    RunInv(s, order);
    InitiallyAgrees(s);
    var z := Simulation(Projection(s), s, Projection(s), order);
    FinishedAgrees(Run(s, order), z);
  }

  /** While no burst is past its last acquisition, that holds of the shards at
      any moment of a run. */
  lemma SerializableWhenQuiet<L, D>(s: State<L, D>, order: seq<nat>) returns (z: Serial<L, D>)
    requires Initial(s) && Schedule(s, order)
    requires forall t :: 0 <= t < |Run(s, order).threads| ==> Run(s, order).threads[t].phase.Acquiring?
    ensures SerialRun(Projection(s), Run(s, order).log) == Some(z) && z.data == Run(s, order).data
  {
    InitialInv(s);
    InitiallyAgrees(s);
    z := Simulation(Projection(s), s, Projection(s), order);
    var s' := Run(s, order);
    forall i | 0 <= i < |s'.data|
      ensures z.data[i] == s'.data[i]
    {
      assert ShardAgrees(s', z, i);
    }
  }
}
