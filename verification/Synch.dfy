/**
 The semaphore of `synch.c`, stepped by any number of threads in any order.
 A thread holds the semaphore's spinlock from `spinlock_acquire` until it goes to
 sleep or leaves; whoever gets the spinlock next may take the count first.
 */
module Semaphores {
  import opened Options
  import opened Sequences

  type Tid = nat

  const UINT_MAX := 0xffff_ffff

  /** Where a thread is in `P` or `V`. `woken` marks one that slept and was woken since. */
  datatype Pc = Out | PWant | PIn(woken: bool) | Asleep | Woken | VWant | VIn

  /**
   `started`: the initial count; `vs` and `ps`: completed calls; `pending`: threads woken that have not finished or
   slept again.
   */
  datatype State = State(count: nat, holder: Option<Tid>, sleepers: seq<Tid>, pcs: map<Tid, Pc>,
                         started: nat, vs: nat, ps: nat, pending: set<Tid>)

  function At(s: State, t: Tid): Pc {
    if t in s.pcs then s.pcs[t] else Out
  }

  datatype Action = StartP(t: Tid) | LockP(t: Tid) | Sleep(t: Tid) | Take(t: Tid) | Relock(t: Tid)
                  | StartV(t: Tid) | LockV(t: Tid) | Post(t: Tid)

  ghost predicate Enabled(s: State, a: Action) {
    match a
    case StartP(t) => At(s, t) == Out
    case LockP(t) => At(s, t) == PWant && s.holder == None
    case Sleep(t) => At(s, t).PIn? && s.count == 0
    case Take(t) => At(s, t).PIn? && s.count != 0
    case Relock(t) => At(s, t) == Woken && s.holder == None
    case StartV(t) => At(s, t) == Out
    case LockV(t) => At(s, t) == VWant && s.holder == None
    case Post(t) => At(s, t) == VIn && s.count < UINT_MAX
  }

  ghost function Move(s: State, t: Tid, pc: Pc): State {
    s.(pcs := s.pcs[t := pc])
  }

  ghost function Apply(s: State, a: Action): State
    requires Enabled(s, a)
  {
    match a
    case StartP(t) => Move(s, t, PWant)
    case LockP(t) => Move(s, t, PIn(false)).(holder := Some(t))
    case Sleep(t) => Move(s, t, Asleep).(sleepers := s.sleepers + [t], holder := None, pending := s.pending - {t})
    case Take(t) => Move(s, t, Out).(count := s.count - 1, ps := s.ps + 1, holder := None, pending := s.pending - {t})
    case Relock(t) => Move(s, t, PIn(true)).(holder := Some(t))
    case StartV(t) => Move(s, t, VWant)
    case LockV(t) => Move(s, t, VIn).(holder := Some(t))
    case Post(t) =>
      var posted := Move(s, t, Out).(count := s.count + 1, vs := s.vs + 1, holder := None);
      if s.sleepers == [] then posted
      else Move(posted, s.sleepers[0], Woken).(sleepers := s.sleepers[1..], pending := s.pending + {s.sleepers[0]})
  }

  // ---------------------------------------------------------------- invariant

  ghost predicate Global(s: State) {
    && s.count + s.ps == s.started + s.vs
    && (s.sleepers != [] ==> s.count <= |s.pending|)
    && Distinct(s.sleepers)
  }

  ghost predicate Local(s: State, t: Tid) {
    && (t in s.sleepers <==> At(s, t) == Asleep)
    && (t in s.pending <==> At(s, t) == Woken || At(s, t) == PIn(true))
    && (s.holder == Some(t) <==> At(s, t).PIn? || At(s, t) == VIn)
  }

  ghost predicate Inv(s: State) {
    Global(s) && forall t :: Local(s, t)
  }

  lemma StepKeepsLocal(s: State, a: Action, t: Tid)
    requires Inv(s) && Enabled(s, a) && Local(s, t) && Local(s, a.t)
    ensures Local(Apply(s, a), t)
  {
    if a.Post? && s.sleepers != [] {
      var w := s.sleepers[0];
      assert w in s.sleepers && Local(s, w);
      assert t in s.sleepers <==> t == w || t in s.sleepers[1..];
    }
  }

  lemma StepKeepsGlobal(s: State, a: Action)
    requires Inv(s) && Enabled(s, a)
    ensures Global(Apply(s, a))
  {
    assert Local(s, a.t);
    match a {
      case Sleep(t) =>
        assert forall i :: 0 <= i < |s.sleepers| ==> s.sleepers[i] in s.sleepers;
      case Take(t) =>
      case Post(t) =>
        if s.sleepers != [] {
          assert s.sleepers[0] in s.sleepers && Local(s, s.sleepers[0]);
        }
      case _ =>
    }
  }

  lemma StepKeepsInv(s: State, a: Action)
    requires Inv(s) && Enabled(s, a)
    ensures Inv(Apply(s, a))
  {
    StepKeepsGlobal(s, a);
    forall t ensures Local(Apply(s, a), t) {
      assert Local(s, t) && Local(s, a.t);
      StepKeepsLocal(s, a, t);
    }
  }

  // ---------------------------------------------------------------- every run

  ghost predicate IsRun(trace: seq<State>, actions: seq<Action>, initial: nat) {
    && |trace| == |actions| + 1
    && trace[0] == State(initial, None, [], map[], initial, 0, 0, {})
    && (forall i :: 0 <= i < |actions| ==> Enabled(trace[i], actions[i]) && trace[i + 1] == Apply(trace[i], actions[i]))
  }

  lemma {:induction false} RunKeepsInv(trace: seq<State>, actions: seq<Action>, initial: nat, k: nat)
    requires IsRun(trace, actions, initial) && k < |trace|
    ensures Inv(trace[k]) && trace[k].started == initial
  {
    if k > 0 {
      RunKeepsInv(trace, actions, initial, k - 1);
      StepKeepsInv(trace[k - 1], actions[k - 1]);
    }
  }

  /** Calls completed in the first `k` steps. */
  ghost function Completed(actions: seq<Action>, p: bool): nat {
    if actions == [] then 0
    else
      var last := actions[|actions| - 1];
      Completed(actions[..|actions| - 1], p) + (if (if p then last.Take? else last.Post?) then 1 else 0)
  }

  lemma {:induction false} CountersCount(trace: seq<State>, actions: seq<Action>, initial: nat, k: nat)
    requires IsRun(trace, actions, initial) && k < |trace|
    ensures trace[k].vs == Completed(actions[..k], false) && trace[k].ps == Completed(actions[..k], true)
  {
    if k > 0 {
      CountersCount(trace, actions, initial, k - 1);
      assert actions[..k][..k - 1] == actions[..k - 1];
      CounterStep(trace[k - 1], actions[k - 1]);
    }
  }

  lemma CounterStep(s: State, a: Action)
    requires Enabled(s, a)
    ensures Apply(s, a).vs == s.vs + (if a.Post? then 1 else 0) && Apply(s, a).ps == s.ps + (if a.Take? then 1 else 0)
  {}

  /** The count is the initial count plus the V's minus the completed P's, after every run. */
  lemma CountBalances(trace: seq<State>, actions: seq<Action>, initial: nat, k: nat)
    requires IsRun(trace, actions, initial) && k < |trace|
    ensures trace[k].count == initial + Completed(actions[..k], false) - Completed(actions[..k], true)
  {
    RunKeepsInv(trace, actions, initial, k);
    CountersCount(trace, actions, initial, k);
  }

  /** No stranded sleepers: while anyone sleeps, each unit of the count has a woken thread on its way to it. */
  lemma NoStrandedSleepers(trace: seq<State>, actions: seq<Action>, initial: nat, k: nat, t: Tid)
    requires IsRun(trace, actions, initial) && k < |trace| && At(trace[k], t) == Asleep
    ensures trace[k].count <= |trace[k].pending|
    ensures forall w :: w in trace[k].pending ==> At(trace[k], w) == Woken || At(trace[k], w) == PIn(true)
  {
    RunKeepsInv(trace, actions, initial, k);
    assert Local(trace[k], t);
    forall w | w in trace[k].pending ensures At(trace[k], w) == Woken || At(trace[k], w) == PIn(true) {
      assert Local(trace[k], w);
    }
  }

  // ---------------------------------------------------------------- what a step does, seen from outside

  /** Where the thread that takes a step is afterwards. */
  ghost predicate Reaches(a: Action, pc: Pc) {
    match a
    case StartP(_) => pc == PWant
    case LockP(_) => pc == PIn(false)
    case Sleep(_) => pc == Asleep
    case Take(_) => pc == Out
    case Relock(_) => pc == PIn(true)
    case StartV(_) => pc == VWant
    case LockV(_) => pc == VIn
    case Post(_) => pc == Out
  }

  /** A thread moves only by its own steps, except that a V wakes a sleeper. */
  lemma ThreadMoves(trace: seq<State>, actions: seq<Action>, initial: nat, k: nat, t: Tid)
    requires IsRun(trace, actions, initial) && k < |actions|
    ensures t == actions[k].t ==> Reaches(actions[k], At(trace[k + 1], t))
    ensures t != actions[k].t ==>
              || At(trace[k + 1], t) == At(trace[k], t)
              || (actions[k].Post? && At(trace[k], t) == Asleep && At(trace[k + 1], t) == Woken)
  {
    RunKeepsInv(trace, actions, initial, k);
    var s, a := trace[k], actions[k];
    assert Enabled(s, a) && Local(s, a.t);
    if a.Post? && s.sleepers != [] { assert s.sleepers[0] in s.sleepers && Local(s, s.sleepers[0]); }
  }

  /** A V with sleepers wakes exactly one of them. */
  lemma PostWakesOne(trace: seq<State>, actions: seq<Action>, initial: nat, k: nat, t: Tid) returns (w: Tid)
    requires IsRun(trace, actions, initial) && k < |actions| && actions[k].Post? && At(trace[k], t) == Asleep
    ensures At(trace[k], w) == Asleep && At(trace[k + 1], w) == Woken
    ensures forall u :: u != w && At(trace[k], u) == Asleep ==> At(trace[k + 1], u) == Asleep
  {
    RunKeepsInv(trace, actions, initial, k);
    var s, a := trace[k], actions[k];
    assert Enabled(s, a) && Local(s, a.t) && Local(s, t);
    w := s.sleepers[0];
    assert w in s.sleepers && Local(s, w);
  }

  ghost function SleepOf(t: Tid): Action {
    Sleep(t)
  }

  lemma {:induction false} SleepersInOrder(trace: seq<State>, actions: seq<Action>, initial: nat, k: nat, log: seq<Action>)
    requires IsRun(trace, actions, initial) && k < |trace| && log == actions[..k]
    ensures InOrder(trace[k].sleepers, log, SleepOf)
    decreases k
  {
    if k > 0 {
      var before := actions[..k - 1];
      SleepersInOrder(trace, actions, initial, k - 1, before);
      assert Inv(trace[k - 1]) by { RunKeepsInv(trace, actions, initial, k - 1); }
      QueueStep(trace[k - 1], actions[k - 1], before);
      assert log == before + [actions[k - 1]];
    }
  }

  lemma QueueStep(s: State, a: Action, log: seq<Action>)
    requires Inv(s) && Enabled(s, a) && InOrder(s.sleepers, log, SleepOf)
    ensures InOrder(Apply(s, a).sleepers, log + [a], SleepOf)
  {
    var act := SleepOf;
    assert Local(s, a.t);
    forall x | 0 <= x < |s.sleepers| ensures act(s.sleepers[x]) != a { assert s.sleepers[x] in s.sleepers; }
    if a.Sleep? {
      JoinsInOrder(s.sleepers, log, act, a.t);
    } else {
      OthersKeepOrder(s.sleepers, log, act, a);
    }
  }

  /** Sleepers are woken in the order in which they went to sleep. */
  lemma FirstAsleepFirstWoken(trace: seq<State>, actions: seq<Action>, initial: nat, k: nat, t: Tid, u: Tid)
    requires IsRun(trace, actions, initial) && k < |actions|
    requires At(trace[k], t) == Asleep && At(trace[k + 1], t) != Asleep
    requires At(trace[k], u) == Asleep && At(trace[k + 1], u) == Asleep
    ensures LastTime(actions[..k], Sleep(t)) < LastTime(actions[..k], Sleep(u))
  {
    RunKeepsInv(trace, actions, initial, k);
    RunKeepsInv(trace, actions, initial, k + 1);
    SleepersInOrder(trace, actions, initial, k, actions[..k]);
    var s, a := trace[k], actions[k];
    assert Enabled(s, a) && Local(s, t) && Local(s, u) && Local(s, a.t) && Local(trace[k + 1], t) && Local(trace[k + 1], u);
    FrontBeforeRest(s.sleepers, actions[..k], SleepOf, 1, t, u);
  }
}

/**
 A sleep lock and a condition variable used with it. Each has its own spinlock and
 wait channel; `cv_wait` keeps the condition variable's spinlock from before it
 releases the lock until it is on the wait channel.
 */
module Monitors {
  import opened Options
  import opened Sequences

  type Tid = nat

  /**
   Where a thread is. `Want`, `In`, `Asleep` and `Woken` are `lock_acquire` before, inside, asleep and woken; `cv` says
   that `cv_wait` called it. `Releasing` is `lock_release`, plain or from `cv_wait`. `CvReleased` has released the lock
   inside `cv_wait` but not yet joined the wait channel.
   */
  datatype Pc = Out | Want(cv: bool) | In(cv: bool, woken: bool) | Asleep(cv: bool) | Woken(cv: bool) | Holding
              | Releasing(cv: bool) | CvWant | CvIn | CvReleased | CvAsleep | CvWoken | CvBack
              | SignalWant(all: bool) | SignalIn(all: bool)

  /**
   `lk` and `cvLk`: holders of the two spinlocks; `queue` and `cvQueue`: the two wait channels; `pending`: threads woken
   in `lock_acquire` that have neither got the lock nor slept again; `waiters`: threads between the release and the
   return of `cv_wait`.
   */
  datatype State = State(owner: Option<Tid>, lk: Option<Tid>, queue: seq<Tid>, cvLk: Option<Tid>, cvQueue: seq<Tid>,
                         pcs: map<Tid, Pc>, pending: set<Tid>, waiters: set<Tid>)

  function At(s: State, t: Tid): Pc {
    if t in s.pcs then s.pcs[t] else Out
  }

  datatype Action =
    | Acquire(t: Tid) | Lock(t: Tid) | Sleep(t: Tid) | Get(t: Tid) | Relock(t: Tid)
    | Release(t: Tid) | Free(t: Tid)
    | CvWait(t: Tid) | CvLock(t: Tid) | CvFree(t: Tid) | CvSleep(t: Tid) | CvRelock(t: Tid) | CvUnlock(t: Tid)
    | Signal(t: Tid, all: bool) | SignalLock(t: Tid) | Wake(t: Tid)

  ghost predicate Enabled(s: State, a: Action) {
    match a
    case Acquire(t) => At(s, t) == Out
    case Lock(t) => At(s, t).Want? && s.lk == None
    case Sleep(t) => At(s, t).In? && s.owner != None
    case Get(t) => At(s, t).In? && s.owner == None
    case Relock(t) => At(s, t).Woken? && s.lk == None
    case Release(t) => At(s, t) == Holding
    case Free(t) => At(s, t).Releasing? && s.lk == None
    case CvWait(t) => At(s, t) == Holding
    case CvLock(t) => At(s, t) == CvWant && s.cvLk == None
    case CvFree(t) => At(s, t) == CvIn
    case CvSleep(t) => At(s, t) == CvReleased
    case CvRelock(t) => At(s, t) == CvWoken && s.cvLk == None
    case CvUnlock(t) => At(s, t) == CvBack
    case Signal(t, all) => At(s, t) == Holding
    case SignalLock(t) => At(s, t).SignalWant? && s.cvLk == None
    case Wake(t) => At(s, t).SignalIn?
  }

  ghost function Move(s: State, t: Tid, pc: Pc): State {
    s.(pcs := s.pcs[t := pc])
  }

  /** Every thread of `ts` goes to `pc`. */
  ghost function MoveAll(s: State, ts: seq<Tid>, pc: Pc): (r: State)
    ensures r == s.(pcs := r.pcs)
    ensures forall t :: At(r, t) == if t in ts then pc else At(s, t)
    decreases |ts|
  {
    if ts == [] then s else MoveAll(Move(s, ts[0], pc), ts[1..], pc)
  }

  /** `lock_release` under its spinlock: no owner, and one sleeper woken. */
  ghost function FreeLock(s: State): State {
    if s.queue == [] then s.(owner := None)
    else
      var w := s.queue[0];
      Move(s, w, Woken(At(s, w) == Asleep(true)))
      .(owner := None, queue := s.queue[1..], pending := s.pending + {w})
  }

  ghost function Apply(s: State, a: Action): State
    requires Enabled(s, a)
  {
    match a
    case Acquire(t) => Move(s, t, Want(false))
    case Lock(t) => Move(s, t, In(At(s, t).cv, false)).(lk := Some(t))
    case Sleep(t) => Move(s, t, Asleep(At(s, t).cv)).(queue := s.queue + [t], lk := None, pending := s.pending - {t})
    case Get(t) =>
      Move(s, t, Holding).(owner := Some(t), lk := None, pending := s.pending - {t}, waiters := s.waiters - {t})
    case Relock(t) => Move(s, t, In(At(s, t).cv, true)).(lk := Some(t))
    case Release(t) => Move(s, t, Releasing(false))
    case Free(t) =>
      var r := FreeLock(s);
      if At(s, t).cv then Move(r, t, CvReleased).(waiters := s.waiters + {t}) else Move(r, t, Out)
    case CvWait(t) => Move(s, t, CvWant)
    case CvLock(t) => Move(s, t, CvIn).(cvLk := Some(t))
    case CvFree(t) => Move(s, t, Releasing(true))
    case CvSleep(t) => Move(s, t, CvAsleep).(cvQueue := s.cvQueue + [t], cvLk := None)
    case CvRelock(t) => Move(s, t, CvBack).(cvLk := Some(t))
    case CvUnlock(t) => Move(s, t, Want(true)).(cvLk := None)
    case Signal(t, all) => Move(s, t, SignalWant(all))
    case SignalLock(t) => Move(s, t, SignalIn(At(s, t).all)).(cvLk := Some(t))
    case Wake(t) =>
      var n := if At(s, t).all then |s.cvQueue| else if s.cvQueue == [] then 0 else 1;
      Move(MoveAll(s, s.cvQueue[..n], CvWoken), t, Holding).(cvQueue := s.cvQueue[n..], cvLk := None)
  }

  // ---------------------------------------------------------------- invariant

  /** The thread owns the lock at this point of its code. */
  predicate Owns(pc: Pc) {
    pc.Holding? || pc.Releasing? || pc.CvWant? || pc.CvIn? || pc.SignalWant? || pc.SignalIn?
  }

  /** The thread holds the condition variable's spinlock at this point. */
  predicate HoldsCv(pc: Pc) {
    pc.CvIn? || pc == Releasing(true) || pc.CvReleased? || pc.CvBack? || pc.SignalIn?
  }

  /** The thread is inside `cv_wait` with the lock released. */
  predicate Waiting(pc: Pc) {
    || pc.CvReleased? || pc.CvAsleep? || pc.CvWoken? || pc.CvBack?
    || pc == Want(true) || (pc.In? && pc.cv) || pc == Asleep(true) || pc == Woken(true)
  }

  ghost predicate Local(s: State, t: Tid) {
    && (s.owner == Some(t) <==> Owns(At(s, t)))
    && (s.lk == Some(t) <==> At(s, t).In?)
    && (s.cvLk == Some(t) <==> HoldsCv(At(s, t)))
    && (t in s.queue <==> At(s, t).Asleep?)
    && (t in s.cvQueue <==> At(s, t) == CvAsleep)
    && (t in s.pending <==> At(s, t).Woken? || (At(s, t).In? && At(s, t).woken))
    && (t in s.waiters <==> Waiting(At(s, t)))
  }

  ghost predicate Global(s: State) {
    && Distinct(s.queue) && Distinct(s.cvQueue)
    && (s.owner == None && s.queue != [] ==> s.pending != {})
  }

  ghost predicate Inv(s: State) {
    Global(s) && forall t :: Local(s, t)
  }

  lemma Split(q: seq<Tid>, n: nat, t: Tid)
    requires Distinct(q) && n <= |q|
    ensures t in q <==> t in q[..n] || t in q[n..]
    ensures !(t in q[..n] && t in q[n..])
  {}

  lemma LockStepKeepsLocal(s: State, a: Action, t: Tid)
    requires Enabled(s, a) && Local(s, t) && Local(s, a.t)
    requires a.Acquire? || a.Lock? || a.Sleep? || a.Get? || a.Relock? || a.Release?
    ensures Local(Apply(s, a), t)
  {}

  lemma CvStepKeepsLocal(s: State, a: Action, t: Tid)
    requires Enabled(s, a) && Local(s, t) && Local(s, a.t)
    requires a.CvWait? || a.CvLock? || a.CvFree? || a.CvSleep? || a.CvRelock? || a.CvUnlock? || a.Signal? || a.SignalLock?
    ensures Local(Apply(s, a), t)
  {}

  lemma FreeKeepsLocal(s: State, a: Action, t: Tid)
    requires Distinct(s.queue) && Enabled(s, a) && Local(s, t) && Local(s, a.t) && a.Free?
    requires s.queue != [] ==> Local(s, s.queue[0])
    ensures Local(Apply(s, a), t)
  {
    if s.queue != [] {
      assert s.queue[0] in s.queue;
      Split(s.queue, 1, t);
    }
  }

  lemma WakeKeepsLocal(s: State, a: Action, t: Tid)
    requires Distinct(s.cvQueue) && Enabled(s, a) && Local(s, t) && Local(s, a.t) && a.Wake?
    ensures Local(Apply(s, a), t)
  {
    var n := if At(s, a.t).all then |s.cvQueue| else if s.cvQueue == [] then 0 else 1;
    Split(s.cvQueue, n, t);
  }

  lemma StepKeepsGlobal(s: State, a: Action)
    requires Inv(s) && Enabled(s, a)
    ensures Global(Apply(s, a))
  {
    assert Local(s, a.t);
    match a {
      case Sleep(t) => assert forall i :: 0 <= i < |s.queue| ==> s.queue[i] in s.queue;
      case CvSleep(t) => assert forall i :: 0 <= i < |s.cvQueue| ==> s.cvQueue[i] in s.cvQueue;
      case _ =>
    }
  }

  lemma StepKeepsInv(s: State, a: Action)
    requires Inv(s) && Enabled(s, a)
    ensures Inv(Apply(s, a))
  {
    StepKeepsGlobal(s, a);
    forall t ensures Local(Apply(s, a), t) {
      assert Local(s, t) && Local(s, a.t);
      if a.Free? {
        assert s.queue != [] ==> Local(s, s.queue[0]);
        FreeKeepsLocal(s, a, t);
      } else if a.Wake? {
        WakeKeepsLocal(s, a, t);
      } else if a.Acquire? || a.Lock? || a.Sleep? || a.Get? || a.Relock? || a.Release? {
        LockStepKeepsLocal(s, a, t);
      } else {
        CvStepKeepsLocal(s, a, t);
      }
    }
  }

  // ---------------------------------------------------------------- every run

  ghost predicate IsRun(trace: seq<State>, actions: seq<Action>) {
    && |trace| == |actions| + 1
    && trace[0] == State(None, None, [], None, [], map[], {}, {})
    && (forall i :: 0 <= i < |actions| ==> Enabled(trace[i], actions[i]) && trace[i + 1] == Apply(trace[i], actions[i]))
  }

  lemma {:induction false} RunKeepsInv(trace: seq<State>, actions: seq<Action>, k: nat)
    requires IsRun(trace, actions) && k < |trace|
    ensures Inv(trace[k])
  {
    if k > 0 {
      RunKeepsInv(trace, actions, k - 1);
      StepKeepsInv(trace[k - 1], actions[k - 1]);
    }
  }

  /** Two threads are never both between getting and giving up the lock. */
  lemma MutualExclusion(trace: seq<State>, actions: seq<Action>, k: nat, t: Tid, u: Tid)
    requires IsRun(trace, actions) && k < |trace|
    requires Owns(At(trace[k], t)) && Owns(At(trace[k], u))
    ensures t == u
  {
    RunKeepsInv(trace, actions, k);
    assert Local(trace[k], t) && Local(trace[k], u);
  }

  /** A free lock with sleepers always has a woken thread on its way to it. */
  lemma FreeLockIsClaimed(trace: seq<State>, actions: seq<Action>, k: nat, t: Tid) returns (w: Tid)
    requires IsRun(trace, actions) && k < |trace|
    requires trace[k].owner == None && At(trace[k], t).Asleep?
    ensures At(trace[k], w).Woken? || (At(trace[k], w).In? && At(trace[k], w).woken)
  {
    RunKeepsInv(trace, actions, k);
    assert Local(trace[k], t);
    w :| w in trace[k].pending;
    assert Local(trace[k], w);
  }

  /** `t` does not get the lock between steps `i` and `k`. */
  ghost predicate Between(actions: seq<Action>, i: nat, k: nat, t: Tid) {
    forall j :: i < j < k && j < |actions| ==> actions[j] != Get(t)
  }

  /**
   A signal or broadcast never misses a waiter: any thread that has released the
   lock in `cv_wait` and not yet returned is, when the wake-up happens, on the
   wait channel or already woken.
   */
  lemma SignalFindsWaiters(trace: seq<State>, actions: seq<Action>, i: nat, k: nat, w: Tid)
    requires IsRun(trace, actions) && i < k < |actions|
    requires actions[i] == Free(w) && At(trace[i], w).cv && Between(actions, i, k, w)
    requires actions[k].Wake?
    ensures w in trace[k].cvQueue || (Waiting(At(trace[k], w)) && At(trace[k], w) != CvReleased && At(trace[k], w) != CvAsleep)
  {
    StillWaiting(trace, actions, i, k, w);
    RunKeepsInv(trace, actions, k);
    assert Local(trace[k], w) && Local(trace[k], actions[k].t);
  }

  lemma {:induction false} StillWaiting(trace: seq<State>, actions: seq<Action>, i: nat, k: nat, w: Tid)
    requires IsRun(trace, actions) && i < k <= |actions|
    requires actions[i] == Free(w) && At(trace[i], w).cv && Between(actions, i, k, w)
    ensures w in trace[k].waiters
    decreases k
  {
    assert Enabled(trace[k - 1], actions[k - 1]);
    if k - 1 > i {
      StillWaiting(trace, actions, i, k - 1, w);
    }
  }

  /** A broadcast leaves nobody on the channel; a signal takes the longest waiter, if there is one. */
  lemma WakeEffect(s: State, t: Tid)
    requires Inv(s) && Enabled(s, Wake(t))
    ensures var s' := Apply(s, Wake(t));
            && (At(s, t).all ==> s'.cvQueue == [] && forall w :: w in s.cvQueue ==> At(s', w) == CvWoken)
            && (!At(s, t).all && s.cvQueue != [] ==> s'.cvQueue == s.cvQueue[1..] && At(s', s.cvQueue[0]) == CvWoken)
            && (s.cvQueue == [] ==> s'.cvQueue == [] && s'.pending == s.pending)
  {
    assert Local(s, t);
    assert s.cvQueue[..|s.cvQueue|] == s.cvQueue;
    if s.cvQueue != [] { assert s.cvQueue[0] in s.cvQueue[..1]; }
    forall w | w in s.cvQueue ensures w != t { assert Local(s, w); }
  }

  /** `cv_wait` comes back only by getting the lock, and then owns it. */
  lemma WaitReturnsHolding(trace: seq<State>, actions: seq<Action>, k: nat, w: Tid)
    requires IsRun(trace, actions) && k < |actions|
    requires w in trace[k].waiters && w !in trace[k + 1].waiters
    ensures actions[k] == Get(w) && trace[k + 1].owner == Some(w) && At(trace[k + 1], w) == Holding
  {
    RunKeepsInv(trace, actions, k);
    assert Enabled(trace[k], actions[k]) && Local(trace[k], actions[k].t);
  }

  // ---------------------------------------------------------------- what a step does, seen from outside

  /** Where the thread that takes a step is afterwards, having been at `pc`. */
  ghost predicate Reaches(a: Action, pc: Pc, pc': Pc) {
    match a
    case Acquire(_) => pc' == Want(false)
    case Lock(_) => pc.Want? && pc' == In(pc.cv, false)
    case Sleep(_) => pc.In? && pc' == Asleep(pc.cv)
    case Get(_) => pc' == Holding
    case Relock(_) => pc.Woken? && pc' == In(pc.cv, true)
    case Release(_) => pc' == Releasing(false)
    case Free(_) => pc.Releasing? && pc' == if pc.cv then CvReleased else Out
    case CvWait(_) => pc' == CvWant
    case CvLock(_) => pc' == CvIn
    case CvFree(_) => pc' == Releasing(true)
    case CvSleep(_) => pc' == CvAsleep
    case CvRelock(_) => pc' == CvBack
    case CvUnlock(_) => pc' == Want(true)
    case Signal(_, all) => pc' == SignalWant(all)
    case SignalLock(_) => pc.SignalWant? && pc' == SignalIn(pc.all)
    case Wake(_) => pc' == Holding
  }

  lemma OwnMove(s: State, a: Action)
    requires Inv(s) && Enabled(s, a)
    ensures Reaches(a, At(s, a.t), At(Apply(s, a), a.t))
  {
    assert Local(s, a.t);
  }

  lemma OthersMove(s: State, a: Action, t: Tid)
    requires Inv(s) && Enabled(s, a) && t != a.t
    ensures || At(Apply(s, a), t) == At(s, t)
            || (a.Free? && At(s, t).Asleep? && At(Apply(s, a), t) == Woken(At(s, t).cv))
            || (a.Wake? && At(s, t) == CvAsleep && At(Apply(s, a), t) == CvWoken)
  {
    assert Local(s, a.t) && Local(s, t);
    if a.Free? && s.queue != [] { assert s.queue[0] in s.queue && Local(s, s.queue[0]); }
    if a.Wake? {
      var n := if At(s, a.t).all then |s.cvQueue| else if s.cvQueue == [] then 0 else 1;
      Split(s.cvQueue, n, t);
    }
  }

  /** A thread moves only by its own steps, except that releases and signals wake sleepers. */
  lemma ThreadMoves(trace: seq<State>, actions: seq<Action>, k: nat, t: Tid)
    requires IsRun(trace, actions) && k < |actions|
    ensures t == actions[k].t ==> Reaches(actions[k], At(trace[k], t), At(trace[k + 1], t))
    ensures t != actions[k].t ==>
              || At(trace[k + 1], t) == At(trace[k], t)
              || (actions[k].Free? && At(trace[k], t).Asleep? && At(trace[k + 1], t) == Woken(At(trace[k], t).cv))
              || (actions[k].Wake? && At(trace[k], t) == CvAsleep && At(trace[k + 1], t) == CvWoken)
  {
    RunKeepsInv(trace, actions, k);
    assert Enabled(trace[k], actions[k]);
    if t == actions[k].t { OwnMove(trace[k], actions[k]); } else { OthersMove(trace[k], actions[k], t); }
  }

  /** Releasing a lock that threads sleep for wakes exactly one of them. */
  lemma ReleaseWakesOne(trace: seq<State>, actions: seq<Action>, k: nat, t: Tid) returns (w: Tid)
    requires IsRun(trace, actions) && k < |actions| && actions[k].Free? && At(trace[k], t).Asleep?
    ensures At(trace[k], w).Asleep? && At(trace[k + 1], w).Woken?
    ensures forall u :: u != w && At(trace[k], u).Asleep? ==> At(trace[k + 1], u) == At(trace[k], u)
  {
    RunKeepsInv(trace, actions, k);
    var s, a := trace[k], actions[k];
    assert Enabled(s, a) && Local(s, a.t) && Local(s, t);
    w := s.queue[0];
    assert w in s.queue && Local(s, w);
  }

  ghost predicate NobodyWaits(s: State) {
    forall u :: At(s, u) != CvAsleep
  }

  /** A broadcast wakes every waiter, a signal exactly one. */
  lemma SignalWakes(trace: seq<State>, actions: seq<Action>, k: nat, t: Tid) returns (w: Tid)
    requires IsRun(trace, actions) && k < |actions| && actions[k].Wake? && At(trace[k], t) == CvAsleep
    ensures At(trace[k], actions[k].t).SignalIn? && At(trace[k], w) == CvAsleep && At(trace[k + 1], w) == CvWoken
    ensures At(trace[k], actions[k].t).all ==> NobodyWaits(trace[k + 1])
    ensures !At(trace[k], actions[k].t).all ==>
              forall u :: u != w && At(trace[k], u) == CvAsleep ==> At(trace[k + 1], u) == CvAsleep
  {
    RunKeepsInv(trace, actions, k);
    RunKeepsInv(trace, actions, k + 1);
    var s, a := trace[k], actions[k];
    assert Enabled(s, a) && Local(s, a.t) && Local(s, t);
    w := s.cvQueue[0];
    assert w in s.cvQueue && Local(s, w);
    WakeEffect(s, a.t);
    var s' := trace[k + 1];
    forall u: Tid ensures At(s, a.t).all ==> At(s', u) != CvAsleep { assert Local(s', u); }
    forall u | !At(s, a.t).all && u != w && At(s, u) == CvAsleep ensures At(trace[k + 1], u) == CvAsleep {
      assert Local(s, u);
      Split(s.cvQueue, 1, u);
      assert Local(trace[k + 1], u);
    }
  }

  ghost function SleepOf(t: Tid): Action {
    Sleep(t)
  }

  ghost function CvSleepOf(t: Tid): Action {
    CvSleep(t)
  }

  lemma QueueStep(s: State, a: Action, log: seq<Action>)
    requires Inv(s) && Enabled(s, a) && InOrder(s.queue, log, SleepOf)
    ensures InOrder(Apply(s, a).queue, log + [a], SleepOf)
  {
    var act := SleepOf;
    assert Local(s, a.t);
    forall x | 0 <= x < |s.queue| ensures act(s.queue[x]) != a { assert s.queue[x] in s.queue; }
    if a.Sleep? { JoinsInOrder(s.queue, log, act, a.t); } else { OthersKeepOrder(s.queue, log, act, a); }
  }

  lemma CvQueueStep(s: State, a: Action, log: seq<Action>)
    requires Inv(s) && Enabled(s, a) && InOrder(s.cvQueue, log, CvSleepOf)
    ensures InOrder(Apply(s, a).cvQueue, log + [a], CvSleepOf)
  {
    var act := CvSleepOf;
    assert Local(s, a.t);
    forall x | 0 <= x < |s.cvQueue| ensures act(s.cvQueue[x]) != a { assert s.cvQueue[x] in s.cvQueue; }
    if a.CvSleep? { JoinsInOrder(s.cvQueue, log, act, a.t); } else { OthersKeepOrder(s.cvQueue, log, act, a); }
  }

  lemma {:induction false} QueuesInOrder(trace: seq<State>, actions: seq<Action>, k: nat, log: seq<Action>)
    requires IsRun(trace, actions) && k < |trace| && log == actions[..k]
    ensures InOrder(trace[k].queue, log, SleepOf) && InOrder(trace[k].cvQueue, log, CvSleepOf)
    decreases k
  {
    if k > 0 {
      var before := actions[..k - 1];
      QueuesInOrder(trace, actions, k - 1, before);
      assert Inv(trace[k - 1]) by { RunKeepsInv(trace, actions, k - 1); }
      QueueStep(trace[k - 1], actions[k - 1], before);
      CvQueueStep(trace[k - 1], actions[k - 1], before);
      assert log == before + [actions[k - 1]];
    }
  }

  /** Threads that sleep for the lock are woken in the order in which they went to sleep. */
  lemma FirstAsleepFirstWoken(trace: seq<State>, actions: seq<Action>, k: nat, t: Tid, u: Tid)
    requires IsRun(trace, actions) && k < |actions|
    requires At(trace[k], t).Asleep? && !At(trace[k + 1], t).Asleep?
    requires At(trace[k], u).Asleep? && At(trace[k + 1], u).Asleep?
    ensures LastTime(actions[..k], Sleep(t)) < LastTime(actions[..k], Sleep(u))
  {
    RunKeepsInv(trace, actions, k);
    RunKeepsInv(trace, actions, k + 1);
    QueuesInOrder(trace, actions, k, actions[..k]);
    var s, a := trace[k], actions[k];
    assert Enabled(s, a) && Local(s, t) && Local(s, u) && Local(s, a.t) && Local(trace[k + 1], t) && Local(trace[k + 1], u);
    FrontBeforeRest(s.queue, actions[..k], SleepOf, 1, t, u);
  }

  /** Waiters are signalled in the order in which they began to wait. */
  lemma FirstWaitingFirstSignalled(trace: seq<State>, actions: seq<Action>, k: nat, t: Tid, u: Tid)
    requires IsRun(trace, actions) && k < |actions|
    requires At(trace[k], t) == CvAsleep && At(trace[k + 1], t) != CvAsleep
    requires At(trace[k], u) == CvAsleep && At(trace[k + 1], u) == CvAsleep
    ensures LastTime(actions[..k], CvSleep(t)) < LastTime(actions[..k], CvSleep(u))
  {
    RunKeepsInv(trace, actions, k);
    RunKeepsInv(trace, actions, k + 1);
    QueuesInOrder(trace, actions, k, actions[..k]);
    var s, a := trace[k], actions[k];
    assert Enabled(s, a) && Local(s, t) && Local(s, u) && Local(s, a.t) && Local(trace[k + 1], t) && Local(trace[k + 1], u);
    FrontBeforeRest(s.cvQueue, actions[..k], CvSleepOf, 1, t, u);
  }
}
