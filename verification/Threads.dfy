/**
 The multi-CPU thread protocol of `thread.c` as atomic steps: context switches
 that hand the run-queue lock over, idle CPUs, wakeups, forks, exits and
 migration, for any number of threads and CPUs.

 A step is a stretch of code whose middle no other CPU can observe: it runs
 under one run-queue lock or touches only its own CPU. The order of threads on
 a list is left open, so the results hold for the first-in first-out lists of
 the code and for any other order.
 */
module Threads {
  import opened Options

  type Tid = nat
  type CpuId = nat

  datatype ThreadState = S_RUN | S_READY | S_SLEEP | S_ZOMBIE

  /** The lists a thread's node can be linked into; a CPU's hand is its private wake or victim list. */
  datatype ListId = RunQ(c: CpuId) | WaitQ(w: nat) | Zombies(c: CpuId) | Hand(c: CpuId)

  /** `node` is the list the thread's `t_listnode` is linked into. */
  datatype Thread = Thread(state: ThreadState, cpu: CpuId, node: Option<ListId>)

  /** What `thread_switch` was called for. */
  datatype Target = ToReady | ToSleep(w: nat) | ToZombie

  /** Progress of a CPU through `thread_switch`. */
  datatype Pc =
    | Run                  // executing its current thread
    | Locked(to: Target)   // own run-queue lock taken
    | Placed(to: Target)   // current thread on its list, wait-channel lock dropped
    | Looking              // state stored, c_isidle set, looking for the next thread
    | Idling               // lock dropped, waiting for an interrupt
    | Switched             // next thread is current, lock still held

  /** What the thread or interrupt handler on a CPU is in the middle of. */
  datatype Act =
    | Quiet
    | Making                        // threads in hand are to be made runnable
    | MakingAt(t: Tid, at: CpuId)   // the run queue of t's CPU is locked
    | Counted(seen: set<Tid>)       // migration has counted the own run queue
    | Migrating                     // victims in hand
    | MigratingAt(at: CpuId)        // a receiver's run queue is locked

  datatype Cpu = Cpu(cur: Tid, pc: Pc, act: Act, idle: bool)

  /** `locks` maps a CPU whose run-queue lock is held to the holder; `poked` CPUs have an interrupt pending or taken. */
  datatype State = State(cpus: map<CpuId, Cpu>, threads: map<Tid, Thread>, locks: map<CpuId, CpuId>, poked: set<CpuId>)

  predicate On(s: State, t: Tid, id: ListId) {
    t in s.threads && s.threads[t].node == Some(id)
  }

  // ---------------------------------------------------------------- invariant

  predicate Holding(pc: Pc) {
    pc.Locked? || pc.Placed? || pc.Looking? || pc.Switched?
  }

  /** The current thread is running, or about to, and its node is on no list. */
  predicate OffList(pc: Pc) {
    pc.Run? || pc.Locked? || pc.Switched?
  }

  /** The current thread of its own CPU, between joining a wait list and storing S_SLEEP. */
  ghost predicate FallingAsleep(s: State, t: Tid) {
    && t in s.threads && s.threads[t].cpu in s.cpus && s.threads[t].state == S_RUN
    && var c := s.cpus[s.threads[t].cpu];
       c.cur == t && c.pc.Placed? && c.pc.to.ToSleep?
  }

  ghost predicate Dying(s: State, t: Tid) {
    && t in s.threads && s.threads[t].cpu in s.cpus && s.threads[t].state == S_RUN
    && s.cpus[s.threads[t].cpu].cur == t && s.cpus[s.threads[t].cpu].pc == Placed(ToZombie)
  }

  ghost predicate OffListOk(s: State, t: Tid)
    requires t in s.threads && s.threads[t].cpu in s.cpus
  {
    var c := s.cpus[s.threads[t].cpu];
    c.cur == t && OffList(c.pc) && s.threads[t].state == if c.pc.Switched? then S_READY else S_RUN
  }

  /** Threads in a CPU's hand: being woken or forked, or migration victims. */
  ghost predicate InHandOk(s: State, t: Tid, d: CpuId)
    requires t in s.threads && s.threads[t].cpu in s.cpus
  {
    && d in s.cpus
    && match s.cpus[d].act
       case Making => s.threads[t].state == S_SLEEP || FallingAsleep(s, t) || Fresh(s, t)
       case MakingAt(_, _) => s.threads[t].state == S_SLEEP || FallingAsleep(s, t) || Fresh(s, t)
       case Migrating => s.threads[t].state == S_READY && s.threads[t].cpu == d
       case MigratingAt(_) => s.threads[t].state == S_READY && s.threads[t].cpu == d
       case _ => false
  }

  /** A forked thread on its way to the run queue. */
  ghost predicate Fresh(s: State, t: Tid)
    requires t in s.threads && s.threads[t].cpu in s.cpus
  {
    s.threads[t].state == S_READY && s.cpus[s.threads[t].cpu].cur != t
  }

  /** A thread's state and CPU fit the list it is on. */
  ghost predicate ThreadOk(s: State, t: Tid)
    requires t in s.threads
  {
    var th := s.threads[t];
    && th.cpu in s.cpus
    && match th.node
       case None => OffListOk(s, t)
       case Some(RunQ(d)) => th.state == S_READY && d == th.cpu && (s.cpus[d].pc.Idling? ==> d in s.poked)
       case Some(WaitQ(w)) => th.state == S_SLEEP || (FallingAsleep(s, t) && s.cpus[th.cpu].pc.to.w == w)
       case Some(Zombies(d)) => d == th.cpu && (th.state == S_ZOMBIE || Dying(s, t))
       case Some(Hand(d)) => InHandOk(s, t, d)
  }

  /** The current thread belongs to its CPU and is off every list exactly while it owns the CPU. */
  ghost predicate CpuOk(s: State, c: CpuId)
    requires c in s.cpus
  {
    var cpu := s.cpus[c];
    && cpu.cur in s.threads && s.threads[cpu.cur].cpu == c
    && (s.threads[cpu.cur].node == None <==> OffList(cpu.pc))
    && (cpu.pc.Placed? ==>
          match cpu.pc.to
          case ToReady => s.threads[cpu.cur].node == Some(RunQ(c))
          case ToSleep(_) => FallingAsleep(s, cpu.cur)
          case ToZombie => Dying(s, cpu.cur) && s.threads[cpu.cur].node == Some(Zombies(c)))
    && (cpu.idle <==> cpu.pc.Looking? || cpu.pc.Idling?)
    && (!cpu.act.Quiet? ==> cpu.pc.Run? || (cpu.pc.Idling? && c in s.poked))
    && (Holding(cpu.pc) ==> Held(s, c, c))
    && (cpu.act.MakingAt? ==>
          On(s, cpu.act.t, Hand(c)) && s.threads[cpu.act.t].cpu == cpu.act.at && Held(s, cpu.act.at, c))
    && (cpu.act.MigratingAt? ==> cpu.act.at in s.cpus && cpu.act.at != c && Held(s, cpu.act.at, c))
  }

  predicate Held(s: State, x: CpuId, holder: CpuId) {
    x in s.locks && s.locks[x] == holder
  }

  /** A held run-queue lock has a holder that is in the middle of using it. */
  ghost predicate LockOk(s: State, x: CpuId)
    requires x in s.locks
  {
    var d := s.locks[x];
    && d in s.cpus
    && (|| (d == x && Holding(s.cpus[d].pc))
        || (s.cpus[d].act.MakingAt? && s.cpus[d].act.at == x)
        || (s.cpus[d].act.MigratingAt? && s.cpus[d].act.at == x))
  }

  /** Threads counted on the own run queue stay there: only the CPU itself takes threads off it. */
  ghost predicate SeenOk(s: State, d: CpuId, t: Tid) {
    d in s.cpus && s.cpus[d].act.Counted? && t in s.cpus[d].act.seen ==> On(s, t, RunQ(d))
  }

  /** The invariant as seen from one thread, one CPU and one lock. */
  ghost predicate Local(s: State, t: Tid, d: CpuId, x: CpuId) {
    && (t in s.threads ==> ThreadOk(s, t))
    && (d in s.cpus ==> CpuOk(s, d))
    && (x in s.locks ==> LockOk(s, x))
    && SeenOk(s, d, t)
  }

  ghost predicate Inv(s: State) {
    forall t, d, x :: Local(s, t, d, x)
  }

  // ---------------------------------------------------------------- steps

  function SetCpu(s: State, c: CpuId, cpu: Cpu): State {
    s.(cpus := s.cpus[c := cpu])
  }

  function SetThread(s: State, t: Tid, th: Thread): State {
    s.(threads := s.threads[t := th])
  }

  function Lock(s: State, x: CpuId, holder: CpuId): State {
    s.(locks := s.locks[x := holder])
  }

  function Unlock(s: State, x: CpuId): State {
    s.(locks := s.locks - {x})
  }

  /** Handlers run on a CPU executing a thread, or idling; taking an interrupt ends the idle wait. */
  predicate CanAct(s: State, c: CpuId) {
    c in s.cpus && s.cpus[c].act.Quiet? && (s.cpus[c].pc.Run? || s.cpus[c].pc.Idling?)
  }

  function Poke(s: State, c: CpuId): State {
    s.(poked := s.poked + {c})
  }

  function SetAct(s: State, c: CpuId, act: Act): State
    requires c in s.cpus
  {
    SetCpu(s, c, s.cpus[c].(act := act))
  }

  function SetPc(s: State, c: CpuId, pc: Pc): State
    requires c in s.cpus
  {
    SetCpu(s, c, s.cpus[c].(pc := pc))
  }

  /** Move a set of threads to one list. */
  function Relist(threads: map<Tid, Thread>, ts: set<Tid>, id: ListId): map<Tid, Thread> {
    map t | t in threads :: if t in ts then threads[t].(node := Some(id)) else threads[t]
  }

  function StateOf(to: Target): ThreadState {
    match to
    case ToReady => S_READY
    case ToSleep(_) => S_SLEEP
    case ToZombie => S_ZOMBIE
  }

  function ListOf(c: CpuId, to: Target): ListId {
    match to
    case ToReady => RunQ(c)
    case ToSleep(w) => WaitQ(w)
    case ToZombie => Zombies(c)
  }

  ghost function OnList(s: State, id: ListId): set<Tid> {
    set t | t in s.threads && s.threads[t].node == Some(id)
  }

  ghost predicate NoneOn(s: State, id: ListId) {
    OnList(s, id) == {}
  }

  predicate CanSwitch(s: State, c: CpuId) {
    c in s.cpus && s.cpus[c].pc.Run? && s.cpus[c].act.Quiet? && c !in s.locks
  }

  function DoSwitchLock(s: State, c: CpuId, to: Target): State
    requires CanSwitch(s, c)
  {
    Lock(SetPc(s, c, Locked(to)), c, c)
  }

  predicate CanPlace(s: State, c: CpuId) {
    c in s.cpus && s.cpus[c].pc.Locked? && s.cpus[c].cur in s.threads
  }

  function DoSwitchBack(s: State, c: CpuId): State
    requires CanPlace(s, c)
  {
    Unlock(SetPc(s, c, Run), c)
  }

  function DoPlace(s: State, c: CpuId): State
    requires CanPlace(s, c)
  {
    var cpu := s.cpus[c];
    var th := s.threads[cpu.cur];
    var th' := th.(node := Some(ListOf(c, cpu.pc.to)), state := if cpu.pc.to.ToReady? then S_READY else th.state);
    SetPc(SetThread(s, cpu.cur, th'), c, Placed(cpu.pc.to))
  }

  predicate CanStore(s: State, c: CpuId) {
    c in s.cpus && s.cpus[c].pc.Placed? && s.cpus[c].cur in s.threads
  }

  function DoStoreState(s: State, c: CpuId): State
    requires CanStore(s, c)
  {
    var cpu := s.cpus[c];
    SetCpu(SetThread(s, cpu.cur, s.threads[cpu.cur].(state := StateOf(cpu.pc.to))), c, cpu.(pc := Looking, idle := true))
  }

  predicate IsLooking(s: State, c: CpuId) {
    c in s.cpus && s.cpus[c].pc.Looking?
  }

  function DoGoIdle(s: State, c: CpuId): State
    requires IsLooking(s, c)
  {
    Unlock(SetPc(s, c, Idling), c).(poked := s.poked - {c})
  }

  predicate CanUnidle(s: State, c: CpuId) {
    c in s.cpus && s.cpus[c].pc.Idling? && s.cpus[c].act.Quiet? && c in s.poked && c !in s.locks
  }

  function DoUnidle(s: State, c: CpuId): State
    requires CanUnidle(s, c)
  {
    Lock(SetPc(s, c, Looking), c, c).(poked := s.poked - {c})
  }

  function DoPickNext(s: State, c: CpuId, t: Tid): State
    requires IsLooking(s, c) && On(s, t, RunQ(c))
  {
    SetCpu(SetThread(s, t, s.threads[t].(node := None)), c, s.cpus[c].(cur := t, pc := Switched, idle := false))
  }

  predicate CanSwitchIn(s: State, c: CpuId) {
    c in s.cpus && s.cpus[c].pc.Switched? && s.cpus[c].cur in s.threads
  }

  function DoSwitchIn(s: State, c: CpuId): State
    requires CanSwitchIn(s, c)
  {
    var cur := s.cpus[c].cur;
    Unlock(SetPc(SetThread(s, cur, s.threads[cur].(state := S_RUN)), c, Run), c)
  }

  predicate CanExorcise(s: State, c: CpuId, z: Tid) {
    c in s.cpus && s.cpus[c].pc.Run? && s.cpus[c].act.Quiet? && On(s, z, Zombies(c))
  }

  function DoExorcise(s: State, c: CpuId, z: Tid): State {
    s.(threads := s.threads - {z})
  }

  /** The new thread's CPU is where its parent was when it stored the field; the parent may have moved since. */
  predicate CanFork(s: State, c: CpuId, n: Tid, at: CpuId) {
    c in s.cpus && s.cpus[c].pc.Run? && s.cpus[c].act.Quiet? && n !in s.threads && at in s.cpus
  }

  function DoFork(s: State, c: CpuId, n: Tid, at: CpuId): State
    requires CanFork(s, c, n, at)
  {
    SetAct(SetThread(s, n, Thread(S_READY, at, Some(Hand(c)))), c, Making)
  }

  /** Wakers take sleepers off a wait channel into a private list. */
  ghost predicate CanWake(s: State, c: CpuId, w: nat, ts: set<Tid>) {
    CanAct(s, c) && ts <= OnList(s, WaitQ(w))
  }

  function DoWake(s: State, c: CpuId, ts: set<Tid>): State
    requires c in s.cpus
  {
    Poke(SetAct(s.(threads := Relist(s.threads, ts, Hand(c))), c, Making), c)
  }

  predicate CanMakeLock(s: State, c: CpuId, n: Tid) {
    c in s.cpus && s.cpus[c].act.Making? && On(s, n, Hand(c)) && s.threads[n].cpu !in s.locks
  }

  function DoMakeLock(s: State, c: CpuId, n: Tid): State
    requires CanMakeLock(s, c, n)
  {
    Lock(SetAct(s, c, MakingAt(n, s.threads[n].cpu)), s.threads[n].cpu, c)
  }

  predicate CanMakeReady(s: State, c: CpuId) {
    c in s.cpus && s.cpus[c].act.MakingAt? && s.cpus[c].act.t in s.threads
  }

  function DoMakeReady(s: State, c: CpuId): State
    requires CanMakeReady(s, c)
  {
    var n, at := s.cpus[c].act.t, s.cpus[c].act.at;
    var s1 := SetThread(s, n, s.threads[n].(state := S_READY, node := Some(RunQ(at))));
    var s2 := if at in s.cpus && s.cpus[at].idle && at != c then Poke(s1, at) else s1;
    Unlock(SetAct(s2, c, Making), at)
  }

  ghost predicate CanMakeDone(s: State, c: CpuId) {
    c in s.cpus && s.cpus[c].act.Making? && NoneOn(s, Hand(c))
  }

  function DoMakeDone(s: State, c: CpuId): State
    requires c in s.cpus
  {
    SetAct(s, c, Quiet)
  }

  predicate CanCount(s: State, c: CpuId) {
    CanAct(s, c) && c !in s.locks
  }

  ghost function DoMigrateCount(s: State, c: CpuId): State
    requires CanCount(s, c)
  {
    Poke(SetAct(s, c, Counted(OnList(s, RunQ(c)))), c)
  }

  /** Victims are as many as were counted at most. */
  ghost predicate CanTake(s: State, c: CpuId, ts: set<Tid>) {
    && c in s.cpus && s.cpus[c].act.Counted? && c !in s.locks
    && ts <= OnList(s, RunQ(c)) && |ts| <= |s.cpus[c].act.seen|
  }

  function DoMigrateTake(s: State, c: CpuId, ts: set<Tid>): State
    requires c in s.cpus
  {
    SetAct(s.(threads := Relist(s.threads, ts, Hand(c))), c, Migrating)
  }

  predicate CanMigrateLock(s: State, c: CpuId, at: CpuId) {
    c in s.cpus && s.cpus[c].act.Migrating? && at in s.cpus && at != c && at !in s.locks
  }

  function DoMigrateLock(s: State, c: CpuId, at: CpuId): State
    requires CanMigrateLock(s, c, at)
  {
    Lock(SetAct(s, c, MigratingAt(at)), at, c)
  }

  predicate CanMigrateMove(s: State, c: CpuId, n: Tid) {
    c in s.cpus && s.cpus[c].act.MigratingAt? && On(s, n, Hand(c))
  }

  /** The current thread is skipped; every other victim changes its CPU and joins the receiver's queue. */
  function DoMigrateMove(s: State, c: CpuId, n: Tid): State
    requires CanMigrateMove(s, c, n)
  {
    if n == s.cpus[c].cur then s
    else
      var at := s.cpus[c].act.at;
      var s1 := SetThread(s, n, s.threads[n].(cpu := at, node := Some(RunQ(at))));
      if at in s.cpus && s.cpus[at].idle then Poke(s1, at) else s1
  }

  predicate CanMigrateUnlock(s: State, c: CpuId) {
    c in s.cpus && s.cpus[c].act.MigratingAt?
  }

  function DoMigrateUnlock(s: State, c: CpuId): State
    requires CanMigrateUnlock(s, c)
  {
    Unlock(SetAct(s, c, Migrating), s.cpus[c].act.at)
  }

  predicate CanMigrateReturn(s: State, c: CpuId) {
    c in s.cpus && s.cpus[c].act.Migrating? && c !in s.locks
  }

  ghost function DoMigrateReturn(s: State, c: CpuId): State
    requires CanMigrateReturn(s, c)
  {
    SetAct(s.(threads := Relist(s.threads, OnList(s, Hand(c)), RunQ(c))), c, Quiet)
  }

  // ---------------------------------------------------------------- preservation, step by step

  lemma SwitchLockKeeps(s: State, c: CpuId, to: Target, t: Tid, d: CpuId, x: CpuId)
    requires CanSwitch(s, c) && Local(s, t, d, x) && Local(s, t, c, c)
    ensures Local(DoSwitchLock(s, c, to), t, d, x)
  {}

  lemma SwitchBackKeeps(s: State, c: CpuId, t: Tid, d: CpuId, x: CpuId)
    requires CanPlace(s, c) && Local(s, t, d, x) && Local(s, t, c, c)
    ensures Local(DoSwitchBack(s, c), t, d, x)
  {}

  lemma PlaceKeeps(s: State, c: CpuId, t: Tid, d: CpuId, x: CpuId)
    requires CanPlace(s, c) && Local(s, t, d, x) && Local(s, s.cpus[c].cur, c, c)
    ensures Local(DoPlace(s, c), t, d, x)
  {}

  lemma StoreStateKeeps(s: State, c: CpuId, t: Tid, d: CpuId, x: CpuId)
    requires CanStore(s, c) && Local(s, t, d, x) && Local(s, s.cpus[c].cur, c, c)
    ensures Local(DoStoreState(s, c), t, d, x)
  {}

  lemma GoIdleKeeps(s: State, c: CpuId, t: Tid, d: CpuId, x: CpuId)
    requires IsLooking(s, c) && NoneOn(s, RunQ(c)) && Local(s, t, d, x) && Local(s, t, c, c)
    ensures Local(DoGoIdle(s, c), t, d, x)
  {
    assert t !in OnList(s, RunQ(c));
  }

  lemma UnidleKeeps(s: State, c: CpuId, t: Tid, d: CpuId, x: CpuId)
    requires CanUnidle(s, c) && Local(s, t, d, x) && Local(s, t, c, c)
    ensures Local(DoUnidle(s, c), t, d, x)
  {}

  lemma PickNextKeeps(s: State, c: CpuId, n: Tid, t: Tid, d: CpuId, x: CpuId)
    requires IsLooking(s, c) && On(s, n, RunQ(c)) && Local(s, t, d, x) && Local(s, n, c, c) && Local(s, s.cpus[c].cur, c, c)
    ensures Local(DoPickNext(s, c, n), t, d, x)
  {}

  lemma SwitchInKeeps(s: State, c: CpuId, t: Tid, d: CpuId, x: CpuId)
    requires CanSwitchIn(s, c) && Local(s, t, d, x) && Local(s, s.cpus[c].cur, c, c)
    ensures Local(DoSwitchIn(s, c), t, d, x)
  {}

  lemma ExorciseKeeps(s: State, c: CpuId, z: Tid, t: Tid, d: CpuId, x: CpuId)
    requires CanExorcise(s, c, z) && Local(s, t, d, x) && Local(s, z, d, x) && Local(s, t, c, c)
    ensures Local(DoExorcise(s, c, z), t, d, x)
  {}

  lemma ForkKeeps(s: State, c: CpuId, n: Tid, at: CpuId, t: Tid, d: CpuId, x: CpuId)
    requires CanFork(s, c, n, at) && Local(s, t, d, x) && Local(s, n, c, c) && Local(s, t, c, c) && Local(s, n, at, at)
    ensures Local(DoFork(s, c, n, at), t, d, x)
  {}

  lemma WakeKeeps(s: State, c: CpuId, w: nat, ts: set<Tid>, t: Tid, d: CpuId, x: CpuId)
    requires CanWake(s, c, w, ts) && Local(s, t, d, x) && Local(s, t, c, c)
    requires d in s.cpus ==> Local(s, s.cpus[d].cur, d, x)
    ensures Local(DoWake(s, c, ts), t, d, x)
  {
    assert t in ts ==> t in OnList(s, WaitQ(w));
    if d in s.cpus { assert s.cpus[d].cur in ts ==> s.cpus[d].cur in OnList(s, WaitQ(w)); }
    if d in s.cpus && s.cpus[d].act.MakingAt? { assert s.cpus[d].act.t !in ts; }
  }

  lemma MakeLockKeeps(s: State, c: CpuId, n: Tid, t: Tid, d: CpuId, x: CpuId)
    requires CanMakeLock(s, c, n) && Local(s, t, d, x) && Local(s, n, c, c) && Local(s, t, c, c)
    ensures Local(DoMakeLock(s, c, n), t, d, x)
  {}

  /**
     Whoever is about to store S_READY finds the target already asleep (or newly
     forked): the target's CPU cannot be between joining the wait list and
     storing S_SLEEP, because it would hold the run-queue lock itself.
   */
  lemma ReadyFollowsSleep(s: State, c: CpuId)
    requires CanMakeReady(s, c) && Local(s, s.cpus[c].act.t, c, s.cpus[c].act.at)
    requires Local(s, s.cpus[c].act.t, s.cpus[c].act.at, c)
    ensures s.threads[s.cpus[c].act.t].state in {S_SLEEP, S_READY}
    ensures !FallingAsleep(s, s.cpus[c].act.t)
  {}

  lemma MakeReadyKeepsThread(s: State, c: CpuId, t: Tid)
    requires CanMakeReady(s, c) && t in s.threads && ThreadOk(s, t)
    requires Local(s, s.cpus[c].act.t, c, s.cpus[c].act.at) && Local(s, s.cpus[c].act.t, s.cpus[c].act.at, c)
    ensures ThreadOk(DoMakeReady(s, c), t)
  {
    ReadyFollowsSleep(s, c);
  }

  lemma MakeReadyKeepsCpu(s: State, c: CpuId, d: CpuId)
    requires CanMakeReady(s, c) && d in s.cpus && CpuOk(s, d)
    requires Local(s, s.cpus[c].act.t, c, s.cpus[c].act.at) && Local(s, s.cpus[c].act.t, s.cpus[c].act.at, c)
    ensures CpuOk(DoMakeReady(s, c), d)
  {
    ReadyFollowsSleep(s, c);
  }

  lemma MakeReadyKeeps(s: State, c: CpuId, t: Tid, d: CpuId, x: CpuId)
    requires CanMakeReady(s, c) && Local(s, t, d, x) && Local(s, s.cpus[c].act.t, c, s.cpus[c].act.at)
    requires Local(s, s.cpus[c].act.t, s.cpus[c].act.at, c) && Local(s, s.cpus[c].act.t, d, x)
    ensures Local(DoMakeReady(s, c), t, d, x)
  {
    if t in s.threads { MakeReadyKeepsThread(s, c, t); }
    if d in s.cpus { MakeReadyKeepsCpu(s, c, d); }
  }

  lemma MakeDoneKeeps(s: State, c: CpuId, t: Tid, d: CpuId, x: CpuId)
    requires CanMakeDone(s, c) && Local(s, t, d, x) && Local(s, t, c, c)
    ensures Local(DoMakeDone(s, c), t, d, x)
  {
    assert t !in OnList(s, Hand(c));
  }

  lemma MigrateCountKeeps(s: State, c: CpuId, t: Tid, d: CpuId, x: CpuId)
    requires CanCount(s, c) && Local(s, t, d, x) && Local(s, t, c, c)
    ensures Local(DoMigrateCount(s, c), t, d, x)
  {}

  lemma MigrateTakeKeeps(s: State, c: CpuId, ts: set<Tid>, t: Tid, d: CpuId, x: CpuId)
    requires CanTake(s, c, ts) && Local(s, t, d, x) && Local(s, t, c, c)
    requires d in s.cpus ==> Local(s, s.cpus[d].cur, d, x)
    ensures Local(DoMigrateTake(s, c, ts), t, d, x)
  {
    assert t in ts ==> t in OnList(s, RunQ(c));
    if d in s.cpus { assert s.cpus[d].cur in ts ==> s.cpus[d].cur in OnList(s, RunQ(c)); }
    if d in s.cpus && s.cpus[d].act.MakingAt? { assert s.cpus[d].act.t !in ts; }
  }

  lemma MigrateLockKeeps(s: State, c: CpuId, at: CpuId, t: Tid, d: CpuId, x: CpuId)
    requires CanMigrateLock(s, c, at) && Local(s, t, d, x) && Local(s, t, c, c)
    ensures Local(DoMigrateLock(s, c, at), t, d, x)
  {}

  lemma MigrateMoveKeeps(s: State, c: CpuId, n: Tid, t: Tid, d: CpuId, x: CpuId)
    requires CanMigrateMove(s, c, n) && Local(s, t, d, x) && Local(s, n, c, c) && Local(s, n, s.cpus[c].act.at, s.cpus[c].act.at)
    requires Local(s, n, d, x)
    ensures Local(DoMigrateMove(s, c, n), t, d, x)
  {}

  lemma MigrateUnlockKeeps(s: State, c: CpuId, t: Tid, d: CpuId, x: CpuId)
    requires CanMigrateUnlock(s, c) && Local(s, t, d, x) && Local(s, t, c, c)
    ensures Local(DoMigrateUnlock(s, c), t, d, x)
  {}

  lemma MigrateReturnKeeps(s: State, c: CpuId, t: Tid, d: CpuId, x: CpuId)
    requires CanMigrateReturn(s, c) && Local(s, t, d, x) && Local(s, t, c, c)
    requires d in s.cpus ==> Local(s, s.cpus[d].cur, d, x)
    ensures Local(DoMigrateReturn(s, c), t, d, x)
  {}

  // ---------------------------------------------------------------- whole runs

  datatype Step =
    | SwitchLock(c: CpuId, to: Target)      // enter thread_switch and lock the own run queue
    | SwitchBack(c: CpuId)                  // yielding with nothing else to run: return
    | Place(c: CpuId)                       // put the current thread on its list
    | StoreState(c: CpuId)                  // store the new state, set c_isidle
    | GoIdle(c: CpuId)                      // run queue empty: unlock and idle
    | Unidle(c: CpuId)                      // an interrupt came: lock again
    | PickNext(c: CpuId, t: Tid)            // take t off the run queue and make it current
    | SwitchIn(c: CpuId)                    // store S_RUN, unlock
    | Exorcise(c: CpuId, t: Tid)            // destroy a zombie
    | Fork(c: CpuId, t: Tid, at: CpuId)     // create a thread for CPU `at`, to be made runnable
    | Wake(c: CpuId, w: nat, ts: set<Tid>)  // take sleepers off a wait channel
    | MakeLock(c: CpuId, t: Tid)            // lock the target's run queue
    | MakeReady(c: CpuId)                   // store S_READY, enqueue, interrupt an idle CPU, unlock
    | MakeDone(c: CpuId)
    | MigrateCount(c: CpuId)                // count the own run queue
    | MigrateTake(c: CpuId, ts: set<Tid>)   // move victims to the private list
    | MigrateLock(c: CpuId, at: CpuId)      // lock a receiver's run queue
    | MigrateMove(c: CpuId, t: Tid)         // hand one victim over, unless it is the current thread
    | MigrateUnlock(c: CpuId)
    | MigrateReturn(c: CpuId)               // put leftovers back on the own run queue

  ghost predicate Enabled(s: State, step: Step) {
    match step
    case SwitchLock(c, _) => CanSwitch(s, c)
    case SwitchBack(c) => CanPlace(s, c) && s.cpus[c].pc.to.ToReady? && NoneOn(s, RunQ(c))
    case Place(c) => CanPlace(s, c)
    case StoreState(c) => CanStore(s, c)
    case GoIdle(c) => IsLooking(s, c) && NoneOn(s, RunQ(c))
    case Unidle(c) => CanUnidle(s, c)
    case PickNext(c, t) => IsLooking(s, c) && On(s, t, RunQ(c))
    case SwitchIn(c) => CanSwitchIn(s, c)
    case Exorcise(c, t) => CanExorcise(s, c, t)
    case Fork(c, t, at) => CanFork(s, c, t, at)
    case Wake(c, w, ts) => CanWake(s, c, w, ts)
    case MakeLock(c, t) => CanMakeLock(s, c, t)
    case MakeReady(c) => CanMakeReady(s, c)
    case MakeDone(c) => CanMakeDone(s, c)
    case MigrateCount(c) => CanCount(s, c)
    case MigrateTake(c, ts) => CanTake(s, c, ts)
    case MigrateLock(c, at) => CanMigrateLock(s, c, at)
    case MigrateMove(c, t) => CanMigrateMove(s, c, t)
    case MigrateUnlock(c) => CanMigrateUnlock(s, c)
    case MigrateReturn(c) => CanMigrateReturn(s, c)
  }

  ghost function Apply(s: State, step: Step): State
    requires Enabled(s, step)
  {
    match step
    case SwitchLock(c, to) => DoSwitchLock(s, c, to)
    case SwitchBack(c) => DoSwitchBack(s, c)
    case Place(c) => DoPlace(s, c)
    case StoreState(c) => DoStoreState(s, c)
    case GoIdle(c) => DoGoIdle(s, c)
    case Unidle(c) => DoUnidle(s, c)
    case PickNext(c, t) => DoPickNext(s, c, t)
    case SwitchIn(c) => DoSwitchIn(s, c)
    case Exorcise(c, t) => DoExorcise(s, c, t)
    case Fork(c, t, at) => DoFork(s, c, t, at)
    case Wake(c, _, ts) => DoWake(s, c, ts)
    case MakeLock(c, t) => DoMakeLock(s, c, t)
    case MakeReady(c) => DoMakeReady(s, c)
    case MakeDone(c) => DoMakeDone(s, c)
    case MigrateCount(c) => DoMigrateCount(s, c)
    case MigrateTake(c, ts) => DoMigrateTake(s, c, ts)
    case MigrateLock(c, at) => DoMigrateLock(s, c, at)
    case MigrateMove(c, t) => DoMigrateMove(s, c, t)
    case MigrateUnlock(c) => DoMigrateUnlock(s, c)
    case MigrateReturn(c) => DoMigrateReturn(s, c)
  }

  predicate IsSwitchStep(step: Step) {
    || step.SwitchLock? || step.SwitchBack? || step.Place? || step.StoreState? || step.GoIdle? || step.Unidle?
    || step.PickNext? || step.SwitchIn?
  }

  predicate IsMigrateStep(step: Step) {
    || step.MigrateCount? || step.MigrateTake? || step.MigrateLock? || step.MigrateMove? || step.MigrateUnlock?
    || step.MigrateReturn?
  }

  lemma SwitchStepKeeps(s: State, step: Step, t: Tid, d: CpuId, x: CpuId)
    requires Inv(s) && Enabled(s, step) && IsSwitchStep(step)
    ensures Local(Apply(s, step), t, d, x)
  {
    var c := step.c;
    assert Local(s, t, d, x) && Local(s, t, c, c) && Local(s, s.cpus[c].cur, c, c);
    match step
    case SwitchLock(_, to) => SwitchLockKeeps(s, c, to, t, d, x);
    case SwitchBack(_) => SwitchBackKeeps(s, c, t, d, x);
    case Place(_) => PlaceKeeps(s, c, t, d, x);
    case StoreState(_) => StoreStateKeeps(s, c, t, d, x);
    case GoIdle(_) => GoIdleKeeps(s, c, t, d, x);
    case Unidle(_) => UnidleKeeps(s, c, t, d, x);
    case PickNext(_, n) => assert Local(s, n, c, c); PickNextKeeps(s, c, n, t, d, x);
    case SwitchIn(_) => SwitchInKeeps(s, c, t, d, x);
  }

  lemma MigrateStepKeeps(s: State, step: Step, t: Tid, d: CpuId, x: CpuId)
    requires Inv(s) && Enabled(s, step) && IsMigrateStep(step)
    ensures Local(Apply(s, step), t, d, x)
  {
    var c := step.c;
    assert Local(s, t, d, x) && Local(s, t, c, c);
    if d in s.cpus { assert Local(s, s.cpus[d].cur, d, x); }
    match step
    case MigrateCount(_) => MigrateCountKeeps(s, c, t, d, x);
    case MigrateTake(_, ts) => MigrateTakeKeeps(s, c, ts, t, d, x);
    case MigrateLock(_, at) => MigrateLockKeeps(s, c, at, t, d, x);
    case MigrateMove(_, n) =>
      var at := s.cpus[c].act.at;
      assert Local(s, n, c, c) && Local(s, n, at, at) && Local(s, n, d, x);
      MigrateMoveKeeps(s, c, n, t, d, x);
    case MigrateUnlock(_) => MigrateUnlockKeeps(s, c, t, d, x);
    case MigrateReturn(_) => MigrateReturnKeeps(s, c, t, d, x);
  }

  lemma MakeStepKeeps(s: State, step: Step, t: Tid, d: CpuId, x: CpuId)
    requires Inv(s) && Enabled(s, step) && !IsSwitchStep(step) && !IsMigrateStep(step)
    ensures Local(Apply(s, step), t, d, x)
  {
    var c := step.c;
    assert Local(s, t, d, x) && Local(s, t, c, c);
    match step
    case Exorcise(_, z) => assert Local(s, z, d, x); ExorciseKeeps(s, c, z, t, d, x);
    case Fork(_, n, at) => assert Local(s, n, c, c) && Local(s, n, at, at); ForkKeeps(s, c, n, at, t, d, x);
    case Wake(_, w, ts) =>
      if d in s.cpus { assert Local(s, s.cpus[d].cur, d, x); }
      WakeKeeps(s, c, w, ts, t, d, x);
    case MakeLock(_, n) => assert Local(s, n, c, c); MakeLockKeeps(s, c, n, t, d, x);
    case MakeReady(_) =>
      var n, at := s.cpus[c].act.t, s.cpus[c].act.at;
      assert Local(s, n, c, at) && Local(s, n, at, c) && Local(s, n, d, x);
      MakeReadyKeeps(s, c, t, d, x);
    case MakeDone(_) => MakeDoneKeeps(s, c, t, d, x);
  }

  /** Every step keeps the invariant. */
  lemma StepKeepsInv(s: State, step: Step)
    requires Inv(s) && Enabled(s, step)
    ensures Inv(Apply(s, step))
  {
    forall t, d, x ensures Local(Apply(s, step), t, d, x) {
      if IsSwitchStep(step) {
        SwitchStepKeeps(s, step, t, d, x);
      } else if IsMigrateStep(step) {
        MigrateStepKeeps(s, step, t, d, x);
      } else {
        MakeStepKeeps(s, step, t, d, x);
      }
    }
  }

  /** After boot every CPU runs its own first thread. */
  ghost predicate Init(s: State) {
    && (forall c :: c in s.cpus ==>
          s.cpus[c].cur in s.threads && s.threads[s.cpus[c].cur].cpu == c && s.cpus[c] == Cpu(s.cpus[c].cur, Run, Quiet, false))
    && (forall t :: t in s.threads ==>
          s.threads[t].cpu in s.cpus && s.cpus[s.threads[t].cpu].cur == t && s.threads[t] == Thread(S_RUN, s.threads[t].cpu, None))
    && s.locks == map[] && s.poked == {}
  }

  /** A run: every step is enabled where it is taken. */
  ghost predicate IsRun(states: seq<State>, steps: seq<Step>) {
    && |states| == |steps| + 1 && Init(states[0])
    && forall i :: 0 <= i < |steps| ==> Enabled(states[i], steps[i]) && states[i + 1] == Apply(states[i], steps[i])
  }

  /** The invariant holds in every state of every run. */
  lemma {:induction false} RunKeepsInv(states: seq<State>, steps: seq<Step>, i: nat)
    requires IsRun(states, steps) && i < |states|
    ensures Inv(states[i])
  {
    if i == 0 {
      forall t, d, x ensures Local(states[0], t, d, x) {}
    } else {
      RunKeepsInv(states, steps, i - 1);
      StepKeepsInv(states[i - 1], steps[i - 1]);
    }
  }

  // ---------------------------------------------------------------- what holds in every reachable state

  /** No thread is current on two CPUs, and none is on one CPU's run queue while current on another. */
  lemma OneCpuPerThread(states: seq<State>, steps: seq<Step>, i: nat, c: CpuId, d: CpuId)
    requires IsRun(states, steps) && i < |states|
    requires c in states[i].cpus && d in states[i].cpus && c != d
    ensures states[i].cpus[c].cur != states[i].cpus[d].cur
    ensures !On(states[i], states[i].cpus[c].cur, RunQ(d))
  {
    RunKeepsInv(states, steps, i);
    var s := states[i];
    assert Local(s, s.cpus[c].cur, c, c) && Local(s, s.cpus[d].cur, d, d);
  }

  /** No thread is lost: one that is on no list is the running thread of its own CPU. */
  lemma NoThreadLost(states: seq<State>, steps: seq<Step>, i: nat, t: Tid)
    requires IsRun(states, steps) && i < |states| && t in states[i].threads && states[i].threads[t].node == None
    ensures var c := states[i].threads[t].cpu;
            c in states[i].cpus && states[i].cpus[c].cur == t && OffList(states[i].cpus[c].pc)
  {
    RunKeepsInv(states, steps, i);
    assert Local(states[i], t, 0, 0);
  }

  /** A sleeper's S_SLEEP never overwrites a waker's S_READY, and a waker's S_READY never precedes S_SLEEP. */
  lemma WakeupNotOverwritten(states: seq<State>, steps: seq<Step>, i: nat)
    requires IsRun(states, steps) && i < |steps|
    ensures steps[i].StoreState? ==>
              var s, c := states[i], steps[i].c;
              s.cpus[c].pc.to.ToSleep? ==> s.threads[s.cpus[c].cur].state == S_RUN
    ensures steps[i].MakeReady? ==>
              var s, c := states[i], steps[i].c;
              s.threads[s.cpus[c].act.t].state in {S_SLEEP, S_READY}
  {
    RunKeepsInv(states, steps, i);
    var s, c := states[i], steps[i].c;
    assert Enabled(s, steps[i]);
    assert Local(s, s.cpus[c].cur, c, c);
    if steps[i].MakeReady? {
      var n, at := s.cpus[c].act.t, s.cpus[c].act.at;
      assert Local(s, n, c, at) && Local(s, n, at, c);
      ReadyFollowsSleep(s, c);
    }
  }

  /**
   The assertions of `threadlist` and `exorcise`: a node is put on a list only when it is on none, or in the hand of the
   CPU that does it and so on no run queue, wait channel or zombie list; zombies are dead and not current.
   */
  lemma KernelAssertionsHold(states: seq<State>, steps: seq<Step>, i: nat)
    requires IsRun(states, steps) && i < |steps|
    ensures steps[i].Place? ==> states[i].threads[states[i].cpus[steps[i].c].cur].node == None
    ensures steps[i].MakeReady? ==>
              On(states[i], states[i].cpus[steps[i].c].act.t, Hand(steps[i].c))
              && forall d :: d in states[i].cpus && d != steps[i].c ==> states[i].cpus[d].act != states[i].cpus[steps[i].c].act
    ensures steps[i].MigrateMove? ==>
              On(states[i], steps[i].t, Hand(steps[i].c)) && states[i].threads[steps[i].t].state == S_READY
    ensures steps[i].Exorcise? ==>
              var s, z := states[i], steps[i].t;
              s.threads[z].state == S_ZOMBIE && forall d :: d in s.cpus ==> s.cpus[d].cur != z
    ensures steps[i].MigrateTake? ==>
              states[i].cpus[steps[i].c].act.seen <= OnList(states[i], RunQ(steps[i].c))
  {
    RunKeepsInv(states, steps, i);
    var s, c := states[i], steps[i].c;
    assert Enabled(s, steps[i]);
    assert Local(s, s.cpus[c].cur, c, c);
    if steps[i].Exorcise? {
      var z := steps[i].t;
      assert Local(s, z, c, c);
      forall d | d in s.cpus ensures s.cpus[d].cur != z { assert Local(s, z, d, d); }
    }
    if steps[i].MakeReady? {
      forall d | d in s.cpus && d != c ensures s.cpus[d].act != s.cpus[c].act { assert Local(s, s.cpus[c].act.t, d, d); }
    }
    if steps[i].MigrateMove? { assert Local(s, steps[i].t, c, c); }
    if steps[i].MigrateTake? {
      forall t | t in s.cpus[c].act.seen ensures t in OnList(s, RunQ(c)) { assert Local(s, t, c, c); }
    }
  }

  /** An idle CPU with work on its queue is not stranded: it has an interrupt to leave the idle loop. */
  lemma IdleNotStranded(states: seq<State>, steps: seq<Step>, i: nat, c: CpuId, t: Tid)
    requires IsRun(states, steps) && i < |states| && c in states[i].cpus
    requires states[i].cpus[c].pc.Idling? && On(states[i], t, RunQ(c))
    ensures c in states[i].poked
    ensures states[i].cpus[c].act.Quiet? && c !in states[i].locks ==> Enabled(states[i], Unidle(c))
  {
    RunKeepsInv(states, steps, i);
    assert Local(states[i], t, c, c);
  }

  // ---------------------------------------------------------------- what a step does to a thread, seen from outside

  /** On the run queue of its own CPU, to be run. */
  ghost predicate Runnable(s: State, t: Tid) {
    t in s.threads && s.threads[t].state == S_READY && s.threads[t].node == Some(RunQ(s.threads[t].cpu))
  }

  /** The CPU has woken or forked threads in hand, or migration victims. */
  ghost predicate Waking(s: State, c: CpuId) {
    c in s.cpus && (s.cpus[c].act.Making? || s.cpus[c].act.MakingAt?)
  }

  ghost predicate Moving(s: State, c: CpuId) {
    c in s.cpus && (s.cpus[c].act.Migrating? || s.cpus[c].act.MigratingAt?)
  }

  ghost predicate Current(s: State, c: CpuId, t: Tid) {
    c in s.cpus && s.cpus[c].cur == t
  }

  /** A step changes no other CPU. */
  lemma OtherCpu(s: State, step: Step, d: CpuId)
    requires Enabled(s, step) && step.c != d && d in s.cpus
    ensures d in Apply(s, step).cpus && Apply(s, step).cpus[d] == s.cpus[d]
  {}

  /** Nor does it take a thread out of another CPU's hand. */
  lemma StaysInHand(s: State, step: Step, d: CpuId, t: Tid)
    requires Enabled(s, step) && step.c != d && On(s, t, Hand(d)) && Local(s, t, step.c, step.c)
    ensures On(Apply(s, step), t, Hand(d))
  {}

  lemma NothingInHand(s: State, c: CpuId, t: Tid)
    requires CanMakeDone(s, c)
    ensures !On(s, t, Hand(c))
  {
    assert On(s, t, Hand(c)) <==> t in OnList(s, Hand(c));
  }

  lemma WakingStep(s: State, step: Step, c: CpuId, t: Tid)
    requires Enabled(s, step) && Waking(s, c) && On(s, t, Hand(c)) && Local(s, t, c, c) && Local(s, t, step.c, step.c)
    ensures || (On(Apply(s, step), t, Hand(c)) && Waking(Apply(s, step), c))
            || (step == MakeReady(c) && Runnable(Apply(s, step), t))
  {
    if step.c != c {
      OtherCpu(s, step, c);
      StaysInHand(s, step, c, t);
    } else if step.MakeDone? {
      NothingInHand(s, c, t);
    }
  }

  lemma MovingStep(s: State, step: Step, c: CpuId, t: Tid)
    requires Enabled(s, step) && Moving(s, c) && On(s, t, Hand(c)) && Local(s, t, c, c) && Local(s, t, step.c, step.c)
    ensures || (On(Apply(s, step), t, Hand(c)) && Moving(Apply(s, step), c) && step != MigrateReturn(c))
            || ((step == MigrateMove(c, t) || step == MigrateReturn(c)) && Runnable(Apply(s, step), t))
  {
    if step.c != c {
      OtherCpu(s, step, c);
      StaysInHand(s, step, c, t);
    } else if step.MigrateReturn? {
      assert t in OnList(s, Hand(c));
    }
  }

  /** A thread leaves a waking CPU's hand only by being made runnable on its own CPU. */
  lemma WokenBecomesRunnable(states: seq<State>, steps: seq<Step>, i: nat, c: CpuId, t: Tid)
    requires IsRun(states, steps) && i < |steps| && Waking(states[i], c) && On(states[i], t, Hand(c))
    ensures || (On(states[i + 1], t, Hand(c)) && Waking(states[i + 1], c))
            || (steps[i] == MakeReady(c) && Runnable(states[i + 1], t))
  {
    RunKeepsInv(states, steps, i);
    assert Local(states[i], t, c, c) && Local(states[i], t, steps[i].c, steps[i].c);
    WakingStep(states[i], steps[i], c, t);
  }

  /** A migration victim leaves the hand only onto a run queue, and with that CPU as its own. */
  lemma VictimStaysRunnable(states: seq<State>, steps: seq<Step>, i: nat, c: CpuId, t: Tid)
    requires IsRun(states, steps) && i < |steps| && Moving(states[i], c) && On(states[i], t, Hand(c))
    ensures || (On(states[i + 1], t, Hand(c)) && Moving(states[i + 1], c) && steps[i] != MigrateReturn(c))
            || ((steps[i] == MigrateMove(c, t) || steps[i] == MigrateReturn(c)) && Runnable(states[i + 1], t))
  {
    RunKeepsInv(states, steps, i);
    assert Local(states[i], t, c, c) && Local(states[i], t, steps[i].c, steps[i].c);
    MovingStep(states[i], steps[i], c, t);
  }

  /** A thread in hand has been made runnable by the time the CPU is done. */
  lemma {:induction false} HandDelivers(states: seq<State>, steps: seq<Step>, i: nat, k: nat, c: CpuId, t: Tid)
    returns (m: nat)
    requires IsRun(states, steps) && i <= k < |steps| && steps[k] == MakeDone(c)
    requires Waking(states[i], c) && On(states[i], t, Hand(c))
    ensures i < m <= k && Runnable(states[m], t)
    decreases k - i
  {
    assert Enabled(states[k], steps[k]);
    NothingInHand(states[k], c, t);
    WokenBecomesRunnable(states, steps, i, c, t);
    if Runnable(states[i + 1], t) { return i + 1; }
    m := HandDelivers(states, steps, i + 1, k, c, t);
  }

  lemma WakeStep(s: State, c: CpuId, w: nat, ts: set<Tid>, t: Tid)
    requires Enabled(s, Wake(c, w, ts)) && t in ts
    ensures On(s, t, WaitQ(w)) && On(Apply(s, Wake(c, w, ts)), t, Hand(c)) && Waking(Apply(s, Wake(c, w, ts)), c)
  {
    assert t in OnList(s, WaitQ(w));
  }

  /** A wakeup takes its threads off the channel, and before it is done each has been on a run queue to be run. */
  lemma WakeupDelivers(states: seq<State>, steps: seq<Step>, i: nat, k: nat, c: CpuId, w: nat, ts: set<Tid>, t: Tid)
    returns (m: nat)
    requires IsRun(states, steps) && i < k < |steps| && steps[i] == Wake(c, w, ts) && steps[k] == MakeDone(c) && t in ts
    ensures On(states[i], t, WaitQ(w)) && !On(states[i + 1], t, WaitQ(w))
    ensures i < m <= k && Runnable(states[m], t)
  {
    assert Enabled(states[i], steps[i]);
    WakeStep(states[i], c, w, ts, t);
    m := HandDelivers(states, steps, i + 1, k, c, t);
  }

  /** A forked thread has been on a run queue to be run before the fork is done. */
  lemma ForkDelivers(states: seq<State>, steps: seq<Step>, i: nat, k: nat, c: CpuId, t: Tid, at: CpuId) returns (m: nat)
    requires IsRun(states, steps) && i < k < |steps| && steps[i] == Fork(c, t, at) && steps[k] == MakeDone(c)
    ensures i < m <= k && Runnable(states[m], t)
    ensures t in states[i + 1].threads && states[i + 1].threads[t].cpu == at
  {
    assert Enabled(states[i], steps[i]);
    m := HandDelivers(states, steps, i + 1, k, c, t);
  }

  ghost predicate Switching(s: State, c: CpuId, t: Tid) {
    Current(s, c, t) && (s.cpus[c].pc.Locked? || s.cpus[c].pc.Placed?)
  }

  /** Who can change a thread's state, and into what. */
  ghost predicate StateStep(s: State, step: Step, s': State, t: Tid) {
    t in s.threads && t in s'.threads && s.threads[t].state != s'.threads[t].state ==>
      match s'.threads[t].state
      case S_SLEEP => step.StoreState? && Switching(s, step.c, t) && s.cpus[step.c].pc.to.ToSleep?
      case S_ZOMBIE => step.StoreState? && Switching(s, step.c, t) && s.cpus[step.c].pc.to.ToZombie?
      case S_RUN => step.SwitchIn? && Current(s, step.c, t)
      case S_READY =>
        || (step.Place? && Switching(s, step.c, t) && s.cpus[step.c].pc.to.ToReady?)
        || (step.MakeReady? && step.c in s.cpus && On(s, t, Hand(step.c)))
  }

  lemma SwitchStateStep(s: State, step: Step, t: Tid)
    requires Enabled(s, step) && Local(s, t, step.c, step.c) && IsSwitchStep(step)
    ensures StateStep(s, step, Apply(s, step), t)
  {}

  lemma OtherStateStep(s: State, step: Step, t: Tid)
    requires Enabled(s, step) && Local(s, t, step.c, step.c) && !IsSwitchStep(step)
    ensures StateStep(s, step, Apply(s, step), t)
  {}

  /**
   A thread falls asleep or dies only by its own switch with that aim, runs only when its CPU switches to it, and is
   made ready only by yielding or by the CPU that has it in hand.
   */
  lemma StateChanges(states: seq<State>, steps: seq<Step>, i: nat, t: Tid)
    requires IsRun(states, steps) && i < |steps|
    ensures StateStep(states[i], steps[i], states[i + 1], t)
  {
    RunKeepsInv(states, steps, i);
    var s, c := states[i], steps[i].c;
    assert Enabled(s, steps[i]);
    assert Local(s, t, c, c);
    if IsSwitchStep(steps[i]) {
      SwitchStateStep(s, steps[i], t);
    } else {
      OtherStateStep(s, steps[i], t);
    }
  }

  lemma CurrentStep(s: State, step: Step, d: CpuId)
    requires Enabled(s, step) && d in s.cpus
    ensures d in Apply(s, step).cpus
    ensures Apply(s, step).cpus[d].cur == if step.PickNext? && step.c == d then step.t else s.cpus[d].cur
    ensures step.PickNext? ==> On(s, step.t, RunQ(step.c))
  {}

  /** A CPU's current thread changes only when it picks the next one, which is one on its run queue. */
  lemma CurrentChanges(states: seq<State>, steps: seq<Step>, i: nat, d: CpuId)
    requires IsRun(states, steps) && i < |steps| && d in states[i].cpus
    ensures d in states[i + 1].cpus
    ensures states[i + 1].cpus[d].cur == if steps[i].PickNext? && steps[i].c == d then steps[i].t else states[i].cpus[d].cur
    ensures steps[i].PickNext? ==> On(states[i], steps[i].t, RunQ(steps[i].c))
  {
    assert Enabled(states[i], steps[i]);
    CurrentStep(states[i], steps[i], d);
  }

  lemma ComeAndGoStep(s: State, step: Step, t: Tid)
    requires Enabled(s, step) && Local(s, s.cpus[step.c].cur, step.c, step.c)
    ensures t in s.threads && t !in Apply(s, step).threads <==> step == Exorcise(step.c, t)
    ensures t !in s.threads && t in Apply(s, step).threads <==> step.Fork? && step.t == t
  {}

  /** Threads come only by being forked and go only when laid to rest. */
  lemma ComeAndGo(states: seq<State>, steps: seq<Step>, i: nat, t: Tid)
    requires IsRun(states, steps) && i < |steps|
    ensures t in states[i].threads && t !in states[i + 1].threads <==> steps[i] == Exorcise(steps[i].c, t)
    ensures t !in states[i].threads && t in states[i + 1].threads <==> steps[i].Fork? && steps[i].t == t
  {
    RunKeepsInv(states, steps, i);
    assert Enabled(states[i], steps[i]);
    assert Local(states[i], states[i].cpus[steps[i].c].cur, steps[i].c, steps[i].c);
    ComeAndGoStep(states[i], steps[i], t);
  }

  /** Who can take a thread off a list. */
  ghost predicate ListStep(s: State, step: Step, s': State, t: Tid, id: ListId) {
    On(s, t, id) && !On(s', t, id) ==>
      match id
      case WaitQ(w) => step.Wake? && step.w == w && t in step.ts
      case RunQ(c) => step == PickNext(c, t) || (step.MigrateTake? && step.c == c && t in step.ts)
      case Zombies(c) => step == Exorcise(c, t)
      case Hand(c) => step == MakeReady(c) || step == MigrateMove(c, t) || step == MigrateReturn(c)
  }

  lemma SwitchListStep(s: State, step: Step, t: Tid, id: ListId)
    requires Enabled(s, step) && Local(s, t, step.c, step.c) && IsSwitchStep(step)
    ensures ListStep(s, step, Apply(s, step), t, id)
  {}

  lemma MigrateListStep(s: State, step: Step, t: Tid, id: ListId)
    requires Enabled(s, step) && Local(s, t, step.c, step.c) && IsMigrateStep(step)
    ensures ListStep(s, step, Apply(s, step), t, id)
  {}

  lemma MakeListStep(s: State, step: Step, t: Tid, id: ListId)
    requires Enabled(s, step) && Local(s, t, step.c, step.c) && !IsSwitchStep(step) && !IsMigrateStep(step)
    ensures ListStep(s, step, Apply(s, step), t, id)
  {}

  /** A thread leaves a channel only when woken, a run queue only to run or to migrate, the zombies only for good. */
  lemma ListChanges(states: seq<State>, steps: seq<Step>, i: nat, t: Tid, id: ListId)
    requires IsRun(states, steps) && i < |steps|
    ensures ListStep(states[i], steps[i], states[i + 1], t, id)
  {
    RunKeepsInv(states, steps, i);
    assert Enabled(states[i], steps[i]);
    assert Local(states[i], t, steps[i].c, steps[i].c);
    if IsSwitchStep(steps[i]) {
      SwitchListStep(states[i], steps[i], t, id);
    } else if IsMigrateStep(steps[i]) {
      MigrateListStep(states[i], steps[i], t, id);
    } else {
      MakeListStep(states[i], steps[i], t, id);
    }
  }

  /** The point of its code a CPU reaches by a step of its own. */
  ghost predicate Reaches(s: State, step: Step, cpu: Cpu, cpu': Cpu) {
    match step
    case SwitchLock(_, to) => cpu'.pc == Locked(to) && cpu'.act == cpu.act
    case SwitchBack(_) => cpu'.pc == Run && cpu'.act == cpu.act
    case Place(_) => cpu.pc.Locked? && cpu'.pc == Placed(cpu.pc.to) && cpu'.act == cpu.act
    case StoreState(_) => cpu'.pc == Looking && cpu'.act == cpu.act
    case GoIdle(_) => cpu'.pc == Idling && cpu'.act == cpu.act
    case Unidle(_) => cpu'.pc == Looking && cpu'.act == cpu.act
    case PickNext(_, _) => cpu'.pc == Switched && cpu'.act == cpu.act
    case SwitchIn(_) => cpu'.pc == Run && cpu'.act == cpu.act
    case Exorcise(_, _) => cpu' == cpu
    case Fork(_, _, _) => cpu'.pc == cpu.pc && cpu'.act == Making
    case Wake(_, _, _) => cpu'.pc == cpu.pc && cpu'.act == Making
    case MakeLock(_, t) => t in s.threads && cpu'.pc == cpu.pc && cpu'.act == MakingAt(t, s.threads[t].cpu)
    case MakeReady(_) => cpu'.pc == cpu.pc && cpu'.act == Making
    case MakeDone(_) => cpu'.pc == cpu.pc && cpu'.act == Quiet
    case MigrateCount(c) => cpu'.pc == cpu.pc && cpu'.act == Counted(OnList(s, RunQ(c)))
    case MigrateTake(_, _) => cpu'.pc == cpu.pc && cpu'.act == Migrating
    case MigrateLock(_, at) => cpu'.pc == cpu.pc && cpu'.act == MigratingAt(at)
    case MigrateMove(_, _) => cpu' == cpu
    case MigrateUnlock(_) => cpu'.pc == cpu.pc && cpu'.act == Migrating
    case MigrateReturn(_) => cpu'.pc == cpu.pc && cpu'.act == Quiet
  }

  lemma OwnProgress(s: State, step: Step)
    requires Enabled(s, step) && IsSwitchStep(step)
    ensures step.c in s.cpus && step.c in Apply(s, step).cpus
    ensures Reaches(s, step, s.cpus[step.c], Apply(s, step).cpus[step.c])
  {}

  lemma HandlerProgress(s: State, step: Step)
    requires Enabled(s, step) && !IsSwitchStep(step)
    ensures step.c in s.cpus && step.c in Apply(s, step).cpus
    ensures Reaches(s, step, s.cpus[step.c], Apply(s, step).cpus[step.c])
  {}

  /** A CPU goes from point to point in the order of the code, and only by its own steps. */
  lemma CpuProgress(states: seq<State>, steps: seq<Step>, i: nat, d: CpuId)
    requires IsRun(states, steps) && i < |steps| && d in states[i].cpus
    ensures d in states[i + 1].cpus
    ensures d != steps[i].c ==> states[i + 1].cpus[d] == states[i].cpus[d]
    ensures d == steps[i].c ==> Reaches(states[i], steps[i], states[i].cpus[d], states[i + 1].cpus[d])
  {
    assert Enabled(states[i], steps[i]);
    if d != steps[i].c {
      OtherCpu(states[i], steps[i], d);
    } else if IsSwitchStep(steps[i]) {
      OwnProgress(states[i], steps[i]);
    } else {
      HandlerProgress(states[i], steps[i]);
    }
  }

  // ---------------------------------------------------------------- a CPU leaves the idle loop only when interrupted

  /** The step interrupts `d`: a handler starts there, or a thread is put on its run queue while it is idle. */
  ghost predicate Interrupts(s: State, step: Step, d: CpuId) {
    match step
    case Wake(c, _, _) => c == d
    case MigrateCount(c) => c == d
    case MakeReady(c) => c in s.cpus && s.cpus[c].act.MakingAt? && s.cpus[c].act.at == d
    case MigrateMove(c, _) => c in s.cpus && s.cpus[c].act == MigratingAt(d)
    case _ => false
  }

  lemma PokeStep(s: State, step: Step, d: CpuId)
    requires Enabled(s, step)
    ensures d in Apply(s, step).poked ==> Interrupts(s, step, d) || (d in s.poked && step != GoIdle(d))
  {}

  lemma {:induction false} PokedSince(states: seq<State>, steps: seq<Step>, i: nat, k: nat, d: CpuId)
    requires IsRun(states, steps) && i < k <= |steps| && steps[i] == GoIdle(d)
    requires forall j :: i < j < k ==> !Interrupts(states[j], steps[j], d)
    ensures d !in states[k].poked
    decreases k
  {
    assert Enabled(states[k - 1], steps[k - 1]);
    PokeStep(states[k - 1], steps[k - 1], d);
    if k > i + 1 { PokedSince(states, steps, i, k - 1, d); }
  }

  /** A CPU that has gone idle looks for threads again only after an interrupt that came since. */
  lemma LeavesIdleOnInterrupt(states: seq<State>, steps: seq<Step>, i: nat, k: nat, d: CpuId)
    requires IsRun(states, steps) && i < k < |steps| && steps[i] == GoIdle(d) && steps[k] == Unidle(d)
    ensures exists j :: i < j < k && Interrupts(states[j], steps[j], d)
  {
    assert Enabled(states[k], steps[k]);
    if forall j :: i < j < k ==> !Interrupts(states[j], steps[j], d) { PokedSince(states, steps, i, k, d); }
  }

  // ---------------------------------------------------------------- a switch does what it was called for

  /** Step `i` began a switch of CPU `c` that is still under way at `k`. */
  ghost predicate SwitchingSince(steps: seq<Step>, i: nat, k: nat, c: CpuId, to: Target) {
    && i < k <= |steps| && steps[i] == SwitchLock(c, to)
    && forall j :: i < j < k ==> steps[j] != SwitchBack(c) && steps[j] != StoreState(c)
  }

  ghost predicate Aiming(s: State, c: CpuId, to: Target) {
    c in s.cpus && (s.cpus[c].pc == Locked(to) || s.cpus[c].pc == Placed(to))
  }

  lemma AimingStep(s: State, step: Step, c: CpuId, to: Target)
    requires Enabled(s, step) && step != SwitchBack(c) && step != StoreState(c)
    requires Aiming(s, c, to) || step == SwitchLock(c, to)
    requires c in s.cpus ==> CpuOk(s, c)
    ensures Aiming(Apply(s, step), c, to) && Apply(s, step).cpus[c].cur == s.cpus[c].cur
  {
    if step.c != c { OtherCpu(s, step, c); }
  }

  lemma RunAims(states: seq<State>, steps: seq<Step>, i: nat, c: CpuId, to: Target)
    requires IsRun(states, steps) && i < |steps| && steps[i] != SwitchBack(c) && steps[i] != StoreState(c)
    requires Aiming(states[i], c, to) || steps[i] == SwitchLock(c, to)
    ensures Aiming(states[i + 1], c, to) && c in states[i].cpus && states[i + 1].cpus[c].cur == states[i].cpus[c].cur
  {
    RunKeepsInv(states, steps, i);
    assert Enabled(states[i], steps[i]);
    assert Local(states[i], 0, c, c);
    AimingStep(states[i], steps[i], c, to);
  }

  lemma {:induction false} AimKept(states: seq<State>, steps: seq<Step>, i: nat, k: nat, c: CpuId, to: Target)
    requires IsRun(states, steps) && SwitchingSince(steps, i, k, c, to)
    ensures Aiming(states[k], c, to) && c in states[i].cpus && states[k].cpus[c].cur == states[i].cpus[c].cur
    decreases k
  {
    if k > i + 1 { AimKept(states, steps, i, k - 1, c, to); }
    RunAims(states, steps, k - 1, c, to);
  }

  /** The list and the state a switch is to leave the thread with. */
  ghost predicate Reached(s: State, c: CpuId, t: Tid, to: Target) {
    t in s.threads
    && match to
       case ToReady => s.threads[t].state == S_READY
       case ToSleep(w) => s.threads[t].state == S_SLEEP
       case ToZombie => s.threads[t].state == S_ZOMBIE
  }

  ghost predicate Joined(s: State, c: CpuId, t: Tid, to: Target) {
    match to
    case ToReady => On(s, t, RunQ(c))
    case ToSleep(w) => On(s, t, WaitQ(w))
    case ToZombie => On(s, t, Zombies(c))
  }

  /** The thread that called `thread_switch` joins the list it asked for, and ends in the state it asked for. */
  lemma SwitchDoesAsAsked(states: seq<State>, steps: seq<Step>, i: nat, k: nat, c: CpuId, to: Target)
    requires IsRun(states, steps) && k < |steps| && SwitchingSince(steps, i, k, c, to)
    ensures c in states[i].cpus
    ensures steps[k] == Place(c) ==> Joined(states[k + 1], c, states[i].cpus[c].cur, to)
    ensures steps[k] == StoreState(c) ==> Reached(states[k + 1], c, states[i].cpus[c].cur, to)
  {
    AimKept(states, steps, i, k, c, to);
    assert Enabled(states[k], steps[k]);
  }

  // ---------------------------------------------------------------- migration moves to the CPU that was locked

  lemma MigrateCpuStep(s: State, step: Step, t: Tid)
    requires Enabled(s, step) && t in s.threads && t in Apply(s, step).threads
    ensures Apply(s, step).threads[t].cpu != s.threads[t].cpu ==>
              step == MigrateMove(step.c, t) && Apply(s, step).threads[t].cpu == s.cpus[step.c].act.at
    ensures step == MigrateMove(step.c, t) && !Current(s, step.c, t) ==>
              Runnable(Apply(s, step), t) || s.threads[t].state != S_READY
  {}

  /** CPU `c` locked the run queue of `at` in step `i` and has not let go of it. */
  ghost predicate ReceiverSince(steps: seq<Step>, i: nat, k: nat, c: CpuId, at: CpuId) {
    i < k <= |steps| && steps[i] == MigrateLock(c, at) && forall j :: i < j < k ==> steps[j] != MigrateUnlock(c)
  }

  lemma ReceiverStep(s: State, step: Step, c: CpuId, at: CpuId)
    requires Enabled(s, step) && step != MigrateUnlock(c)
    requires step == MigrateLock(c, at) || (c in s.cpus && s.cpus[c].act == MigratingAt(at))
    ensures c in Apply(s, step).cpus && Apply(s, step).cpus[c].act == MigratingAt(at)
  {
    if step.c != c { OtherCpu(s, step, c); }
  }

  lemma RunReceives(states: seq<State>, steps: seq<Step>, i: nat, c: CpuId, at: CpuId)
    requires IsRun(states, steps) && i < |steps| && steps[i] != MigrateUnlock(c)
    requires steps[i] == MigrateLock(c, at) || (c in states[i].cpus && states[i].cpus[c].act == MigratingAt(at))
    ensures c in states[i + 1].cpus && states[i + 1].cpus[c].act == MigratingAt(at)
  {
    assert Enabled(states[i], steps[i]);
    ReceiverStep(states[i], steps[i], c, at);
  }

  lemma {:induction false} ReceiverKept(states: seq<State>, steps: seq<Step>, i: nat, k: nat, c: CpuId, at: CpuId)
    requires IsRun(states, steps) && ReceiverSince(steps, i, k, c, at)
    ensures c in states[k].cpus && states[k].cpus[c].act == MigratingAt(at)
    decreases k
  {
    if k > i + 1 { ReceiverKept(states, steps, i, k - 1, c, at); }
    RunReceives(states, steps, k - 1, c, at);
  }

  /** A thread changes its CPU only as a migration victim, and to the CPU whose run queue was locked for it. */
  lemma MigratesToReceiver(states: seq<State>, steps: seq<Step>, i: nat, k: nat, c: CpuId, at: CpuId, t: Tid)
    requires IsRun(states, steps) && k < |steps| && ReceiverSince(steps, i, k, c, at) && steps[k] == MigrateMove(c, t)
    ensures Current(states[k], c, t) ==> states[k + 1] == states[k]
    ensures !Current(states[k], c, t) ==> Runnable(states[k + 1], t) && states[k + 1].threads[t].cpu == at
  {
    ReceiverKept(states, steps, i, k, c, at);
    RunKeepsInv(states, steps, k);
    assert Enabled(states[k], steps[k]);
    assert Local(states[k], t, c, c);
  }

  lemma CpuChanges(states: seq<State>, steps: seq<Step>, i: nat, t: Tid)
    requires IsRun(states, steps) && i < |steps| && t in states[i].threads && t in states[i + 1].threads
    requires states[i + 1].threads[t].cpu != states[i].threads[t].cpu
    ensures steps[i] == MigrateMove(steps[i].c, t)
  {
    assert Enabled(states[i], steps[i]);
    MigrateCpuStep(states[i], steps[i], t);
  }

  lemma TakeStep(s: State, c: CpuId, ts: set<Tid>, t: Tid)
    requires Enabled(s, MigrateTake(c, ts)) && t in ts
    ensures On(s, t, RunQ(c)) && On(Apply(s, MigrateTake(c, ts)), t, Hand(c)) && Moving(Apply(s, MigrateTake(c, ts)), c)
  {
    assert t in OnList(s, RunQ(c));
  }

  lemma {:induction false} VictimDelivered(states: seq<State>, steps: seq<Step>, i: nat, k: nat, c: CpuId, t: Tid)
    returns (m: nat)
    requires IsRun(states, steps) && i <= k < |steps| && steps[k] == MigrateReturn(c)
    requires Moving(states[i], c) && On(states[i], t, Hand(c))
    ensures i < m <= k + 1 && Runnable(states[m], t)
    decreases k - i
  {
    VictimStaysRunnable(states, steps, i, c, t);
    if Runnable(states[i + 1], t) { return i + 1; }
    m := VictimDelivered(states, steps, i + 1, k, c, t);
  }

  /** Every migration victim is back on some run queue, to be run, when the migration ends. */
  lemma MigrationDelivers(states: seq<State>, steps: seq<Step>, i: nat, k: nat, c: CpuId, ts: set<Tid>, t: Tid)
    returns (m: nat)
    requires IsRun(states, steps) && i < k < |steps| && steps[i] == MigrateTake(c, ts) && steps[k] == MigrateReturn(c)
    requires t in ts
    ensures On(states[i], t, RunQ(c)) && i < m <= k + 1 && Runnable(states[m], t)
  {
    assert Enabled(states[i], steps[i]);
    TakeStep(states[i], c, ts, t);
    m := VictimDelivered(states, steps, i + 1, k, c, t);
  }
}
