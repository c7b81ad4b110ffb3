/**
 Interrupt-level accounting: `splraise`, `spllower` and `splx` of `spl.c`,
 spinlock acquisition and release, interrupt entry and return, and the hand-off
 of the run-queue lock from one thread to the next across a context switch.
 The raise count belongs to the thread, the spinlock count to the CPU, and the
 interrupt flag to the hardware; the theorems say how they stay in step in every
 interleaving of any number of CPUs and threads.
 */
module InterruptLevel {
  import opened Options

  type Cpu = nat
  type Tid = nat

  datatype Lock = RunQueue(cpu: Cpu) | Other(id: nat)

  /**
   Where a thread is: running its own code, at a point of `thread_switch`, or switched out.
   `Entered` is from `splhigh` until it has the run-queue lock, `Locked` until it is on its new list
   (sleeping threads then release the channel's lock `lk`), `Choosing` while it looks for the next
   thread, `Idle` while it waits for one without the lock (an interrupt handler may be on top),
   `Resumed` from the switch until the lock is released, and `Leaving` until `splx`.
   */
  datatype Phase = Normal | Entered(lk: Option<Lock>) | Locked(lk: Option<Lock>) | Choosing | Idle(handler: bool)
                 | Resumed | Leaving | Parked

  /**
   `saved` is the local `spl` of `thread_switch`; `handling` that an interrupt raised the level on entry; `cpu` where
   it is current.
   */
  datatype Thread = Thread(curspl: nat, count: nat, saved: nat, handling: bool, phase: Phase, cpu: Cpu)

  /** `waiting`: the lock being spun for; `idling`: inside `cpu_idle`, which flips interrupts on its own. */
  datatype Core = Core(cur: Tid, irq: bool, spinlocks: nat, held: set<Lock>, waiting: Option<Lock>, idling: bool)

  datatype State = State(threads: map<Tid, Thread>, cores: map<Cpu, Core>, holder: map<Lock, Cpu>)

  // ---------------------------------------------------------------- spl.c

  /** The counted raise: interrupts go off on the first one. */
  function Raise(t: Thread, irq: bool): (Thread, bool) {
    (t.(count := t.count + 1), if t.count == 0 then false else irq)
  }

  /** The counted lower: interrupts come on again on the last one. */
  function Lower(t: Thread, irq: bool): (Thread, bool)
    requires t.count > 0
  {
    (t.(count := t.count - 1), if t.count - 1 == 0 then true else irq)
  }

  function Splx(t: Thread, irq: bool, spl: nat): (Thread, bool)
    requires t.curspl > spl ==> t.count > 0
  {
    if t.curspl < spl then
      var r := Raise(t, irq);
      (r.0.(curspl := spl), r.1)
    else if t.curspl > spl then
      Lower(t.(curspl := spl), irq)
    else
      (t, irq)
  }

  // ---------------------------------------------------------------- invariant, seen from one CPU, thread and lock

  ghost predicate ThreadOk(s: State, t: Tid) {
    t in s.threads ==>
      var th := s.threads[t];
      && th.curspl <= 1 && th.saved <= 1
      && (th.phase == Parked ==> th.curspl == 1 && th.count == 2)
      && (th.phase != Normal ==> th.curspl == 1)
      && (th.handling ==> th.curspl == 1 && (th.phase != Normal ==> th.saved == 1))
      && (th.phase != Parked ==> th.cpu in s.cores && s.cores[th.cpu].cur == t)
  }

  function Locks(lk: Option<Lock>): set<Lock> {
    if lk.Some? then {lk.value} else {}
  }

  /** The locks a CPU holds at each point of `thread_switch`. */
  ghost predicate HoldsAt(core: Core, phase: Phase, rq: Lock) {
    match phase
    case Entered(lk) => core.held == Locks(lk) && (core.waiting.Some? ==> core.waiting == Some(rq))
    case Locked(lk) => core.held == Locks(lk) + {rq} && core.waiting == None && rq !in Locks(lk)
    case Choosing => core.held == {rq} && core.waiting == None
    case Idle(handler) =>
      !handler ==> core.held == {} && (core.waiting.Some? ==> core.waiting == Some(rq) && !core.idling)
    case Resumed => core.held == {rq} && core.waiting == None
    case _ => true
  }

  ghost predicate CoreOk(s: State, c: Cpu) {
    c in s.cores ==>
      var core := s.cores[c];
      && core.cur in s.threads
      && var th := s.threads[core.cur];
      && th.phase != Parked && th.cpu == c
      && core.spinlocks == |core.held| + (if core.waiting.Some? then 1 else 0)
      && th.count == th.curspl + core.spinlocks
      && (core.waiting.Some? ==> core.waiting.value !in core.held)
      && HoldsAt(core, th.phase, RunQueue(c))
      && (th.phase == Idle(true) ==> core.idling)
      && (if core.idling then th.phase.Idle? else core.irq <==> th.count == 0)
  }

  ghost predicate HeldOk(s: State, c: Cpu, l: Lock) {
    c in s.cores ==> (l in s.cores[c].held <==> l in s.holder && s.holder[l] == c)
  }

  ghost predicate Local(s: State, t: Tid, c: Cpu, l: Lock) {
    ThreadOk(s, t) && CoreOk(s, c) && HeldOk(s, c, l)
  }

  ghost predicate Inv(s: State) {
    forall t, c, l :: Local(s, t, c, l)
  }

  // ---------------------------------------------------------------- steps

  datatype Action =
    | SetLevel(c: Cpu, spl: nat)                // splx in ordinary code
    | LockStart(c: Cpu, l: Lock)                // spinlock_acquire up to the spin loop
    | LockGet(c: Cpu)                           // the test-and-set succeeds
    | Unlock(c: Cpu, l: Lock)
    | Interrupt(c: Cpu)
    | InterruptReturn(c: Cpu)
    | SwitchEnter(c: Cpu, lk: Option<Lock>)     // thread_switch: splhigh; `lk` when going to sleep
    | Place(c: Cpu)                             // onto the run queue or the list of zombies
    | PlaceSleeper(c: Cpu)                      // onto the wait channel, whose lock is released
    | Cancel(c: Cpu)                            // nothing else to run: release the run queue and return
    | SwitchTo(c: Cpu, next: Tid)               // switchframe_switch
    | SwitchLeave(c: Cpu)                       // splx of the saved level, or spl0 in thread_startup
    | IdleStart(c: Cpu)                         // no thread to run: release the run queue
    | IdleOn(c: Cpu)
    | IdleInterrupt(c: Cpu)
    | IdleReturn(c: Cpu)
    | IdleOff(c: Cpu)
    | Fork(c: Cpu, t: Tid)

  ghost function Cur(s: State, c: Cpu): Thread
    requires c in s.cores && s.cores[c].cur in s.threads
  {
    s.threads[s.cores[c].cur]
  }

  ghost predicate Running(s: State, c: Cpu) {
    c in s.cores && s.cores[c].cur in s.threads
  }

  /** Points at which a thread may take and release spinlocks of its own. */
  predicate Free(p: Phase) {
    p == Normal || p == Leaving || p == Idle(true)
  }

  /**
   When each step can happen. Callers enter `thread_switch` holding exactly the wait channel's lock to
   sleep, and no spinlock otherwise; interrupt handlers give back the locks they took. What the source
   asserts beyond that is proved.
   */
  ghost predicate Enabled(s: State, a: Action) {
    Running(s, CpuOf(a)) && EnabledOn(s.cores[a.c], Cur(s, a.c), s, a)
  }

  ghost predicate EnabledOn(core: Core, th: Thread, s: State, a: Action) {
    (a.LockGet? <==> core.waiting.Some?) &&
    match a
    case SetLevel(c, spl) => spl <= 1 && (th.phase == Normal || spl == 1) && (th.handling ==> spl == 1)
    case LockStart(c, l) =>
      && l !in core.held
      && (Free(th.phase) || ((th.phase.Entered? || (th.phase == Idle(false) && !core.idling)) && l == RunQueue(c)))
    case LockGet(c) => core.waiting.value !in s.holder
    case Unlock(c, l) => l in core.held && (Free(th.phase) || (th.phase == Resumed && l == RunQueue(c)))
    case Interrupt(c) => core.irq && !core.idling
    case InterruptReturn(c) => th.handling && th.phase == Normal && core.held == {}
    case SwitchEnter(c, lk) => th.phase == Normal && core.held == Locks(lk)
    case Place(c) => th.phase == Locked(None)
    case PlaceSleeper(c) => th.phase.Locked? && th.phase.lk.Some?
    case Cancel(c) => th.phase == Locked(None)
    case SwitchTo(c, next) =>
      th.phase == Choosing && (next == core.cur || (next in s.threads && s.threads[next].phase == Parked))
    case SwitchLeave(c) => th.phase == Leaving
    case IdleStart(c) => th.phase == Choosing
    case IdleOn(c) => th.phase == Idle(false) && !core.idling
    case IdleInterrupt(c) => th.phase == Idle(false) && core.idling && core.irq
    case IdleReturn(c) => th.phase == Idle(true) && core.held == {}
    case IdleOff(c) => th.phase == Idle(false) && core.idling
    case Fork(c, t) => t !in s.threads
  }

  /** Store the current thread and the interrupt flag. */
  ghost function Put(s: State, c: Cpu, r: (Thread, bool)): State
    requires c in s.cores
  {
    s.(threads := s.threads[s.cores[c].cur := r.0], cores := s.cores[c := s.cores[c].(irq := r.1)])
  }

  ghost function SetCore(s: State, c: Cpu, core: Core): State {
    s.(cores := s.cores[c := core])
  }

  /** Releasing a lock: the raise count, the spinlock count and the lock itself. */
  ghost function Released(s: State, c: Cpu, l: Lock, phase: Phase): State
    requires c in s.cores && s.cores[c].cur in s.threads && Cur(s, c).count > 0 && s.cores[c].spinlocks > 0
  {
    var r := Put(s, c, Lower(Cur(s, c).(phase := phase), s.cores[c].irq));
    SetCore(r, c, r.cores[c].(spinlocks := r.cores[c].spinlocks - 1, held := r.cores[c].held - {l}))
    .(holder := s.holder - {l})
  }

  /** The point reached by getting the lock spun for. */
  function AfterGet(p: Phase): Phase {
    if p.Entered? then Locked(p.lk) else if p == Idle(false) then Choosing else p
  }

  /** What the code relies on, and partly asserts, when it takes the step. */
  ghost predicate Sound(s: State, a: Action) {
    Enabled(s, a) &&
    var core, th := s.cores[a.c], Cur(s, a.c);
    match a
    case SetLevel(c, spl) => th.curspl > spl ==> th.count > 0
    case Unlock(c, l) => core.spinlocks > 0 && th.count > 0 && l in s.holder && s.holder[l] == c
    case Interrupt(c) => th.curspl == 0 && th.count == 0
    case InterruptReturn(c) => th.curspl == 1 && th.count == 1
    case SwitchEnter(c, lk) => th.curspl <= 1
    case PlaceSleeper(c) =>
      core.spinlocks == 2 && th.count == 3 && th.phase.lk.value in core.held && core.held - {th.phase.lk.value} == {RunQueue(c)}
    case Cancel(c) => core.spinlocks == 1 && th.count > 0 && core.held == {RunQueue(c)}
    case SwitchTo(c, next) =>
      && core.held == {RunQueue(c)} && core.spinlocks == 1 && th.count == 2
      && next in s.threads && s.threads[next].count == 2
    case SwitchLeave(c) => th.curspl == 1 && th.count > 0
    case IdleStart(c) => core.held == {RunQueue(c)} && core.spinlocks == 1 && th.count == 2
    case IdleOn(c) => core.held == {} && th.count == 1
    case IdleOff(c) => core.held == {} && th.count == 1
    case _ => true
  }

  ghost function Apply(s: State, a: Action): State
    requires Sound(s, a)
  {
    var core, th := s.cores[a.c], Cur(s, a.c);
    match a
    case SetLevel(c, spl) => Put(s, c, Splx(th, core.irq, spl))
    case LockStart(c, l) =>
      var r := Put(s, c, Raise(th, core.irq));
      SetCore(r, c, r.cores[c].(spinlocks := core.spinlocks + 1, waiting := Some(l)))
    case LockGet(c) =>
      var r := Put(s, c, (th.(phase := AfterGet(th.phase)), core.irq));
      SetCore(r, c, core.(held := core.held + {core.waiting.value}, waiting := None))
      .(holder := s.holder[core.waiting.value := c])
    case Unlock(c, l) => Released(s, c, l, if th.phase == Resumed then Leaving else th.phase)
    case Interrupt(c) => Put(s, c, (th.(curspl := 1, count := th.count + 1, handling := true), false))
    case InterruptReturn(c) => Put(s, c, (th.(curspl := 0, count := th.count - 1, handling := false), true))
    case SwitchEnter(c, lk) => Put(s, c, Splx(th.(saved := th.curspl, phase := Entered(lk)), core.irq, 1))
    case Place(c) => Put(s, c, (th.(phase := Choosing), core.irq))
    case PlaceSleeper(c) => Released(s, c, th.phase.lk.value, Choosing)
    case Cancel(c) => Released(s, c, RunQueue(c), Leaving)
    case SwitchTo(c, next) =>
      var parked := s.threads[core.cur := th.(phase := Parked)];
      SetCore(s, c, core.(cur := next)).(threads := parked[next := parked[next].(phase := Resumed, cpu := c)])
    case SwitchLeave(c) => Put(s, c, Splx(th.(phase := Normal), core.irq, th.saved))
    case IdleStart(c) => Released(s, c, RunQueue(c), Idle(false))
    case IdleOn(c) => SetCore(s, c, core.(idling := true, irq := true))
    case IdleInterrupt(c) => Put(s, c, (th.(phase := Idle(true)), false))
    case IdleReturn(c) => Put(s, c, (th.(phase := Idle(false)), true))
    case IdleOff(c) => SetCore(s, c, core.(idling := false, irq := false))
    case Fork(c, t) => s.(threads := s.threads[t := Thread(1, 2, 0, false, Parked, c)])
  }

  ghost function CpuOf(a: Action): Cpu {
    a.c
  }

  // ---------------------------------------------------------------- every step keeps the invariant

  /** Every assertion the source makes along these paths holds. */
  lemma EnabledIsSound(s: State, a: Action)
    requires Inv(s) && Enabled(s, a)
    ensures Sound(s, a)
  {
    var c := CpuOf(a);
    assert Local(s, s.cores[c].cur, c, RunQueue(c));
    if a.Unlock? { assert Local(s, s.cores[c].cur, c, a.l) && a.l in s.cores[c].held; }
    if a.SwitchTo? { assert Local(s, a.next, c, RunQueue(c)); }
    if a.PlaceSleeper? {
      var core, lk := s.cores[c], Cur(s, c).phase.lk.value;
      assert lk in core.held && core.held == {lk, RunQueue(c)} && |core.held| == 2;
    }
  }

  /** What a step needs to know of the invariant: the view of its own CPU, and of the CPU, thread and lock looked at. */
  ghost predicate View(s: State, a: Action, t: Tid, c: Cpu, l: Lock) {
    && Sound(s, a) && Local(s, t, c, l) && Local(s, t, CpuOf(a), l)
    && Local(s, s.cores[CpuOf(a)].cur, CpuOf(a), l)
    && (c in s.cores ==> Local(s, s.cores[c].cur, c, l))
    && (a.LockGet? ==> Local(s, t, c, s.cores[a.c].waiting.value))
    && (a.SwitchTo? ==> Local(s, a.next, c, l))
  }

  lemma SetLevelKeeps(s: State, a: Action, t: Tid, c: Cpu, l: Lock)
    requires View(s, a, t, c, l) && a.SetLevel?
    ensures Local(Apply(s, a), t, c, l)
  {}

  lemma LockStartKeeps(s: State, a: Action, t: Tid, c: Cpu, l: Lock)
    requires View(s, a, t, c, l) && a.LockStart?
    ensures Local(Apply(s, a), t, c, l)
  {}

  lemma LockGetThread(s: State, a: Action, t: Tid, c: Cpu, l: Lock)
    requires View(s, a, t, c, l) && a.LockGet?
    ensures ThreadOk(Apply(s, a), t) && HeldOk(Apply(s, a), c, l)
  {}

  lemma LockGetCore(s: State, a: Action, t: Tid, c: Cpu, l: Lock)
    requires View(s, a, t, c, l) && a.LockGet?
    ensures CoreOk(Apply(s, a), c)
  {}

  lemma LockGetKeeps(s: State, a: Action, t: Tid, c: Cpu, l: Lock)
    requires View(s, a, t, c, l) && a.LockGet?
    ensures Local(Apply(s, a), t, c, l)
  {
    LockGetThread(s, a, t, c, l);
    LockGetCore(s, a, t, c, l);
  }

  lemma UnlockKeeps(s: State, a: Action, t: Tid, c: Cpu, l: Lock)
    requires View(s, a, t, c, l) && a.Unlock?
    ensures Local(Apply(s, a), t, c, l)
  {}

  lemma InterruptKeeps(s: State, a: Action, t: Tid, c: Cpu, l: Lock)
    requires View(s, a, t, c, l) && a.Interrupt?
    ensures Local(Apply(s, a), t, c, l)
  {}

  lemma InterruptReturnKeeps(s: State, a: Action, t: Tid, c: Cpu, l: Lock)
    requires View(s, a, t, c, l) && a.InterruptReturn?
    ensures Local(Apply(s, a), t, c, l)
  {}

  lemma SwitchEnterKeeps(s: State, a: Action, t: Tid, c: Cpu, l: Lock)
    requires View(s, a, t, c, l) && a.SwitchEnter?
    ensures Local(Apply(s, a), t, c, l)
  {}

  lemma PlaceKeeps(s: State, a: Action, t: Tid, c: Cpu, l: Lock)
    requires View(s, a, t, c, l) && a.Place?
    ensures Local(Apply(s, a), t, c, l)
  {}

  lemma PlaceSleeperKeeps(s: State, a: Action, t: Tid, c: Cpu, l: Lock)
    requires View(s, a, t, c, l) && a.PlaceSleeper?
    ensures Local(Apply(s, a), t, c, l)
  {}

  lemma CancelKeeps(s: State, a: Action, t: Tid, c: Cpu, l: Lock)
    requires View(s, a, t, c, l) && a.Cancel?
    ensures Local(Apply(s, a), t, c, l)
  {}

  lemma SwitchToKeeps(s: State, a: Action, t: Tid, c: Cpu, l: Lock)
    requires View(s, a, t, c, l) && a.SwitchTo?
    ensures Local(Apply(s, a), t, c, l)
  {}

  lemma SwitchLeaveKeeps(s: State, a: Action, t: Tid, c: Cpu, l: Lock)
    requires View(s, a, t, c, l) && a.SwitchLeave?
    ensures Local(Apply(s, a), t, c, l)
  {}

  lemma IdleStartKeeps(s: State, a: Action, t: Tid, c: Cpu, l: Lock)
    requires View(s, a, t, c, l) && a.IdleStart?
    ensures Local(Apply(s, a), t, c, l)
  {}

  lemma IdleOnKeeps(s: State, a: Action, t: Tid, c: Cpu, l: Lock)
    requires View(s, a, t, c, l) && a.IdleOn?
    ensures Local(Apply(s, a), t, c, l)
  {}

  lemma IdleInterruptKeeps(s: State, a: Action, t: Tid, c: Cpu, l: Lock)
    requires View(s, a, t, c, l) && a.IdleInterrupt?
    ensures Local(Apply(s, a), t, c, l)
  {}

  lemma IdleReturnKeeps(s: State, a: Action, t: Tid, c: Cpu, l: Lock)
    requires View(s, a, t, c, l) && a.IdleReturn?
    ensures Local(Apply(s, a), t, c, l)
  {}

  lemma IdleOffKeeps(s: State, a: Action, t: Tid, c: Cpu, l: Lock)
    requires View(s, a, t, c, l) && a.IdleOff?
    ensures Local(Apply(s, a), t, c, l)
  {}

  lemma ForkKeeps(s: State, a: Action, t: Tid, c: Cpu, l: Lock)
    requires View(s, a, t, c, l) && a.Fork?
    ensures Local(Apply(s, a), t, c, l)
  {}

  lemma LockStepKeeps(s: State, a: Action, t: Tid, c: Cpu, l: Lock)
    requires View(s, a, t, c, l)
    requires a.SetLevel? || a.LockStart? || a.LockGet? || a.Unlock? || a.Interrupt? || a.InterruptReturn?
    ensures Local(Apply(s, a), t, c, l)
  {
    if a.SetLevel? {
      SetLevelKeeps(s, a, t, c, l);
    } else if a.LockStart? {
      LockStartKeeps(s, a, t, c, l);
    } else if a.LockGet? {
      LockGetKeeps(s, a, t, c, l);
    } else if a.Unlock? {
      UnlockKeeps(s, a, t, c, l);
    } else if a.Interrupt? {
      InterruptKeeps(s, a, t, c, l);
    } else if a.InterruptReturn? {
      InterruptReturnKeeps(s, a, t, c, l);
    }
  }

  lemma SwitchStepKeeps(s: State, a: Action, t: Tid, c: Cpu, l: Lock)
    requires View(s, a, t, c, l)
    requires a.SwitchEnter? || a.Place? || a.PlaceSleeper? || a.Cancel? || a.SwitchTo? || a.SwitchLeave?
    ensures Local(Apply(s, a), t, c, l)
  {
    if a.SwitchEnter? {
      SwitchEnterKeeps(s, a, t, c, l);
    } else if a.Place? {
      PlaceKeeps(s, a, t, c, l);
    } else if a.PlaceSleeper? {
      PlaceSleeperKeeps(s, a, t, c, l);
    } else if a.Cancel? {
      CancelKeeps(s, a, t, c, l);
    } else if a.SwitchTo? {
      SwitchToKeeps(s, a, t, c, l);
    } else if a.SwitchLeave? {
      SwitchLeaveKeeps(s, a, t, c, l);
    }
  }

  lemma IdleStepKeeps(s: State, a: Action, t: Tid, c: Cpu, l: Lock)
    requires View(s, a, t, c, l)
    requires a.IdleStart? || a.IdleOn? || a.IdleInterrupt? || a.IdleReturn? || a.IdleOff? || a.Fork?
    ensures Local(Apply(s, a), t, c, l)
  {
    if a.IdleStart? {
      IdleStartKeeps(s, a, t, c, l);
    } else if a.IdleOn? {
      IdleOnKeeps(s, a, t, c, l);
    } else if a.IdleInterrupt? {
      IdleInterruptKeeps(s, a, t, c, l);
    } else if a.IdleReturn? {
      IdleReturnKeeps(s, a, t, c, l);
    } else if a.IdleOff? {
      IdleOffKeeps(s, a, t, c, l);
    } else if a.Fork? {
      ForkKeeps(s, a, t, c, l);
    }
  }

  lemma StepKeepsInv(s: State, a: Action)
    requires Inv(s) && Enabled(s, a)
    ensures Sound(s, a) && Inv(Apply(s, a))
  {
    EnabledIsSound(s, a);
    forall t, c, l ensures Local(Apply(s, a), t, c, l) {
      assert View(s, a, t, c, l);
      if a.SetLevel? || a.LockStart? || a.LockGet? || a.Unlock? || a.Interrupt? || a.InterruptReturn? {
        LockStepKeeps(s, a, t, c, l);
      } else if a.SwitchEnter? || a.Place? || a.PlaceSleeper? || a.Cancel? || a.SwitchTo? || a.SwitchLeave? {
        SwitchStepKeeps(s, a, t, c, l);
      } else {
        IdleStepKeeps(s, a, t, c, l);
      }
    }
  }

  // ---------------------------------------------------------------- every run

  /** Each CPU starts in a thread of its own with interrupts off and no locks held. */
  ghost predicate Init(s: State) {
    && s.holder == map[]
    && (forall c :: c in s.cores ==>
          s.cores[c].cur in s.threads && s.threads[s.cores[c].cur].cpu == c
          && s.cores[c] == Core(s.cores[c].cur, false, 0, {}, None, false))
    && (forall t :: t in s.threads ==>
          && s.threads[t] == Thread(1, 1, 0, false, Normal, s.threads[t].cpu)
          && s.threads[t].cpu in s.cores && s.cores[s.threads[t].cpu].cur == t)
  }

  ghost predicate IsRun(trace: seq<State>, actions: seq<Action>) {
    && |trace| == |actions| + 1 && Init(trace[0])
    && (forall i :: 0 <= i < |actions| ==>
          Enabled(trace[i], actions[i]) && (Sound(trace[i], actions[i]) ==> trace[i + 1] == Apply(trace[i], actions[i])))
  }

  lemma {:induction false} RunKeepsInv(trace: seq<State>, actions: seq<Action>, k: nat)
    requires IsRun(trace, actions) && k < |trace|
    ensures Inv(trace[k])
  {
    if k == 0 {
      forall t, c, l ensures Local(trace[0], t, c, l) {}
    } else {
      RunKeepsInv(trace, actions, k - 1);
      StepKeepsInv(trace[k - 1], actions[k - 1]);
    }
  }

  /** No assertion along any run fails. */
  lemma AssertionsHold(trace: seq<State>, actions: seq<Action>, k: nat)
    requires IsRun(trace, actions) && k < |actions|
    ensures Sound(trace[k], actions[k]) && trace[k + 1] == Apply(trace[k], actions[k])
  {
    RunKeepsInv(trace, actions, k);
    EnabledIsSound(trace[k], actions[k]);
  }

  /** Outside `cpu_idle`, interrupts are on exactly when the running thread has level 0 and holds or awaits no spinlock. */
  lemma InterruptsExact(trace: seq<State>, actions: seq<Action>, k: nat, c: Cpu)
    requires IsRun(trace, actions) && k < |trace|
    requires c in trace[k].cores && !trace[k].cores[c].idling
    ensures trace[k].cores[c].cur in trace[k].threads
    ensures trace[k].cores[c].irq <==>
              Cur(trace[k], c).curspl == 0 && trace[k].cores[c].held == {} && trace[k].cores[c].waiting == None
  {
    RunKeepsInv(trace, actions, k);
    assert Local(trace[k], trace[k].cores[c].cur, c, RunQueue(c));
  }

  /**
   A switched-out thread, also one that has never run, always has count 2: its level and the run-queue lock it will be
   handed.
   */
  lemma SwitchedOutCount(trace: seq<State>, actions: seq<Action>, k: nat, t: Tid)
    requires IsRun(trace, actions) && k < |trace|
    requires t in trace[k].threads && forall c :: c in trace[k].cores ==> trace[k].cores[c].cur != t
    ensures trace[k].threads[t].curspl == 1 && trace[k].threads[t].count == 2
  {
    RunKeepsInv(trace, actions, k);
    assert Local(trace[k], t, 0, RunQueue(0));
  }

  // ---------------------------------------------------------------- the level is what was asked for

  /** What a step does to a thread's level, and to the level it will return to. */
  ghost predicate LevelStep(s: State, a: Action, s': State, t: Tid) {
    && t in s.threads && t in s'.threads
    && var th, th' := s.threads[t], s'.threads[t];
    if !Takes(s, a, t) then th'.curspl == th.curspl && th'.saved == th.saved
    else
      && th'.saved == (if a.SwitchEnter? then th.curspl else th.saved)
      && match a
         case SetLevel(_, spl) => th'.curspl == spl
         case Interrupt(_) => th.curspl == 0 && th'.curspl == 1
         case InterruptReturn(_) => th.curspl == 1 && th'.curspl == 0
         case SwitchEnter(_, _) => th'.curspl == 1
         case SwitchLeave(_) => th'.curspl == th.saved
         case _ => th'.curspl == th.curspl
  }

  /** The step is taken by the CPU that runs `t`. */
  ghost predicate Takes(s: State, a: Action, t: Tid) {
    CpuOf(a) in s.cores && s.cores[CpuOf(a)].cur == t
  }

  lemma StepSetsLevel(s: State, a: Action, t: Tid)
    requires Sound(s, a) && t in s.threads && ThreadOk(s, t)
    ensures LevelStep(s, a, Apply(s, a), t)
  {}

  lemma RunSetsLevel(trace: seq<State>, actions: seq<Action>, k: nat, t: Tid)
    requires IsRun(trace, actions) && k < |actions| && t in trace[k].threads
    ensures LevelStep(trace[k], actions[k], trace[k + 1], t)
  {
    RunKeepsInv(trace, actions, k);
    AssertionsHold(trace, actions, k);
    assert Local(trace[k], t, 0, RunQueue(0));
    StepSetsLevel(trace[k], actions[k], t);
  }

  /** A thread's level changes only by its own `splx`, interrupts and switches, and to the level these name. */
  lemma LevelChanges(trace: seq<State>, actions: seq<Action>, k: nat, t: Tid)
    requires IsRun(trace, actions) && k < |actions| && t in trace[k].threads
    ensures t in trace[k + 1].threads
    ensures var level, level', a := trace[k].threads[t].curspl, trace[k + 1].threads[t].curspl, actions[k];
            && (!Takes(trace[k], a, t) ==> level' == level)
            && (Takes(trace[k], a, t) && a.SetLevel? ==> level' == a.spl)
            && (Takes(trace[k], a, t) && a.Interrupt? ==> level == 0 && level' == 1)
            && (Takes(trace[k], a, t) && a.InterruptReturn? ==> level == 1 && level' == 0)
            && (Takes(trace[k], a, t) && a.SwitchEnter? ==> level' == 1)
            && (!a.SetLevel? && !a.Interrupt? && !a.InterruptReturn? && !a.SwitchEnter? && !a.SwitchLeave? ==>
                  level' == level)
  {
    RunSetsLevel(trace, actions, k, t);
  }

  /** The thread enters, or leaves, `thread_switch` in step `i`. */
  ghost predicate Enters(trace: seq<State>, actions: seq<Action>, i: nat, t: Tid)
    requires i < |actions| && i < |trace|
  {
    Takes(trace[i], actions[i], t) && actions[i].SwitchEnter?
  }

  ghost predicate Leaves(trace: seq<State>, actions: seq<Action>, i: nat, t: Tid)
    requires i < |actions| && i < |trace|
  {
    Takes(trace[i], actions[i], t) && actions[i].SwitchLeave?
  }

  lemma {:induction false} SavedSince(trace: seq<State>, actions: seq<Action>, i: nat, k: nat, t: Tid)
    requires IsRun(trace, actions) && i <= k < |trace| && t in trace[i].threads
    requires forall j :: i <= j < k ==> !Enters(trace, actions, j, t)
    ensures t in trace[k].threads && trace[k].threads[t].saved == trace[i].threads[t].saved
    decreases k
  {
    if k > i {
      SavedSince(trace, actions, i, k - 1, t);
      RunSetsLevel(trace, actions, k - 1, t);
      assert !Enters(trace, actions, k - 1, t);
    }
  }

  lemma TakerExists(trace: seq<State>, actions: seq<Action>, k: nat, t: Tid)
    requires IsRun(trace, actions) && k < |actions| && Takes(trace[k], actions[k], t)
    ensures t in trace[k].threads
  {
    RunKeepsInv(trace, actions, k);
    assert Local(trace[k], t, CpuOf(actions[k]), RunQueue(0));
  }

  /** `splx` at the end of `thread_switch` gives the thread the level it had when it entered, however long ago. */
  lemma SwitchRestoresLevel(trace: seq<State>, actions: seq<Action>, i: nat, k: nat, t: Tid)
    requires IsRun(trace, actions) && i < k < |actions| && Enters(trace, actions, i, t) && Leaves(trace, actions, k, t)
    requires forall j :: i < j < k ==> !Enters(trace, actions, j, t)
    ensures t in trace[i].threads && t in trace[k + 1].threads
    ensures trace[k + 1].threads[t].curspl == trace[i].threads[t].curspl
  {
    TakerExists(trace, actions, i, t);
    RunSetsLevel(trace, actions, i, t);
    SavedSince(trace, actions, i + 1, k, t);
    RunSetsLevel(trace, actions, k, t);
  }

  lemma NewcomerStep(s: State, a: Action, t: Tid)
    requires Sound(s, a) && Inv(s) && t !in s.threads && t in Apply(s, a).threads
    ensures Apply(s, a).threads[t].saved == 0 && a == Fork(CpuOf(a), t)
  {
    assert Local(s, t, CpuOf(a), RunQueue(0));
  }

  /** The state in which a thread first appears. */
  lemma {:induction false} Born(trace: seq<State>, actions: seq<Action>, i: nat, k: nat, t: Tid) returns (b: nat)
    requires IsRun(trace, actions) && i < k < |trace| && t !in trace[i].threads && t in trace[k].threads
    ensures i < b <= k && t in trace[b].threads && trace[b].threads[t].saved == 0
    decreases k
  {
    if t in trace[k - 1].threads {
      b := Born(trace, actions, i, k - 1, t);
    } else {
      RunKeepsInv(trace, actions, k - 1);
      AssertionsHold(trace, actions, k - 1);
      NewcomerStep(trace[k - 1], actions[k - 1], t);
      b := k;
    }
  }

  /** A forked thread's first step out of the switch, `spl0` in `thread_startup`, gives it level 0. */
  lemma FirstLevelIsZero(trace: seq<State>, actions: seq<Action>, i: nat, k: nat, t: Tid)
    requires IsRun(trace, actions) && i < k < |actions| && t !in trace[i].threads && Leaves(trace, actions, k, t)
    requires forall j :: i <= j < k ==> !Enters(trace, actions, j, t)
    ensures t in trace[k + 1].threads && trace[k + 1].threads[t].curspl == 0
  {
    TakerExists(trace, actions, k, t);
    var b := Born(trace, actions, i, k, t);
    SavedSince(trace, actions, b, k, t);
    RunSetsLevel(trace, actions, k, t);
  }

  // ---------------------------------------------------------------- locks are what was taken and not yet released

  /** The step gets CPU `c` the lock `l`. */
  ghost predicate Gets(s: State, a: Action, c: Cpu, l: Lock) {
    a == LockGet(c) && c in s.cores && s.cores[c].waiting == Some(l)
  }

  /** The step releases it: outright, after joining a wait channel, or on the ways out of `thread_switch`. */
  ghost predicate Drops(s: State, a: Action, c: Cpu, l: Lock) {
    && CpuOf(a) == c && Running(s, c)
    && match a
       case Unlock(_, m) => m == l
       case PlaceSleeper(_) => Cur(s, c).phase == Locked(Some(l))
       case Cancel(_) => l == RunQueue(c)
       case IdleStart(_) => l == RunQueue(c)
       case _ => false
  }

  lemma StepMovesLocks(s: State, a: Action, c: Cpu, l: Lock)
    requires Sound(s, a) && c in s.cores
    ensures c in Apply(s, a).cores
    ensures l in Apply(s, a).cores[c].held <==> Gets(s, a, c, l) || (l in s.cores[c].held && !Drops(s, a, c, l))
    ensures Apply(s, a).cores[c].waiting ==
              if a.LockStart? && a.c == c then Some(a.l) else if a == LockGet(c) then None else s.cores[c].waiting
  {}

  /** CPU `c` got `l` in step `i` and has not released it before step `k`. */
  ghost predicate HasSince(trace: seq<State>, actions: seq<Action>, i: int, k: nat, c: Cpu, l: Lock)
    requires k <= |actions| && k < |trace|
  {
    && 0 <= i < k && Gets(trace[i], actions[i], c, l)
    && forall j :: i < j < k ==> !Drops(trace[j], actions[j], c, l)
  }

  ghost predicate Has(trace: seq<State>, actions: seq<Action>, k: nat, c: Cpu, l: Lock)
    requires k <= |actions| && k < |trace|
  {
    exists i :: HasSince(trace, actions, i, k, c, l)
  }

  lemma HasStep(trace: seq<State>, actions: seq<Action>, k: nat, n: nat, c: Cpu, l: Lock)
    requires k < |actions| && |trace| == |actions| + 1 && n == k + 1
    ensures Has(trace, actions, n, c, l) <==>
              Gets(trace[k], actions[k], c, l) || (Has(trace, actions, k, c, l) && !Drops(trace[k], actions[k], c, l))
  {
    if Gets(trace[k], actions[k], c, l) { assert HasSince(trace, actions, k, n, c, l); }
    forall i | 0 <= i < k
      ensures HasSince(trace, actions, i, n, c, l) <==>
                HasSince(trace, actions, i, k, c, l) && !Drops(trace[k], actions[k], c, l)
    {}
  }

  lemma RunMovesLocks(trace: seq<State>, actions: seq<Action>, k: nat, c: Cpu, l: Lock)
    requires IsRun(trace, actions) && k < |actions| && c in trace[k].cores
    ensures c in trace[k + 1].cores
    ensures l in trace[k + 1].cores[c].held <==>
              Gets(trace[k], actions[k], c, l) || (l in trace[k].cores[c].held && !Drops(trace[k], actions[k], c, l))
  {
    AssertionsHold(trace, actions, k);
    StepMovesLocks(trace[k], actions[k], c, l);
  }

  /** A CPU holds exactly the locks it has taken and not released. */
  lemma {:induction false} HeldIsHistory(trace: seq<State>, actions: seq<Action>, k: nat, c: Cpu, l: Lock)
    requires IsRun(trace, actions) && k < |trace| && c in trace[0].cores
    ensures c in trace[k].cores
    ensures l in trace[k].cores[c].held <==> Has(trace, actions, k, c, l)
  {
    if k > 0 {
      HeldIsHistory(trace, actions, k - 1, c, l);
      RunMovesLocks(trace, actions, k - 1, c, l);
      HasStep(trace, actions, k - 1, k, c, l);
    }
  }

  /** CPU `c` set out for `l` in step `i` and has not got it before step `k`. */
  ghost predicate SpinsSince(actions: seq<Action>, i: int, k: nat, c: Cpu, l: Lock)
    requires k <= |actions|
  {
    0 <= i < k && actions[i] == LockStart(c, l) && LockGet(c) !in actions[i..k]
  }

  ghost predicate Spins(actions: seq<Action>, k: nat, c: Cpu, l: Lock)
    requires k <= |actions|
  {
    exists i :: SpinsSince(actions, i, k, c, l)
  }

  lemma SpinsStep(actions: seq<Action>, k: nat, n: nat, c: Cpu, l: Lock)
    requires k < |actions| && n == k + 1
    ensures Spins(actions, n, c, l) <==>
              actions[k] == LockStart(c, l) || (Spins(actions, k, c, l) && actions[k] != LockGet(c))
  {
    if actions[k] == LockStart(c, l) { assert SpinsSince(actions, k, n, c, l); }
    forall i | 0 <= i < k
      ensures SpinsSince(actions, i, n, c, l) <==> SpinsSince(actions, i, k, c, l) && actions[k] != LockGet(c)
    {
      assert actions[i..n] == actions[i..k] + [actions[k]];
    }
  }

  lemma RunMovesSpinner(trace: seq<State>, actions: seq<Action>, k: nat, c: Cpu, l: Lock)
    requires IsRun(trace, actions) && k < |actions| && c in trace[k].cores
    ensures c in trace[k + 1].cores
    ensures trace[k + 1].cores[c].waiting == Some(l) <==>
              actions[k] == LockStart(c, l) || (trace[k].cores[c].waiting == Some(l) && actions[k] != LockGet(c))
  {
    AssertionsHold(trace, actions, k);
    StepMovesLocks(trace[k], actions[k], c, l);
  }

  /** A CPU spins for exactly the lock it last set out for and has not got. */
  lemma {:induction false} WaitingIsHistory(trace: seq<State>, actions: seq<Action>, k: nat, c: Cpu, l: Lock)
    requires IsRun(trace, actions) && k < |trace| && c in trace[0].cores
    ensures c in trace[k].cores
    ensures trace[k].cores[c].waiting == Some(l) <==> Spins(actions, k, c, l)
  {
    if k > 0 {
      WaitingIsHistory(trace, actions, k - 1, c, l);
      RunMovesSpinner(trace, actions, k - 1, c, l);
      SpinsStep(actions, k - 1, k, c, l);
    }
  }

  lemma StepChangesCore(s: State, a: Action, c: Cpu)
    requires Sound(s, a) && c in s.cores
    ensures c in Apply(s, a).cores
    ensures Apply(s, a).cores[c].cur == if a.SwitchTo? && a.c == c then a.next else s.cores[c].cur
  {}

  lemma StepIdles(s: State, a: Action, c: Cpu)
    requires Sound(s, a) && c in s.cores
    ensures c in Apply(s, a).cores
    ensures Apply(s, a).cores[c].idling ==
              if a == IdleOn(c) then true else if a == IdleOff(c) then false else s.cores[c].idling
    ensures a == IdleOn(c) || a == IdleReturn(c) ==> Apply(s, a).cores[c].irq
    ensures a == IdleInterrupt(c) ==> !Apply(s, a).cores[c].irq
  {}

  /** A CPU runs the thread it last switched to, and idles with interrupts on until it stops idling or takes one. */
  lemma CoreChanges(trace: seq<State>, actions: seq<Action>, k: nat, c: Cpu)
    requires IsRun(trace, actions) && k < |actions| && c in trace[k].cores
    ensures c in trace[k + 1].cores
    ensures var core, core', a := trace[k].cores[c], trace[k + 1].cores[c], actions[k];
            && core'.cur == (if a.SwitchTo? && a.c == c then a.next else core.cur)
            && core'.idling == (if a == IdleOn(c) then true else if a == IdleOff(c) then false else core.idling)
            && (a == IdleOn(c) || a == IdleReturn(c) ==> core'.irq)
            && (a == IdleInterrupt(c) ==> !core'.irq)
  {
    AssertionsHold(trace, actions, k);
    StepChangesCore(trace[k], actions[k], c);
    StepIdles(trace[k], actions[k], c);
  }

  // ---------------------------------------------------------------- a thread off its CPU runs again only when switched to

  /** The thread has given up its CPU and waits to be picked. */
  ghost predicate Away(s: State, t: Tid) {
    t in s.threads && (s.threads[t].phase == Choosing || s.threads[t].phase.Idle? || s.threads[t].phase == Parked)
  }

  /** The thread puts itself on a list. */
  ghost predicate Queues(s: State, a: Action, t: Tid) {
    Takes(s, a, t) && (a.Place? || a.PlaceSleeper?)
  }

  ghost predicate Picks(a: Action, t: Tid) {
    a.SwitchTo? && a.next == t
  }

  lemma AwayStep(s: State, a: Action, t: Tid)
    requires Sound(s, a) && t in s.threads && ThreadOk(s, t) && (Away(s, t) || Queues(s, a, t))
    ensures Away(Apply(s, a), t) || Picks(a, t)
  {}

  lemma RunAway(trace: seq<State>, actions: seq<Action>, k: nat, t: Tid)
    requires IsRun(trace, actions) && k < |actions| && t in trace[k].threads
    requires Away(trace[k], t) || Queues(trace[k], actions[k], t)
    ensures Away(trace[k + 1], t) || Picks(actions[k], t)
  {
    RunKeepsInv(trace, actions, k);
    AssertionsHold(trace, actions, k);
    assert Local(trace[k], t, 0, RunQueue(0));
    AwayStep(trace[k], actions[k], t);
  }

  lemma {:induction false} AwaySince(trace: seq<State>, actions: seq<Action>, i: nat, k: nat, t: Tid)
    requires IsRun(trace, actions) && i < k < |trace| && t in trace[i].threads && Queues(trace[i], actions[i], t)
    requires forall j :: i <= j < k ==> !Picks(actions[j], t)
    ensures Away(trace[k], t)
    decreases k
  {
    if k > i + 1 { AwaySince(trace, actions, i, k - 1, t); }
    RunAway(trace, actions, k - 1, t);
  }

  /** Once a thread has put itself on a list, it leaves `thread_switch` only after a switch that picks it. */
  lemma RunsOnlyWhenPicked(trace: seq<State>, actions: seq<Action>, i: nat, k: nat, t: Tid)
    requires IsRun(trace, actions) && i < k < |actions|
    requires Queues(trace[i], actions[i], t) && Leaves(trace, actions, k, t)
    ensures exists j :: i <= j < k && Picks(actions[j], t)
  {
    TakerExists(trace, actions, i, t);
    assert Enabled(trace[k], actions[k]) && !Away(trace[k], t);
    if forall j :: i <= j < k ==> !Picks(actions[j], t) { AwaySince(trace, actions, i, k, t); }
  }

  /** The point of its code a thread reaches by a step of its own CPU. */
  ghost predicate Reaches(a: Action, phase: Phase, phase': Phase, t: Tid) {
    match a
    case LockGet(_) =>
      phase' == (match phase case Entered(lk) => Locked(lk) case Idle(false) => Choosing case _ => phase)
    case Unlock(_, _) => phase' == if phase == Resumed then Leaving else phase
    case SwitchEnter(_, lk) => phase' == Entered(lk)
    case Place(_) => phase' == Choosing
    case PlaceSleeper(_) => phase' == Choosing
    case Cancel(_) => phase' == Leaving
    case SwitchTo(_, next) => phase' == if next == t then Resumed else Parked
    case SwitchLeave(_) => phase' == Normal
    case IdleStart(_) => phase' == Idle(false)
    case IdleInterrupt(_) => phase' == Idle(true)
    case IdleReturn(_) => phase' == Idle(false)
    case _ => phase' == phase
  }

  lemma OwnProgress(s: State, a: Action)
    requires Sound(s, a)
    ensures var t := s.cores[a.c].cur; t in s.threads && t in Apply(s, a).threads
    ensures var t := s.cores[a.c].cur; Reaches(a, s.threads[t].phase, Apply(s, a).threads[t].phase, t)
  {}

  lemma HandlerProgress(s: State, a: Action, t: Tid)
    requires Sound(s, a) && t in s.threads
    ensures t in Apply(s, a).threads
    ensures Apply(s, a).threads[t].handling ==
              if Takes(s, a, t) && a.Interrupt? then true
              else if Takes(s, a, t) && a.InterruptReturn? then false
              else s.threads[t].handling
  {}

  lemma OthersProgress(s: State, a: Action, t: Tid)
    requires Sound(s, a) && t in s.threads && !Takes(s, a, t)
    ensures t in Apply(s, a).threads
    ensures Apply(s, a).threads[t].phase == if Picks(a, t) then Resumed else s.threads[t].phase
  {}

  /**
   A thread goes from point to point of `thread_switch` in the order of the code and only by steps of its own CPU, but
   for the switch that picks it; an interrupt is being handled exactly from its entry to its return.
   */
  lemma ThreadProgress(trace: seq<State>, actions: seq<Action>, k: nat, t: Tid)
    requires IsRun(trace, actions) && k < |actions| && t in trace[k].threads
    ensures t in trace[k + 1].threads
    ensures Takes(trace[k], actions[k], t) ==>
              Reaches(actions[k], trace[k].threads[t].phase, trace[k + 1].threads[t].phase, t)
    ensures !Takes(trace[k], actions[k], t) ==>
              trace[k + 1].threads[t].phase == if Picks(actions[k], t) then Resumed else trace[k].threads[t].phase
    ensures trace[k + 1].threads[t].handling ==
              if Takes(trace[k], actions[k], t) && actions[k].Interrupt? then true
              else if Takes(trace[k], actions[k], t) && actions[k].InterruptReturn? then false
              else trace[k].threads[t].handling
  {
    AssertionsHold(trace, actions, k);
    HandlerProgress(trace[k], actions[k], t);
    if Takes(trace[k], actions[k], t) {
      OwnProgress(trace[k], actions[k]);
    } else {
      OthersProgress(trace[k], actions[k], t);
    }
  }

  /** A spinlock is held by at most one CPU. */
  lemma OneHolder(trace: seq<State>, actions: seq<Action>, k: nat, c: Cpu, d: Cpu, l: Lock)
    requires IsRun(trace, actions) && k < |trace| && c in trace[k].cores && d in trace[k].cores
    requires l in trace[k].cores[c].held && l in trace[k].cores[d].held
    ensures c == d
  {
    RunKeepsInv(trace, actions, k);
    assert Local(trace[k], trace[k].cores[c].cur, c, l) && Local(trace[k], trace[k].cores[d].cur, d, l);
  }
}
