/**
 * The thread scheduler (libkernel/src/task/scheduler.rs): thread table, ready
 * queue, idle fallback, direct-switch donation, quantum accounting and the
 * per-CPU registers that a context switch saves and restores.
 *
 * The model starts after `init`.  Marking the current thread blocked or dead
 * and yielding is one action, since both run with interrupts disabled.
 */
module Scheduler {
  import opened Base

  const QUANTUM_TICKS: nat := 10
  const KERNEL_PID: nat := 0

  datatype RunState = Ready | Running | Blocked | Dead

  datatype Kind = Kernel | UserProcess(pid: nat)

  /** The registers a thread owns while it runs: kernel RSP, saved user RSP, FS base. */
  datatype Regs = Regs(rsp: nat, userRsp: nat, fsBase: nat)

  datatype Thread = Thread(
    state: RunState,
    saved: Regs,
    pml4: nat,
    ticks: nat,
    kind: Kind,
    kernelStack: nat)

  datatype Cpu = Cpu(regs: Regs, cr3: nat, pid: nat, kernelRsp: nat, tssRsp0: nat, threadIdx: nat)

  datatype Sched = Sched(
    threads: seq<Thread>,
    current: nat,
    queue: seq<nat>,
    idle: nat,
    donate: Option<nat>,
    cpu: Cpu)

  predicate IsRunnable(st: RunState) {
    st != Dead && st != Blocked
  }

  predicate InRange(s: Sched) {
    s.current < |s.threads| && s.idle < |s.threads| && forall i <- s.queue :: i < |s.threads|
  }

  function SetState(s: Sched, i: nat, st: RunState): (r: Sched)
    requires i < |s.threads|
    ensures InRange(s) ==> InRange(r)
    ensures |r.threads| == |s.threads|
  {
    s.(threads := s.threads[i := s.threads[i].(state := st)])
  }

  // ---- the pieces of `preempt_tick` and `yield_tick` ----

  function SaveCurrent(s: Sched): (r: Sched)
    requires InRange(s)
    ensures InRange(r) && |r.threads| == |s.threads|
  {
    s.(threads := s.threads[s.current := s.threads[s.current].(saved := s.cpu.regs)])
  }

  /** A thread that can still run goes to the back of the queue. */
  function Requeue(s: Sched): (r: Sched)
    requires InRange(s)
    ensures InRange(r) && |r.threads| == |s.threads|
  {
    if IsRunnable(s.threads[s.current].state)
    then SetState(s, s.current, Ready).(queue := s.queue + [s.current])
    else s
  }

  /** The front of the queue, or the idle thread. */
  function Front(s: Sched): (i: nat)
    requires InRange(s)
    ensures i < |s.threads|
  {
    if s.queue == [] then s.idle
    else
      assert s.queue[0] in s.queue;
      s.queue[0]
  }

  function PopFront(s: Sched): (r: Sched)
    requires InRange(s)
    ensures InRange(r) && |r.threads| == |s.threads|
  {
    if s.queue == [] then s
    else
      assert forall i <- s.queue[1..] :: i in s.queue;
      s.(queue := s.queue[1..])
  }

  function IndexOf(q: seq<nat>, t: nat): (k: nat)
    ensures k <= |q|
    ensures k < |q| ==> q[k] == t
    ensures forall j | 0 <= j < k :: q[j] != t
  {
    if q == [] then 0 else if q[0] == t then 0 else 1 + IndexOf(q[1..], t)
  }

  /** Remove the first occurrence, if any. */
  function RemoveFirst(q: seq<nat>, t: nat): (r: seq<nat>)
    ensures forall i <- r :: i in q
  {
    var k := IndexOf(q, t);
    if k < |q| then q[..k] + q[k + 1..] else q
  }

  /** A donation takes effect only when its target is a Ready thread. */
  predicate TakesDonation(s: Sched) {
    s.donate.Some? && s.donate.value < |s.threads| && s.threads[s.donate.value].state == Ready
  }

  function Restore(cpu: Cpu, from: Thread, to: Thread, idx: nat): Cpu {
    var kernelRsp := if to.kind.UserProcess? then to.kernelStack else cpu.kernelRsp;
    var tss := if to.kind.UserProcess? then to.kernelStack else cpu.tssRsp0;
    var pid := if to.kind.UserProcess? then to.kind.pid else KERNEL_PID;
    var cr3 := if to.pml4 != from.pml4 then to.pml4 else cpu.cr3;
    Cpu(to.saved, cr3, pid, kernelRsp, tss, idx)
  }

  /** Make `next` the running thread with a full quantum; switching to oneself changes no register. */
  function Dispatch(s: Sched, next: nat): (r: Sched)
    requires InRange(s) && next < |s.threads|
    ensures InRange(r) && |r.threads| == |s.threads| && r.current == next
  {
    var woken := s.threads[next := s.threads[next].(state := Running, ticks := QUANTUM_TICKS)];
    if next == s.current then s.(threads := woken)
    else s.(threads := woken, current := next,
            cpu := Restore(s.cpu, s.threads[s.current], s.threads[next], next))
  }

  function SwitchFront(s: Sched): (r: Sched)
    requires InRange(s)
    ensures InRange(r)
  {
    Dispatch(PopFront(s), Front(s))
  }

  /** `yield_tick` after the current thread has been saved and re-queued. */
  function SwitchYield(s: Sched): (r: Sched)
    requires InRange(s)
    ensures InRange(r)
  {
    var s' := s.(donate := None);
    if TakesDonation(s)
    then Dispatch(s'.(queue := RemoveFirst(s.queue, s.donate.value)), s.donate.value)
    else SwitchFront(s')
  }

  // ---- actions ----

  datatype Action =
    | Tick
    | Yield
    | BlockAndYield
    | KillAndYield
    | Unblock(thread: nat)
    | SetDonate(thread: nat)
    | Spawn(newcomer: Thread)
    | SetCr3(pml4: nat)
    | Execute(regs: Regs)

  predicate Legal(s: Sched, a: Action) {
    match a
    case BlockAndYield => s.current != s.idle
    case KillAndYield => s.current != s.idle
    case Spawn(t) => t.state == Ready
    case _ => true
  }

  /** `alloc_thread_slot`: the first Dead slot, or a new one. */
  function FreeSlot(threads: seq<Thread>): (k: nat)
    ensures k <= |threads|
    ensures k < |threads| ==> threads[k].state == Dead
    ensures forall j | 0 <= j < k :: threads[j].state != Dead
  {
    if threads == [] then 0 else if threads[0].state == Dead then 0 else 1 + FreeSlot(threads[1..])
  }

  function PlaceThread(threads: seq<Thread>, t: Thread): seq<Thread> {
    var k := FreeSlot(threads);
    if k < |threads| then threads[k := t] else threads + [t]
  }

  function SpawnStep(s: Sched, t: Thread): Sched {
    s.(threads := PlaceThread(s.threads, t), queue := s.queue + [FreeSlot(s.threads)])
  }

  function UnblockStep(s: Sched, t: nat): (r: Sched)
    ensures InRange(s) ==> InRange(r)
    ensures |r.threads| == |s.threads|
  {
    if t < |s.threads| && s.threads[t].state == Blocked
    then SetState(s, t, Ready).(queue := s.queue + [t])
    else s
  }

  function YieldStep(s: Sched): Sched
    requires InRange(s)
  {
    SwitchYield(Requeue(SaveCurrent(s)))
  }

  /** One tick off the quantum; with none left, or a thread that must not run, switch. */
  function TickStep(s: Sched): Sched
    requires InRange(s)
    requires IsRunnable(s.threads[s.current].state) ==> s.threads[s.current].ticks >= 1
  {
    var t := s.threads[s.current];
    if IsRunnable(t.state) && t.ticks > 1
    then s.(threads := s.threads[s.current := t.(ticks := t.ticks - 1)])
    else
      var s' := if IsRunnable(t.state) then s.(threads := s.threads[s.current := t.(ticks := 0)]) else s;
      SwitchFront(Requeue(SaveCurrent(s')))
  }

  // ---- the invariant ----

  /** The queue lists the Ready threads, once each; only the idle thread may be Ready and unlisted. */
  ghost predicate Queued(s: Sched) {
    && NoDuplicates(s.queue)
    && (forall i <- s.queue :: i < |s.threads| && s.threads[i].state == Ready)
    && (forall i | 0 <= i < |s.threads| && s.threads[i].state == Ready :: i == s.idle || i in s.queue)
  }

  /** The registers belong to the running thread. */
  ghost predicate CpuOwned(s: Sched)
    requires s.current < |s.threads|
  {
    var t := s.threads[s.current];
    && s.cpu.cr3 == t.pml4
    && s.cpu.threadIdx == s.current
    && s.cpu.pid == (if t.kind.UserProcess? then t.kind.pid else KERNEL_PID)
    && (t.kind.UserProcess? ==> s.cpu.kernelRsp == t.kernelStack == s.cpu.tssRsp0)
  }

  ghost predicate Inv(s: Sched) {
    && InRange(s)
    && Queued(s)
    && CpuOwned(s)
    && s.threads[s.current].state == Running
    && 1 <= s.threads[s.current].ticks <= QUANTUM_TICKS
    && (forall i | 0 <= i < |s.threads| && s.threads[i].state == Running :: i == s.current)
    && IsRunnable(s.threads[s.idle].state)
  }

  /** Between saving the old thread and dispatching the next: nobody runs, idle waits. */
  ghost predicate Switching(s: Sched) {
    && InRange(s)
    && Queued(s)
    && CpuOwned(s)
    && (forall i | 0 <= i < |s.threads| :: s.threads[i].state != Running)
    && s.threads[s.idle].state == Ready
  }

  /** The state on entry to a switch: the current thread runs, or has just given up running. */
  ghost predicate Leaving(s: Sched) {
    && InRange(s)
    && Queued(s)
    && CpuOwned(s)
    && (forall i | 0 <= i < |s.threads| && s.threads[i].state == Running :: i == s.current)
    && s.threads[s.current].state != Ready
    && IsRunnable(s.threads[s.idle].state)
    && s.current !in s.queue
  }

  lemma RequeueSwitches(s: Sched)
    requires Leaving(s)
    ensures Switching(Requeue(SaveCurrent(s)))
  {
    var r := Requeue(SaveCurrent(s));
    if IsRunnable(s.threads[s.current].state) {
      NoDuplicatesConcat(s.queue, [s.current]);
    }
    forall i | 0 <= i < |r.threads| && r.threads[i].state == Ready
      ensures i == r.idle || i in r.queue
    {
      if i != s.current { assert s.threads[i].state == Ready; }
    }
  }

  /** Dispatching a Ready thread that has left the queue restores the invariant. */
  lemma DispatchKeepsInv(s: Sched, next: nat)
    requires InRange(s) && CpuOwned(s) && next < |s.threads|
    requires s.threads[next].state == Ready && next !in s.queue
    requires NoDuplicates(s.queue)
    requires forall i <- s.queue :: s.threads[i].state == Ready
    requires forall i | 0 <= i < |s.threads| && s.threads[i].state == Ready :: i == s.idle || i == next || i in s.queue
    requires forall i | 0 <= i < |s.threads| :: s.threads[i].state != Running
    requires s.threads[s.idle].state == Ready
    ensures Inv(Dispatch(s, next))
  {
    var r := Dispatch(s, next);
    forall i | 0 <= i < |r.threads| && r.threads[i].state == Ready
      ensures i == r.idle || i in r.queue
    {
      assert i != next && s.threads[i].state == Ready;
    }
  }

  lemma FrontIsReady(s: Sched)
    requires Switching(s)
    ensures s.threads[Front(s)].state == Ready && Front(s) !in PopFront(s).queue
    ensures NoDuplicates(PopFront(s).queue)
    ensures forall i <- PopFront(s).queue :: i in s.queue
    ensures forall i <- s.queue :: i == Front(s) || i in PopFront(s).queue
  {
    if s.queue != [] {
      assert s.queue == [s.queue[0]] + s.queue[1..];
    }
  }

  lemma SwitchFrontKeepsInv(s: Sched)
    requires Switching(s)
    ensures Inv(SwitchFront(s)) && s.threads[SwitchFront(s).current].state == Ready
  {
    FrontIsReady(s);
    DispatchKeepsInv(PopFront(s), Front(s));
  }

  lemma RemoveFirstFacts(q: seq<nat>, t: nat)
    requires NoDuplicates(q)
    ensures var r := RemoveFirst(q, t);
            && NoDuplicates(r) && t !in r
            && (forall i :: i in r <==> i in q && i != t)
  {
    var k := IndexOf(q, t);
    var r := RemoveFirst(q, t);
    if k < |q| {
      assert q == q[..k] + [t] + q[k + 1..];
      assert r == q[..k] + q[k + 1..];
    } else {
      assert t !in q;
    }
  }

  lemma SwitchYieldKeepsInv(s: Sched)
    requires Switching(s)
    ensures Inv(SwitchYield(s)) && s.threads[SwitchYield(s).current].state == Ready
  {
    if TakesDonation(s) {
      var d := s.donate.value;
      RemoveFirstFacts(s.queue, d);
      DispatchKeepsInv(s.(donate := None, queue := RemoveFirst(s.queue, d)), d);
    } else {
      SwitchFrontKeepsInv(s.(donate := None));
    }
  }

  // ---- every action keeps the invariant ----

  function Step(s: Sched, a: Action): Sched
    requires Inv(s) && Legal(s, a)
  {
    match a
    case Tick => TickStep(s)
    case Yield => YieldStep(s)
    case BlockAndYield => YieldStep(SetState(s, s.current, Blocked))
    case KillAndYield => YieldStep(SetState(s, s.current, Dead))
    case Unblock(t) => UnblockStep(s, t)
    case SetDonate(t) => s.(donate := Some(t))
    case Spawn(t) => SpawnStep(s, t)
    case SetCr3(p) =>
      s.(threads := s.threads[s.current := s.threads[s.current].(pml4 := p)], cpu := s.cpu.(cr3 := p))
    case Execute(regs) => s.(cpu := s.cpu.(regs := regs))
  }

  lemma GivingUp(s: Sched, st: RunState)
    requires Inv(s) && st != Ready && (st == Running || s.current != s.idle)
    ensures Leaving(SetState(s, s.current, st))
  {
  }

  lemma YieldKeepsInv(s: Sched, st: RunState)
    requires Inv(s) && st != Ready && (st == Running || s.current != s.idle)
    ensures var left := SetState(s, s.current, st);
            && Inv(YieldStep(left))
            && Requeue(SaveCurrent(left)).threads[YieldStep(left).current].state == Ready
  {
    GivingUp(s, st);
    RequeueSwitches(SetState(s, s.current, st));
    SwitchYieldKeepsInv(Requeue(SaveCurrent(SetState(s, s.current, st))));
  }

  lemma TickKeepsInv(s: Sched)
    requires Inv(s)
    ensures Inv(TickStep(s))
  {
    var t := s.threads[s.current];
    if t.ticks == 1 {
      var s' := s.(threads := s.threads[s.current := t.(ticks := 0)]);
      assert Leaving(s');
      RequeueSwitches(s');
      SwitchFrontKeepsInv(Requeue(SaveCurrent(s')));
    }
  }

  lemma UnblockKeepsInv(s: Sched, t: nat)
    requires Inv(s)
    ensures Inv(UnblockStep(s, t))
  {
    var r := UnblockStep(s, t);
    if t < |s.threads| && s.threads[t].state == Blocked {
      NoDuplicatesConcat(s.queue, [t]);
      forall i | 0 <= i < |r.threads| && r.threads[i].state == Ready
        ensures i == r.idle || i in r.queue
      {
        if i != t { assert s.threads[i].state == Ready; }
      }
    }
  }

  /** A slot is reused only when its thread is Dead, and then it is not in the queue. */
  lemma SpawnKeepsInv(s: Sched, t: Thread)
    requires Inv(s) && t.state == Ready
    ensures Inv(SpawnStep(s, t)) && FreeSlot(s.threads) !in s.queue
  {
    var k, r := FreeSlot(s.threads), SpawnStep(s, t);
    assert k !in s.queue;
    NoDuplicatesConcat(s.queue, [k]);
    forall i | 0 <= i < |r.threads| && r.threads[i].state == Ready
      ensures i == r.idle || i in r.queue
    {
      if i != k { assert s.threads[i].state == Ready; }
    }
  }

  lemma StepKeepsInv(s: Sched, a: Action)
    requires Inv(s) && Legal(s, a)
    ensures Inv(Step(s, a))
  {
    match a
    case Tick => TickKeepsInv(s);
    case Yield =>
      YieldKeepsInv(s, Running);
      assert SetState(s, s.current, Running) == s;
    case BlockAndYield => YieldKeepsInv(s, Blocked);
    case KillAndYield => YieldKeepsInv(s, Dead);
    case Unblock(t) => UnblockKeepsInv(s, t);
    case SetDonate(_) =>
    case Spawn(t) => SpawnKeepsInv(s, t);
    case SetCr3(_) =>
    case Execute(_) =>
  }

  // ---- whole runs ----

  ghost predicate LegalRun(s: Sched, actions: seq<Action>)
    requires Inv(s)
    decreases |actions|
  {
    actions == [] ||
    (Legal(s, actions[0]) && (StepKeepsInv(s, actions[0]); LegalRun(Step(s, actions[0]), actions[1..])))
  }

  ghost function Run(s: Sched, actions: seq<Action>): (r: Sched)
    requires Inv(s) && LegalRun(s, actions)
    ensures Inv(r)
    decreases |actions|
  {
    if actions == [] then s
    else StepKeepsInv(s, actions[0]); Run(Step(s, actions[0]), actions[1..])
  }

  /**
   * Every reachable state: no duplicates in the queue, only Ready threads in it and never the
   * running one, every Ready thread but idle in it, exactly one Running thread, a quantum
   * that the next tick cannot underflow, and no Dead slot still queued.
   */
  lemma SchedulerIsSafe(s: Sched, actions: seq<Action>)
    requires Inv(s) && LegalRun(s, actions)
    ensures var r := Run(s, actions);
            && NoDuplicates(r.queue) && r.current !in r.queue
            && (forall i <- r.queue :: i < |r.threads| && r.threads[i].state == Ready)
            && (forall i | 0 <= i < |r.threads| && r.threads[i].state == Ready :: i == r.idle || i in r.queue)
            && (forall i | 0 <= i < |r.threads| :: r.threads[i].state == Running <==> i == r.current)
            && r.threads[r.current].ticks >= 1
            && FreeSlot(r.threads) !in r.queue
  {
  }

  /** Whatever the action, the thread that runs next was Ready (or was already running). */
  lemma OnlyReadyThreadsAreDispatched(s: Sched, a: Action)
    requires Inv(s) && Legal(s, a)
    ensures var next := Step(s, a).current;
            next == s.current || s.threads[next].state == Ready
  {
    hide Inv;
    match a
    case Tick => TickDispatchesReady(s);
    case Yield =>
      YieldDispatchesReady(s, Running);
      assert SetState(s, s.current, Running) == s by { CurrentRuns(s); }
    case BlockAndYield => YieldDispatchesReady(s, Blocked);
    case KillAndYield => YieldDispatchesReady(s, Dead);
    case _ =>
  }

  lemma CurrentRuns(s: Sched)
    requires Inv(s)
    ensures s.current < |s.threads| && s.threads[s.current].state == Running && InRange(s)
  {
  }

  lemma TickDispatchesReady(s: Sched)
    requires Inv(s)
    ensures TickStep(s).current == s.current || s.threads[TickStep(s).current].state == Ready
  {
    var t := s.threads[s.current];
    if t.ticks == 1 {
      var s' := s.(threads := s.threads[s.current := t.(ticks := 0)]);
      RequeueSwitches(s');
      FrontIsReady(Requeue(SaveCurrent(s')));
    }
  }

  lemma YieldDispatchesReady(s: Sched, st: RunState)
    requires Inv(s) && st != Ready && (st == Running || s.current != s.idle)
    ensures var next := YieldStep(SetState(s, s.current, st)).current;
            next == s.current || s.threads[next].state == Ready
  {
    hide Leaving;
    YieldKeepsInv(s, st);
  }

  // ---- the idle thread on the queue ----

  /** A switch takes the dispatched thread off the queue and no other. */
  lemma SwitchTakesOne(s: Sched, i: nat)
    requires Switching(s)
    ensures i in SwitchFront(s).queue <==> i in s.queue && i != SwitchFront(s).current
    ensures i in SwitchYield(s).queue <==> i in s.queue && i != SwitchYield(s).current
  {
    FrontIsReady(s);
    FrontIsReady(s.(donate := None));
    if TakesDonation(s) { RemoveFirstFacts(s.queue, s.donate.value); }
  }

  lemma YieldTakesOne(s: Sched, st: RunState, i: nat)
    requires Inv(s) && st != Ready && (st == Running || s.current != s.idle)
    ensures var r := YieldStep(SetState(s, s.current, st));
            i in r.queue <==> i != r.current && (i in s.queue || (i == s.current && st == Running))
  {
    GivingUp(s, st);
    var s' := SetState(s, s.current, st);
    RequeueSwitches(s');
    SwitchTakesOne(Requeue(SaveCurrent(s')), i);
  }

  lemma TickTakesOne(s: Sched, i: nat)
    requires Inv(s)
    ensures var r := TickStep(s); i in r.queue <==> i != r.current && (i in s.queue || i == s.current)
  {
    var t := s.threads[s.current];
    if t.ticks == 1 {
      var s' := s.(threads := s.threads[s.current := t.(ticks := 0)]);
      RequeueSwitches(s');
      SwitchTakesOne(Requeue(SaveCurrent(s')), i);
    }
  }

  /**
   * The idle thread is on the queue after a step exactly when it was there or was running, and is
   * not running now.  So a step puts it there exactly when it switches away from idle.
   */
  lemma IdleQueuedExactly(s: Sched, a: Action)
    requires Inv(s) && Legal(s, a)
    ensures var r := Step(s, a);
            && (s.idle in r.queue <==> r.current != s.idle && (s.idle in s.queue || s.current == s.idle))
            && (s.idle !in s.queue && s.idle in r.queue <==> s.current == s.idle && r.current != s.idle)
  {
    match a
    case Tick => TickTakesOne(s, s.idle);
    case Yield =>
      assert SetState(s, s.current, Running) == s;
      YieldTakesOne(s, Running, s.idle);
    case BlockAndYield => YieldTakesOne(s, Blocked, s.idle);
    case KillAndYield => YieldTakesOne(s, Dead, s.idle);
    case _ =>
  }

  lemma LastThreadBlocks(s: Sched)
    requires Inv(s) && s.queue == [] && s.current != s.idle && s.donate == None
    ensures var r := Step(s, BlockAndYield);
            && r.queue == [] && r.current == s.idle && r.idle == s.idle && r.idle < |r.threads|
            && r.threads[r.idle].ticks == QUANTUM_TICKS && IsBlocked(r, s.current)
  {
    hide Queued, CpuOwned, Restore;
  }

  lemma IdleIsPreempted(s: Sched, t: nat)
    requires Inv(s) && s.queue == [t] && s.current == s.idle
    ensures var r, n := Step(s, Tick), s.threads[s.idle].ticks;
            if n > 1 then r.queue == [t] && r.current == s.idle == r.idle && r.idle < |r.threads| && r.threads[r.idle].ticks == n - 1
            else r.queue == [s.idle] && r.current == t
  {
    hide CpuOwned, Restore;
    assert ([t] + [s.idle])[1..] == [s.idle];
  }

  function TickRun(n: nat): seq<Action> {
    if n == 0 then [] else [Tick] + TickRun(n - 1)
  }

  /** Idle is preempted when its quantum is used up. */
  lemma {:induction false} IdleQuantum(s: Sched, t: nat, n: nat)
    requires Inv(s) && s.queue == [t] && s.current == s.idle && s.threads[s.idle].ticks == n
    ensures LegalRun(s, TickRun(n)) && Run(s, TickRun(n)).queue == [s.idle] && Run(s, TickRun(n)).current == t
    decreases n
  {
    IdleIsPreempted(s, t);
    hide TickStep, CpuOwned, Queued;
    StepKeepsInv(s, Tick);
    assert TickRun(n)[1..] == TickRun(n - 1);
    if n > 1 { IdleQuantum(Step(s, Tick), t, n - 1); }
  }

  /** The only other thread blocks, is unblocked, and the timer preempts idle: idle is now on the queue. */
  lemma IdleGetsQueued(s: Sched)
    requires Inv(s) && s.queue == [] && s.current != s.idle && s.donate == None
    ensures var actions := [BlockAndYield, Unblock(s.current)] + TickRun(QUANTUM_TICKS);
            && LegalRun(s, actions)
            && var r := Run(s, actions); r.queue == [s.idle] && r.current == s.current
  {
    var t := s.current;
    var ticks := TickRun(QUANTUM_TICKS);
    var actions := [BlockAndYield, Unblock(t)] + ticks;
    LastThreadBlocks(s);
    hide Inv, YieldStep, CpuOwned, Queued, TickRun;
    StepKeepsInv(s, BlockAndYield);
    var s1 := Step(s, BlockAndYield);
    StepKeepsInv(s1, Unblock(t));
    var s2 := Step(s1, Unblock(t));
    assert s2.queue == [t] && s2.current == s2.idle;
    IdleQuantum(s2, t, QUANTUM_TICKS);
    assert actions[1..] == [Unblock(t)] + ticks && ([Unblock(t)] + ticks)[1..] == ticks;
    assert LegalRun(s1, [Unblock(t)] + ticks) && Run(s1, [Unblock(t)] + ticks) == Run(s2, ticks);
  }

  // ---- one CPU refines one virtual CPU per thread ----

  /** A thread's registers: in the CPU while it runs, in its table entry otherwise. */
  function VirtualRegs(s: Sched, i: nat): Regs
    requires i < |s.threads|
  {
    if i == s.current then s.cpu.regs else s.threads[i].saved
  }

  function VirtualCpus(s: Sched): (v: seq<Regs>)
    ensures |v| == |s.threads|
  {
    seq(|s.threads|, i requires 0 <= i < |s.threads| => VirtualRegs(s, i))
  }

  /** With a CPU each, only a thread's own execution changes its registers; a spawn fills a slot. */
  function VirtualStep(v: seq<Regs>, current: nat, slot: nat, a: Action): seq<Regs> {
    match a
    case Execute(regs) => if current < |v| then v[current := regs] else v
    case Spawn(t) => if slot < |v| then v[slot := t.saved] else v + [t.saved]
    case _ => v
  }

  lemma DispatchKeepsRegs(s: Sched, next: nat)
    requires InRange(s) && next < |s.threads| && s.threads[s.current].saved == s.cpu.regs
    ensures VirtualCpus(Dispatch(s, next)) == VirtualCpus(s)
  {
  }

  lemma LeaveKeepsRegs(s: Sched)
    requires InRange(s)
    ensures var r := Requeue(SaveCurrent(s));
            VirtualCpus(r) == VirtualCpus(s) && r.current == s.current && r.threads[r.current].saved == r.cpu.regs
  {
  }

  lemma YieldKeepsRegs(s: Sched)
    requires InRange(s)
    ensures VirtualCpus(YieldStep(s)) == VirtualCpus(s)
  {
    LeaveKeepsRegs(s);
    var r := Requeue(SaveCurrent(s));
    var r' := r.(donate := None);
    assert VirtualCpus(r') == VirtualCpus(r);
    if TakesDonation(r) {
      var q := r'.(queue := RemoveFirst(r.queue, r.donate.value));
      assert VirtualCpus(q) == VirtualCpus(r);
      DispatchKeepsRegs(q, r.donate.value);
    } else {
      assert VirtualCpus(PopFront(r')) == VirtualCpus(r);
      DispatchKeepsRegs(PopFront(r'), Front(r'));
    }
  }

  lemma StateKeepsRegs(s: Sched, i: nat, st: RunState)
    requires i < |s.threads|
    ensures VirtualCpus(SetState(s, i, st)) == VirtualCpus(s)
  {
  }

  lemma TickKeepsRegs(s: Sched)
    requires Inv(s)
    ensures VirtualCpus(TickStep(s)) == VirtualCpus(s)
  {
    var t := s.threads[s.current];
    if t.ticks == 1 {
      var s' := s.(threads := s.threads[s.current := t.(ticks := 0)]);
      assert VirtualCpus(s') == VirtualCpus(s);
      LeaveKeepsRegs(s');
      var r := Requeue(SaveCurrent(s'));
      assert VirtualCpus(PopFront(r)) == VirtualCpus(r);
      DispatchKeepsRegs(PopFront(r), Front(r));
    } else {
      assert VirtualCpus(TickStep(s)) == VirtualCpus(s);
    }
  }

  lemma SpawnFillsSlot(s: Sched, t: Thread)
    requires Inv(s)
    ensures VirtualCpus(SpawnStep(s, t)) == VirtualStep(VirtualCpus(s), s.current, FreeSlot(s.threads), Spawn(t))
  {
    var k := FreeSlot(s.threads);
    assert k != s.current;
  }

  /** Each step of the real scheduler is a step of the machine with a CPU per thread. */
  lemma StepRefinesVirtual(s: Sched, a: Action)
    requires Inv(s) && Legal(s, a)
    ensures VirtualCpus(Step(s, a)) == VirtualStep(VirtualCpus(s), s.current, FreeSlot(s.threads), a)
  {
    match a
    case Tick => TickKeepsRegs(s);
    case Yield => YieldKeepsRegs(s);
    case BlockAndYield =>
      StateKeepsRegs(s, s.current, Blocked);
      YieldKeepsRegs(SetState(s, s.current, Blocked));
    case KillAndYield =>
      StateKeepsRegs(s, s.current, Dead);
      YieldKeepsRegs(SetState(s, s.current, Dead));
    case Unblock(t) =>
      if t < |s.threads| { StateKeepsRegs(s, t, Ready); }
      assert VirtualCpus(UnblockStep(s, t)) == VirtualCpus(s);
    case SetDonate(_) => assert VirtualCpus(Step(s, a)) == VirtualCpus(s);
    case Spawn(t) => SpawnFillsSlot(s, t);
    case SetCr3(_) => assert VirtualCpus(Step(s, a)) == VirtualCpus(s);
    case Execute(regs) => assert VirtualCpus(Step(s, a)) == VirtualCpus(s)[s.current := regs];
  }

  /** The virtual machine's run, told who runs and which slot is free at each step. */
  ghost function VirtualRun(s: Sched, actions: seq<Action>, v: seq<Regs>): seq<Regs>
    requires Inv(s) && LegalRun(s, actions)
    decreases |actions|
  {
    if actions == [] then v
    else
      StepKeepsInv(s, actions[0]);
      VirtualRun(Step(s, actions[0]), actions[1..], VirtualStep(v, s.current, FreeSlot(s.threads), actions[0]))
  }

  lemma {:induction false} RunRefinesVirtual(s: Sched, actions: seq<Action>)
    requires Inv(s) && LegalRun(s, actions)
    ensures VirtualCpus(Run(s, actions)) == VirtualRun(s, actions, VirtualCpus(s))
    ensures CpuOwned(Run(s, actions))
    decreases |actions|
  {
    if actions != [] {
      StepKeepsInv(s, actions[0]);
      StepRefinesVirtual(s, actions[0]);
      RunRefinesVirtual(Step(s, actions[0]), actions[1..]);
    }
  }

  // ---- bounded waiting ----

  lemma {:induction false} IndexOfAppend(q: seq<nat>, x: nat, t: nat)
    requires t in q
    ensures IndexOf(q + [x], t) == IndexOf(q, t) < |q|
  {
    if q[0] != t {
      assert (q + [x])[1..] == q[1..] + [x];
      IndexOfAppend(q[1..], x, t);
    }
  }

  lemma {:induction false} IndexOfRemove(q: seq<nat>, d: nat, t: nat)
    requires t in q && t != d
    ensures t in RemoveFirst(q, d) && IndexOf(RemoveFirst(q, d), t) <= IndexOf(q, t)
  {
    var k := IndexOf(q, d);
    if q[0] == d {
      assert RemoveFirst(q, d) == q[1..];
    } else if q[0] == t {
      if k < |q| { assert RemoveFirst(q, d)[0] == q[0]; }
    } else {
      IndexOfRemove(q[1..], d, t);
      RemoveFirstTail(q, d);
      assert RemoveFirst(q, d)[1..] == RemoveFirst(q[1..], d);
    }
  }

  lemma RemoveFirstTail(q: seq<nat>, d: nat)
    requires q != [] && q[0] != d
    ensures RemoveFirst(q, d) == [q[0]] + RemoveFirst(q[1..], d)
  {
    IndexOfTail(q, d);
    hide IndexOf;
    var k := IndexOf(q, d);
    if k < |q| { CutTail(q, k); }
  }

  lemma IndexOfTail(q: seq<nat>, d: nat)
    requires q != [] && q[0] != d
    ensures IndexOf(q, d) == 1 + IndexOf(q[1..], d)
  {
  }

  lemma CutTail(q: seq<nat>, k: nat)
    requires 1 <= k < |q|
    ensures q[..k] + q[k + 1..] == [q[0]] + (q[1..][..k - 1] + q[1..][k..])
  {
    assert q[..k] == [q[0]] + q[1..][..k - 1];
  }

  /** The state in which the next thread is picked, for an action that switches. */
  function SwitchPoint(s: Sched, a: Action): (r: Sched)
    requires Inv(s) && Legal(s, a)
    ensures InRange(r)
  {
    var t := s.threads[s.current];
    match a
    case Tick => Requeue(SaveCurrent(s.(threads := s.threads[s.current := t.(ticks := 0)])))
    case BlockAndYield => Requeue(SaveCurrent(SetState(s, s.current, Blocked)))
    case KillAndYield => Requeue(SaveCurrent(SetState(s, s.current, Dead)))
    case _ => Requeue(SaveCurrent(s))
  }

  predicate Switches(s: Sched, a: Action)
    requires Inv(s)
  {
    a.Yield? || a.BlockAndYield? || a.KillAndYield? || (a.Tick? && s.threads[s.current].ticks == 1)
  }

  /** A dispatch that takes the front of the queue rather than a donation target. */
  predicate FrontDispatch(s: Sched, a: Action)
    requires Inv(s) && Legal(s, a)
  {
    Switches(s, a) && (a.Tick? || !TakesDonation(SwitchPoint(s, a)))
  }

  predicate Donated(s: Sched, a: Action)
    requires Inv(s) && Legal(s, a)
  {
    Switches(s, a) && !FrontDispatch(s, a)
  }

  lemma SwitchPointQueue(s: Sched, a: Action)
    requires Inv(s) && Legal(s, a) && Switches(s, a)
    ensures SwitchPoint(s, a).queue == s.queue || SwitchPoint(s, a).queue == s.queue + [s.current]
    ensures FrontDispatch(s, a) ==>
              Step(s, a).queue == PopFront(SwitchPoint(s, a)).queue && Step(s, a).current == Front(SwitchPoint(s, a))
    ensures Donated(s, a) ==>
              var p := SwitchPoint(s, a);
              Step(s, a).queue == RemoveFirst(p.queue, p.donate.value) && Step(s, a).current == p.donate.value
  {
  }

  /** A queued thread's position never grows, and falls at every dispatch from the front. */
  lemma PositionFalls(s: Sched, a: Action, t: nat)
    requires Inv(s) && Legal(s, a) && t in s.queue
    ensures var r := Step(s, a);
            r.current == t ||
            (t in r.queue && IndexOf(r.queue, t) <= IndexOf(s.queue, t) - (if FrontDispatch(s, a) then 1 else 0))
  {
    hide Inv;
    if Switches(s, a) {
      SwitchPointQueue(s, a);
      var q := SwitchPoint(s, a).queue;
      IndexOfAppend(s.queue, s.current, t);
      assert t in q && IndexOf(q, t) == IndexOf(s.queue, t);
      if FrontDispatch(s, a) {
        if q[0] != t { assert IndexOf(q[1..], t) == IndexOf(q, t) - 1; }
      } else if SwitchPoint(s, a).donate.value != t {
        IndexOfRemove(q, SwitchPoint(s, a).donate.value, t);
      }
    } else {
      QuietQueue(s, a, t);
    }
  }

  lemma QuietQueue(s: Sched, a: Action, t: nat)
    requires Inv(s) && Legal(s, a) && t in s.queue && !Switches(s, a)
    ensures t in Step(s, a).queue && IndexOf(Step(s, a).queue, t) == IndexOf(s.queue, t)
  {
    match a
    case Unblock(u) => IndexOfAppend(s.queue, u, t);
    case Spawn(_) => IndexOfAppend(s.queue, FreeSlot(s.threads), t);
    case _ =>
  }

  ghost predicate Runs(s: Sched, actions: seq<Action>, t: nat)
    requires Inv(s) && LegalRun(s, actions)
    decreases |actions|
  {
    s.current == t ||
    (actions != [] && (StepKeepsInv(s, actions[0]); Runs(Step(s, actions[0]), actions[1..], t)))
  }

  ghost function FrontDispatches(s: Sched, actions: seq<Action>): nat
    requires Inv(s) && LegalRun(s, actions)
    decreases |actions|
  {
    if actions == [] then 0
    else
      StepKeepsInv(s, actions[0]);
      (if FrontDispatch(s, actions[0]) then 1 else 0) + FrontDispatches(Step(s, actions[0]), actions[1..])
  }

  ghost predicate DonationFree(s: Sched, actions: seq<Action>)
    requires Inv(s) && LegalRun(s, actions)
    decreases |actions|
  {
    actions == [] ||
    (!Donated(s, actions[0]) && (StepKeepsInv(s, actions[0]); DonationFree(Step(s, actions[0]), actions[1..])))
  }

  function Ticks(actions: seq<Action>): nat {
    if actions == [] then 0 else (if actions[0].Tick? then 1 else 0) + Ticks(actions[1..])
  }

  /** A thread at position p runs within p + 1 dispatches from the front. */
  lemma {:induction false} BoundedWaiting(s: Sched, actions: seq<Action>, t: nat)
    requires Inv(s) && LegalRun(s, actions) && t in s.queue
    requires FrontDispatches(s, actions) >= IndexOf(s.queue, t) + 1
    ensures Runs(s, actions, t)
    decreases |actions|
  {
    hide Inv;
    StepKeepsInv(s, actions[0]);
    PositionFalls(s, actions[0], t);
    if Step(s, actions[0]).current != t {
      BoundedWaiting(Step(s, actions[0]), actions[1..], t);
    }
  }

  /** Ticks left before `t` must run: full quanta for those ahead, plus the running thread's remainder. */
  function TicksAhead(s: Sched, t: nat): nat
    requires s.current < |s.threads|
  {
    IndexOf(s.queue, t) * QUANTUM_TICKS + s.threads[s.current].ticks
  }

  lemma TicksAheadFalls(s: Sched, a: Action, t: nat)
    requires Inv(s) && Legal(s, a) && t in s.queue && !Donated(s, a) && Step(s, a).current != t
    ensures Inv(Step(s, a))
    ensures TicksAhead(Step(s, a), t) <= TicksAhead(s, t) - (if a.Tick? then 1 else 0)
  {
    StepKeepsInv(s, a);
    PositionFalls(s, a, t);
    if FrontDispatch(s, a) {
      FullQuantum(s, a);
    }
  }

  lemma FullQuantum(s: Sched, a: Action)
    requires Inv(s) && Legal(s, a) && Switches(s, a)
    ensures var r := Step(s, a); r.current < |r.threads| && r.threads[r.current].ticks == QUANTUM_TICKS
  {
    hide Queued, CpuOwned, Restore, RemoveFirst;
  }

  lemma {:induction false} RunsOnTime(s: Sched, actions: seq<Action>, t: nat)
    requires Inv(s) && LegalRun(s, actions) && t in s.queue && DonationFree(s, actions)
    requires Ticks(actions) >= TicksAhead(s, t)
    ensures Runs(s, actions, t)
    decreases |actions|
  {
    if Step(s, actions[0]).current != t {
      TicksAheadFalls(s, actions[0], t);
      PositionFalls(s, actions[0], t);
      RunsOnTime(Step(s, actions[0]), actions[1..], t);
    }
  }

  /** Without donations, a thread at position p runs within (p + 1) * QUANTUM_TICKS timer ticks. */
  lemma BoundedWaitingInTicks(s: Sched, actions: seq<Action>, t: nat)
    requires Inv(s) && LegalRun(s, actions) && t in s.queue && DonationFree(s, actions)
    requires Ticks(actions) >= (IndexOf(s.queue, t) + 1) * QUANTUM_TICKS
    ensures Runs(s, actions, t)
  {
    RunsOnTime(s, actions, t);
  }

  // ---- what other protocols need to know ----

  predicate IsBlocked(s: Sched, t: nat) {
    t < |s.threads| && s.threads[t].state == Blocked
  }

  lemma DispatchKeepsBlocked(s: Sched, next: nat, t: nat)
    requires InRange(s) && next < |s.threads| && s.threads[next].state == Ready
    ensures IsBlocked(Dispatch(s, next), t) <==> IsBlocked(s, t)
  {
  }

  lemma SwitchKeepsBlocked(s: Sched, t: nat)
    requires Switching(s)
    ensures IsBlocked(SwitchFront(s), t) <==> IsBlocked(s, t)
    ensures IsBlocked(SwitchYield(s), t) <==> IsBlocked(s, t)
  {
    FrontIsReady(s);
    DispatchKeepsBlocked(PopFront(s), Front(s), t);
    var s' := s.(donate := None);
    DispatchKeepsBlocked(PopFront(s'), Front(s'), t);
    if TakesDonation(s) {
      DispatchKeepsBlocked(s'.(queue := RemoveFirst(s.queue, s.donate.value)), s.donate.value, t);
    }
  }

  lemma YieldKeepsBlocked(s: Sched, st: RunState, t: nat)
    requires Inv(s) && st != Ready && (st == Running || s.current != s.idle)
    ensures IsBlocked(YieldStep(SetState(s, s.current, st)), t) <==> IsBlocked(SetState(s, s.current, st), t)
  {
    GivingUp(s, st);
    var left := SetState(s, s.current, st);
    RequeueSwitches(left);
    SwitchKeepsBlocked(Requeue(SaveCurrent(left)), t);
  }

  lemma TickKeepsBlocked(s: Sched, t: nat)
    requires Inv(s)
    ensures IsBlocked(TickStep(s), t) <==> IsBlocked(s, t)
  {
    var th := s.threads[s.current];
    if th.ticks == 1 {
      var s' := s.(threads := s.threads[s.current := th.(ticks := 0)]);
      RequeueSwitches(s');
      SwitchKeepsBlocked(Requeue(SaveCurrent(s')), t);
    }
  }

  /** A thread becomes Blocked only by its own blocking step and stops being Blocked only by an unblock. */
  lemma BlockedOnlyBy(s: Sched, a: Action, t: nat)
    requires Inv(s) && Legal(s, a)
    ensures IsBlocked(Step(s, a), t) <==>
            (a.BlockAndYield? && t == s.current) || (IsBlocked(s, t) && a != Unblock(t))
  {
    match a
    case Tick => TickKeepsBlocked(s, t);
    case Yield =>
      YieldKeepsBlocked(s, Running, t);
      assert SetState(s, s.current, Running) == s;
    case BlockAndYield => YieldKeepsBlocked(s, Blocked, t);
    case KillAndYield => YieldKeepsBlocked(s, Dead, t);
    case Spawn(n) => assert FreeSlot(s.threads) < |s.threads| ==> s.threads[FreeSlot(s.threads)].state == Dead;
    case _ =>
  }

  predicate IsDead(s: Sched, t: nat) {
    t < |s.threads| && s.threads[t].state == Dead
  }

  lemma SwitchKeepsDead(s: Sched, t: nat)
    requires Switching(s)
    ensures IsDead(SwitchFront(s), t) <==> IsDead(s, t)
    ensures IsDead(SwitchYield(s), t) <==> IsDead(s, t)
  {
    FrontIsReady(s);
    FrontIsReady(s.(donate := None));
  }

  lemma YieldKeepsDead(s: Sched, st: RunState, t: nat)
    requires Inv(s) && st != Ready && (st == Running || s.current != s.idle)
    ensures IsDead(YieldStep(SetState(s, s.current, st)), t) <==> IsDead(SetState(s, s.current, st), t)
  {
    GivingUp(s, st);
    var left := SetState(s, s.current, st);
    RequeueSwitches(left);
    SwitchKeepsDead(Requeue(SaveCurrent(left)), t);
  }

  lemma TickKeepsDead(s: Sched, t: nat)
    requires Inv(s)
    ensures IsDead(TickStep(s), t) <==> IsDead(s, t)
  {
    var th := s.threads[s.current];
    if th.ticks == 1 {
      var s' := s.(threads := s.threads[s.current := th.(ticks := 0)]);
      RequeueSwitches(s');
      SwitchKeepsDead(Requeue(SaveCurrent(s')), t);
    }
  }

  /** A thread dies only by its own killing step, and only a spawn into its slot ends that. */
  lemma DeadOnlyBy(s: Sched, a: Action, t: nat)
    requires Inv(s) && Legal(s, a)
    ensures IsDead(Step(s, a), t) <==>
            (a.KillAndYield? && t == s.current) || (IsDead(s, t) && !(a.Spawn? && t == FreeSlot(s.threads)))
  {
    match a
    case Tick => TickKeepsDead(s, t);
    case Yield =>
      YieldKeepsDead(s, Running, t);
      assert SetState(s, s.current, Running) == s;
    case BlockAndYield => YieldKeepsDead(s, Blocked, t);
    case KillAndYield => YieldKeepsDead(s, Dead, t);
    case _ =>
  }

  /** Some spawn of the run goes into slot `t`. */
  ghost predicate SlotReused(s: Sched, actions: seq<Action>, t: nat)
    requires Inv(s) && LegalRun(s, actions)
    decreases |actions|
  {
    actions != [] &&
    ((actions[0].Spawn? && FreeSlot(s.threads) == t) ||
     (StepKeepsInv(s, actions[0]); SlotReused(Step(s, actions[0]), actions[1..], t)))
  }

  lemma {:induction false} DeadStaysDead(s: Sched, actions: seq<Action>, t: nat)
    requires Inv(s) && LegalRun(s, actions) && IsDead(s, t) && !SlotReused(s, actions, t)
    ensures IsDead(Run(s, actions), t) && Run(s, actions).current != t && t !in Run(s, actions).queue
    decreases |actions|
  {
    if actions != [] {
      hide Inv, Step;
      StepKeepsInv(s, actions[0]);
      DeadOnlyBy(s, actions[0], t);
      DeadStaysDead(Step(s, actions[0]), actions[1..], t);
    }
  }

  /** A killed thread never runs and is never queued again, whoever unblocks it, until its slot is reused. */
  lemma KilledNeverRuns(s: Sched, actions: seq<Action>)
    requires Inv(s) && Legal(s, KillAndYield)
    ensures Inv(Step(s, KillAndYield))
    ensures LegalRun(Step(s, KillAndYield), actions) && !SlotReused(Step(s, KillAndYield), actions, s.current) ==>
              var r := Run(Step(s, KillAndYield), actions);
              IsDead(r, s.current) && r.current != s.current && s.current !in r.queue
  {
    hide Inv, Step, Run, LegalRun, SlotReused;
    StepKeepsInv(s, KillAndYield);
    DeadOnlyBy(s, KillAndYield, s.current);
    CurrentRuns(s);
    var r := Step(s, KillAndYield);
    if LegalRun(r, actions) && !SlotReused(r, actions, s.current) { DeadStaysDead(r, actions, s.current); }
  }

  /** The first Dead slot, or a new one, holds the new thread whole and is queued last; nothing else changes. */
  lemma SpawnPlaces(s: Sched, n: Thread) returns (k: nat)
    requires Inv(s) && n.state == Ready
    ensures k <= |s.threads| && (forall j | 0 <= j < k :: !IsDead(s, j)) && (k < |s.threads| ==> IsDead(s, k))
    ensures var r := Step(s, Spawn(n));
            && |r.threads| == (if k < |s.threads| then |s.threads| else |s.threads| + 1)
            && r.threads[k] == n && (forall j | 0 <= j < |s.threads| && j != k :: r.threads[j] == s.threads[j])
            && r == s.(threads := r.threads, queue := s.queue + [k])
  {
    k := FreeSlot(s.threads);
  }

  /** Switching the address space changes the running thread's PML4 and CR3 to the new one, and nothing else. */
  lemma Cr3Follows(s: Sched, p: nat)
    requires Inv(s)
    ensures var r := Step(s, SetCr3(p));
            && r.cpu == s.cpu.(cr3 := p) && |r.threads| == |s.threads| && r.threads[s.current] == s.threads[s.current].(pml4 := p)
            && (forall j | 0 <= j < |s.threads| && j != s.current :: r.threads[j] == s.threads[j])
            && r == s.(threads := r.threads, cpu := r.cpu)
  {
  }

  /** A donation is used up by the next yield, taken or not, and by nothing else. */
  lemma DonationIsSpent(s: Sched, a: Action)
    requires Inv(s) && Legal(s, a)
    ensures Step(s, a).donate == match a
            case SetDonate(t) => Some(t)
            case Yield => None
            case BlockAndYield => None
            case KillAndYield => None
            case _ => s.donate
  {
    hide Queued, CpuOwned, Restore, RemoveFirst;
  }

  /** A yield that donates to a Ready thread runs that thread next and leaves the old one Ready. */
  lemma DonatedYield(s: Sched, t: nat)
    requires Inv(s) && t < |s.threads| && s.threads[t].state == Ready
    ensures var r := Step(Step(s, SetDonate(t)), Yield);
            r.current == t && |r.threads| == |s.threads| && r.threads[s.current].state == Ready
  {
    hide Queued, CpuOwned, Restore, RemoveFirst;
  }

  lemma UnblockKeepsCurrent(s: Sched, t: nat)
    requires Inv(s)
    ensures Step(s, Unblock(t)).current == s.current
  {
  }

  lemma UnblockReadies(s: Sched, t: nat)
    requires Inv(s) && IsBlocked(s, t)
    ensures var r := Step(s, Unblock(t)); t < |r.threads| && r.threads[t].state == Ready
  {
    hide Queued, CpuOwned;
  }

  lemma IdleIsFixed(s: Sched, a: Action)
    requires Inv(s) && Legal(s, a)
    ensures Step(s, a).idle == s.idle
  {
  }

  // ---- the scheduler object ----

  class KernelScheduler {
    var threads: seq<Thread>
    var current: nat
    var queue: seq<nat>
    var idle: nat
    var donate: Option<nat>
    var cpu: Cpu

    ghost function View(): Sched
      reads this
    {
      Sched(threads, current, queue, idle, donate, cpu)
    }

    /** The state after `init`: the boot thread runs and the idle thread waits outside the queue. */
    constructor (bootPml4: nat, bootRegs: Regs, idleRegs: Regs)
      ensures Inv(View()) && threads[idle].saved == idleRegs && queue == [] && current != idle
    {
      var boot := Thread(Running, bootRegs, bootPml4, QUANTUM_TICKS, Kernel, 0);
      var idler := Thread(Ready, idleRegs, bootPml4, QUANTUM_TICKS, Kernel, 0);
      threads, current, queue, idle, donate := [boot, idler], 0, [], 1, None;
      cpu := Cpu(bootRegs, bootPml4, KERNEL_PID, 0, 0, 0);
    }

    method AllocThreadSlot(t: Thread) returns (idx: nat)
      modifies this`threads
      ensures idx == FreeSlot(old(threads)) && threads == PlaceThread(old(threads), t)
    {
      idx := 0;
      while idx < |threads| && threads[idx].state != Dead
        invariant idx <= |threads| && forall j | 0 <= j < idx :: threads[j].state != Dead
      {
        idx := idx + 1;
      }
      if idx < |threads| {
        threads := threads[idx := t];
      } else {
        threads := threads + [t];
      }
    }

    method SpawnThread(t: Thread) returns (idx: nat)
      requires Inv(View()) && t.state == Ready
      modifies this
      ensures View() == Step(old(View()), Spawn(t)) && Inv(View()) && idx == FreeSlot(old(threads))
    {
      SpawnKeepsInv(View(), t);
      hide Inv;
      idx := AllocThreadSlot(t);
      queue := queue + [idx];
    }

    method MarkBlocked()
      requires InRange(View())
      modifies this`threads
      ensures View() == SetState(old(View()), current, Blocked)
    {
      threads := threads[current := threads[current].(state := Blocked)];
    }

    method MarkDead()
      requires InRange(View())
      modifies this`threads
      ensures View() == SetState(old(View()), current, Dead)
    {
      threads := threads[current := threads[current].(state := Dead)];
    }

    method Unblock(t: nat)
      modifies this`threads, this`queue
      ensures View() == UnblockStep(old(View()), t)
    {
      if t < |threads| && threads[t].state == Blocked {
        threads := threads[t := threads[t].(state := Ready)];
        queue := queue + [t];
      }
    }

    method SetDonateTarget(t: nat)
      modifies this`donate
      ensures donate == Some(t)
    {
      donate := Some(t);
    }

    /** `set_current_cr3` and the switch of address space that always follows it. */
    method SwitchAddressSpace(pml4: nat)
      requires Inv(View())
      modifies this
      ensures View() == Step(old(View()), SetCr3(pml4)) && Inv(View())
    {
      StepKeepsInv(View(), SetCr3(pml4));
      hide Inv;
      CurrentRuns(View());
      threads := threads[current := threads[current].(pml4 := pml4)];
      cpu := cpu.(cr3 := pml4);
    }

    method SaveCurrentContext()
      requires InRange(View())
      modifies this`threads
      ensures View() == SaveCurrent(old(View()))
    {
      threads := threads[current := threads[current].(saved := cpu.regs)];
    }

    method RequeueCurrent()
      requires InRange(View())
      modifies this`threads, this`queue
      ensures View() == Requeue(old(View()))
    {
      if IsRunnable(threads[current].state) {
        threads := threads[current := threads[current].(state := Ready)];
        queue := queue + [current];
      }
    }

    method RestoreThreadState(from: Thread, to: Thread, idx: nat)
      modifies this`cpu
      ensures cpu == Restore(old(cpu), from, to, idx)
    {
      cpu := cpu.(regs := to.saved);
      match to.kind {
        case UserProcess(pid) =>
          cpu := cpu.(tssRsp0 := to.kernelStack);
          cpu := cpu.(kernelRsp := to.kernelStack);
          cpu := cpu.(pid := pid);
        case Kernel =>
          cpu := cpu.(pid := KERNEL_PID);
      }
      if to.pml4 != from.pml4 {
        cpu := cpu.(cr3 := to.pml4);
      }
      cpu := cpu.(threadIdx := idx);
    }

    /** The common tail: run `next`, with the fast path when it is the current thread. */
    method SwitchTo(next: nat) returns (rsp: nat)
      requires InRange(View()) && next < |threads|
      modifies this
      ensures View() == Dispatch(old(View()), next) && rsp == cpu.regs.rsp
    {
      if next == current {
        threads := threads[current := threads[current].(state := Running, ticks := QUANTUM_TICKS)];
        return cpu.regs.rsp;
      }
      var from := threads[current];
      var to := threads[next];
      current := next;
      threads := threads[next := threads[next].(state := Running, ticks := QUANTUM_TICKS)];
      RestoreThreadState(from, to, next);
      rsp := cpu.regs.rsp;
    }

    /** `preempt_tick`: the quantum cannot underflow as long as a runnable thread has a tick left. */
    method PreemptTick() returns (rsp: nat)
      requires InRange(View()) && (IsRunnable(threads[current].state) ==> threads[current].ticks >= 1)
      modifies this
      ensures View() == TickStep(old(View())) && rsp == cpu.regs.rsp
    {
      if IsRunnable(threads[current].state) {
        threads := threads[current := threads[current].(ticks := threads[current].ticks - 1)];
        if threads[current].ticks > 0 {
          return cpu.regs.rsp;
        }
      }
      SaveCurrentContext();
      RequeueCurrent();
      var next := NextReady();
      rsp := SwitchTo(next);
    }

    /** Pop the front of the ready queue, or fall back to the idle thread. */
    method NextReady() returns (next: nat)
      requires InRange(View())
      modifies this`queue
      ensures View() == PopFront(old(View())) && next == Front(old(View()))
    {
      if queue != [] {
        next := queue[0];
        queue := queue[1..];
      } else {
        next := idle;
      }
    }

    method YieldTick() returns (rsp: nat)
      requires InRange(View())
      modifies this
      ensures View() == YieldStep(old(View())) && rsp == cpu.regs.rsp
    {
      SaveCurrentContext();
      RequeueCurrent();
      var target := donate;
      donate := None;
      var next;
      if target.Some? && target.value < |threads| && threads[target.value].state == Ready {
        RemoveFromQueue(target.value);
        next := target.value;
      } else {
        next := NextReady();
      }
      rsp := SwitchTo(next);
    }

    /** `position` followed by `remove`. */
    method RemoveFromQueue(t: nat)
      modifies this`queue
      ensures queue == RemoveFirst(old(queue), t)
    {
      var k := 0;
      while k < |queue| && queue[k] != t
        invariant k <= |queue| && forall j | 0 <= j < k :: queue[j] != t
      {
        k := k + 1;
      }
      if k < |queue| {
        queue := queue[..k] + queue[k + 1..];
      }
    }

    /** `kill_current_thread`, `block_current_thread` and the blocking sites: mark, then yield. */
    method BlockCurrentThread() returns (rsp: nat)
      requires Inv(View()) && current != idle
      modifies this
      ensures View() == Step(old(View()), BlockAndYield) && Inv(View())
    {
      StepKeepsInv(View(), BlockAndYield);
      hide Inv;
      CurrentRuns(View());
      MarkBlocked();
      rsp := YieldTick();
    }

    method KillCurrentThread() returns (rsp: nat)
      requires Inv(View()) && current != idle
      modifies this
      ensures View() == Step(old(View()), KillAndYield) && Inv(View())
    {
      StepKeepsInv(View(), KillAndYield);
      hide Inv;
      CurrentRuns(View());
      MarkDead();
      rsp := YieldTick();
    }
  }

}
