/**
 * The completion port (completion-port/src/port.rs) and the wait loop of
 * `sys_io_wait` (osl/src/io_port.rs) for a port without rings, composed with
 * the scheduler through `WaitCondition` (libkernel/src/wait_condition.rs).
 */
module Port {
  import opened Base
  import Sc = Scheduler

  const DEFAULT_MAX_QUEUED: nat := 256

  datatype PortState<C> = PortState(queue: seq<C>, waiter: Option<nat>, maxQueued: nat)

  /** `post`: keep the completion if there is room, then wake the waiter either way. */
  function PostStep<C>(p: PortState<C>, c: C): (PortState<C>, Option<nat>) {
    var q := if |p.queue| < p.maxQueued then p.queue + [c] else p.queue;
    (p.(queue := q, waiter := None), p.waiter)
  }

  function DrainCount<C>(p: PortState<C>, max: nat): (n: nat)
    ensures n <= |p.queue| && n <= max && (n == |p.queue| || n == max)
  {
    if max < |p.queue| then max else |p.queue|
  }

  class CompletionPort<C> {
    var queue: seq<C>
    var waiter: Option<nat>
    const maxQueued: nat

    ghost function View(): PortState<C>
      reads this
    {
      PortState(queue, waiter, maxQueued)
    }

    constructor (max: nat)
      ensures View() == PortState([], None, max)
    {
      queue, waiter, maxQueued := [], None, max;
    }

    constructor Default()
      ensures View() == PortState([], None, DEFAULT_MAX_QUEUED)
    {
      queue, waiter, maxQueued := [], None, DEFAULT_MAX_QUEUED;
    }

    method WakeWaiter(sched: Sc.KernelScheduler) returns (woken: Option<nat>)
      modifies this`waiter, sched
      ensures waiter == None && woken == old(waiter)
      ensures sched.View() == if woken.Some? then Sc.UnblockStep(old(sched.View()), woken.value) else old(sched.View())
    {
      woken := waiter;
      if waiter.Some? {
        waiter := None;
        sched.Unblock(woken.value);
      }
    }

    method Post(sched: Sc.KernelScheduler, c: C) returns (woken: Option<nat>)
      modifies this, sched
      ensures (View(), woken) == PostStep(old(View()), c)
      ensures sched.View() == if woken.Some? then Sc.UnblockStep(old(sched.View()), woken.value) else old(sched.View())
    {
      if |queue| < maxQueued {
        queue := queue + [c];
      }
      woken := WakeWaiter(sched);
    }

    /** Up to `max` completions, oldest first. */
    method Drain(max: nat) returns (out: seq<C>)
      modifies this`queue
      ensures out + queue == old(queue)
      ensures |out| <= max && (queue == [] || |out| == max)
    {
      var count := if max < |queue| then max else |queue|;
      out := queue[..count];
      queue := queue[count..];
    }

    method SetWaiter(token: nat)
      modifies this`waiter
      ensures waiter == Some(token)
    {
      waiter := Some(token);
    }

    method Pending() returns (n: nat)
      ensures n == |queue|
    {
      n := |queue|;
    }

    /** `WaitCondition::wait_while`: register and mark blocked under the port lock, then yield. */
    method WaitWhile(sched: Sc.KernelScheduler)
      requires Sc.Inv(sched.View()) && sched.current != sched.idle
      modifies this`waiter, sched
      ensures waiter == Some(old(sched.current))
      ensures sched.View() == Sc.Step(old(sched.View()), Sc.BlockAndYield) && Sc.Inv(sched.View())
    {
      SetWaiter(sched.cpu.threadIdx);
      var _ := sched.BlockCurrentThread();
    }
  }

  // ---- producers, one consumer, and the scheduler ----

  /** Where the consumer is: outside `io_wait`, or in its loop wanting `min` completions. */
  datatype Consumer = Outside | InLoop(min: nat, max: nat)

  datatype Posted<C> = Posted(completion: C, kept: bool)

  /** `posted` logs every post in order; `drained` what the consumer took, in order. */
  datatype Sys<C> = Sys(
    sched: Sc.Sched,
    port: PortState<C>,
    consumer: Consumer,
    posted: seq<Posted<C>>,
    drained: seq<C>)

  datatype Event<C> =
    | Env(action: Sc.Action)
    | Post(completion: C)
    | Enter(min: nat, max: nat, timedOut: bool)
    | Resume(timedOut: bool)

  /**
   * The environment may do anything, including unblocking the consumer (its timeout does),
   * except run the consumer's own blocking or dying inside the loop.
   */
  predicate EventLegal<C>(sys: Sys<C>, me: nat, e: Event<C>) {
    match e
    case Env(a) =>
      && Sc.Legal(sys.sched, a)
      && (sys.consumer.InLoop? && sys.sched.current == me ==> !a.BlockAndYield? && !a.KillAndYield?)
    case Post(_) => true
    case Enter(_, max, _) => sys.consumer.Outside? && sys.sched.current == me && max > 0
    case Resume(_) => sys.consumer.InLoop? && sys.sched.current == me
  }

  function Kept<C>(log: seq<Posted<C>>): seq<C> {
    if log == [] then []
    else
      var last := log[|log| - 1];
      Kept(log[..|log| - 1]) + (if last.kept then [last.completion] else [])
  }

  lemma KeptAppend<C>(log: seq<Posted<C>>, p: Posted<C>)
    ensures Kept(log + [p]) == Kept(log) + (if p.kept then [p.completion] else [])
  {
    assert (log + [p])[..|log|] == log;
  }

  /** The check under the lock: return with what there is, or register and block. */
  function LoopStep<C>(sys: Sys<C>, me: nat, min: nat, max: nat, timedOut: bool): Sys<C>
    requires Sc.Inv(sys.sched) && me == sys.sched.current != sys.sched.idle
  {
    if |sys.port.queue| >= min || timedOut then
      var n := DrainCount(sys.port, max);
      sys.(port := sys.port.(queue := sys.port.queue[n..]), consumer := Outside, drained := sys.drained + sys.port.queue[..n])
    else
      sys.(port := sys.port.(waiter := Some(me)), consumer := InLoop(min, max), sched := Sc.Step(sys.sched, Sc.BlockAndYield))
  }

  function Step<C>(sys: Sys<C>, me: nat, e: Event<C>): Sys<C>
    requires Inv(sys, me) && EventLegal(sys, me, e)
  {
    match e
    case Env(a) => sys.(sched := Sc.Step(sys.sched, a))
    case Post(c) =>
      var (port, woken) := PostStep(sys.port, c);
      sys.(port := port,
           sched := if woken.Some? then Sc.Step(sys.sched, Sc.Unblock(woken.value)) else sys.sched,
           posted := sys.posted + [Posted(c, |sys.port.queue| < sys.port.maxQueued)])
    case Enter(min, max, timedOut) => LoopStep(sys, me, if min < max then min else max, max, timedOut)
    case Resume(timedOut) => LoopStep(sys, me, sys.consumer.min, sys.consumer.max, timedOut)
  }

  ghost predicate Accounted<C>(sys: Sys<C>) {
    Kept(sys.posted) == sys.drained + sys.port.queue && |sys.port.queue| <= sys.port.maxQueued
  }

  /** In the loop and blocked only as the registered waiter, with too few completions queued. */
  predicate WaitsForCause<C>(sys: Sys<C>, me: nat) {
    sys.consumer.InLoop? && Sc.IsBlocked(sys.sched, me) ==>
      sys.port.waiter == Some(me) && |sys.port.queue| < sys.consumer.min
  }

  ghost predicate Inv<C>(sys: Sys<C>, me: nat) {
    Sc.Inv(sys.sched) && me != sys.sched.idle && Accounted(sys) && WaitsForCause(sys, me)
  }

  lemma PostKeepsInv<C>(sys: Sys<C>, me: nat, c: C)
    requires Inv(sys, me)
    ensures Inv(Step(sys, me, Post(c)), me)
  {
    hide Sc.Inv, Sc.Step;
    KeptAppend(sys.posted, Posted(c, |sys.port.queue| < sys.port.maxQueued));
    assert sys.drained + sys.port.queue + [c] == sys.drained + (sys.port.queue + [c]);
    if sys.port.waiter.Some? {
      var a := Sc.Unblock(sys.port.waiter.value);
      Sc.StepKeepsInv(sys.sched, a);
      Sc.BlockedOnlyBy(sys.sched, a, me);
      Sc.IdleIsFixed(sys.sched, a);
    }
  }

  lemma LoopKeepsInv<C>(sys: Sys<C>, me: nat, min: nat, max: nat, timedOut: bool)
    requires Inv(sys, me) && me == sys.sched.current
    ensures Inv(LoopStep(sys, me, min, max, timedOut), me)
  {
    hide Sc.Inv, Sc.Step;
    var n := DrainCount(sys.port, max);
    assert sys.drained + sys.port.queue == (sys.drained + sys.port.queue[..n]) + sys.port.queue[n..];
    Sc.StepKeepsInv(sys.sched, Sc.BlockAndYield);
    Sc.IdleIsFixed(sys.sched, Sc.BlockAndYield);
  }

  lemma EnvKeepsInv<C>(sys: Sys<C>, me: nat, a: Sc.Action)
    requires Inv(sys, me) && EventLegal(sys, me, Env(a))
    ensures Inv(Step(sys, me, Env(a)), me)
  {
    hide Sc.Inv, Sc.Step;
    Sc.StepKeepsInv(sys.sched, a);
    Sc.BlockedOnlyBy(sys.sched, a, me);
    Sc.IdleIsFixed(sys.sched, a);
  }

  lemma StepKeepsInv<C>(sys: Sys<C>, me: nat, e: Event<C>)
    requires Inv(sys, me) && EventLegal(sys, me, e)
    ensures Inv(Step(sys, me, e), me)
  {
    hide Sc.Inv, Sc.Step, Inv;
    match e
    case Env(a) => EnvKeepsInv(sys, me, a);
    case Post(c) => PostKeepsInv(sys, me, c);
    case Enter(min, max, timedOut) => LoopKeepsInv(sys, me, if min < max then min else max, max, timedOut);
    case Resume(timedOut) => LoopKeepsInv(sys, me, sys.consumer.min, sys.consumer.max, timedOut);
  }

  ghost predicate LegalRun<C>(sys: Sys<C>, me: nat, events: seq<Event<C>>)
    requires Inv(sys, me)
    decreases |events|
  {
    events == [] ||
    (EventLegal(sys, me, events[0]) &&
     (StepKeepsInv(sys, me, events[0]); LegalRun(Step(sys, me, events[0]), me, events[1..])))
  }

  ghost function Run<C>(sys: Sys<C>, me: nat, events: seq<Event<C>>): (r: Sys<C>)
    requires Inv(sys, me) && LegalRun(sys, me, events)
    ensures Inv(r, me)
    decreases |events|
  {
    if events == [] then sys
    else StepKeepsInv(sys, me, events[0]); Run(Step(sys, me, events[0]), me, events[1..])
  }

  /**
   * Any number of producers, any `min`, any interleaving with the scheduler: the consumer is
   * blocked in its loop only while registered with fewer than `min` completions queued, and
   * completions come out in the order in which they were kept.
   */
  lemma WaitIsSound<C>(sys: Sys<C>, me: nat, events: seq<Event<C>>)
    requires Inv(sys, me) && LegalRun(sys, me, events)
    ensures var r := Run(sys, me, events);
            && (r.consumer.InLoop? && Sc.IsBlocked(r.sched, me) ==>
                  r.port.waiter == Some(me) && |r.port.queue| < r.consumer.min)
            && Kept(r.posted) == r.drained + r.port.queue
            && |r.port.queue| <= r.port.maxQueued
  {
    hide Sc.Inv;
  }

  /**
   * `io_wait` returns exactly when the wanted number of completions is queued or its time is up,
   * the wanted number being at most `max`; it then takes the oldest up to `max`, so it comes back
   * with fewer than wanted only at the timeout.  Otherwise it takes nothing, registers and blocks.
   */
  lemma WaitReturns<C>(sys: Sys<C>, me: nat, e: Event<C>)
    requires Inv(sys, me) && EventLegal(sys, me, e) && (e.Enter? || e.Resume?)
    ensures var r := Step(sys, me, e);
            var max := if e.Enter? then e.max else sys.consumer.max;
            var wanted := if e.Resume? then sys.consumer.min else if e.min < e.max then e.min else e.max;
            var queued := |sys.port.queue|;
            && (r.consumer.Outside? <==> queued >= wanted || e.timedOut)
            && (if r.consumer.Outside? then
                  var n := |r.drained| - |sys.drained|;
                  && 0 <= n <= max && n <= queued && (n == max || n == queued) && (!e.timedOut && wanted <= max ==> n >= wanted)
                  && r.drained == sys.drained + sys.port.queue[..n] && r.port == sys.port.(queue := sys.port.queue[n..])
                  && r.sched == sys.sched
                else
                  && r.consumer == InLoop(wanted, max) && Sc.IsBlocked(r.sched, me) && r.drained == sys.drained
                  && r.port == sys.port.(waiter := Some(me)))
  {
    hide Sc.Inv, Sc.Step;
    Sc.BlockedOnlyBy(sys.sched, Sc.BlockAndYield, me);
  }

  /** A post is dropped only when the queue is at its bound, and a blocked consumer is always woken by it. */
  lemma PostIsSound<C>(sys: Sys<C>, me: nat, c: C)
    requires Inv(sys, me)
    ensures var r := Step(sys, me, Post(c));
            && r.posted == sys.posted + [Posted(c, |sys.port.queue| != sys.port.maxQueued)]
            && r.port.queue == (if |sys.port.queue| == sys.port.maxQueued then sys.port.queue else sys.port.queue + [c])
            && (sys.consumer.InLoop? ==> !Sc.IsBlocked(r.sched, me))
  {
    hide Sc.Inv, Sc.Step;
    if sys.port.waiter.Some? {
      Sc.BlockedOnlyBy(sys.sched, Sc.Unblock(sys.port.waiter.value), me);
    }
  }

  /** A new port, with its consumer outside the wait loop. */
  lemma StartInv<C>(sched: Sc.Sched, me: nat, bound: nat)
    requires Sc.Inv(sched) && me != sched.idle
    ensures Inv<C>(Sys(sched, PortState([], None, bound), Outside, [], []), me)
  {
    hide Sc.Inv;
  }

}
