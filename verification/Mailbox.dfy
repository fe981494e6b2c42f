/**
 * The actor mailbox (libkernel/src/task/mailbox.rs): senders, closers and one
 * polling receiver interleaved at the granularity of the mailbox lock and of
 * the atomic waker, and the one-shot `Reply` behind `ask`.
 */
module Mailbox {
  import opened Base

  /** `waker`: the receiver's waker is registered; `woken`: its task is scheduled to be polled again. */
  datatype Box<M> = Box(queue: seq<M>, closed: bool, waker: bool, woken: bool)

  /** What one locked section of `poll` finds. */
  datatype Found<M> = Nothing | Got(message: M) | Ended

  function EmptyBox<M>(): Box<M> {
    Box([], false, false, false)
  }

  function Deposit<M>(b: Box<M>, m: M): Box<M> {
    if b.closed then b else b.(queue := b.queue + [m])
  }

  function Waked<M>(b: Box<M>): Box<M> {
    if b.waker then b.(waker := false, woken := true) else b
  }

  function Look<M>(b: Box<M>): Found<M> {
    if b.queue != [] then Got(b.queue[0]) else if b.closed then Ended else Nothing
  }

  function Popped<M>(b: Box<M>): Box<M> {
    if b.queue != [] then b.(queue := b.queue[1..]) else b
  }

  class MailboxCell<M> {
    var queue: seq<M>
    var closed: bool
    var waker: bool
    var woken: bool

    ghost function View(): Box<M>
      reads this
    {
      Box(queue, closed, waker, woken)
    }

    constructor ()
      ensures View() == EmptyBox()
    {
      queue, closed, waker, woken := [], false, false, false;
    }

    method Wake()
      modifies this`waker, this`woken
      ensures View() == Waked(old(View()))
    {
      if waker {
        waker, woken := false, true;
      }
    }

    /** The locked section of `send`; a closed mailbox drops the message. */
    method SendLocked(m: M) returns (dropped: bool)
      modifies this`queue
      ensures View() == Deposit(old(View()), m) && dropped == closed
    {
      if closed {
        return true;
      }
      queue := queue + [m];
      dropped := false;
    }

    method Send(m: M) returns (dropped: bool)
      modifies this
      ensures View() == if dropped then old(View()) else Waked(Deposit(old(View()), m))
      ensures dropped == old(closed)
    {
      dropped := SendLocked(m);
      if !dropped {
        Wake();
      }
    }

    method CloseLocked()
      modifies this`closed
      ensures closed
    {
      closed := true;
    }

    method Close()
      modifies this
      ensures View() == Waked(old(View()).(closed := true))
    {
      CloseLocked();
      Wake();
    }

    method Reopen()
      modifies this`closed
      ensures !closed
    {
      closed := false;
    }

    method TryRecv() returns (m: Option<M>)
      modifies this`queue
      ensures View() == Popped(old(View()))
      ensures m == if old(queue) != [] then Some(old(queue)[0]) else None
    {
      if queue == [] {
        return None;
      }
      m := Some(queue[0]);
      queue := queue[1..];
    }

    method CheckLocked() returns (f: Found<M>)
      modifies this`queue
      ensures f == Look(old(View())) && View() == Popped(old(View()))
    {
      var m := TryRecv();
      if m.Some? {
        return Got(m.value);
      }
      f := if closed then Ended else Nothing;
    }

    method Register()
      modifies this`waker
      ensures waker
    {
      waker := true;
    }

    /** A whole `poll` with nobody interleaved: ready at once, or registered and pending. */
    method Poll() returns (f: Found<M>)
      modifies this`queue, this`waker
      ensures f == Look(old(View()))
      ensures View() == if f.Nothing? then old(View()).(waker := true) else Popped(old(View()))
    {
      f := CheckLocked();
      if f.Nothing? {
        Register();
        f := CheckLocked();
      }
    }
  }

  // ---- any number of agents against one receiver ----

  datatype Receiver<M> =
    | Idle
    | Polling
    | Checked
    | Registered
    | Parked
    | Resolved(result: Option<M>)

  /**
   * `about`: the senders and closers that have left the lock and not yet called `wake`.
   * `accepted` and `taken` log the messages enqueued and dequeued.
   */
  datatype Sys<M> = Sys(
    box: Box<M>,
    about: set<nat>,
    receiver: Receiver<M>,
    accepted: seq<M>,
    taken: seq<M>)

  datatype Event<M> =
    | SendLock(agent: nat, message: M)
    | CloseLock(agent: nat)
    | Wake(agent: nat)
    | Reopen
    | TryRecv
    | PollStart
    | FirstCheck
    | Register
    | SecondCheck

  predicate Legal<M>(sys: Sys<M>, e: Event<M>) {
    match e
    case SendLock(a, _) => a !in sys.about
    case CloseLock(a) => a !in sys.about
    case Wake(a) => a in sys.about
    case PollStart => sys.receiver.Idle? || sys.receiver.Parked? || sys.receiver.Resolved?
    case FirstCheck => sys.receiver.Polling?
    case Register => sys.receiver.Checked?
    case SecondCheck => sys.receiver.Registered?
    case _ => true
  }

  function Take<M>(sys: Sys<M>): Sys<M> {
    sys.(box := Popped(sys.box), taken := if sys.box.queue != [] then sys.taken + [sys.box.queue[0]] else sys.taken)
  }

  function Check<M>(sys: Sys<M>, otherwise: Receiver<M>): Sys<M> {
    match Look(sys.box)
    case Got(m) => Take(sys).(receiver := Resolved(Some(m)))
    case Ended => sys.(receiver := Resolved(None))
    case Nothing => sys.(receiver := otherwise)
  }

  function Step<M>(sys: Sys<M>, e: Event<M>): Sys<M>
    requires Legal(sys, e)
  {
    match e
    case SendLock(a, m) =>
      if sys.box.closed then sys
      else sys.(box := Deposit(sys.box, m), about := sys.about + {a}, accepted := sys.accepted + [m])
    case CloseLock(a) => sys.(box := sys.box.(closed := true), about := sys.about + {a})
    case Wake(a) => sys.(box := Waked(sys.box), about := sys.about - {a})
    case Reopen => sys.(box := sys.box.(closed := false))
    case TryRecv => Take(sys)
    case PollStart => sys.(box := sys.box.(woken := false), receiver := Polling)
    case FirstCheck => Check(sys, Checked)
    case Register => sys.(box := sys.box.(waker := true), receiver := Registered)
    case SecondCheck => Check(sys, Parked)
  }

  predicate Available<M>(b: Box<M>) {
    b.queue != [] || b.closed
  }

  ghost predicate Inv<M>(sys: Sys<M>) {
    && sys.accepted == sys.taken + sys.box.queue
    && (sys.receiver.Registered? || sys.receiver.Parked? ==> sys.box.waker || sys.box.woken)
    && (sys.receiver.Parked? && Available(sys.box) ==> sys.box.woken || sys.about != {})
  }

  lemma StepKeepsInv<M>(sys: Sys<M>, e: Event<M>)
    requires Inv(sys) && Legal(sys, e)
    ensures Inv(Step(sys, e))
  {
    var q := sys.box.queue;
    if q != [] {
      assert q == [q[0]] + q[1..];
    }
    match e
    case SendLock(a, _) => assert a in sys.about + {a};
    case CloseLock(a) => assert a in Step(sys, e).about;
    case _ =>
  }

  ghost predicate LegalRun<M>(sys: Sys<M>, events: seq<Event<M>>)
    decreases |events|
  {
    events == [] || (Legal(sys, events[0]) && LegalRun(Step(sys, events[0]), events[1..]))
  }

  ghost function Run<M>(sys: Sys<M>, events: seq<Event<M>>): Sys<M>
    requires LegalRun(sys, events)
    decreases |events|
  {
    if events == [] then sys else Run(Step(sys, events[0]), events[1..])
  }

  lemma {:induction false} RunKeepsInv<M>(sys: Sys<M>, events: seq<Event<M>>)
    requires Inv(sys) && LegalRun(sys, events)
    ensures Inv(Run(sys, events))
    decreases |events|
  {
    if events != [] {
      StepKeepsInv(sys, events[0]);
      RunKeepsInv(Step(sys, events[0]), events[1..]);
    }
  }

  function Start<M>(): Sys<M> {
    Sys(EmptyBox(), {}, Idle, [], [])
  }

  /**
   * However senders, closers and the receiver interleave: a parked receiver with a message or
   * a close to see has been woken or has an agent about to wake it, its waker is in place
   * unless it has been used, and messages leave in the order in which they were accepted.
   */
  lemma NoLostWakeup<M>(events: seq<Event<M>>)
    requires LegalRun(Start(), events)
    ensures var r := Run(Start(), events);
            && (r.receiver.Parked? && Available(r.box) ==> r.box.woken || r.about != {})
            && (r.receiver.Parked? ==> r.box.waker || r.box.woken)
            && r.accepted == r.taken + r.box.queue
  {
    RunKeepsInv(Start<M>(), events);
  }

  /** A message is accepted exactly when it is sent to an open mailbox; only closing and reopening change whether it is open. */
  lemma AcceptedWhenOpen<M>(sys: Sys<M>, e: Event<M>)
    requires Legal(sys, e)
    ensures Step(sys, e).accepted == if e.SendLock? && !sys.box.closed then sys.accepted + [e.message] else sys.accepted
    ensures Step(sys, e).box.closed == (e.CloseLock? || (sys.box.closed && !e.Reopen?))
  {
  }

  /** Once closed, and until reopened, a mailbox takes nothing more, and what it had taken still comes out in order. */
  lemma {:induction false} ClosedTakesNothing<M>(sys: Sys<M>, events: seq<Event<M>>)
    requires Inv(sys) && LegalRun(sys, events) && sys.box.closed && forall e <- events :: !e.Reopen?
    ensures var r := Run(sys, events);
            r.box.closed && r.accepted == sys.accepted == r.taken + r.box.queue && sys.taken <= r.taken
    decreases |events|
  {
    if events != [] {
      assert events[0] in events && forall e <- events[1..] :: e in events;
      StepKeepsInv(sys, events[0]);
      AcceptedWhenOpen(sys, events[0]);
      ClosedTakesNothing(Step(sys, events[0]), events[1..]);
    }
  }

  /** A wake uses the waker up, and only a wake that found one schedules the receiver; a poll takes that back. */
  lemma WakerIsSpent<M>(sys: Sys<M>, e: Event<M>)
    requires Legal(sys, e)
    ensures Step(sys, e).box.waker == (e.Register? || (sys.box.waker && !e.Wake?))
    ensures Step(sys, e).box.woken == (!e.PollStart? && (sys.box.woken || (e.Wake? && sys.box.waker)))
  {
  }

  lemma {:induction false} StaysUnwoken<M>(sys: Sys<M>, events: seq<Event<M>>)
    requires LegalRun(sys, events) && !sys.box.waker && !sys.box.woken && forall e <- events :: !e.Register?
    ensures !Run(sys, events).box.waker && !Run(sys, events).box.woken
    decreases |events|
  {
    if events != [] {
      assert events[0] in events && forall e <- events[1..] :: e in events;
      WakerIsSpent(sys, events[0]);
      StaysUnwoken(Step(sys, events[0]), events[1..]);
    }
  }

  /** A receiver that never registered is never woken. */
  lemma NoSpuriousWake<M>(events: seq<Event<M>>)
    requires LegalRun(Start(), events) && forall e <- events :: !e.Register?
    ensures !Run(Start(), events).box.woken
  {
    StaysUnwoken(Start(), events);
  }

  /** And that wake is enough: it schedules the receiver, whose next poll then resolves. */
  lemma ParkedReceiverResolves<M>(sys: Sys<M>, agent: nat)
    requires Inv(sys) && sys.receiver.Parked? && Available(sys.box)
    requires sys.box.woken || agent in sys.about
    ensures var wakes := if sys.box.woken then [] else [Event<M>.Wake(agent)];
            && LegalRun(sys, wakes)
            && Run(sys, wakes).box.woken
            && LegalRun(sys, wakes + [PollStart, FirstCheck])
            && Run(sys, wakes + [PollStart, FirstCheck]).receiver
               == Resolved(if sys.box.queue != [] then Some(sys.box.queue[0]) else None)
  {
    var w := if sys.box.woken then sys else Step(sys, Wake(agent));
    var tail := [Event<M>.PollStart, FirstCheck];
    PollResolves(w);
    if sys.box.woken {
      assert [] + tail == tail;
    } else {
      var wakes := [Event<M>.Wake(agent)];
      assert wakes[1..] == [] && (wakes + tail)[1..] == tail;
    }
  }

  lemma PollResolves<M>(sys: Sys<M>)
    requires sys.receiver.Parked? && Available(sys.box)
    ensures var tail := [Event<M>.PollStart, FirstCheck];
            && LegalRun(sys, tail)
            && Run(sys, tail).receiver == Resolved(if sys.box.queue != [] then Some(sys.box.queue[0]) else None)
  {
    var tail := [Event<M>.PollStart, FirstCheck];
    assert tail[1..] == [Event<M>.FirstCheck] && tail[1..][1..] == [];
  }

  // ---- ask and reply ----

  /** The reply handle: held by the actor, then sent or dropped; either way its drop closes the mailbox. */
  datatype Handle = Held | Sent | Dropping | Closing | Gone

  /** One ask: its reply mailbox, its handle, and what was replied. */
  datatype Ask<R> = Ask(sys: Sys<R>, handle: Handle, replied: Option<R>)

  datatype AskEvent<R> =
    | ReplySend(value: R)
    | ReplySendWake
    | ReplyDrop
    | ReplyClose
    | ReplyCloseWake
    | Asker(poll: Event<R>)

  /** The handle is one value, so its steps carry one agent name. */
  const HANDLE: nat := 0

  predicate AskerPolls<R>(sys: Sys<R>, e: Event<R>) {
    (e.PollStart? || e.FirstCheck? || e.Register? || e.SecondCheck?) && !sys.receiver.Resolved?
  }

  /** The actor sends or drops a handle it holds; the asker polls its future until it resolves. */
  predicate AskLegal<R>(a: Ask<R>, e: AskEvent<R>) {
    match e
    case ReplySend(_) => a.handle.Held?
    case ReplySendWake => a.handle.Sent?
    case ReplyDrop => a.handle.Held?
    case ReplyClose => a.handle.Dropping?
    case ReplyCloseWake => a.handle.Closing?
    case Asker(p) => AskerPolls(a.sys, p) && Legal(a.sys, p)
  }

  ghost predicate AskInv<R>(a: Ask<R>) {
    && Inv(a.sys)
    && (a.handle.Held? || a.handle.Dropping? ==> a.sys.about == {})
    && (a.handle.Sent? || a.handle.Closing? ==> a.sys.about == {HANDLE})
    && (a.handle.Gone? ==> a.sys.about == {})
    && (a.handle.Held? ==> a.replied == None)
    && (a.handle.Sent? ==> a.replied.Some?)
    && (a.sys.box.closed <==> a.handle.Closing? || a.handle.Gone?)
    && a.sys.accepted == (if a.replied.Some? then [a.replied.value] else [])
    && a.sys.taken == (if a.sys.receiver.Resolved? && a.sys.receiver.result.Some?
                       then [a.sys.receiver.result.value] else [])
    && (a.sys.receiver == Resolved(None) ==> a.sys.box.closed && a.replied == None)
  }

  /** `ask` on an open mailbox hands the handle to the actor; on a closed one the message, and so the handle, is dropped. */
  function AskStart<R>(targetClosed: bool): (a: Ask<R>)
    ensures AskInv(a)
  {
    Ask(Start(), if targetClosed then Dropping else Held, None)
  }

  function AskStep<R>(a: Ask<R>, e: AskEvent<R>): Ask<R>
    requires AskInv(a) && AskLegal(a, e)
  {
    match e
    case ReplySend(v) => Ask(Step(a.sys, SendLock(HANDLE, v)), Sent, Some(v))
    case ReplySendWake => a.(sys := Step(a.sys, Wake(HANDLE)), handle := Dropping)
    case ReplyDrop => a.(handle := Dropping)
    case ReplyClose => a.(sys := Step(a.sys, CloseLock(HANDLE)), handle := Closing)
    case ReplyCloseWake => a.(sys := Step(a.sys, Wake(HANDLE)), handle := Gone)
    case Asker(p) => a.(sys := Step(a.sys, p))
  }

  lemma AskStepKeepsInv<R>(a: Ask<R>, e: AskEvent<R>)
    requires AskInv(a) && AskLegal(a, e)
    ensures AskInv(AskStep(a, e))
  {
    match e
    case ReplySend(v) => StepKeepsInv(a.sys, SendLock(HANDLE, v));
    case ReplySendWake => StepKeepsInv(a.sys, Wake(HANDLE));
    case ReplyDrop =>
    case ReplyClose => StepKeepsInv(a.sys, CloseLock(HANDLE));
    case ReplyCloseWake => StepKeepsInv(a.sys, Wake(HANDLE));
    case Asker(p) =>
      StepKeepsInv(a.sys, p);
      if a.sys.box.queue != [] {
        assert a.sys.accepted[|a.sys.taken|] == a.sys.box.queue[0];
      }
  }

  ghost predicate AskRunLegal<R>(a: Ask<R>, events: seq<AskEvent<R>>)
    requires AskInv(a)
    decreases |events|
  {
    events == [] ||
    (AskLegal(a, events[0]) && (AskStepKeepsInv(a, events[0]); AskRunLegal(AskStep(a, events[0]), events[1..])))
  }

  ghost function AskRun<R>(a: Ask<R>, events: seq<AskEvent<R>>): (r: Ask<R>)
    requires AskInv(a) && AskRunLegal(a, events)
    ensures AskInv(r)
    decreases |events|
  {
    if events == [] then a
    else AskStepKeepsInv(a, events[0]); AskRun(AskStep(a, events[0]), events[1..])
  }

  /**
   * An ask resolves to the value that was replied, or to None exactly when the
   * handle was dropped without a reply; asking a closed mailbox can only give None.
   */
  lemma {:induction false} AskResolvesRight<R>(targetClosed: bool, events: seq<AskEvent<R>>)
    requires AskRunLegal(AskStart<R>(targetClosed), events)
    ensures var r := AskRun(AskStart<R>(targetClosed), events);
            && (r.sys.receiver.Resolved? ==> r.sys.receiver.result == r.replied)
            && (r.sys.receiver.Resolved? && r.replied == None ==> r.handle.Closing? || r.handle.Gone?)
            && (targetClosed ==> r.replied == None)
  {
    var r := AskRun(AskStart<R>(targetClosed), events);
    if r.sys.receiver.Resolved? && r.sys.receiver.result.Some? {
      assert r.sys.accepted[0] == r.sys.taken[0];
    }
    if targetClosed {
      NeverReplied(AskStart<R>(true), events);
    }
  }

  lemma {:induction false} NeverReplied<R>(a: Ask<R>, events: seq<AskEvent<R>>)
    requires AskInv(a) && AskRunLegal(a, events) && a.replied == None && !a.handle.Held?
    ensures AskRun(a, events).replied == None
    decreases |events|
  {
    if events != [] {
      AskStepKeepsInv(a, events[0]);
      NeverReplied(AskStep(a, events[0]), events[1..]);
    }
  }

  /** With the handle gone, an unresolved asker is not left parked: it has been woken, and its next check resolves. */
  lemma AskIsAnswered<R>(a: Ask<R>)
    requires AskInv(a) && a.handle.Gone? && !a.sys.receiver.Resolved?
    ensures Available(a.sys.box)
    ensures a.sys.receiver.Parked? ==> a.sys.box.woken
    ensures Check(a.sys, a.sys.receiver).receiver == Resolved(a.replied)
  {
    assert a.sys.accepted == a.sys.box.queue;
  }

}
