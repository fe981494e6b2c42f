/**
 * The IPC channel (`ChannelInner` in libkernel/src/channel.rs).  Every
 * operation runs under the channel lock; what it does to the scheduler (wake
 * one thread, or mark the caller blocked) is part of its outcome.
 */
module Channel {
  import opened Base
  import Sc = Scheduler

  /** A receive submitted through a completion port. */
  datatype PortRecv = PortRecv(port: nat, userData: nat, bufDest: nat)

  /** A send submitted through a completion port, with its message. */
  datatype PortSend<M> = PortSend(port: nat, userData: nat, envelope: M)

  datatype Chan<M> = Chan(
    queue: seq<M>,
    capacity: nat,
    pendingSend: Option<M>,
    blockedSender: Option<nat>,
    blockedReceiver: Option<nat>,
    sendCount: nat,
    recvCount: nat,
    pendingPort: Option<PortRecv>,
    pendingSendPort: Option<PortSend<M>>,
    sendClosed: bool,
    recvClosed: bool)

  datatype SendAction<M> =
    | Done
    | Donated(thread: nat)
    | Block
    | BlockWithMsg(msg: M)
    | WouldBlock(msg: M)
    | PeerClosed(msg: M)
    | PostToPort(reg: PortRecv, msg: M)

  datatype RecvAction<M> =
    | Message(msg: M)
    | MessageAndNotifySendPort(msg: M, port: nat, userData: nat)
    | RecvBlock
    | RecvWouldBlock
    | RecvPeerClosed

  datatype ArmSendAction<M> =
    | SendReady
    | SendReadyDonate(thread: nat)
    | ReadyToRecvPort(reg: PortRecv, msg: M)
    | SendArmed
    | SendPeerClosed

  datatype ArmRecvAction<M> =
    | RecvReady(msg: M)
    | RecvReadyAndNotify(msg: M, port: nat, userData: nat)
    | RecvArmed
    | RecvArmPeerClosed

  datatype CloseSendAction = NoneWoken | WokeReceiver(thread: nat) | NotifyRecvPort(reg: PortRecv)

  datatype CloseRecvAction<M> = NoneWaiting | WokeSender(thread: nat) | NotifySendPort(reg: PortSend<M>)

  /** What an operation leaves behind: the channel, its answer, the thread it woke, whether it marked the caller blocked. */
  datatype Outcome<M, A> = Outcome(chan: Chan<M>, action: A, wakes: Option<nat>, blocks: bool)

  function New<M>(capacity: nat): Chan<M> {
    Chan([], capacity, None, None, None, 1, 1, None, None, false, false)
  }

  function Quiet<M, A>(c: Chan<M>, a: A): Outcome<M, A> {
    Outcome(c, a, None, false)
  }

  function SendOutcome<M>(c: Chan<M>, me: nat, m: M, nonblock: bool): (o: Outcome<M, SendAction<M>>)
    ensures o.chan.capacity == c.capacity
  {
    if c.recvClosed then Quiet(c, PeerClosed(m))
    else if c.capacity == 0 then
      if c.blockedReceiver.Some? then
        var t := c.blockedReceiver.value;
        Outcome(c.(blockedReceiver := None, pendingSend := Some(m)), Donated(t), Some(t), false)
      else if c.pendingPort.Some? then
        Quiet(c.(pendingPort := None), PostToPort(c.pendingPort.value, m))
      else if nonblock then Quiet(c, WouldBlock(m))
      else Outcome(c.(pendingSend := Some(m), blockedSender := Some(me)), Block, None, true)
    else if |c.queue| < c.capacity then
      var q := c.queue + [m];
      if c.blockedReceiver.Some? then
        var t := c.blockedReceiver.value;
        Outcome(c.(queue := q, blockedReceiver := None), Donated(t), Some(t), false)
      else if c.pendingPort.Some? then
        Quiet(c.(queue := q[1..], pendingPort := None), PostToPort(c.pendingPort.value, q[0]))
      else Quiet(c.(queue := q), Done)
    else if nonblock then Quiet(c, WouldBlock(m))
    else Outcome(c.(blockedSender := Some(me)), BlockWithMsg(m), None, true)
  }

  function RecvOutcome<M>(c: Chan<M>, me: nat, nonblock: bool): (o: Outcome<M, RecvAction<M>>)
    ensures o.chan.capacity == c.capacity
  {
    if c.capacity == 0 && c.pendingSend.Some? then
      Outcome(c.(pendingSend := None, blockedSender := None), Message(c.pendingSend.value), c.blockedSender, false)
    else if c.capacity == 0 && c.pendingSendPort.Some? then
      var ps := c.pendingSendPort.value;
      Quiet(c.(pendingSendPort := None), MessageAndNotifySendPort(ps.envelope, ps.port, ps.userData))
    else if c.capacity > 0 && c.queue != [] then
      var rest := c.(queue := c.queue[1..]);
      if c.blockedSender.Some? then
        Outcome(rest.(blockedSender := None), Message(c.queue[0]), c.blockedSender, false)
      else if c.pendingSendPort.Some? then
        var ps := c.pendingSendPort.value;
        Quiet(rest.(queue := rest.queue + [ps.envelope], pendingSendPort := None),
              MessageAndNotifySendPort(c.queue[0], ps.port, ps.userData))
      else Quiet(rest, Message(c.queue[0]))
    else if c.sendClosed then Quiet(c, RecvPeerClosed)
    else if nonblock then Quiet(c, RecvWouldBlock)
    else Outcome(c.(blockedReceiver := Some(me)), RecvBlock, None, true)
  }

  function ArmSendOutcome<M>(c: Chan<M>, info: PortSend<M>): (o: Outcome<M, ArmSendAction<M>>)
    ensures o.chan.capacity == c.capacity
  {
    if c.recvClosed then Quiet(c, SendPeerClosed)
    else if c.capacity == 0 then
      if c.blockedReceiver.Some? then
        var t := c.blockedReceiver.value;
        Outcome(c.(blockedReceiver := None, pendingSend := Some(info.envelope)), SendReadyDonate(t), Some(t), false)
      else if c.pendingPort.Some? then
        Quiet(c.(pendingPort := None), ReadyToRecvPort(c.pendingPort.value, info.envelope))
      else Quiet(c.(pendingSendPort := Some(info)), SendArmed)
    else if |c.queue| < c.capacity then
      var q := c.queue + [info.envelope];
      if c.blockedReceiver.Some? then
        var t := c.blockedReceiver.value;
        Outcome(c.(queue := q, blockedReceiver := None), SendReadyDonate(t), Some(t), false)
      else if c.pendingPort.Some? then
        Quiet(c.(queue := q[1..], pendingPort := None), ReadyToRecvPort(c.pendingPort.value, q[0]))
      else Quiet(c.(queue := q), SendReady)
    else Quiet(c.(pendingSendPort := Some(info)), SendArmed)
  }

  function ArmRecvOutcome<M>(c: Chan<M>, info: PortRecv): (o: Outcome<M, ArmRecvAction<M>>)
    ensures o.chan.capacity == c.capacity
  {
    if c.capacity == 0 && c.pendingSend.Some? then
      Outcome(c.(pendingSend := None, blockedSender := None), RecvReady(c.pendingSend.value), c.blockedSender, false)
    else if c.capacity == 0 && c.pendingSendPort.Some? then
      var ps := c.pendingSendPort.value;
      Quiet(c.(pendingSendPort := None), RecvReadyAndNotify(ps.envelope, ps.port, ps.userData))
    else if c.capacity > 0 && c.queue != [] then
      var rest := c.(queue := c.queue[1..]);
      if c.blockedSender.Some? then
        Outcome(rest.(blockedSender := None), RecvReady(c.queue[0]), c.blockedSender, false)
      else if c.pendingSendPort.Some? then
        var ps := c.pendingSendPort.value;
        Quiet(rest.(queue := rest.queue + [ps.envelope], pendingSendPort := None),
              RecvReadyAndNotify(c.queue[0], ps.port, ps.userData))
      else Quiet(rest, RecvReady(c.queue[0]))
    else if c.sendClosed then Quiet(c, RecvArmPeerClosed)
    else Quiet(c.(pendingPort := Some(info)), RecvArmed)
  }

  function CloseSendOutcome<M>(c: Chan<M>): (o: Outcome<M, CloseSendAction>)
    requires c.sendCount >= 1
    ensures o.chan.capacity == c.capacity
  {
    var c' := c.(sendCount := c.sendCount - 1);
    if c'.sendCount > 0 then Quiet(c', NoneWoken)
    else if c.blockedReceiver.Some? then
      var t := c.blockedReceiver.value;
      Outcome(c'.(sendClosed := true, blockedReceiver := None), WokeReceiver(t), Some(t), false)
    else if c.pendingPort.Some? then
      Quiet(c'.(sendClosed := true, pendingPort := None), NotifyRecvPort(c.pendingPort.value))
    else Quiet(c'.(sendClosed := true), NoneWoken)
  }

  function CloseRecvOutcome<M>(c: Chan<M>): (o: Outcome<M, CloseRecvAction<M>>)
    requires c.recvCount >= 1
    ensures o.chan.capacity == c.capacity
  {
    var c' := c.(recvCount := c.recvCount - 1);
    if c'.recvCount > 0 then Quiet(c', NoneWaiting)
    else if c.blockedSender.Some? then
      var t := c.blockedSender.value;
      Outcome(c'.(recvClosed := true, blockedSender := None), WokeSender(t), Some(t), false)
    else if c.pendingSendPort.Some? then
      Quiet(c'.(recvClosed := true, pendingSendPort := None), NotifySendPort(c.pendingSendPort.value))
    else Quiet(c'.(recvClosed := true), NoneWaiting)
  }

  // ---- what each call answers ----

  /** Something is there for a receiver to take. */
  predicate Receivable<M>(c: Chan<M>) {
    if c.capacity == 0 then c.pendingSend.Some? || c.pendingSendPort.Some? else c.queue != []
  }

  /** A message can be taken now: by a receiver that waits or is armed, or into the queue. */
  predicate Takes<M>(c: Chan<M>) {
    if c.capacity == 0 then c.blockedReceiver.Some? || c.pendingPort.Some? else |c.queue| < c.capacity
  }

  /** The oldest message a receiver gets. */
  function Oldest<M>(c: Chan<M>): M
    requires Receivable(c)
  {
    if c.capacity > 0 then c.queue[0]
    else if c.pendingSend.Some? then c.pendingSend.value else c.pendingSendPort.value.envelope
  }

  /**
   * A receive gets the oldest message exactly when there is one; told that the peer is gone, or
   * to try again, it leaves the channel as it was; it blocks exactly when asked to, on an open
   * channel without a message.  A completed port send is named by its port and user data.
   */
  lemma RecvAnswers<M>(c: Chan<M>, me: nat, nonblock: bool)
    ensures var o := RecvOutcome(c, me, nonblock);
            && (o.action.Message? || o.action.MessageAndNotifySendPort? <==> Receivable(c))
            && (Receivable(c) ==> o.action.msg == Oldest(c) && !o.blocks)
            && (o.action.MessageAndNotifySendPort? ==>
                  c.pendingSendPort == Some(PortSend(o.action.port, o.action.userData, c.pendingSendPort.value.envelope)))
            && (o.action == RecvPeerClosed <==> !Receivable(c) && c.sendClosed)
            && (o.action == RecvWouldBlock <==> !Receivable(c) && !c.sendClosed && nonblock)
            && (o.action == RecvBlock <==> !Receivable(c) && !c.sendClosed && !nonblock)
            && (o.blocks <==> o.action == RecvBlock)
            && (o.action == RecvPeerClosed || o.action == RecvWouldBlock ==> o.chan == c && o.wakes == None)
            && (o.blocks ==> o.chan == c.(blockedReceiver := Some(me)) && o.wakes == None)
  {
  }

  /** The same for a send: refused, it gives the message back and leaves the channel as it was. */
  lemma SendAnswers<M>(c: Chan<M>, me: nat, m: M, nonblock: bool)
    ensures var o := SendOutcome(c, me, m, nonblock);
            && (o.action.PeerClosed? <==> c.recvClosed)
            && (o.action.Done? || o.action.Donated? || o.action.PostToPort? <==> !c.recvClosed && Takes(c))
            && (o.action.WouldBlock? <==> !c.recvClosed && !Takes(c) && nonblock)
            && (o.action.Block? || o.action.BlockWithMsg? <==> !c.recvClosed && !Takes(c) && !nonblock)
            && (o.blocks <==> o.action.Block? || o.action.BlockWithMsg?)
            && (o.action == PeerClosed(m) || o.action == WouldBlock(m) <==> o.action.PeerClosed? || o.action.WouldBlock?)
            && (o.action.PeerClosed? || o.action.WouldBlock? ==> o.chan == c && o.wakes == None)
            && (o.blocks ==> o.chan.blockedSender == Some(me) && o.wakes == None)
            && (o.action.Donated? ==> c.blockedReceiver == Some(o.action.thread) == o.wakes)
            && (o.action.PostToPort? ==> c.pendingPort == Some(o.action.reg) && o.wakes == None)
  {
  }

  /** A submission through a port never blocks: it completes exactly when the blocking call would, and is armed otherwise. */
  lemma ArmAnswers<M>(c: Chan<M>, send: PortSend<M>, recv: PortRecv)
    ensures var o := ArmSendOutcome(c, send);
            && !o.blocks && (o.action.SendPeerClosed? <==> c.recvClosed)
            && (o.action.SendArmed? <==> !c.recvClosed && !Takes(c))
            && (o.action.SendArmed? ==> o.chan == c.(pendingSendPort := Some(send)))
            && (o.action.SendPeerClosed? ==> o.chan == c)
            && (o.action.ReadyToRecvPort? ==> c.pendingPort == Some(o.action.reg))
            && (o.wakes.Some? ==> o.wakes == c.blockedReceiver)
    ensures var o := ArmRecvOutcome(c, recv);
            && !o.blocks && (o.action.RecvReady? || o.action.RecvReadyAndNotify? <==> Receivable(c))
            && (Receivable(c) ==> o.action.msg == Oldest(c))
            && (o.action.RecvReadyAndNotify? ==>
                  c.pendingSendPort == Some(PortSend(o.action.port, o.action.userData, c.pendingSendPort.value.envelope)))
            && (o.action.RecvArmPeerClosed? <==> !Receivable(c) && c.sendClosed)
            && (o.action.RecvArmPeerClosed? ==> o.chan == c)
            && (o.action.RecvArmed? <==> !Receivable(c) && !c.sendClosed)
            && (o.action.RecvArmed? ==> o.chan == c.(pendingPort := Some(recv)))
            && (o.wakes.Some? ==> o.wakes == c.blockedSender)
  {
  }

  /**
   * Closing never blocks the closer.  Only the last handle of a side closes that side, and what the
   * close takes off the channel is what it answers: the waiting peer that it wakes, else the
   * armed registration that it hands back; messages stay.
   */
  lemma CloseAnswers<M>(c: Chan<M>)
    ensures c.sendCount >= 1 ==>
              var o := CloseSendOutcome(c);
              && !o.blocks && o.chan.queue == c.queue && o.chan.pendingSend == c.pendingSend
              && o.chan.sendCount + 1 == c.sendCount && o.chan.recvCount == c.recvCount
              && (o.chan.sendClosed <==> c.sendClosed || c.sendCount == 1) && o.chan.recvClosed == c.recvClosed
              && (c.sendCount == 1 && c.blockedReceiver.Some? ==>
                    o.wakes == c.blockedReceiver == Some(o.action.thread) && o.chan.blockedReceiver == None)
              && (c.sendCount == 1 && c.blockedReceiver.None? && c.pendingPort.Some? ==>
                    o.action == NotifyRecvPort(c.pendingPort.value) && o.wakes == None && o.chan.pendingPort == None)
              && (o.action.NoneWoken? ==> o.wakes == None && o.chan == c.(sendCount := c.sendCount - 1, sendClosed := o.chan.sendClosed))
    ensures c.recvCount >= 1 ==>
              var o := CloseRecvOutcome(c);
              && !o.blocks && o.chan.queue == c.queue && o.chan.pendingSend == c.pendingSend
              && o.chan.recvCount + 1 == c.recvCount && o.chan.sendCount == c.sendCount
              && (o.chan.recvClosed <==> c.recvClosed || c.recvCount == 1) && o.chan.sendClosed == c.sendClosed
              && (c.recvCount == 1 && c.blockedSender.Some? ==>
                    o.wakes == c.blockedSender == Some(o.action.thread) && o.chan.blockedSender == None)
              && (c.recvCount == 1 && c.blockedSender.None? && c.pendingSendPort.Some? ==>
                    o.action == NotifySendPort(c.pendingSendPort.value) && o.wakes == None && o.chan.pendingSendPort == None)
              && (o.action.NoneWaiting? ==> o.wakes == None && o.chan == c.(recvCount := c.recvCount - 1, recvClosed := o.chan.recvClosed))
  {
  }

  /** The scheduler's side of an outcome, under the channel lock. */
  function Effect<M, A>(s: Sc.Sched, o: Outcome<M, A>): Sc.Sched
    requires Sc.InRange(s)
  {
    var woken := if o.wakes.Some? then Sc.UnblockStep(s, o.wakes.value) else s;
    if o.blocks then Sc.SetState(woken, woken.current, Sc.Blocked) else woken
  }

  class ChannelInner<M> {
    var queue: seq<M>
    const capacity: nat
    var pendingSend: Option<M>
    var blockedSender: Option<nat>
    var blockedReceiver: Option<nat>
    var sendCount: nat
    var recvCount: nat
    var pendingPort: Option<PortRecv>
    var pendingSendPort: Option<PortSend<M>>
    var sendClosed: bool
    var recvClosed: bool

    ghost function View(): Chan<M>
      reads this
    {
      Chan(queue, capacity, pendingSend, blockedSender, blockedReceiver, sendCount, recvCount,
           pendingPort, pendingSendPort, sendClosed, recvClosed)
    }

    constructor (capacity: nat)
      ensures View() == New(capacity)
    {
      this.capacity := capacity;
      queue, pendingSend, blockedSender, blockedReceiver := [], None, None, None;
      sendCount, recvCount := 1, 1;
      pendingPort, pendingSendPort := None, None;
      sendClosed, recvClosed := false, false;
    }

    method DupSend()
      modifies this`sendCount
      ensures sendCount == old(sendCount) + 1
    {
      sendCount := sendCount + 1;
    }

    method DupRecv()
      modifies this`recvCount
      ensures recvCount == old(recvCount) + 1
    {
      recvCount := recvCount + 1;
    }

    /** Hand a message to whoever waits: wake a blocked receiver, or none. */
    method TrySend(sched: Sc.KernelScheduler, env: M, nonblock: bool) returns (action: SendAction<M>)
      requires Sc.InRange(sched.View())
      modifies this, sched
      ensures var o := SendOutcome(old(View()), old(sched.cpu.threadIdx), env, nonblock);
              View() == o.chan && action == o.action && sched.View() == Effect(old(sched.View()), o)
    {
      if recvClosed {
        return PeerClosed(env);
      }
      if capacity == 0 {
        if blockedReceiver.Some? {
          var t := blockedReceiver.value;
          blockedReceiver := None;
          pendingSend := Some(env);
          sched.Unblock(t);
          return Donated(t);
        } else if pendingPort.Some? {
          var pr := pendingPort.value;
          pendingPort := None;
          return PostToPort(pr, env);
        } else {
          if nonblock {
            return WouldBlock(env);
          }
          pendingSend := Some(env);
          blockedSender := Some(sched.cpu.threadIdx);
          sched.MarkBlocked();
          return Block;
        }
      } else {
        if |queue| < capacity {
          queue := queue + [env];
          if blockedReceiver.Some? {
            var t := blockedReceiver.value;
            blockedReceiver := None;
            sched.Unblock(t);
            return Donated(t);
          } else if pendingPort.Some? {
            var pr := pendingPort.value;
            pendingPort := None;
            var front := queue[0];
            queue := queue[1..];
            return PostToPort(pr, front);
          } else {
            return Done;
          }
        } else {
          if nonblock {
            return WouldBlock(env);
          }
          blockedSender := Some(sched.cpu.threadIdx);
          sched.MarkBlocked();
          return BlockWithMsg(env);
        }
      }
    }

    method TryRecv(sched: Sc.KernelScheduler, nonblock: bool) returns (action: RecvAction<M>)
      requires Sc.InRange(sched.View())
      modifies this, sched
      ensures var o := RecvOutcome(old(View()), old(sched.cpu.threadIdx), nonblock);
              View() == o.chan && action == o.action && sched.View() == Effect(old(sched.View()), o)
    {
      if capacity == 0 {
        if pendingSend.Some? {
          var env := pendingSend.value;
          pendingSend := None;
          WakeSender(sched);
          return Message(env);
        } else if pendingSendPort.Some? {
          var ps := pendingSendPort.value;
          pendingSendPort := None;
          return MessageAndNotifySendPort(ps.envelope, ps.port, ps.userData);
        }
      } else if queue != [] {
        var env := queue[0];
        queue := queue[1..];
        if blockedSender.Some? {
          WakeSender(sched);
          return Message(env);
        } else if pendingSendPort.Some? {
          var ps := pendingSendPort.value;
          pendingSendPort := None;
          queue := queue + [ps.envelope];
          return MessageAndNotifySendPort(env, ps.port, ps.userData);
        } else {
          return Message(env);
        }
      }
      if sendClosed {
        return RecvPeerClosed;
      }
      if nonblock {
        return RecvWouldBlock;
      }
      blockedReceiver := Some(sched.cpu.threadIdx);
      sched.MarkBlocked();
      return RecvBlock;
    }

    method WakeSender(sched: Sc.KernelScheduler)
      modifies this`blockedSender, sched
      ensures blockedSender == None
      ensures sched.View() == if old(blockedSender).Some?
                              then Sc.UnblockStep(old(sched.View()), old(blockedSender).value)
                              else old(sched.View())
    {
      if blockedSender.Some? {
        sched.Unblock(blockedSender.value);
        blockedSender := None;
      }
    }

    method ArmSend(sched: Sc.KernelScheduler, info: PortSend<M>) returns (action: ArmSendAction<M>)
      requires Sc.InRange(sched.View())
      modifies this, sched
      ensures var o := ArmSendOutcome(old(View()), info);
              View() == o.chan && action == o.action && sched.View() == Effect(old(sched.View()), o)
    {
      if recvClosed {
        return SendPeerClosed;
      }
      if capacity == 0 {
        if blockedReceiver.Some? {
          var t := blockedReceiver.value;
          blockedReceiver := None;
          pendingSend := Some(info.envelope);
          sched.Unblock(t);
          return SendReadyDonate(t);
        } else if pendingPort.Some? {
          var pr := pendingPort.value;
          pendingPort := None;
          return ReadyToRecvPort(pr, info.envelope);
        } else {
          pendingSendPort := Some(info);
          return SendArmed;
        }
      } else if |queue| < capacity {
        queue := queue + [info.envelope];
        if blockedReceiver.Some? {
          var t := blockedReceiver.value;
          blockedReceiver := None;
          sched.Unblock(t);
          return SendReadyDonate(t);
        } else if pendingPort.Some? {
          var pr := pendingPort.value;
          pendingPort := None;
          var front := queue[0];
          queue := queue[1..];
          return ReadyToRecvPort(pr, front);
        } else {
          return SendReady;
        }
      } else {
        pendingSendPort := Some(info);
        return SendArmed;
      }
    }

    method ArmRecv(sched: Sc.KernelScheduler, info: PortRecv) returns (action: ArmRecvAction<M>)
      requires Sc.InRange(sched.View())
      modifies this, sched
      ensures var o := ArmRecvOutcome(old(View()), info);
              View() == o.chan && action == o.action && sched.View() == Effect(old(sched.View()), o)
    {
      if capacity == 0 {
        if pendingSend.Some? {
          var env := pendingSend.value;
          pendingSend := None;
          WakeSender(sched);
          return RecvReady(env);
        }
        if pendingSendPort.Some? {
          var ps := pendingSendPort.value;
          pendingSendPort := None;
          return RecvReadyAndNotify(ps.envelope, ps.port, ps.userData);
        }
      } else if queue != [] {
        var env := queue[0];
        queue := queue[1..];
        if blockedSender.Some? {
          WakeSender(sched);
        } else if pendingSendPort.Some? {
          var ps := pendingSendPort.value;
          pendingSendPort := None;
          queue := queue + [ps.envelope];
          return RecvReadyAndNotify(env, ps.port, ps.userData);
        }
        return RecvReady(env);
      }
      if sendClosed {
        return RecvArmPeerClosed;
      }
      pendingPort := Some(info);
      return RecvArmed;
    }

    method CloseSend(sched: Sc.KernelScheduler) returns (action: CloseSendAction)
      requires Sc.InRange(sched.View()) && sendCount >= 1
      modifies this, sched
      ensures var o := CloseSendOutcome(old(View()));
              View() == o.chan && action == o.action && sched.View() == Effect(old(sched.View()), o)
    {
      sendCount := sendCount - 1;
      if sendCount > 0 {
        return NoneWoken;
      }
      sendClosed := true;
      if blockedReceiver.Some? {
        var t := blockedReceiver.value;
        blockedReceiver := None;
        sched.Unblock(t);
        return WokeReceiver(t);
      } else if pendingPort.Some? {
        var pr := pendingPort.value;
        pendingPort := None;
        return NotifyRecvPort(pr);
      } else {
        return NoneWoken;
      }
    }

    method CloseRecv(sched: Sc.KernelScheduler) returns (action: CloseRecvAction<M>)
      requires Sc.InRange(sched.View()) && recvCount >= 1
      modifies this, sched
      ensures var o := CloseRecvOutcome(old(View()));
              View() == o.chan && action == o.action && sched.View() == Effect(old(sched.View()), o)
    {
      recvCount := recvCount - 1;
      if recvCount > 0 {
        return NoneWaiting;
      }
      recvClosed := true;
      if blockedSender.Some? {
        var t := blockedSender.value;
        WakeSender(sched);
        return WokeSender(t);
      } else if pendingSendPort.Some? {
        var ps := pendingSendPort.value;
        pendingSendPort := None;
        return NotifySendPort(ps);
      } else {
        return NoneWaiting;
      }
    }
  }

}
