/**
 * One sender thread and one receiver thread on a channel: the retry loops of
 * `sys_ipc_send` and `sys_ipc_recv` (osl/src/ipc.rs) and the completion-port
 * submissions (osl/src/io_port.rs), composed with the ports the completions
 * go to and with the scheduler.
 *
 * Each end has at most one operation outstanding.  A channel operation is one
 * step: it runs under the channel lock with interrupts disabled, and marking
 * the caller blocked and yielding belong to it.  Donations after a hand-off
 * are ordinary scheduler steps of the environment.
 */
module Ipc {
  import opened Base
  import opened Channel
  import opened Delivery
  import Port
  import Sc = Scheduler

  /**
   * What the sending end is waiting for: a retry with its message, the rendezvous, or an armed
   * port operation.  `at` is the number of messages handed over when the rendezvous began, so
   * it is the place in that log that is the message's own.
   */
  datatype Sender<M> = SIdle | SRetry(msg: M) | SWaiting(msg: M, at: nat) | SArmed(msg: M)

  datatype Receiver = RIdle | RRetry | RArmed

  /** The answer a send finally got. */
  datatype Answer<M> = Answer(msg: M, ok: bool)

  /**
   * The channel and its two clients.  `senderBlocked` and `receiverBlocked` say that the end
   * is registered: it began to wait and the channel has not ended its wait; `accepted` lists the messages the
   * channel took, in order; `custody` is what became of those it handed over; `overwritten`
   * those a rendezvous channel lost to a second send.
   */
  datatype Proto<M> = Proto(
    chan: Chan<M>,
    sender: Sender<M>,
    receiver: Receiver,
    senderBlocked: bool,
    receiverBlocked: bool,
    accepted: seq<M>,
    answers: seq<Answer<M>>,
    custody: Custody<M>,
    overwritten: seq<M>)

  datatype Call<M> =
    | Send(msg: M, nonblock: bool)
    | ResumeSend
    | SubmitSend(info: PortSend<M>)
    | Recv(nonblock: bool)
    | ResumeRecv
    | SubmitRecv(reg: PortRecv)
    | CloseSend
    | CloseRecv
    | DupSend
    | DupRecv

  /** The two threads' indices; a send end is used by `sender` only, a receive end by `receiver` only. */
  datatype Ends = Ends(sender: nat, receiver: nat)

  /** Inside a blocking send, or receive. */
  predicate InSend<M>(p: Proto<M>) {
    p.sender.SRetry? || p.sender.SWaiting?
  }

  predicate InRecv<M>(p: Proto<M>) {
    p.receiver.RRetry?
  }

  /** What each end may do next: one operation at a time, on an end that is open; a wait may be resumed by anybody's wake. */
  predicate CallLegal<M>(p: Proto<M>, call: Call<M>) {
    match call
    case Send(_, _) => p.sender.SIdle? && p.chan.sendCount > 0
    case ResumeSend => InSend(p)
    case SubmitSend(info) => p.sender.SIdle? && p.chan.sendCount > 0 && info.port in p.custody.ports
    case Recv(_) => p.receiver.RIdle? && p.chan.recvCount > 0
    case ResumeRecv => InRecv(p)
    case SubmitRecv(reg) => p.receiver.RIdle? && p.chan.recvCount > 0 && reg.port in p.custody.ports
    case CloseSend => p.chan.sendCount > 0
    case CloseRecv => p.chan.recvCount > 0
    case DupSend => p.chan.sendCount > 0
    case DupRecv => p.chan.recvCount > 0
  }

  predicate BySender<M>(call: Call<M>) {
    call.Send? || call.ResumeSend? || call.SubmitSend?
  }

  predicate ByReceiver<M>(call: Call<M>) {
    call.Recv? || call.ResumeRecv? || call.SubmitRecv?
  }

  // ---- the clients' reactions to the channel's answers ----

  function Woken<M>(p: Proto<M>, ends: Ends, wakes: Option<nat>): Proto<M> {
    p.(senderBlocked := p.senderBlocked && wakes != Some(ends.sender),
       receiverBlocked := p.receiverBlocked && wakes != Some(ends.receiver))
  }

  /** A rendezvous slot that is filled while it still holds a message loses that message. */
  function Displaced<M>(p: Proto<M>): seq<M> {
    if p.chan.capacity == 0 && p.chan.pendingSend.Some? then p.overwritten + [p.chan.pendingSend.value] else p.overwritten
  }

  function SendStep<M>(p: Proto<M>, ends: Ends, m: M, nonblock: bool): Proto<M> {
    var o := SendOutcome(p.chan, ends.sender, m, nonblock);
    var q := Woken(p.(chan := o.chan), ends, o.wakes);
    var taken := q.(sender := SIdle, accepted := q.accepted + [m], answers := q.answers + [Answer(m, true)]);
    var refused := q.(sender := SIdle, answers := q.answers + [Answer(m, false)]);
    match o.action
    case Done => taken
    case Donated(_) => taken.(overwritten := Displaced(p))
    case Block => q.(sender := SWaiting(m, |q.custody.handed|), senderBlocked := true, accepted := q.accepted + [m], overwritten := Displaced(p))
    case BlockWithMsg(m) => q.(sender := SRetry(m), senderBlocked := true)
    case WouldBlock(_) => refused
    case PeerClosed(_) => refused
    case PostToPort(reg, x) => taken.(receiver := RIdle, custody := HandPort(q.custody, reg.port, x))
  }

  function SubmitSendStep<M>(p: Proto<M>, ends: Ends, info: PortSend<M>): Proto<M> {
    var o := ArmSendOutcome(p.chan, info);
    var m := info.envelope;
    var q := Woken(p.(chan := o.chan), ends, o.wakes);
    var taken := q.(accepted := q.accepted + [m], answers := q.answers + [Answer(m, true)]);
    match o.action
    case SendReady => taken.(custody := Posted(q.custody, info.port, Status))
    case SendReadyDonate(_) => taken.(custody := Posted(q.custody, info.port, Status), overwritten := Displaced(p))
    case ReadyToRecvPort(reg, x) =>
      taken.(receiver := RIdle, custody := Posted(HandPort(q.custody, reg.port, x), info.port, Status))
    case SendArmed => q.(sender := SArmed(m))
    case SendPeerClosed => q.(answers := q.answers + [Answer(m, false)], custody := Posted(q.custody, info.port, Status))
  }

  /** A receive that satisfied the armed port send: that send completes with success. */
  function PortSendDone<M>(p: Proto<M>, before: Chan<M>): Proto<M> {
    if before.pendingSendPort.Some? then
      var reg := before.pendingSendPort.value;
      p.(sender := SIdle, accepted := p.accepted + [reg.envelope], answers := p.answers + [Answer(reg.envelope, true)],
         custody := Posted(p.custody, reg.port, Status))
    else p
  }

  function RecvStep<M>(p: Proto<M>, ends: Ends, nonblock: bool): Proto<M> {
    var o := RecvOutcome(p.chan, ends.receiver, nonblock);
    var q := Woken(p.(chan := o.chan), ends, o.wakes);
    match o.action
    case Message(x) => q.(receiver := RIdle, custody := HandDirect(q.custody, x))
    case MessageAndNotifySendPort(x, _, _) =>
      PortSendDone(q.(receiver := RIdle, custody := HandDirect(q.custody, x)), p.chan)
    case RecvBlock => q.(receiver := RRetry, receiverBlocked := true)
    case RecvWouldBlock => q.(receiver := RIdle)
    case RecvPeerClosed => q.(receiver := RIdle)
  }

  function SubmitRecvStep<M>(p: Proto<M>, ends: Ends, reg: PortRecv): Proto<M> {
    var o := ArmRecvOutcome(p.chan, reg);
    var q := Woken(p.(chan := o.chan), ends, o.wakes);
    match o.action
    case RecvReady(x) => q.(custody := HandPort(q.custody, reg.port, x))
    case RecvReadyAndNotify(x, _, _) => PortSendDone(q.(custody := HandPort(q.custody, reg.port, x)), p.chan)
    case RecvArmed => q.(receiver := RArmed)
    case RecvArmPeerClosed => q.(custody := Posted(q.custody, reg.port, Closed))
  }

  function CloseSendStep<M>(p: Proto<M>, ends: Ends): Proto<M>
    requires p.chan.sendCount >= 1
  {
    var o := CloseSendOutcome(p.chan);
    var q := Woken(p.(chan := o.chan), ends, o.wakes);
    if o.action.NotifyRecvPort?
    then q.(receiver := RIdle, custody := Posted(q.custody, o.action.reg.port, Closed))
    else q
  }

  function CloseRecvStep<M>(p: Proto<M>, ends: Ends): Proto<M>
    requires p.chan.recvCount >= 1
  {
    var o := CloseRecvOutcome(p.chan);
    var q := Woken(p.(chan := o.chan), ends, o.wakes);
    if o.action.NotifySendPort?
    then q.(sender := SIdle, answers := q.answers + [Answer(o.action.reg.envelope, false)],
            custody := Posted(q.custody, o.action.reg.port, Status))
    else q
  }

  function CallStep<M>(p: Proto<M>, ends: Ends, call: Call<M>): Proto<M>
    requires CallLegal(p, call)
  {
    match call
    case Send(m, nonblock) => SendStep(p, ends, m, nonblock)
    case ResumeSend =>
      if p.sender.SRetry? then SendStep(p, ends, p.sender.msg, false)
      else p.(sender := SIdle, answers := p.answers + [Answer(p.sender.msg, !p.chan.recvClosed)])
    case SubmitSend(info) => SubmitSendStep(p, ends, info)
    case Recv(nonblock) => RecvStep(p, ends, nonblock)
    case ResumeRecv => RecvStep(p, ends, false)
    case SubmitRecv(reg) => SubmitRecvStep(p, ends, reg)
    case CloseSend => CloseSendStep(p, ends)
    case CloseRecv => CloseRecvStep(p, ends)
    case DupSend => p.(chan := p.chan.(sendCount := p.chan.sendCount + 1))
    case DupRecv => p.(chan := p.chan.(recvCount := p.chan.recvCount + 1))
  }

  // ---- the invariant ----

  /** The messages whose sends were answered with success, in order. */
  function Succeeded<M>(answers: seq<Answer<M>>): seq<M> {
    if answers == [] then []
    else
      var last := answers[|answers| - 1];
      Succeeded(answers[..|answers| - 1]) + (if last.ok then [last.msg] else [])
  }

  /**
   * Registration slots name the ends that wait, and the armed operations.  On a rendezvous channel
   * a sender that somebody else woke may be registered still.
   */
  ghost predicate Registered<M>(p: Proto<M>, ends: Ends) {
    var c := p.chan;
    && c.blockedSender == (if p.senderBlocked then Some(ends.sender) else None)
    && c.blockedReceiver == (if p.receiverBlocked then Some(ends.receiver) else None)
    && (p.senderBlocked ==> (InSend(p) || c.capacity == 0) && !c.recvClosed)
    && (p.receiverBlocked ==> InRecv(p) && !c.sendClosed)
    && (p.sender.SArmed? <==> c.pendingSendPort.Some?)
    && (p.sender.SArmed? ==> p.sender.msg == c.pendingSendPort.value.envelope && (c.capacity > 0 ==> !c.recvClosed))
    && (p.receiver.RArmed? <==> c.pendingPort.Some?)
    && (p.receiver.RArmed? ==> !c.sendClosed)
    && (c.sendClosed <==> c.sendCount == 0)
    && (c.recvClosed <==> c.recvCount == 0)
  }

  /** The ports of armed operations exist. */
  predicate PortsExist<M>(p: Proto<M>) {
    && (p.chan.pendingPort.Some? ==> p.chan.pendingPort.value.port in p.custody.ports)
    && (p.chan.pendingSendPort.Some? ==> p.chan.pendingSendPort.value.port in p.custody.ports)
  }

  function Slot<M>(o: Option<M>): multiset<M> {
    if o.Some? then multiset{o.value} else multiset{}
  }

  /** The log has the waiting sender's message at its place. */
  ghost predicate WasTaken<M>(p: Proto<M>)
    requires p.sender.SWaiting?
  {
    p.sender.at < |p.custody.handed| && p.custody.handed[p.sender.at].msg == p.sender.msg
  }

  /** A waiting sender's own message is in the slot, until it is handed over and the sender no longer registered. */
  ghost predicate WaitOk<M>(p: Proto<M>)
    requires p.sender.SWaiting?
  {
    if p.sender.at == |p.custody.handed|
    then p.chan.pendingSend == Some(p.sender.msg) && (p.senderBlocked || p.chan.recvClosed)
    else WasTaken(p) && p.chan.pendingSend.None? && !p.senderBlocked
  }

  /**
   * Rendezvous: a registered sender left a message in the slot; a waiting receiver has nothing
   * to take; what the channel took was handed over, is in the slot, or was overwritten there.
   */
  ghost predicate RendezvousInv<M>(p: Proto<M>) {
    var c := p.chan;
    && c.queue == [] && !p.sender.SRetry?
    && (p.senderBlocked ==> c.pendingSend.Some?)
    && (p.sender.SWaiting? ==> WaitOk(p))
    && (p.receiverBlocked || p.receiver.RArmed? ==> c.pendingSend.None? && c.pendingSendPort.None?)
    && Accounted(p)
  }

  /** Everything a rendezvous channel took was handed over, overwritten, or is in the slot. */
  ghost predicate Accounted<M>(p: Proto<M>) {
    multiset(p.accepted) == multiset(Messages(p.custody.handed)) + multiset(p.overwritten) + Slot(p.chan.pendingSend)
  }

  /** Buffered: a waiting sender sees a full queue, a waiting receiver an empty one; nothing is lost or reordered here. */
  ghost predicate BufferedInv<M>(p: Proto<M>) {
    var c := p.chan;
    && c.pendingSend.None? && !p.sender.SWaiting?
    && |c.queue| <= c.capacity
    && (p.senderBlocked || p.sender.SArmed? ==> |c.queue| == c.capacity)
    && (p.receiverBlocked || p.receiver.RArmed? ==> c.queue == [])
    && p.accepted == Messages(p.custody.handed) + c.queue
    && p.accepted == Succeeded(p.answers)
  }

  ghost predicate ProtoInv<M>(p: Proto<M>, ends: Ends) {
    && ends.sender != ends.receiver
    && Registered(p, ends)
    && PortsExist(p)
    && Delivery.Inv(p.custody)
    && (if p.chan.capacity == 0 then RendezvousInv(p) else BufferedInv(p))
  }

  function Fresh<M>(capacity: nat, ports: map<nat, Box<M>>): Proto<M> {
    Proto(New(capacity), SIdle, RIdle, false, false, [], [], Custody(ports, [], []), [])
  }

  lemma SucceededAppend<M>(answers: seq<Answer<M>>, a: Answer<M>)
    ensures Succeeded(answers + [a]) == Succeeded(answers) + (if a.ok then [a.msg] else [])
  {
    assert (answers + [a])[..|answers|] == answers;
  }

  lemma MessagesAppend<M>(handed: seq<Hand<M>>, h: Hand<M>)
    ensures Messages(handed + [h]) == Messages(handed) + [h.msg]
  {
  }

  /** A retry loop resumed while the channel still has it registered waits again; a rendezvous leaves no receiver waiting. */
  predicate Waits<M>(p: Proto<M>, nonblock: bool) {
    p.senderBlocked ==>
      if p.chan.capacity == 0 then !p.receiverBlocked && !p.receiver.RArmed?
      else p.sender.SRetry? && !nonblock && |p.chan.queue| == p.chan.capacity
  }

  // ---- custody under each call ----

  /** The ports stay the same ports and every message keeps its one fate. */
  ghost predicate CustodyOk<M>(c: Custody<M>, c': Custody<M>) {
    Delivery.Inv(c') && forall k :: k in c.ports <==> k in c'.ports
  }

  lemma DirectOk<M>(c: Custody<M>, m: M)
    requires Delivery.Inv(c)
    ensures CustodyOk(c, HandDirect(c, m))
  {
    DirectKeepsInv(c, m);
  }

  lemma PortOk<M>(c: Custody<M>, k: nat, m: M)
    requires Delivery.Inv(c)
    ensures CustodyOk(c, HandPort(c, k, m))
  {
    PortKeepsInv(c, k, m);
  }

  lemma NoteOk<M>(c: Custody<M>, k: nat, item: Item<M>)
    requires Delivery.Inv(c) && !item.Msg?
    ensures CustodyOk(c, Posted(c, k, item))
  {
    NoteKeepsInv(c, k, item);
  }

  lemma SendCustody<M>(p: Proto<M>, ends: Ends, m: M, nonblock: bool)
    requires Delivery.Inv(p.custody)
    ensures CustodyOk(p.custody, SendStep(p, ends, m, nonblock).custody)
  {
    hide Delivery.Inv, HandPort;
    var o := SendOutcome(p.chan, ends.sender, m, nonblock);
    hide SendOutcome;
    if o.action.PostToPort? { PortOk(p.custody, o.action.reg.port, o.action.msg); }
  }

  lemma SubmitSendCustody<M>(p: Proto<M>, ends: Ends, info: PortSend<M>)
    requires Delivery.Inv(p.custody)
    ensures CustodyOk(p.custody, SubmitSendStep(p, ends, info).custody)
  {
    hide Delivery.Inv, HandPort, Posted;
    var o := ArmSendOutcome(p.chan, info);
    hide ArmSendOutcome;
    NoteOk(p.custody, info.port, Status);
    if o.action.ReadyToRecvPort? {
      PortOk(p.custody, o.action.reg.port, o.action.msg);
      NoteOk(HandPort(p.custody, o.action.reg.port, o.action.msg), info.port, Status);
    }
  }

  lemma RecvCustody<M>(p: Proto<M>, ends: Ends, nonblock: bool)
    requires Delivery.Inv(p.custody)
    ensures CustodyOk(p.custody, RecvStep(p, ends, nonblock).custody)
  {
    hide Delivery.Inv, HandDirect, Posted;
    var o := RecvOutcome(p.chan, ends.receiver, nonblock);
    hide RecvOutcome;
    if o.action.Message? || o.action.MessageAndNotifySendPort? {
      var c := HandDirect(p.custody, o.action.msg);
      DirectOk(p.custody, o.action.msg);
      if p.chan.pendingSendPort.Some? { NoteOk(c, p.chan.pendingSendPort.value.port, Status); }
    }
  }

  lemma SubmitRecvCustody<M>(p: Proto<M>, ends: Ends, reg: PortRecv)
    requires Delivery.Inv(p.custody)
    ensures CustodyOk(p.custody, SubmitRecvStep(p, ends, reg).custody)
  {
    hide Delivery.Inv, HandPort, Posted;
    var o := ArmRecvOutcome(p.chan, reg);
    hide ArmRecvOutcome;
    NoteOk(p.custody, reg.port, Closed);
    if o.action.RecvReady? || o.action.RecvReadyAndNotify? {
      var c := HandPort(p.custody, reg.port, o.action.msg);
      PortOk(p.custody, reg.port, o.action.msg);
      if p.chan.pendingSendPort.Some? { NoteOk(c, p.chan.pendingSendPort.value.port, Status); }
    }
  }

  lemma CloseCustody<M>(p: Proto<M>, ends: Ends)
    requires Delivery.Inv(p.custody)
    ensures p.chan.sendCount >= 1 ==> CustodyOk(p.custody, CloseSendStep(p, ends).custody)
    ensures p.chan.recvCount >= 1 ==> CustodyOk(p.custody, CloseRecvStep(p, ends).custody)
  {
    hide Delivery.Inv, Posted;
    if p.chan.pendingPort.Some? { NoteOk(p.custody, p.chan.pendingPort.value.port, Closed); }
    if p.chan.pendingSendPort.Some? { NoteOk(p.custody, p.chan.pendingSendPort.value.port, Status); }
  }

  lemma CallCustody<M>(p: Proto<M>, ends: Ends, call: Call<M>)
    requires Delivery.Inv(p.custody) && CallLegal(p, call)
    ensures CustodyOk(p.custody, CallStep(p, ends, call).custody)
  {
    hide Delivery.Inv, SendStep, SubmitSendStep, RecvStep, SubmitRecvStep, CloseSendStep, CloseRecvStep;
    match call
    case Send(m, nonblock) => SendCustody(p, ends, m, nonblock);
    case ResumeSend => if p.sender.SRetry? { SendCustody(p, ends, p.sender.msg, false); }
    case SubmitSend(info) => SubmitSendCustody(p, ends, info);
    case Recv(nonblock) => RecvCustody(p, ends, nonblock);
    case ResumeRecv => RecvCustody(p, ends, false);
    case SubmitRecv(reg) => SubmitRecvCustody(p, ends, reg);
    case CloseSend => CloseCustody(p, ends);
    case CloseRecv => CloseCustody(p, ends);
    case DupSend =>
    case DupRecv =>
  }

  /** The channel's armed operations after an outcome are those before it, less those completed. */
  ghost predicate ArmsLess<M>(c: Chan<M>, c': Chan<M>) {
    && (c'.pendingPort.None? || c'.pendingPort == c.pendingPort)
    && (c'.pendingSendPort.None? || c'.pendingSendPort == c.pendingSendPort)
  }

  /** No call makes an armed operation point at a port that is not there. */
  lemma CallPortsExist<M>(p: Proto<M>, ends: Ends, call: Call<M>)
    requires PortsExist(p) && Delivery.Inv(p.custody) && CallLegal(p, call)
    ensures PortsExist(CallStep(p, ends, call))
  {
    hide Delivery.Inv, CallStep;
    CallCustody(p, ends, call);
    StepChan(p, ends, call);
    hide SendOutcome, RecvOutcome, ArmSendOutcome, ArmRecvOutcome, CloseSendOutcome, CloseRecvOutcome;
    match call
    case Send(m, nonblock) => SendArms(p.chan, ends.sender, m, nonblock);
    case ResumeSend => if p.sender.SRetry? { SendArms(p.chan, ends.sender, p.sender.msg, false); }
    case SubmitSend(info) => SubmitSendArms(p.chan, info);
    case Recv(nonblock) => RecvArms(p.chan, ends.receiver, nonblock);
    case ResumeRecv => RecvArms(p.chan, ends.receiver, false);
    case SubmitRecv(reg) => SubmitRecvArms(p.chan, reg);
    case CloseSend => CloseArms(p.chan);
    case CloseRecv => CloseArms(p.chan);
    case DupSend =>
    case DupRecv =>
  }

  /** The channel's part of a call. */
  function ChanAfter<M>(p: Proto<M>, ends: Ends, call: Call<M>): Chan<M>
    requires CallLegal(p, call)
  {
    match call
    case Send(m, nonblock) => SendOutcome(p.chan, ends.sender, m, nonblock).chan
    case ResumeSend => if p.sender.SRetry? then SendOutcome(p.chan, ends.sender, p.sender.msg, false).chan else p.chan
    case SubmitSend(info) => ArmSendOutcome(p.chan, info).chan
    case Recv(nonblock) => RecvOutcome(p.chan, ends.receiver, nonblock).chan
    case ResumeRecv => RecvOutcome(p.chan, ends.receiver, false).chan
    case SubmitRecv(reg) => ArmRecvOutcome(p.chan, reg).chan
    case CloseSend => CloseSendOutcome(p.chan).chan
    case CloseRecv => CloseRecvOutcome(p.chan).chan
    case DupSend => p.chan.(sendCount := p.chan.sendCount + 1)
    case DupRecv => p.chan.(recvCount := p.chan.recvCount + 1)
  }

  lemma StepChan<M>(p: Proto<M>, ends: Ends, call: Call<M>)
    requires CallLegal(p, call)
    ensures CallStep(p, ends, call).chan == ChanAfter(p, ends, call)
  {
    hide SendOutcome, ArmSendOutcome, RecvOutcome, ArmRecvOutcome, CloseSendOutcome, CloseRecvOutcome;
    hide HandPort, HandDirect, Posted, Displaced;
  }

  lemma SendArms<M>(c: Chan<M>, me: nat, m: M, nonblock: bool)
    ensures ArmsLess(c, SendOutcome(c, me, m, nonblock).chan)
  {
  }

  lemma RecvArms<M>(c: Chan<M>, me: nat, nonblock: bool)
    ensures ArmsLess(c, RecvOutcome(c, me, nonblock).chan)
  {
  }

  lemma SubmitSendArms<M>(c: Chan<M>, info: PortSend<M>)
    ensures var c' := ArmSendOutcome(c, info).chan;
            ArmsLess(c, c') || (c'.pendingPort == c.pendingPort && c'.pendingSendPort == Some(info))
  {
  }

  lemma SubmitRecvArms<M>(c: Chan<M>, reg: PortRecv)
    ensures var c' := ArmRecvOutcome(c, reg).chan;
            ArmsLess(c, c') || (c'.pendingSendPort == c.pendingSendPort && c'.pendingPort == Some(reg))
  {
  }

  lemma CloseArms<M>(c: Chan<M>)
    ensures c.sendCount >= 1 ==> ArmsLess(c, CloseSendOutcome(c).chan)
    ensures c.recvCount >= 1 ==> ArmsLess(c, CloseRecvOutcome(c).chan)
  {
  }

  // ---- what each call does to registrations and histories ----

  lemma SendRegistered<M>(p: Proto<M>, ends: Ends, m: M, nonblock: bool)
    requires Registered(p, ends) && ends.sender != ends.receiver && Waits(p, nonblock) && (p.sender.SRetry? || p.sender.SIdle?)
    requires p.chan.capacity == 0 ==> !p.sender.SRetry?
    ensures Registered(SendStep(p, ends, m, nonblock), ends)
  {
    hide HandPort;
  }

  lemma SendRendezvous<M>(p: Proto<M>, ends: Ends, m: M, nonblock: bool)
    requires Registered(p, ends) && RendezvousInv(p) && p.sender.SIdle? && p.chan.capacity == 0
    ensures RendezvousInv(SendStep(p, ends, m, nonblock))
  {
    hide Accounted, Messages, HandPort, Displaced;
    SendAccounted(p, ends, m, nonblock);
  }

  lemma Stored<M>(p: Proto<M>, m: M)
    requires Accounted(p) && p.chan.capacity == 0
    ensures multiset(p.accepted + [m]) == multiset(Messages(p.custody.handed)) + multiset(Displaced(p)) + Slot(Some(m))
  {
    hide Messages;

  }

  lemma HandedOver<M>(p: Proto<M>, h: Hand<M>)
    requires Accounted(p)
    ensures multiset(p.accepted + [h.msg])
            == multiset(Messages(p.custody.handed + [h])) + multiset(p.overwritten) + Slot(p.chan.pendingSend)
  {
    hide Messages;
    MessagesAppend(p.custody.handed, h);
  }

  /** The account is about four histories only. */
  lemma SameAccount<M>(p: Proto<M>, q: Proto<M>)
    requires Accounted(p) && q.accepted == p.accepted && q.custody.handed == p.custody.handed
    requires q.overwritten == p.overwritten && q.chan.pendingSend == p.chan.pendingSend
    ensures Accounted(q)
  {
  }

  lemma StoredAccount<M>(p: Proto<M>, q: Proto<M>, m: M)
    requires Accounted(p) && p.chan.capacity == 0
    requires q.accepted == p.accepted + [m] && q.custody.handed == p.custody.handed
    requires q.overwritten == Displaced(p) && q.chan.pendingSend == Some(m)
    ensures Accounted(q)
  {
    hide Messages, Displaced;
    Stored(p, m);
  }

  lemma HandedAccount<M>(p: Proto<M>, q: Proto<M>, h: Hand<M>)
    requires Accounted(p) && q.accepted == p.accepted + [h.msg] && q.custody.handed == p.custody.handed + [h]
    requires q.overwritten == p.overwritten && q.chan.pendingSend == p.chan.pendingSend
    ensures Accounted(q)
  {
    hide Messages;
    HandedOver(p, h);
  }

  lemma TakenAccount<M>(p: Proto<M>, q: Proto<M>, h: Hand<M>)
    requires Accounted(p) && p.chan.pendingSend == Some(h.msg)
    requires q.accepted == p.accepted && q.custody.handed == p.custody.handed + [h]
    requires q.overwritten == p.overwritten && q.chan.pendingSend == None
    ensures Accounted(q)
  {
    MessagesAppend(p.custody.handed, h);
  }

  lemma SendAccounted<M>(p: Proto<M>, ends: Ends, m: M, nonblock: bool)
    requires Registered(p, ends) && RendezvousInv(p) && p.sender.SIdle? && p.chan.capacity == 0
    ensures Accounted(SendStep(p, ends, m, nonblock))
  {
    hide Accounted, Messages, Displaced, HasRoom, HandPort;
    var q := SendStep(p, ends, m, nonblock);
    if p.chan.recvClosed {
      SameAccount(p, q);
    } else if p.chan.blockedReceiver.Some? {
      StoredAccount(p, q, m);
    } else if p.chan.pendingPort.Some? {
      var k := p.chan.pendingPort.value.port;
      HandPortLog(p.custody, k, m);
      HandedAccount(p, q, ToPort(m, k, HasRoom(p.custody, k)));
    } else if nonblock {
      SameAccount(p, q);
    } else {
      StoredAccount(p, q, m);
    }
  }

  lemma HandPortLog<M>(c: Custody<M>, k: nat, m: M)
    ensures HandPort(c, k, m).handed == c.handed + [ToPort(m, k, HasRoom(c, k))]
    ensures HandPort(c, k, m).received == c.received
  {
  }

  lemma SendBuffered<M>(p: Proto<M>, ends: Ends, m: M, nonblock: bool)
    requires Registered(p, ends) && BufferedInv(p) && Waits(p, nonblock) && (p.sender.SRetry? || p.sender.SIdle?) && p.chan.capacity > 0
    ensures BufferedInv(SendStep(p, ends, m, nonblock))
  {
    hide Succeeded;
    SucceededAppend(p.answers, Answer(m, true));
    SucceededAppend(p.answers, Answer(m, false));
    assert p.accepted + [m] == Messages(p.custody.handed) + (p.chan.queue + [m]);
    if p.receiver.RArmed? {
      var k := p.chan.pendingPort.value.port;
      assert p.chan.queue + [m] == [m];
      MessagesAppend(p.custody.handed, ToPort(m, k, HasRoom(p.custody, k)));
    }
  }

  lemma SubmitSendRegistered<M>(p: Proto<M>, ends: Ends, info: PortSend<M>)
    requires Registered(p, ends) && ends.sender != ends.receiver && p.sender.SIdle?
    ensures Registered(SubmitSendStep(p, ends, info), ends)
  {
    hide HandPort, Posted;
  }

  lemma SubmitSendRendezvous<M>(p: Proto<M>, ends: Ends, info: PortSend<M>)
    requires Registered(p, ends) && RendezvousInv(p) && p.sender.SIdle? && p.chan.capacity == 0
    ensures RendezvousInv(SubmitSendStep(p, ends, info))
  {
    hide Accounted, Messages, Displaced, HasRoom, HandPort, Posted;
    var q, m := SubmitSendStep(p, ends, info), info.envelope;
    PostedLog(p.custody, info.port, Status);
    if p.chan.recvClosed {
      SameAccount(p, q);
    } else if p.chan.blockedReceiver.Some? {
      StoredAccount(p, q, m);
    } else if p.chan.pendingPort.Some? {
      var k := p.chan.pendingPort.value.port;
      HandPortLog(p.custody, k, m);
      PostedLog(HandPort(p.custody, k, m), info.port, Status);
      HandedAccount(p, q, ToPort(m, k, HasRoom(p.custody, k)));
    } else {
      SameAccount(p, q);
    }
  }

  lemma PostedLog<M>(c: Custody<M>, k: nat, item: Item<M>)
    ensures Posted(c, k, item).handed == c.handed && Posted(c, k, item).received == c.received
  {
  }

  lemma SubmitSendBuffered<M>(p: Proto<M>, ends: Ends, info: PortSend<M>)
    requires Registered(p, ends) && BufferedInv(p) && p.sender.SIdle? && p.chan.capacity > 0
    ensures BufferedInv(SubmitSendStep(p, ends, info))
  {
    hide Succeeded;
    var m := info.envelope;
    SucceededAppend(p.answers, Answer(m, true));
    SucceededAppend(p.answers, Answer(m, false));
    assert p.accepted + [m] == Messages(p.custody.handed) + (p.chan.queue + [m]);
    if p.receiver.RArmed? {
      var k := p.chan.pendingPort.value.port;
      assert p.chan.queue + [m] == [m];
      MessagesAppend(p.custody.handed, ToPort(m, k, HasRoom(p.custody, k)));
    }
  }

  /** A receive resumed while still registered finds nothing. */
  predicate RecvWaits<M>(p: Proto<M>, nonblock: bool) {
    p.receiverBlocked ==> p.receiver.RRetry? && !nonblock && p.chan.queue == [] && p.chan.pendingSend.None? &&
                          (p.chan.capacity == 0 ==> p.chan.pendingSendPort.None?)
  }

  lemma RecvRegistered<M>(p: Proto<M>, ends: Ends, nonblock: bool)
    requires Registered(p, ends) && ends.sender != ends.receiver && RecvWaits(p, nonblock) && !p.receiver.RArmed?
    ensures Registered(RecvStep(p, ends, nonblock), ends)
  {
    hide RecvStep, Registered;
    if p.chan.capacity == 0 { RendezvousRecvRegistered(p, ends, nonblock); } else { BufferedRecvRegistered(p, ends, nonblock); }
  }

  /** The two states agree on everything that registration is about. */
  ghost predicate SameRegistration<M>(p: Proto<M>, q: Proto<M>) {
    q.chan == p.chan && q.sender == p.sender && q.receiver == p.receiver
    && q.senderBlocked == p.senderBlocked && q.receiverBlocked == p.receiverBlocked
  }

  lemma RendezvousRecvRegistered<M>(p: Proto<M>, ends: Ends, nonblock: bool)
    requires Registered(p, ends) && ends.sender != ends.receiver && RecvWaits(p, nonblock) && !p.receiver.RArmed?
    requires p.chan.capacity == 0
    ensures Registered(RecvStep(p, ends, nonblock), ends)
  {
    hide HandDirect, Posted;
    var c, q := p.chan, RecvStep(p, ends, nonblock);
    if c.pendingSend.Some? {
      assert SameRegistration(p.(chan := c.(pendingSend := None, blockedSender := None), receiver := RIdle, senderBlocked := false), q);
    } else if c.pendingSendPort.Some? {
      assert SameRegistration(p.(chan := c.(pendingSendPort := None), sender := SIdle, receiver := RIdle), q);
    } else if c.sendClosed || nonblock {
      assert SameRegistration(p.(receiver := RIdle), q);
    } else {
      assert SameRegistration(p.(chan := c.(blockedReceiver := Some(ends.receiver)), receiver := RRetry, receiverBlocked := true), q);
    }
  }

  lemma BufferedRecvRegistered<M>(p: Proto<M>, ends: Ends, nonblock: bool)
    requires Registered(p, ends) && ends.sender != ends.receiver && RecvWaits(p, nonblock) && !p.receiver.RArmed?
    requires p.chan.capacity > 0
    ensures Registered(RecvStep(p, ends, nonblock), ends)
  {
    hide HandDirect, Posted;
    var c, q := p.chan, RecvStep(p, ends, nonblock);
    var rest := if c.queue == [] then c else c.(queue := c.queue[1..]);
    if c.queue != [] && c.blockedSender.Some? {
      assert SameRegistration(p.(chan := rest.(blockedSender := None), receiver := RIdle, senderBlocked := false), q);
    } else if c.queue != [] && c.pendingSendPort.Some? {
      var refilled := rest.(queue := rest.queue + [c.pendingSendPort.value.envelope], pendingSendPort := None);
      assert SameRegistration(p.(chan := refilled, sender := SIdle, receiver := RIdle), q);
    } else if c.queue != [] || c.sendClosed || nonblock {
      assert SameRegistration(p.(chan := rest, receiver := RIdle), q);
    } else {
      assert SameRegistration(p.(chan := c.(blockedReceiver := Some(ends.receiver)), receiver := RRetry, receiverBlocked := true), q);
    }
  }

  lemma RecvRendezvous<M>(p: Proto<M>, ends: Ends, nonblock: bool)
    requires Registered(p, ends) && RendezvousInv(p) && !p.receiver.RArmed? && p.chan.capacity == 0
    ensures RendezvousInv(RecvStep(p, ends, nonblock))
  {
    hide Accounted, Messages, Posted;
    var q, c := RecvStep(p, ends, nonblock), p.chan;
    if c.pendingSend.Some? {
      MessagesAppend(p.custody.handed, Direct(c.pendingSend.value));
      TakenAccount(p, q, Direct(c.pendingSend.value));
    } else if c.pendingSendPort.Some? {
      var reg := c.pendingSendPort.value;
      PostedLog(HandDirect(p.custody, reg.envelope), reg.port, Status);
      HandedAccount(p, q, Direct(reg.envelope));
    } else {
      SameAccount(p, q);
    }
  }

  lemma RecvBuffered<M>(p: Proto<M>, ends: Ends, nonblock: bool)
    requires Registered(p, ends) && BufferedInv(p) && RecvWaits(p, nonblock) && !p.receiver.RArmed? && p.chan.capacity > 0
    ensures BufferedInv(RecvStep(p, ends, nonblock))
  {
    hide Succeeded;
    var q := p.chan.queue;
    if q != [] {
      MessagesAppend(p.custody.handed, Direct(q[0]));
      Refilled(p, Messages(p.custody.handed));
    }
  }

  /** Taking the front of a full buffer and letting an armed send in behind keeps the order. */
  lemma Refilled<M>(p: Proto<M>, handed: seq<M>)
    requires p.chan.queue != [] && p.accepted == handed + p.chan.queue && p.accepted == Succeeded(p.answers)
    ensures p.accepted == (handed + [p.chan.queue[0]]) + p.chan.queue[1..]
    ensures p.chan.pendingSendPort.Some? ==>
              var m := p.chan.pendingSendPort.value.envelope;
              && p.accepted + [m] == (handed + [p.chan.queue[0]]) + (p.chan.queue[1..] + [m])
              && p.accepted + [m] == Succeeded(p.answers + [Answer(m, true)])
  {
    if p.chan.pendingSendPort.Some? {
      SucceededAppend(p.answers, Answer(p.chan.pendingSendPort.value.envelope, true));
    }
  }

  lemma SubmitRecvRegistered<M>(p: Proto<M>, ends: Ends, reg: PortRecv)
    requires Registered(p, ends) && ends.sender != ends.receiver && p.receiver.RIdle?
    ensures Registered(SubmitRecvStep(p, ends, reg), ends)
  {
    hide HandPort, Posted;
  }

  lemma SubmitRecvRendezvous<M>(p: Proto<M>, ends: Ends, reg: PortRecv)
    requires Registered(p, ends) && RendezvousInv(p) && p.receiver.RIdle? && p.chan.capacity == 0
    ensures RendezvousInv(SubmitRecvStep(p, ends, reg))
  {
    hide Accounted, Messages, Posted, HandPort, HasRoom;
    var q, c := SubmitRecvStep(p, ends, reg), p.chan;
    var kept := HasRoom(p.custody, reg.port);
    PostedLog(p.custody, reg.port, Closed);
    if c.pendingSend.Some? {
      var h := ToPort(c.pendingSend.value, reg.port, kept);
      HandPortLog(p.custody, reg.port, h.msg);
      MessagesAppend(p.custody.handed, h);
      TakenAccount(p, q, h);
    } else if c.pendingSendPort.Some? {
      var h := ToPort(c.pendingSendPort.value.envelope, reg.port, kept);
      HandPortLog(p.custody, reg.port, h.msg);
      PostedLog(HandPort(p.custody, reg.port, h.msg), c.pendingSendPort.value.port, Status);
      HandedAccount(p, q, h);
    } else {
      SameAccount(p, q);
    }
  }

  lemma SubmitRecvBuffered<M>(p: Proto<M>, ends: Ends, reg: PortRecv)
    requires Registered(p, ends) && BufferedInv(p) && p.receiver.RIdle? && p.chan.capacity > 0
    ensures BufferedInv(SubmitRecvStep(p, ends, reg))
  {
    hide Succeeded;
    var q := p.chan.queue;
    if q != [] {
      MessagesAppend(p.custody.handed, ToPort(q[0], reg.port, HasRoom(p.custody, reg.port)));
      Refilled(p, Messages(p.custody.handed));
    }
  }

  lemma CloseSendRegistered<M>(p: Proto<M>, ends: Ends)
    requires Registered(p, ends) && ends.sender != ends.receiver && p.chan.sendCount >= 1
    ensures Registered(CloseSendStep(p, ends), ends)
  {
    hide Posted;
  }

  lemma CloseSendRendezvous<M>(p: Proto<M>, ends: Ends)
    requires Registered(p, ends) && RendezvousInv(p) && p.chan.sendCount >= 1
    ensures RendezvousInv(CloseSendStep(p, ends))
  {
    hide Accounted, Posted, Messages;
    if p.chan.pendingPort.Some? { PostedLog(p.custody, p.chan.pendingPort.value.port, Closed); }
    SameAccount(p, CloseSendStep(p, ends));
  }

  lemma CloseSendBuffered<M>(p: Proto<M>, ends: Ends)
    requires Registered(p, ends) && BufferedInv(p) && p.chan.sendCount >= 1
    ensures BufferedInv(CloseSendStep(p, ends))
  {
    hide Posted, Messages, Succeeded;
    if p.chan.pendingPort.Some? { PostedLog(p.custody, p.chan.pendingPort.value.port, Closed); }
  }

  lemma CloseRecvRegistered<M>(p: Proto<M>, ends: Ends)
    requires Registered(p, ends) && ends.sender != ends.receiver && p.chan.recvCount >= 1
    ensures Registered(CloseRecvStep(p, ends), ends)
  {
    hide Posted;
  }

  lemma CloseRecvRendezvous<M>(p: Proto<M>, ends: Ends)
    requires Registered(p, ends) && RendezvousInv(p) && p.chan.recvCount >= 1
    ensures RendezvousInv(CloseRecvStep(p, ends))
  {
    hide Accounted, Posted, Messages;
    if p.chan.pendingSendPort.Some? { PostedLog(p.custody, p.chan.pendingSendPort.value.port, Status); }
    SameAccount(p, CloseRecvStep(p, ends));
  }

  lemma CloseRecvBuffered<M>(p: Proto<M>, ends: Ends)
    requires Registered(p, ends) && BufferedInv(p) && p.chan.recvCount >= 1
    ensures BufferedInv(CloseRecvStep(p, ends))
  {
    hide Posted, Messages, Succeeded;
    if p.chan.pendingSendPort.Some? {
      PostedLog(p.custody, p.chan.pendingSendPort.value.port, Status);
      SucceededAppend(p.answers, Answer(p.chan.pendingSendPort.value.envelope, false));
    }
  }

  lemma CallRegistered<M>(p: Proto<M>, ends: Ends, call: Call<M>)
    requires ProtoInv(p, ends) && CallLegal(p, call)
    ensures Registered(CallStep(p, ends, call), ends)
  {
    hide Delivery.Inv, SendStep, SubmitSendStep, RecvStep, SubmitRecvStep, CloseSendStep, CloseRecvStep;
    match call
    case Send(m, nonblock) => SendRegistered(p, ends, m, nonblock);
    case ResumeSend => if p.sender.SRetry? { SendRegistered(p, ends, p.sender.msg, false); }
    case SubmitSend(info) => SubmitSendRegistered(p, ends, info);
    case Recv(nonblock) => RecvRegistered(p, ends, nonblock);
    case ResumeRecv => RecvRegistered(p, ends, false);
    case SubmitRecv(reg) => SubmitRecvRegistered(p, ends, reg);
    case CloseSend => CloseSendRegistered(p, ends);
    case CloseRecv => CloseRecvRegistered(p, ends);
    case DupSend =>
    case DupRecv =>
  }

  lemma CallRendezvous<M>(p: Proto<M>, ends: Ends, call: Call<M>)
    requires ProtoInv(p, ends) && CallLegal(p, call) && p.chan.capacity == 0
    ensures RendezvousInv(CallStep(p, ends, call))
  {
    hide Delivery.Inv, SendStep, SubmitSendStep, RecvStep, SubmitRecvStep, CloseSendStep, CloseRecvStep, BufferedInv;
    match call
    case Send(m, nonblock) => SendRendezvous(p, ends, m, nonblock);
    case ResumeSend =>
    case SubmitSend(info) => SubmitSendRendezvous(p, ends, info);
    case Recv(nonblock) => RecvRendezvous(p, ends, nonblock);
    case ResumeRecv => RecvRendezvous(p, ends, false);
    case SubmitRecv(reg) => SubmitRecvRendezvous(p, ends, reg);
    case CloseSend => CloseSendRendezvous(p, ends);
    case CloseRecv => CloseRecvRendezvous(p, ends);
    case DupSend =>
    case DupRecv =>
  }

  lemma CallBuffered<M>(p: Proto<M>, ends: Ends, call: Call<M>)
    requires ProtoInv(p, ends) && CallLegal(p, call) && p.chan.capacity > 0
    ensures BufferedInv(CallStep(p, ends, call))
  {
    hide Delivery.Inv, SendStep, SubmitSendStep, RecvStep, SubmitRecvStep, CloseSendStep, CloseRecvStep, Succeeded, RendezvousInv;
    match call
    case Send(m, nonblock) => SendBuffered(p, ends, m, nonblock);
    case ResumeSend => SendBuffered(p, ends, p.sender.msg, false);
    case SubmitSend(info) => SubmitSendBuffered(p, ends, info);
    case Recv(nonblock) => RecvBuffered(p, ends, nonblock);
    case ResumeRecv => RecvBuffered(p, ends, false);
    case SubmitRecv(reg) => SubmitRecvBuffered(p, ends, reg);
    case CloseSend => CloseSendBuffered(p, ends);
    case CloseRecv => CloseRecvBuffered(p, ends);
    case DupSend =>
    case DupRecv =>
  }

  lemma CallKeepsInv<M>(p: Proto<M>, ends: Ends, call: Call<M>)
    requires ProtoInv(p, ends) && CallLegal(p, call)
    ensures ProtoInv(CallStep(p, ends, call), ends)
  {
    hide Registered, RendezvousInv, BufferedInv, PortsExist, Delivery.Inv, CallStep;
    CallRegistered(p, ends, call);
    CallCustody(p, ends, call);
    CallPortsExist(p, ends, call);
    CallKeepsCapacity(p, ends, call);
    if p.chan.capacity == 0 { CallRendezvous(p, ends, call); } else { CallBuffered(p, ends, call); }
  }

  lemma CallKeepsCapacity<M>(p: Proto<M>, ends: Ends, call: Call<M>)
    requires CallLegal(p, call)
    ensures CallStep(p, ends, call).chan.capacity == p.chan.capacity
  {
    hide SendOutcome, ArmSendOutcome, RecvOutcome, ArmRecvOutcome, CloseSendOutcome, CloseRecvOutcome;
    hide HandPort, HandDirect, Posted;
  }

  // ---- composition with the scheduler ----

  datatype Sys<M> = Sys(sched: Sc.Sched, proto: Proto<M>)

  /**
   * `Env`: any scheduler step of anybody.  `Do`: a call on the channel.  `Foreign`: a
   * completion from any other source.  `Reap`: somebody drains a port.  `Await`: the running
   * thread registers with a port and blocks.  `Open`: a new port.
   */
  datatype Event<M> =
    | Env(action: Sc.Action)
    | Do(call: Call<M>)
    | Foreign(port: nat)
    | Reap(port: nat, max: nat)
    | Await(port: nat)
    | Open(port: nat, bound: nat, ring: bool)

  /** The thread the channel wakes in a call, and whether the call blocks its caller. */
  function CallEffect<M>(p: Proto<M>, ends: Ends, call: Call<M>): (Option<nat>, bool)
    requires CallLegal(p, call)
  {
    match call
    case Send(m, nonblock) => var o := SendOutcome(p.chan, ends.sender, m, nonblock); (o.wakes, o.blocks)
    case ResumeSend =>
      if p.sender.SRetry? then
        var o := SendOutcome(p.chan, ends.sender, p.sender.msg, false); (o.wakes, o.blocks)
      else (None, false)
    case SubmitSend(info) => (ArmSendOutcome(p.chan, info).wakes, false)
    case Recv(nonblock) => var o := RecvOutcome(p.chan, ends.receiver, nonblock); (o.wakes, o.blocks)
    case ResumeRecv => var o := RecvOutcome(p.chan, ends.receiver, false); (o.wakes, o.blocks)
    case SubmitRecv(reg) => (ArmRecvOutcome(p.chan, reg).wakes, false)
    case CloseSend => (CloseSendOutcome(p.chan).wakes, false)
    case CloseRecv => (CloseRecvOutcome(p.chan).wakes, false)
    case _ => (None, false)
  }

  function SendPosts<M>(a: SendAction<M>): seq<nat> {
    if a.PostToPort? then [a.reg.port] else []
  }

  /** The ports a call posts to, in order. */
  function CallPosts<M>(p: Proto<M>, ends: Ends, call: Call<M>): seq<nat>
    requires CallLegal(p, call)
  {
    match call
    case Send(m, nonblock) => SendPosts(SendOutcome(p.chan, ends.sender, m, nonblock).action)
    case ResumeSend =>
      if p.sender.SRetry? then SendPosts(SendOutcome(p.chan, ends.sender, p.sender.msg, false).action) else []
    case SubmitSend(info) =>
      (match ArmSendOutcome(p.chan, info).action
       case ReadyToRecvPort(reg, _) => [reg.port, info.port]
       case SendArmed => []
       case _ => [info.port])
    case Recv(nonblock) => RecvPosts(RecvOutcome(p.chan, ends.receiver, nonblock).action)
    case ResumeRecv => RecvPosts(RecvOutcome(p.chan, ends.receiver, false).action)
    case SubmitRecv(reg) =>
      (match ArmRecvOutcome(p.chan, reg).action
       case RecvReadyAndNotify(_, port, _) => [reg.port, port]
       case RecvArmed => []
       case _ => [reg.port])
    case CloseSend =>
      var a := CloseSendOutcome(p.chan).action; if a.NotifyRecvPort? then [a.reg.port] else []
    case CloseRecv =>
      var a := CloseRecvOutcome(p.chan).action; if a.NotifySendPort? then [a.reg.port] else []
    case _ => []
  }

  function RecvPosts<M>(a: RecvAction<M>): seq<nat> {
    if a.MessageAndNotifySendPort? then [a.port] else []
  }

  /** The threads registered with these ports. */
  function Waiters<M>(c: Custody<M>, ks: seq<nat>): seq<nat> {
    if ks == [] then []
    else (if Waiter(c, ks[0]).Some? then [Waiter(c, ks[0]).value] else []) + Waiters(c, ks[1..])
  }

  /** Everybody a call wakes: whom the channel wakes, and the waiters of the ports it posts to. */
  function CallWakes<M>(p: Proto<M>, ends: Ends, call: Call<M>): seq<nat>
    requires CallLegal(p, call)
  {
    var (wakes, _) := CallEffect(p, ends, call);
    (if wakes.Some? then [wakes.value] else []) + Waiters(p.custody, CallPosts(p, ends, call))
  }

  ghost function WakeAll(s: Sc.Sched, ts: seq<nat>): (r: Sc.Sched)
    requires Sc.Inv(s)
    ensures Sc.Inv(r) && r.idle == s.idle && r.current == s.current
    ensures forall t: nat :: Sc.IsBlocked(r, t) <==> Sc.IsBlocked(s, t) && t !in ts
    decreases |ts|
  {
    hide Sc.Inv, Sc.Step;
    if ts == [] then s
    else
      Sc.StepKeepsInv(s, Sc.Unblock(ts[0]));
      Sc.IdleIsFixed(s, Sc.Unblock(ts[0]));
      Sc.UnblockKeepsCurrent(s, ts[0]);
      assert forall t: nat :: Sc.IsBlocked(Sc.Step(s, Sc.Unblock(ts[0])), t) <==> Sc.IsBlocked(s, t) && t != ts[0] by {
        forall t: nat
          ensures Sc.IsBlocked(Sc.Step(s, Sc.Unblock(ts[0])), t) <==> Sc.IsBlocked(s, t) && t != ts[0]
        {
          Sc.BlockedOnlyBy(s, Sc.Unblock(ts[0]), t);
        }
      }
      assert ts == [ts[0]] + ts[1..];
      WakeAll(Sc.Step(s, Sc.Unblock(ts[0])), ts[1..])
  }

  lemma SendFlags<M>(p: Proto<M>, ends: Ends, m: M, nonblock: bool)
    ensures var o := SendOutcome(p.chan, ends.sender, m, nonblock);
            var q := SendStep(p, ends, m, nonblock);
            && (q.senderBlocked <==> o.blocks || (p.senderBlocked && o.wakes != Some(ends.sender)))
            && (q.receiverBlocked <==> p.receiverBlocked && o.wakes != Some(ends.receiver))
            && (o.blocks ==> InSend(q) && o.wakes == None)
            && (!o.blocks ==> q.sender.SIdle?)
            && (q.receiver == p.receiver || q.receiver.RIdle?)
  {
    hide HandPort, Displaced;
  }

  lemma RecvFlags<M>(p: Proto<M>, ends: Ends, nonblock: bool)
    ensures var o := RecvOutcome(p.chan, ends.receiver, nonblock);
            var q := RecvStep(p, ends, nonblock);
            && (q.senderBlocked <==> p.senderBlocked && o.wakes != Some(ends.sender))
            && (q.receiverBlocked <==> o.blocks || (p.receiverBlocked && o.wakes != Some(ends.receiver)))
            && (o.blocks ==> InRecv(q) && o.wakes == None)
            && (!o.blocks ==> q.receiver.RIdle?)
            && (q.sender == p.sender || q.sender.SIdle?)
  {
    hide HandDirect, Posted;
  }

  lemma SubmitSendFlags<M>(p: Proto<M>, ends: Ends, info: PortSend<M>)
    ensures var o, q := ArmSendOutcome(p.chan, info), SubmitSendStep(p, ends, info);
            && (q.senderBlocked <==> p.senderBlocked && o.wakes != Some(ends.sender))
            && (q.receiverBlocked <==> p.receiverBlocked && o.wakes != Some(ends.receiver))
            && (q.sender == p.sender || !InSend(q)) && (q.receiver == p.receiver || q.receiver.RIdle?)
  {
    hide HandPort, Posted, Displaced, ArmSendOutcome;
  }

  /**
   * What the flags and phases become is exactly the call's effect: an end is newly inside a
   * blocking call only when the call blocks it, and its wait ends only when the channel wakes it.
   */
  lemma CallFlags<M>(p: Proto<M>, ends: Ends, call: Call<M>)
    requires CallLegal(p, call)
    ensures var (wakes, blocks) := CallEffect(p, ends, call);
            var q := CallStep(p, ends, call);
            && (q.senderBlocked <==> (blocks && BySender(call)) || (p.senderBlocked && wakes != Some(ends.sender)))
            && (q.receiverBlocked <==> (blocks && ByReceiver(call)) || (p.receiverBlocked && wakes != Some(ends.receiver)))
            && (blocks ==> wakes == None && (BySender(call) || ByReceiver(call)))
            && (InSend(q) ==> (blocks && BySender(call)) || (!BySender(call) && q.sender == p.sender))
            && (InRecv(q) ==> (blocks && ByReceiver(call)) || (!ByReceiver(call) && InRecv(p)))
  {
    hide SendStep, RecvStep, SubmitSendStep, SubmitRecvStep;
    hide SendOutcome, RecvOutcome, ArmSendOutcome, ArmRecvOutcome, CloseSendOutcome, CloseRecvOutcome, Posted;
    match call
    case Send(m, nonblock) => SendFlags(p, ends, m, nonblock);
    case ResumeSend => if p.sender.SRetry? { SendFlags(p, ends, p.sender.msg, false); }
    case SubmitSend(info) => SubmitSendFlags(p, ends, info);
    case Recv(nonblock) => RecvFlags(p, ends, nonblock);
    case ResumeRecv => RecvFlags(p, ends, false);
    case SubmitRecv(reg) => SubmitRecvFlags(p, ends, reg);
    case _ =>
  }

  lemma SubmitRecvFlags<M>(p: Proto<M>, ends: Ends, reg: PortRecv)
    ensures var o, q := ArmRecvOutcome(p.chan, reg), SubmitRecvStep(p, ends, reg);
            && (q.senderBlocked <==> p.senderBlocked && o.wakes != Some(ends.sender))
            && (q.receiverBlocked <==> p.receiverBlocked && o.wakes != Some(ends.receiver))
            && (q.sender == p.sender || q.sender.SIdle?) && (q.receiver == p.receiver || !InRecv(q))
  {
    hide HandPort, Posted, ArmRecvOutcome;
  }

  /** The running thread is not inside a channel call of this channel. */
  predicate OutsideCalls<M>(sys: Sys<M>, ends: Ends) {
    && (sys.sched.current == ends.sender ==> !InSend(sys.proto))
    && (sys.sched.current == ends.receiver ==> !InRecv(sys.proto))
  }

  /**
   * A call runs on its end's thread; any running thread may close or duplicate a descriptor.
   * Outside their calls the ends may block and die like any other thread; inside and outside,
   * anybody may wake them.
   */
  predicate EventLegal<M>(sys: Sys<M>, ends: Ends, e: Event<M>) {
    match e
    case Env(a) => Sc.Legal(sys.sched, a) && (a.BlockAndYield? || a.KillAndYield? ==> OutsideCalls(sys, ends))
    case Do(call) =>
      && CallLegal(sys.proto, call)
      && (BySender(call) ==> sys.sched.current == ends.sender)
      && (ByReceiver(call) ==> sys.sched.current == ends.receiver)
    case Foreign(k) => k in sys.proto.custody.ports
    case Reap(k, _) => k in sys.proto.custody.ports
    case Await(k) => k in sys.proto.custody.ports && sys.sched.current != sys.sched.idle && OutsideCalls(sys, ends)
    case Open(k, _, _) => k !in sys.proto.custody.ports
  }

  /** An end blocked inside a call is one the channel has registered. */
  ghost predicate Agrees<M>(sys: Sys<M>, ends: Ends) {
    && (InSend(sys.proto) && Sc.IsBlocked(sys.sched, ends.sender) ==> sys.proto.senderBlocked)
    && (InRecv(sys.proto) && Sc.IsBlocked(sys.sched, ends.receiver) ==> sys.proto.receiverBlocked)
  }

  ghost predicate SysInv<M>(sys: Sys<M>, ends: Ends) {
    && Sc.Inv(sys.sched)
    && ends.sender != sys.sched.idle && ends.receiver != sys.sched.idle
    && ProtoInv(sys.proto, ends)
    && Agrees(sys, ends)
  }

  /** A call: the caller blocks, or everybody the call wakes is unblocked. */
  ghost function SchedAfter<M>(sys: Sys<M>, ends: Ends, call: Call<M>): Sc.Sched
    requires SysInv(sys, ends) && EventLegal(sys, ends, Do(call))
  {
    CallFlags(sys.proto, ends, call);
    if CallEffect(sys.proto, ends, call).1 then Sc.Step(sys.sched, Sc.BlockAndYield)
    else WakeAll(sys.sched, CallWakes(sys.proto, ends, call))
  }

  ghost function SysStep<M>(sys: Sys<M>, ends: Ends, e: Event<M>): Sys<M>
    requires SysInv(sys, ends) && EventLegal(sys, ends, e)
  {
    var p, c := sys.proto, sys.proto.custody;
    match e
    case Env(a) => sys.(sched := Sc.Step(sys.sched, a))
    case Do(call) => Sys(SchedAfter(sys, ends, call), CallStep(p, ends, call))
    case Foreign(k) => Sys(WakeAll(sys.sched, Waiters(c, [k])), p.(custody := Posted(c, k, Status)))
    case Reap(k, max) => sys.(proto := p.(custody := Reaped(c, k, max)))
    case Await(k) => Sys(Sc.Step(sys.sched, Sc.BlockAndYield), p.(custody := Awaited(c, k, sys.sched.current)))
    case Open(k, bound, ring) => sys.(proto := p.(custody := Opened(c, k, bound, ring)))
  }

  /** The channel marks its caller blocked under the lock; with the yield that follows this is the scheduler's blocking step. */
  lemma MarkedThenYielded<M>(s: Sc.Sched, c: Chan<M>, m: M)
    requires Sc.Inv(s) && s.current != s.idle
    ensures var sent := SendOutcome(c, s.cpu.threadIdx, m, false);
            sent.blocks ==> Sc.YieldStep(Effect(s, sent)) == Sc.Step(s, Sc.BlockAndYield)
    ensures var received := RecvOutcome(c, s.cpu.threadIdx, false);
            received.blocks ==> Sc.YieldStep(Effect(s, received)) == Sc.Step(s, Sc.BlockAndYield)
  {
    hide Sc.Inv, Sc.YieldStep;
    Sc.CurrentRuns(s);
  }

  lemma EnvKeepsInv<M>(sys: Sys<M>, ends: Ends, a: Sc.Action)
    requires SysInv(sys, ends) && EventLegal(sys, ends, Env(a))
    ensures SysInv(SysStep(sys, ends, Env(a)), ends)
  {
    hide ProtoInv, Sc.Inv, Sc.Step;
    Sc.StepKeepsInv(sys.sched, a);
    Sc.BlockedOnlyBy(sys.sched, a, ends.sender);
    Sc.BlockedOnlyBy(sys.sched, a, ends.receiver);
    Sc.IdleIsFixed(sys.sched, a);
  }

  lemma DoKeepsInv<M>(sys: Sys<M>, ends: Ends, call: Call<M>)
    requires SysInv(sys, ends) && EventLegal(sys, ends, Do(call))
    ensures SysInv(SysStep(sys, ends, Do(call)), ends)
  {
    hide ProtoInv, Sc.Inv, Sc.Step, CallStep, CallEffect, CallPosts, Waiters;
    CallFlags(sys.proto, ends, call);
    CallKeepsInv(sys.proto, ends, call);
    EndsDiffer(sys.proto, ends);
    var (wakes, blocks) := CallEffect(sys.proto, ends, call);
    if blocks {
      Sc.StepKeepsInv(sys.sched, Sc.BlockAndYield);
      Sc.BlockedOnlyBy(sys.sched, Sc.BlockAndYield, ends.sender);
      Sc.BlockedOnlyBy(sys.sched, Sc.BlockAndYield, ends.receiver);
      Sc.IdleIsFixed(sys.sched, Sc.BlockAndYield);
    }
  }

  lemma EndsDiffer<M>(p: Proto<M>, ends: Ends)
    requires ProtoInv(p, ends)
    ensures ends.sender != ends.receiver
  {
  }

  /** Steps that touch the ports only. */
  lemma PortStepKeepsProto<M>(p: Proto<M>, ends: Ends, c: Custody<M>)
    requires ProtoInv(p, ends) && Delivery.Inv(c) && c.handed == p.custody.handed
    requires forall k :: k in p.custody.ports ==> k in c.ports
    ensures ProtoInv(p.(custody := c), ends)
  {
    hide Delivery.Inv, Messages, Succeeded;
  }

  lemma PortEventKeepsInv<M>(sys: Sys<M>, ends: Ends, e: Event<M>)
    requires SysInv(sys, ends) && EventLegal(sys, ends, e) && !e.Env? && !e.Do?
    ensures SysInv(SysStep(sys, ends, e), ends)
  {
    hide ProtoInv, Sc.Inv, Sc.Step, Delivery.Inv, Waiters;
    var c := sys.proto.custody;
    CustodyIsOk(sys.proto, ends);
    PortEventCustody(c, e, sys.sched.current);
    PortStepKeepsProto(sys.proto, ends, SysStep(sys, ends, e).proto.custody);
    if e.Await? {
      Sc.StepKeepsInv(sys.sched, Sc.BlockAndYield);
      Sc.BlockedOnlyBy(sys.sched, Sc.BlockAndYield, ends.sender);
      Sc.BlockedOnlyBy(sys.sched, Sc.BlockAndYield, ends.receiver);
      Sc.IdleIsFixed(sys.sched, Sc.BlockAndYield);
    }
  }

  lemma CustodyIsOk<M>(p: Proto<M>, ends: Ends)
    requires ProtoInv(p, ends)
    ensures Delivery.Inv(p.custody)
  {
  }

  /** What a port event does to the ports. */
  function CustodyAfter<M>(c: Custody<M>, e: Event<M>, current: nat): Custody<M> {
    match e
    case Foreign(k) => Posted(c, k, Status)
    case Reap(k, max) => Reaped(c, k, max)
    case Await(k) => Awaited(c, k, current)
    case Open(k, bound, ring) => Opened(c, k, bound, ring)
    case _ => c
  }

  lemma PortEventCustody<M>(c: Custody<M>, e: Event<M>, current: nat)
    requires Delivery.Inv(c)
    ensures var c' := CustodyAfter(c, e, current);
            Delivery.Inv(c') && c'.handed == c.handed && forall k :: k in c.ports ==> k in c'.ports
  {
    hide Delivery.Inv;
    match e
    case Foreign(k) => NoteKeepsInv(c, k, Status);
    case Reap(k, max) => ReapKeepsInv(c, k, max);
    case Await(k) => AwaitKeepsInv(c, k, current);
    case Open(k, bound, ring) => OpenKeepsInv(c, k, bound, ring);
    case _ =>
  }

  lemma SysStepKeepsInv<M>(sys: Sys<M>, ends: Ends, e: Event<M>)
    requires SysInv(sys, ends) && EventLegal(sys, ends, e)
    ensures SysInv(SysStep(sys, ends, e), ends)
  {
    hide SysInv;
    match e
    case Env(a) => EnvKeepsInv(sys, ends, a);
    case Do(call) => DoKeepsInv(sys, ends, call);
    case _ => PortEventKeepsInv(sys, ends, e);
  }

  ghost predicate LegalRun<M>(sys: Sys<M>, ends: Ends, events: seq<Event<M>>)
    requires SysInv(sys, ends)
    decreases |events|
  {
    events == [] ||
    (EventLegal(sys, ends, events[0]) &&
     (SysStepKeepsInv(sys, ends, events[0]); LegalRun(SysStep(sys, ends, events[0]), ends, events[1..])))
  }

  ghost function Run<M>(sys: Sys<M>, ends: Ends, events: seq<Event<M>>): (r: Sys<M>)
    requires SysInv(sys, ends) && LegalRun(sys, ends, events)
    ensures SysInv(r, ends)
    decreases |events|
  {
    if events == [] then sys
    else SysStepKeepsInv(sys, ends, events[0]); Run(SysStep(sys, ends, events[0]), ends, events[1..])
  }

  /** A new channel between two threads, over ports that hold nothing yet. */
  ghost predicate Start<M>(sys: Sys<M>, ends: Ends, capacity: nat) {
    && Sc.Inv(sys.sched) && sys.proto == Fresh(capacity, sys.proto.custody.ports)
    && (forall k | k in sys.proto.custody.ports :: sys.proto.custody.ports[k].port.queue == [])
    && ends.sender != ends.receiver
    && ends.sender != sys.sched.idle && ends.receiver != sys.sched.idle
  }

  lemma StartInv<M>(sys: Sys<M>, ends: Ends, capacity: nat)
    requires Start(sys, ends, capacity)
    ensures SysInv(sys, ends)
    ensures LostOf(sys.proto.custody.handed) == [] && InOrder(sys.proto.custody)
  {
    hide Sc.Inv, Delivery.Inv;
    FreshKeepsInv(sys.proto.custody.ports);
  }

  lemma {:induction false} RunKeepsCapacity<M>(sys: Sys<M>, ends: Ends, events: seq<Event<M>>)
    requires SysInv(sys, ends) && LegalRun(sys, ends, events)
    ensures Run(sys, ends, events).proto.chan.capacity == sys.proto.chan.capacity
    decreases |events|
  {
    hide SysInv;
    if events != [] {
      SysStepKeepsInv(sys, ends, events[0]);
      StepKeepsCapacity(sys, ends, events[0]);
      RunKeepsCapacity(SysStep(sys, ends, events[0]), ends, events[1..]);
    }
  }

  lemma StepKeepsCapacity<M>(sys: Sys<M>, ends: Ends, e: Event<M>)
    requires SysInv(sys, ends) && EventLegal(sys, ends, e)
    ensures SysStep(sys, ends, e).proto.chan.capacity == sys.proto.chan.capacity
  {
    hide SysInv, Sc.Step, CallStep, CallEffect, CallPosts, Waiters, SchedAfter;
    if e.Do? {
      CallKeepsCapacity(sys.proto, ends, e.call);
    }
  }

  // ---- delivery ----

  /** The message a call hands over, and how: to its caller (`None`) or to a port. */
  datatype HandOver<M> = Nothing | ToCaller(msg: M) | ToQueue(msg: M, port: nat)

  function HandsOver<M>(p: Proto<M>, ends: Ends, call: Call<M>): HandOver<M>
    requires CallLegal(p, call)
  {
    match call
    case Send(m, nonblock) => SendHands(SendOutcome(p.chan, ends.sender, m, nonblock).action)
    case ResumeSend =>
      if p.sender.SRetry? then SendHands(SendOutcome(p.chan, ends.sender, p.sender.msg, false).action) else Nothing
    case SubmitSend(info) =>
      (match ArmSendOutcome(p.chan, info).action
       case ReadyToRecvPort(reg, x) => ToQueue(x, reg.port)
       case _ => Nothing)
    case Recv(nonblock) => RecvHands(RecvOutcome(p.chan, ends.receiver, nonblock).action)
    case ResumeRecv => RecvHands(RecvOutcome(p.chan, ends.receiver, false).action)
    case SubmitRecv(reg) =>
      (match ArmRecvOutcome(p.chan, reg).action
       case RecvReady(x) => ToQueue(x, reg.port)
       case RecvReadyAndNotify(x, _, _) => ToQueue(x, reg.port)
       case _ => Nothing)
    case _ => Nothing
  }

  function SendHands<M>(a: SendAction<M>): HandOver<M> {
    if a.PostToPort? then ToQueue(a.msg, a.reg.port) else Nothing
  }

  function RecvHands<M>(a: RecvAction<M>): HandOver<M> {
    if a.Message? || a.MessageAndNotifySendPort? then ToCaller(a.msg) else Nothing
  }

  /** What the logs become: nothing, a direct receipt, or a post that is kept exactly if the port has room. */
  function LogAfter<M>(c: Custody<M>, h: HandOver<M>): (seq<Hand<M>>, seq<nat>) {
    match h
    case Nothing => (c.handed, c.received)
    case ToCaller(m) => (c.handed + [Direct(m)], c.received + [|c.handed|])
    case ToQueue(m, k) => (c.handed + [ToPort(m, k, HasRoom(c, k))], c.received)
  }

  lemma SendLog<M>(p: Proto<M>, ends: Ends, m: M, nonblock: bool)
    ensures var q := SendStep(p, ends, m, nonblock).custody;
            (q.handed, q.received) == LogAfter(p.custody, SendHands(SendOutcome(p.chan, ends.sender, m, nonblock).action))
  {
    hide SendOutcome, HandPort, Displaced, HasRoom;
    var a := SendOutcome(p.chan, ends.sender, m, nonblock).action;
    if a.PostToPort? { HandPortLog(p.custody, a.reg.port, a.msg); }
  }

  lemma SubmitSendLog<M>(p: Proto<M>, ends: Ends, info: PortSend<M>)
    ensures var q := SubmitSendStep(p, ends, info).custody;
            var a := ArmSendOutcome(p.chan, info).action;
            (q.handed, q.received) ==
              LogAfter(p.custody, if a.ReadyToRecvPort? then ToQueue(a.msg, a.reg.port) else Nothing)
  {
    hide ArmSendOutcome, HandPort, Posted, Displaced, HasRoom;
    var a := ArmSendOutcome(p.chan, info).action;
    PostedLog(p.custody, info.port, Status);
    if a.ReadyToRecvPort? {
      HandPortLog(p.custody, a.reg.port, a.msg);
      PostedLog(HandPort(p.custody, a.reg.port, a.msg), info.port, Status);
    }
  }

  lemma RecvLog<M>(p: Proto<M>, ends: Ends, nonblock: bool)
    ensures var q := RecvStep(p, ends, nonblock).custody;
            (q.handed, q.received) == LogAfter(p.custody, RecvHands(RecvOutcome(p.chan, ends.receiver, nonblock).action))
  {
    hide RecvOutcome, Posted;
    var a := RecvOutcome(p.chan, ends.receiver, nonblock).action;
    if (a.Message? || a.MessageAndNotifySendPort?) && p.chan.pendingSendPort.Some? {
      PostedLog(HandDirect(p.custody, a.msg), p.chan.pendingSendPort.value.port, Status);
    }
  }

  lemma SubmitRecvLog<M>(p: Proto<M>, ends: Ends, reg: PortRecv)
    ensures var q := SubmitRecvStep(p, ends, reg).custody;
            var a := ArmRecvOutcome(p.chan, reg).action;
            (q.handed, q.received) ==
              LogAfter(p.custody, if a.RecvReady? || a.RecvReadyAndNotify? then ToQueue(a.msg, reg.port) else Nothing)
  {
    hide ArmRecvOutcome, HandPort, Posted, HasRoom;
    var a := ArmRecvOutcome(p.chan, reg).action;
    PostedLog(p.custody, reg.port, Closed);
    if a.RecvReady? || a.RecvReadyAndNotify? {
      HandPortLog(p.custody, reg.port, a.msg);
      if p.chan.pendingSendPort.Some? {
        PostedLog(HandPort(p.custody, reg.port, a.msg), p.chan.pendingSendPort.value.port, Status);
      }
    }
  }

  lemma CloseLog<M>(p: Proto<M>, ends: Ends)
    ensures p.chan.sendCount >= 1 ==>
              CloseSendStep(p, ends).custody.handed == p.custody.handed && CloseSendStep(p, ends).custody.received == p.custody.received
    ensures p.chan.recvCount >= 1 ==>
              CloseRecvStep(p, ends).custody.handed == p.custody.handed && CloseRecvStep(p, ends).custody.received == p.custody.received
  {
    hide Posted;
    if p.chan.pendingPort.Some? { PostedLog(p.custody, p.chan.pendingPort.value.port, Closed); }
    if p.chan.pendingSendPort.Some? { PostedLog(p.custody, p.chan.pendingSendPort.value.port, Status); }
  }

  /** A call's effect on the logs is its one hand-over. */
  lemma CallLog<M>(p: Proto<M>, ends: Ends, call: Call<M>)
    requires CallLegal(p, call)
    ensures var q := CallStep(p, ends, call).custody;
            (q.handed, q.received) == LogAfter(p.custody, HandsOver(p, ends, call))
  {
    hide SendStep, SubmitSendStep, RecvStep, SubmitRecvStep, CloseSendStep, CloseRecvStep;
    hide SendOutcome, RecvOutcome, ArmSendOutcome, ArmRecvOutcome;
    match call
    case Send(m, nonblock) => SendLog(p, ends, m, nonblock);
    case ResumeSend => if p.sender.SRetry? { SendLog(p, ends, p.sender.msg, false); }
    case SubmitSend(info) => SubmitSendLog(p, ends, info);
    case Recv(nonblock) => RecvLog(p, ends, nonblock);
    case ResumeRecv => RecvLog(p, ends, false);
    case SubmitRecv(reg) => SubmitRecvLog(p, ends, reg);
    case CloseSend => CloseLog(p, ends);
    case CloseRecv => CloseLog(p, ends);
    case _ =>
  }

  /** This event posts a message to a port whose queue is at its bound. */
  ghost predicate PostsToFull<M>(sys: Sys<M>, ends: Ends, e: Event<M>)
    requires SysInv(sys, ends) && EventLegal(sys, ends, e)
  {
    e.Do? &&
    (var h := HandsOver(sys.proto, ends, e.call);
     h.ToQueue? && !HasRoom(sys.proto.custody, h.port))
  }

  /** A message is lost in a step exactly when it is posted to a full port, and then it is that message. */
  lemma LostExactlyAtBound<M>(sys: Sys<M>, ends: Ends, e: Event<M>)
    requires SysInv(sys, ends) && EventLegal(sys, ends, e)
    ensures var before, after := LostOf(sys.proto.custody.handed), LostOf(SysStep(sys, ends, e).proto.custody.handed);
            if PostsToFull(sys, ends, e)
            then CallLegal(sys.proto, e.call) && after == before + [HandsOver(sys.proto, ends, e.call).msg]
            else after == before
  {
    hide SysInv, Sc.Step, CallStep, HandsOver, SchedAfter, HasRoom, LostOf, Waiters, CallPosts;
    var c := sys.proto.custody;
    if e.Do? {
      CallLog(sys.proto, ends, e.call);
      var h := HandsOver(sys.proto, ends, e.call);
      match h
      case Nothing =>
      case ToCaller(m) => LostSnoc(c.handed, Direct(m));
      case ToQueue(m, k) => LostSnoc(c.handed, ToPort(m, k, HasRoom(c, k)));
    }
  }

  ghost predicate RoomAtEveryPost<M>(sys: Sys<M>, ends: Ends, events: seq<Event<M>>)
    requires SysInv(sys, ends) && LegalRun(sys, ends, events)
    decreases |events|
  {
    events == [] ||
    (!PostsToFull(sys, ends, events[0]) &&
     (SysStepKeepsInv(sys, ends, events[0]); RoomAtEveryPost(SysStep(sys, ends, events[0]), ends, events[1..])))
  }

  lemma {:induction false} LossesNeverShrink<M>(sys: Sys<M>, ends: Ends, events: seq<Event<M>>)
    requires SysInv(sys, ends) && LegalRun(sys, ends, events)
    ensures |LostOf(sys.proto.custody.handed)| <= |LostOf(Run(sys, ends, events).proto.custody.handed)|
    decreases |events|
  {
    hide SysInv, LostOf, SysStep;
    if events != [] {
      SysStepKeepsInv(sys, ends, events[0]);
      LostExactlyAtBound(sys, ends, events[0]);
      LossesNeverShrink(SysStep(sys, ends, events[0]), ends, events[1..]);
    }
  }

  /** Over a run, no message handed over is lost if and only if every post of a message found room. */
  lemma {:induction false} LostIffNoRoom<M>(sys: Sys<M>, ends: Ends, events: seq<Event<M>>)
    requires SysInv(sys, ends) && LegalRun(sys, ends, events) && LostOf(sys.proto.custody.handed) == []
    ensures LostOf(Run(sys, ends, events).proto.custody.handed) == [] <==> RoomAtEveryPost(sys, ends, events)
    decreases |events|
  {
    hide SysInv, LostOf, SysStep, PostsToFull;
    if events != [] {
      SysStepKeepsInv(sys, ends, events[0]);
      LostExactlyAtBound(sys, ends, events[0]);
      var next := SysStep(sys, ends, events[0]);
      if PostsToFull(sys, ends, events[0]) {
        LossesNeverShrink(next, ends, events[1..]);
      } else {
        LostIffNoRoom(next, ends, events[1..]);
      }
    }
  }

  /**
   * Any mix of blocking, non-blocking and completion-port sends and receives on a buffered
   * channel, with ports that others fill as well: the messages whose sends succeeded leave the
   * channel once each and in that order, never more than the capacity wait in it, and each
   * one handed over is received, waits in its port, or was lost.
   */
  lemma DeliveredInOrder<M>(sys: Sys<M>, ends: Ends, events: seq<Event<M>>)
    requires SysInv(sys, ends) && LegalRun(sys, ends, events) && sys.proto.chan.capacity > 0
    ensures var p := Run(sys, ends, events).proto;
            && p.accepted == Succeeded(p.answers)
            && p.accepted == Messages(p.custody.handed) + p.chan.queue
            && |p.chan.queue| <= sys.proto.chan.capacity
            && OneFate(p.custody) && PathsInOrder(p.custody)
  {
    hide Sc.Inv, Registered, PortsOk, OneFate, PathsInOrder, Messages, Succeeded;
    RunKeepsCapacity(sys, ends, events);
  }

  /** Nothing handed over is lost, so that every success reaches the receiver's custody exactly once, iff every post found room. */
  lemma DeliveredExactlyOnce<M>(sys: Sys<M>, ends: Ends, events: seq<Event<M>>)
    requires SysInv(sys, ends) && LegalRun(sys, ends, events) && sys.proto.chan.capacity > 0
    requires LostOf(sys.proto.custody.handed) == []
    ensures var p := Run(sys, ends, events).proto;
            Succeeded(p.answers) == KeptOf(p.custody.handed) + p.chan.queue <==> RoomAtEveryPost(sys, ends, events)
  {
    hide SysInv, LostOf, KeptOf, Succeeded, LegalRun, Run, RoomAtEveryPost, OneFate, PathsInOrder;
    DeliveredInOrder(sys, ends, events);
    LostIffNoRoom(sys, ends, events);
    KeptAndLost(Run(sys, ends, events).proto.custody.handed);
  }

  /** The receiver gets a message while an older one still waits in a port. */
  ghost predicate Overtakes<M>(sys: Sys<M>, ends: Ends, e: Event<M>)
    requires SysInv(sys, ends) && EventLegal(sys, ends, e)
  {
    match e
    case Do(call) =>
      HandsOver(sys.proto, ends, call).ToCaller? && SomeWaiting(sys.proto.custody)
    case Reap(k, max) => ReapOvertakes(sys.proto.custody, k, max)
    case _ => false
  }

  lemma SameLogsSameOrder<M>(c: Custody<M>, c': Custody<M>)
    requires c'.handed == c.handed && c'.received == c.received
    ensures InOrder(c') <==> InOrder(c)
  {
  }

  lemma CallOrder<M>(p: Proto<M>, ends: Ends, call: Call<M>)
    requires Delivery.Inv(p.custody) && CallLegal(p, call)
    ensures InOrder(CallStep(p, ends, call).custody) <==>
            InOrder(p.custody) && !(HandsOver(p, ends, call).ToCaller? && SomeWaiting(p.custody))
  {
    hide CallStep, HandsOver, InOrder, SomeWaiting, HasRoom;
    CallLog(p, ends, call);
    var c, c', h := p.custody, CallStep(p, ends, call).custody, HandsOver(p, ends, call);
    match h
    case Nothing => SameLogsSameOrder(c, c');
    case ToCaller(m) =>
      DirectOrder(c, m);
      SameLogsSameOrder(HandDirect(c, m), c');
    case ToQueue(m, k) => LongerLogKeepsOrder(c, c');
  }

  lemma StepOrder<M>(sys: Sys<M>, ends: Ends, e: Event<M>)
    requires SysInv(sys, ends) && EventLegal(sys, ends, e)
    ensures InOrder(SysStep(sys, ends, e).proto.custody) <==> InOrder(sys.proto.custody) && !Overtakes(sys, ends, e)
  {
    hide ProtoInv, Sc.Inv, Sc.Step, Delivery.Inv, CallStep, HandsOver, SchedAfter, InOrder, SomeWaiting, ReapOvertakes, Waiters, CallPosts;
    CustodyIsOk(sys.proto, ends);
    var c, c' := sys.proto.custody, SysStep(sys, ends, e).proto.custody;
    match e
    case Env(_) =>
    case Do(call) =>
      CallOrder(sys.proto, ends, call);
    case Foreign(k) =>
      PostedLog(c, k, Status);
      SameLogsSameOrder(c, c');
    case Reap(k, max) => ReapOrder(c, k, max);
    case Await(_) => SameLogsSameOrder(c, c');
    case Open(_, _, _) => SameLogsSameOrder(c, c');
  }

  ghost predicate NoOvertaking<M>(sys: Sys<M>, ends: Ends, events: seq<Event<M>>)
    requires SysInv(sys, ends) && LegalRun(sys, ends, events)
    decreases |events|
  {
    events == [] ||
    (!Overtakes(sys, ends, events[0]) &&
     (SysStepKeepsInv(sys, ends, events[0]); NoOvertaking(SysStep(sys, ends, events[0]), ends, events[1..])))
  }

  /** The receiver gets the messages in the order in which they were handed over iff no receipt overtakes. */
  lemma {:induction false} ReceivedInOrder<M>(sys: Sys<M>, ends: Ends, events: seq<Event<M>>)
    requires SysInv(sys, ends) && LegalRun(sys, ends, events)
    ensures InOrder(Run(sys, ends, events).proto.custody) <==>
            InOrder(sys.proto.custody) && NoOvertaking(sys, ends, events)
    decreases |events|
  {
    hide SysInv, SysStep, InOrder, Overtakes;
    if events != [] {
      SysStepKeepsInv(sys, ends, events[0]);
      StepOrder(sys, ends, events[0]);
      var next := SysStep(sys, ends, events[0]);
      ReceivedInOrder(next, ends, events[1..]);
    }
  }

  /** From a new channel, with room at every post and no overtaking: the j-th message received is the j-th success. */
  lemma ReceiverSeesSuccesses<M>(sys: Sys<M>, ends: Ends, events: seq<Event<M>>, capacity: nat)
    requires Start(sys, ends, capacity) && capacity > 0 && SysInv(sys, ends) && LegalRun(sys, ends, events)
    requires RoomAtEveryPost(sys, ends, events) && NoOvertaking(sys, ends, events)
    ensures var p := Run(sys, ends, events).proto;
            && |p.custody.received| <= |p.custody.handed| <= |Succeeded(p.answers)|
            && forall j | 0 <= j < |p.custody.received| ::
                 p.custody.received[j] == j && p.custody.handed[j].msg == Succeeded(p.answers)[j]
  {
    StartInv(sys, ends, capacity);
    hide SysInv, LostOf, Succeeded, LegalRun, Run, RoomAtEveryPost, NoOvertaking, PathsInOrder, InOrder;
    DeliveredInOrder(sys, ends, events);
    LostIffNoRoom(sys, ends, events);
    ReceivedInOrder(sys, ends, events);
    var c := Run(sys, ends, events).proto.custody;
    ReceivedIsPrefix(c, |c.received|);
    PrefixFits(c);
  }

  lemma PrefixFits<M>(c: Custody<M>)
    requires OneFate(c) && forall j | 0 <= j < |c.received| :: c.received[j] == j
    ensures |c.received| <= |c.handed|
  {
    if c.received != [] {
      assert c.received[|c.received| - 1] in c.received;
    }
  }

  /** The calls that tell the receiver its peer is gone. */
  predicate ReportsClosed<M>(p: Proto<M>, ends: Ends, call: Call<M>)
    requires CallLegal(p, call)
  {
    match call
    case Recv(nonblock) => RecvOutcome(p.chan, ends.receiver, nonblock).action.RecvPeerClosed?
    case ResumeRecv => RecvOutcome(p.chan, ends.receiver, false).action.RecvPeerClosed?
    case SubmitRecv(reg) => ArmRecvOutcome(p.chan, reg).action.RecvArmPeerClosed?
    case CloseSend => CloseSendOutcome(p.chan).action.NotifyRecvPort?
    case _ => false
  }

  /**
   * The receiver is told "peer closed" only once every accepted message has been handed over;
   * it has then received them all if and only if none was lost to a full port and none waits in one.
   */
  lemma ClosedOnlyWhenDrained<M>(sys: Sys<M>, ends: Ends, call: Call<M>)
    requires SysInv(sys, ends) && EventLegal(sys, ends, Do(call)) && sys.proto.chan.capacity > 0
    ensures CallLegal(sys.proto, call)
    ensures ReportsClosed(sys.proto, ends, call) ==>
              var c := sys.proto.custody;
              && sys.proto.accepted == Messages(c.handed)
              && ((forall i | 0 <= i < |c.handed| :: i in c.received) <==> LostOf(c.handed) == [] && !SomeWaiting(c))
  {
    CustodyIsOk(sys.proto, ends);
    AllReceived(sys.proto.custody);
    if ReportsClosed(sys.proto, ends, call) { QueueEmptyAtClose(sys.proto, ends, call); }
  }

  lemma QueueEmptyAtClose<M>(p: Proto<M>, ends: Ends, call: Call<M>)
    requires ProtoInv(p, ends) && CallLegal(p, call) && p.chan.capacity > 0 && ReportsClosed(p, ends, call)
    ensures p.chan.queue == [] && p.accepted == Messages(p.custody.handed)
  {
    hide Delivery.Inv, Messages, Succeeded;
    assert p.chan.queue == [];
    assert Messages(p.custody.handed) + [] == Messages(p.custody.handed);
  }

  // ---- blocking ----

  /** A blocked sender's reason: its own message is untaken, or the queue is full. */
  ghost predicate SendStuck<M>(p: Proto<M>) {
    if p.chan.capacity == 0 then p.sender.SWaiting? && p.chan.pendingSend == Some(p.sender.msg)
    else |p.chan.queue| == p.chan.capacity
  }

  /** In every reachable state, for any capacity: an end blocked inside a call has cause to be, is registered, and is alone. */
  lemma BlockedWithCause<M>(sys: Sys<M>, ends: Ends, events: seq<Event<M>>)
    requires SysInv(sys, ends) && LegalRun(sys, ends, events)
    ensures var r := Run(sys, ends, events);
            var c := r.proto.chan;
            && (InRecv(r.proto) && Sc.IsBlocked(r.sched, ends.receiver) ==>
                  !Receivable(c) && !c.sendClosed && c.blockedReceiver == Some(ends.receiver))
            && (InSend(r.proto) && Sc.IsBlocked(r.sched, ends.sender) ==>
                  SendStuck(r.proto) && !c.recvClosed && c.blockedSender == Some(ends.sender))
            && !(InRecv(r.proto) && Sc.IsBlocked(r.sched, ends.receiver) && InSend(r.proto) && Sc.IsBlocked(r.sched, ends.sender))
  {
    hide Sc.Inv, Delivery.Inv, Messages, Succeeded, Accounted;
  }

  /** No wakeup is lost: whatever ends the wait also unblocks the waiter, in the same step. */
  lemma WakeupsArrive<M>(sys: Sys<M>, ends: Ends, call: Call<M>)
    requires SysInv(sys, ends) && EventLegal(sys, ends, Do(call))
    ensures var r := SysStep(sys, ends, Do(call)).sched;
            var p := sys.proto;
            && (InRecv(p) && Sc.IsBlocked(sys.sched, ends.receiver) &&
                ((BySender(call) && !p.sender.SWaiting? && !p.chan.recvClosed) || (call.CloseSend? && p.chan.sendCount == 1))
                ==> !Sc.IsBlocked(r, ends.receiver))
            && (InSend(p) && Sc.IsBlocked(sys.sched, ends.sender) &&
                (ByReceiver(call) || (call.CloseRecv? && p.chan.recvCount == 1))
                ==> !Sc.IsBlocked(r, ends.sender))
  {
    WakesTheWaiter(sys.proto, ends, call);
    hide Sc.Inv, Sc.Step, ProtoInv, CallEffect, CallPosts, CallStep, Waiters;
  }

  lemma WakesTheWaiter<M>(p: Proto<M>, ends: Ends, call: Call<M>)
    requires ProtoInv(p, ends) && CallLegal(p, call)
    ensures p.receiverBlocked &&
            ((BySender(call) && !p.sender.SWaiting? && !p.chan.recvClosed) || (call.CloseSend? && p.chan.sendCount == 1))
            ==> CallEffect(p, ends, call) == (Some(ends.receiver), false)
    ensures p.senderBlocked && (ByReceiver(call) || (call.CloseRecv? && p.chan.recvCount == 1))
            ==> CallEffect(p, ends, call) == (Some(ends.sender), false)
  {
    hide Delivery.Inv, Messages, Succeeded, Accounted;
  }

  /**
   * A non-blocking call never gives up the CPU, never leaves its caller blocked or inside a call,
   * and is told to try again, with the channel as it was, exactly when the peer is open and
   * there is nothing to receive, or no room.
   */
  lemma NonblockingReturns<M>(sys: Sys<M>, ends: Ends, call: Call<M>)
    requires SysInv(sys, ends) && EventLegal(sys, ends, Do(call))
    requires (call.Send? || call.Recv?) && call.nonblock
    ensures var r := SysStep(sys, ends, Do(call));
            && r.sched.current == sys.sched.current && !Sc.IsBlocked(r.sched, sys.sched.current)
            && (call.Send? ==> r.proto.sender.SIdle?) && (call.Recv? ==> r.proto.receiver.RIdle?)
    ensures call.Send? ==>
              var o := SendOutcome(sys.proto.chan, ends.sender, call.msg, true);
              && (o.action == WouldBlock(call.msg) <==> !sys.proto.chan.recvClosed && !Takes(sys.proto.chan))
              && (o.action == WouldBlock(call.msg) ==> SysStep(sys, ends, Do(call)).proto.chan == sys.proto.chan)
    ensures call.Recv? ==>
              var o := RecvOutcome<M>(sys.proto.chan, ends.receiver, true);
              && (o.action == RecvWouldBlock <==> !sys.proto.chan.sendClosed && !Receivable(sys.proto.chan))
              && (o.action == RecvWouldBlock ==> SysStep(sys, ends, Do(call)).proto.chan == sys.proto.chan)
  {
    hide Sc.Inv, Sc.Step, ProtoInv, CallPosts, Waiters, SendOutcome, RecvOutcome, SendStep, RecvStep;
    var c := sys.proto.chan;
    Sc.CurrentRuns(sys.sched);
    StepChan(sys.proto, ends, call);
    if call.Send? {
      SendAnswers(c, ends.sender, call.msg, true);
      SendFlags(sys.proto, ends, call.msg, true);
    } else {
      RecvAnswers(c, ends.receiver, true);
      RecvFlags(sys.proto, ends, true);
    }
  }

  /** A send is answered at once unless it blocks or is armed, and then with success exactly when its message was taken. */
  lemma SendIsAnswered<M>(p: Proto<M>, ends: Ends, m: M, nonblock: bool, info: PortSend<M>)
    ensures SendStep(p, ends, m, nonblock).answers ==
            if !p.chan.recvClosed && !Takes(p.chan) && !nonblock then p.answers
            else p.answers + [Answer(m, !p.chan.recvClosed && Takes(p.chan))]
    ensures SubmitSendStep(p, ends, info).answers ==
            if !p.chan.recvClosed && !Takes(p.chan) then p.answers
            else p.answers + [Answer(info.envelope, !p.chan.recvClosed)]
  {
    hide HandPort, Posted, Displaced;
  }

  /** What a port is told: the end of the stream when the last sender goes or has gone, the outcome of a send otherwise. */
  lemma CompletionKinds<M>(p: Proto<M>, ends: Ends, reg: PortRecv)
    ensures p.chan.sendCount == 1 && p.chan.blockedReceiver.None? && p.chan.pendingPort.Some? ==>
              CloseSendStep(p, ends).custody == Posted(p.custody, p.chan.pendingPort.value.port, Closed)
    ensures !Receivable(p.chan) && p.chan.sendClosed ==> SubmitRecvStep(p, ends, reg).custody == Posted(p.custody, reg.port, Closed)
    ensures p.chan.capacity == 0 && p.chan.pendingSend.None? && p.chan.pendingSendPort.Some? ==>
              var ps := p.chan.pendingSendPort.value;
              && RecvStep(p, ends, false).custody == Posted(HandDirect(p.custody, ps.envelope), ps.port, Status)
              && SubmitRecvStep(p, ends, reg).custody == Posted(HandPort(p.custody, reg.port, ps.envelope), ps.port, Status)
  {
    hide Posted, HandPort, HandDirect;
  }

  lemma PostedWaiter<M>(c: Custody<M>, k: nat, item: Item<M>, j: nat)
    ensures Waiter(Posted(c, k, item), j) == if j == k then None else Waiter(c, j)
  {
  }

  lemma HandPortWaiter<M>(c: Custody<M>, k: nat, m: M, j: nat)
    ensures Waiter(HandPort(c, k, m), j) == if j == k then None else Waiter(c, j)
  {
  }

  lemma HandDirectWaiter<M>(c: Custody<M>, m: M, j: nat)
    ensures Waiter(HandDirect(c, m), j) == Waiter(c, j)
  {
  }

  lemma SendWaiters<M>(p: Proto<M>, ends: Ends, m: M, nonblock: bool, j: nat)
    ensures Waiter(SendStep(p, ends, m, nonblock).custody, j) ==
            if j in SendPosts(SendOutcome(p.chan, ends.sender, m, nonblock).action) then None else Waiter(p.custody, j)
  {
    hide HandPort, Waiter, Displaced, SendOutcome;
    var a := SendOutcome(p.chan, ends.sender, m, nonblock).action;
    if a.PostToPort? { HandPortWaiter(p.custody, a.reg.port, a.msg, j); }
  }

  lemma SubmitSendWaiters<M>(p: Proto<M>, ends: Ends, info: PortSend<M>, j: nat)
    requires CallLegal(p, SubmitSend(info))
    ensures Waiter(SubmitSendStep(p, ends, info).custody, j) ==
            if j in CallPosts(p, ends, SubmitSend(info)) then None else Waiter(p.custody, j)
  {
    hide HandPort, Posted, Waiter, Displaced, ArmSendOutcome;
    var a := ArmSendOutcome(p.chan, info).action;
    PostedWaiter(p.custody, info.port, Status, j);
    if a.ReadyToRecvPort? {
      HandPortWaiter(p.custody, a.reg.port, a.msg, j);
      PostedWaiter(HandPort(p.custody, a.reg.port, a.msg), info.port, Status, j);
    }
  }

  lemma RecvWaiters<M>(p: Proto<M>, ends: Ends, nonblock: bool, j: nat)
    ensures Waiter(RecvStep(p, ends, nonblock).custody, j) ==
            if j in RecvPosts(RecvOutcome(p.chan, ends.receiver, nonblock).action) then None else Waiter(p.custody, j)
  {
    hide HandDirect, Posted, Waiter, RecvOutcome;
    RecvAnswers(p.chan, ends.receiver, nonblock);
    var a := RecvOutcome(p.chan, ends.receiver, nonblock).action;
    if a.Message? || a.MessageAndNotifySendPort? {
      HandDirectWaiter(p.custody, a.msg, j);
      if a.MessageAndNotifySendPort? { PostedWaiter(HandDirect(p.custody, a.msg), a.port, Status, j); }
    }
  }

  lemma SubmitRecvWaiters<M>(p: Proto<M>, ends: Ends, reg: PortRecv, j: nat)
    requires CallLegal(p, SubmitRecv(reg))
    ensures Waiter(SubmitRecvStep(p, ends, reg).custody, j) ==
            if j in CallPosts(p, ends, SubmitRecv(reg)) then None else Waiter(p.custody, j)
  {
    hide HandPort, Posted, Waiter, ArmRecvOutcome;
    var a := ArmRecvOutcome(p.chan, reg).action;
    ArmedPort(p.chan, reg);
    PostedWaiter(p.custody, reg.port, Closed, j);
    if a.RecvReady? || a.RecvReadyAndNotify? {
      HandPortWaiter(p.custody, reg.port, a.msg, j);
      if a.RecvReadyAndNotify? { PostedWaiter(HandPort(p.custody, reg.port, a.msg), a.port, Status, j); }
    }
  }

  lemma ArmedPort<M>(c: Chan<M>, reg: PortRecv)
    ensures var a := ArmRecvOutcome(c, reg).action;
            a.RecvReadyAndNotify? ==> c.pendingSendPort.Some? && c.pendingSendPort.value.port == a.port
  {
  }

  /** A call ends exactly the registrations with the ports it posts to. */
  lemma CallWaiters<M>(p: Proto<M>, ends: Ends, call: Call<M>, j: nat)
    requires CallLegal(p, call) && Registered(p, ends)
    ensures Waiter(CallStep(p, ends, call).custody, j) == if j in CallPosts(p, ends, call) then None else Waiter(p.custody, j)
  {
    hide Posted, HandPort, HandDirect, Waiter, Displaced;
    var c := p.custody;
    match call
    case Send(m, nonblock) => SendWaiters(p, ends, m, nonblock, j);
    case ResumeSend => if p.sender.SRetry? { SendWaiters(p, ends, p.sender.msg, false, j); }
    case SubmitSend(info) => SubmitSendWaiters(p, ends, info, j);
    case Recv(nonblock) => RecvWaiters(p, ends, nonblock, j);
    case ResumeRecv => RecvWaiters(p, ends, false, j);
    case SubmitRecv(reg) => SubmitRecvWaiters(p, ends, reg, j);
    case CloseSend => if p.chan.pendingPort.Some? { PostedWaiter(c, p.chan.pendingPort.value.port, Closed, j); }
    case CloseRecv => if p.chan.pendingSendPort.Some? { PostedWaiter(c, p.chan.pendingSendPort.value.port, Status, j); }
    case _ =>
  }

  lemma {:induction false} WaitersOf<M>(c: Custody<M>, ks: seq<nat>, k: nat)
    requires k in ks && Waiter(c, k).Some?
    ensures Waiter(c, k).value in Waiters(c, ks)
  {
    if ks[0] != k { WaitersOf(c, ks[1..], k); }
  }

  /** No wakeup is lost at the ports either: whoever a call's post finds registered with a port is not Blocked afterwards. */
  lemma PostsWakeWaiters<M>(sys: Sys<M>, ends: Ends, call: Call<M>, k: nat, t: nat)
    requires SysInv(sys, ends) && EventLegal(sys, ends, Do(call)) && Waiter(sys.proto.custody, k) == Some(t)
    ensures var r := SysStep(sys, ends, Do(call));
            && (HandsOver(sys.proto, ends, call).ToQueue? && HandsOver(sys.proto, ends, call).port == k ==>
                  Waiter(r.proto.custody, k) == None)
            && (Waiter(r.proto.custody, k) != Some(t) ==> !Sc.IsBlocked(r.sched, t))
  {
    RegisteredIsKnown(sys, ends);
    CallWaiters(sys.proto, ends, call, k);
    HandsOverPosts(sys.proto, ends, call);
    hide Sc.Inv, Sc.Step, ProtoInv, Registered, CallStep, Waiters, Waiter, CallPosts, HandsOver;
    if k in CallPosts(sys.proto, ends, call) {
      WaitersOf(sys.proto.custody, CallPosts(sys.proto, ends, call), k);
      PostersDoNotBlock(sys.proto, ends, call);
    }
  }

  lemma RegisteredIsKnown<M>(sys: Sys<M>, ends: Ends)
    requires SysInv(sys, ends)
    ensures Registered(sys.proto, ends)
  {
  }

  lemma HandsOverPosts<M>(p: Proto<M>, ends: Ends, call: Call<M>)
    requires CallLegal(p, call)
    ensures HandsOver(p, ends, call).ToQueue? ==> HandsOver(p, ends, call).port in CallPosts(p, ends, call)
  {
    hide SendOutcome, RecvOutcome, ArmSendOutcome, ArmRecvOutcome;
  }

  lemma PostersDoNotBlock<M>(p: Proto<M>, ends: Ends, call: Call<M>)
    requires CallLegal(p, call) && CallPosts(p, ends, call) != []
    ensures !CallEffect(p, ends, call).1
  {
  }

  // ---- rendezvous ----

  /** In every reachable state of a rendezvous channel each message it took was handed over, overwritten, or is in the slot. */
  lemma RendezvousAccount<M>(sys: Sys<M>, ends: Ends, events: seq<Event<M>>)
    requires SysInv(sys, ends) && LegalRun(sys, ends, events) && sys.proto.chan.capacity == 0
    ensures var p := Run(sys, ends, events).proto;
            multiset(p.accepted) == multiset(Messages(p.custody.handed)) + multiset(p.overwritten) + Slot(p.chan.pendingSend)
  {
    hide Sc.Inv, Registered, Delivery.Inv, Messages;
    RunKeepsCapacity(sys, ends, events);
  }

  /**
   * A message is overwritten exactly when a blocking send finds the slot still full: the receiver it
   * woke has not run yet, or the registration is stale.
   */
  lemma OverwrittenExactly<M>(p: Proto<M>, ends: Ends, call: Call<M>)
    requires ProtoInv(p, ends) && CallLegal(p, call) && p.chan.capacity == 0
    ensures var q := CallStep(p, ends, call);
            if call.Send? && !call.nonblock && !p.chan.recvClosed && p.chan.pendingSend.Some?
            then q.overwritten == p.overwritten + [p.chan.pendingSend.value]
            else q.overwritten == p.overwritten
  {
    hide Delivery.Inv, Messages, Accounted, HandPort, HandDirect, Posted;
  }

  /**
   * In every reachable state, a waiting rendezvous send that is resumed, by whomever: it answers
   * success exactly while the receive end is open.  Its message was then taken if and only if
   * the channel no longer has the sender registered; otherwise it is still in the slot.
   */
  lemma RendezvousTaken<M>(sys: Sys<M>, ends: Ends, events: seq<Event<M>>)
    requires SysInv(sys, ends) && LegalRun(sys, ends, events)
    requires var r := Run(sys, ends, events); r.proto.sender.SWaiting? && EventLegal(r, ends, Do(ResumeSend))
    ensures var p := Run(sys, ends, events).proto;
            && CallStep(p, ends, ResumeSend).answers == p.answers + [Answer(p.sender.msg, !p.chan.recvClosed)]
            && (WasTaken(p) <==> p.chan.pendingSend.None?)
            && (!WasTaken(p) ==> p.chan.pendingSend == Some(p.sender.msg))
            && (!p.chan.recvClosed ==> (WasTaken(p) <==> p.chan.blockedSender.None?))
  {
    hide Sc.Inv, Delivery.Inv, Messages, Accounted, LegalRun, Run;
  }

  /** The channel has a sender registered whose send has already been answered. */
  predicate Stale<M>(p: Proto<M>) {
    p.chan.capacity == 0 && p.chan.blockedSender.Some? && !p.sender.SWaiting?
  }

  /** A registration is stale exactly since a send answered while registered; a receive, the last close or a new wait ends that. */
  lemma StaleExactly<M>(p: Proto<M>, ends: Ends, call: Call<M>)
    requires ProtoInv(p, ends) && CallLegal(p, call) && p.chan.capacity == 0
    ensures Stale(CallStep(p, ends, call)) <==>
            if call.ResumeSend? then p.chan.blockedSender.Some?
            else Stale(p) && !ByReceiver(call) && !(call.CloseRecv? && p.chan.recvCount == 1) && !(call.Send? && !call.nonblock)
  {
    hide Delivery.Inv, Messages, Accounted, HandPort, HandDirect, Posted, Displaced;
  }

  /** The slot behind a stale registration holds an answered message, and the next blocking send loses it. */
  lemma StaleSendOverwrites<M>(p: Proto<M>, ends: Ends, m: M)
    requires ProtoInv(p, ends) && Stale(p) && CallLegal(p, Send(m, false))
    ensures p.chan.pendingSend.Some?
    ensures var q := CallStep(p, ends, Send(m, false));
            && q.overwritten == p.overwritten + [p.chan.pendingSend.value]
            && q.chan.pendingSend == Some(m) && q.custody == p.custody
  {
    hide Delivery.Inv, Messages, Accounted;
  }

  /** An armed send that nothing can complete any more. */
  predicate Stranded<M>(p: Proto<M>) {
    p.chan.recvClosed && p.sender.SArmed? && (InRecv(p) ==> p.chan.pendingSend.Some?)
  }

  /**
   * The last close of the receive end completes an armed send if and only if no registration
   * is left; otherwise it wakes that thread instead and the armed send is stranded.
   */
  lemma CloseCompletesArmedSend<M>(p: Proto<M>, ends: Ends)
    requires ProtoInv(p, ends) && p.sender.SArmed? && p.chan.recvCount == 1
    ensures var q := CallStep(p, ends, CloseRecv);
            if p.chan.blockedSender.None? then
              && q.sender.SIdle? && q.answers == p.answers + [Answer(p.sender.msg, false)]
              && q.custody == Posted(p.custody, p.chan.pendingSendPort.value.port, Status)
            else
              && Stranded(q) && q.sender == p.sender && q.answers == p.answers && q.custody == p.custody
              && CallEffect(p, ends, CloseRecv) == (Some(ends.sender), false)
  {
    hide Delivery.Inv, Messages, Accounted, Succeeded, Posted;
  }

  lemma StrandedCall<M>(p: Proto<M>, ends: Ends, call: Call<M>)
    requires ProtoInv(p, ends) && Stranded(p) && CallLegal(p, call)
    ensures var q := CallStep(p, ends, call); Stranded(q) && q.sender == p.sender && q.answers == p.answers
  {
    hide Delivery.Inv, Messages, Accounted, Succeeded, HandDirect, Posted;
  }

  /** A stranded send is never answered, whatever anybody does. */
  lemma {:induction false} StrandedForever<M>(sys: Sys<M>, ends: Ends, events: seq<Event<M>>)
    requires SysInv(sys, ends) && LegalRun(sys, ends, events) && Stranded(sys.proto)
    ensures var p := Run(sys, ends, events).proto; Stranded(p) && p.sender == sys.proto.sender && p.answers == sys.proto.answers
    decreases |events|
  {
    hide SysInv, CallStep, SchedAfter, Sc.Step;
    if events != [] {
      SysStepKeepsInv(sys, ends, events[0]);
      if events[0].Do? {
        ProtoIsOk(sys, ends);
        StrandedCall(sys.proto, ends, events[0].call);
      }
      StrandedForever(SysStep(sys, ends, events[0]), ends, events[1..]);
    }
  }

  lemma ProtoIsOk<M>(sys: Sys<M>, ends: Ends)
    requires SysInv(sys, ends)
    ensures ProtoInv(sys.proto, ends)
  {
  }

  // ---- a run that loses a message ----

  lemma {:induction false} RunConcat<M>(sys: Sys<M>, ends: Ends, a: seq<Event<M>>, b: seq<Event<M>>)
    requires SysInv(sys, ends) && LegalRun(sys, ends, a) && LegalRun(Run(sys, ends, a), ends, b)
    ensures LegalRun(sys, ends, a + b) && Run(sys, ends, a + b) == Run(Run(sys, ends, a), ends, b)
    decreases |a|
  {
    hide SysInv, SysStep, EventLegal;
    if a == [] {
      assert a + b == b;
    } else {
      SysStepKeepsInv(sys, ends, a[0]);
      assert (a + b)[1..] == a[1..] + b;
      RunConcat(SysStep(sys, ends, a[0]), ends, a[1..], b);
    }
  }

  lemma RunOne<M>(sys: Sys<M>, ends: Ends, e: Event<M>)
    requires SysInv(sys, ends) && EventLegal(sys, ends, e)
    ensures LegalRun(sys, ends, [e]) && SysInv(SysStep(sys, ends, e), ends) && Run(sys, ends, [e]) == SysStep(sys, ends, e)
  {
    hide SysInv, SysStep, EventLegal;
    SysStepKeepsInv(sys, ends, e);
    assert [e][1..] == [];
  }

  /** The running thread, which is not idle, hands the CPU to another Ready one. */
  function SwitchEvents<M>(t: nat): seq<Event<M>> {
    [Env(Sc.SetDonate(t)), Env(Sc.Yield)]
  }

  lemma SwitchRuns<M>(sys: Sys<M>, ends: Ends, t: nat)
    requires SysInv(sys, ends) && t < |sys.sched.threads| && sys.sched.threads[t].state == Sc.Ready
    requires sys.sched.current != sys.sched.idle
    ensures LegalRun(sys, ends, SwitchEvents(t))
    ensures var r := Run(sys, ends, SwitchEvents(t));
            && r.proto == sys.proto && r.sched.current == t
            && sys.sched.current < |r.sched.threads| && r.sched.threads[sys.sched.current].state == Sc.Ready
  {
    var e1, e2: Event<M> := Env(Sc.SetDonate(t)), Env(Sc.Yield);
    RunOne(sys, ends, e1);
    var mid := SysStep(sys, ends, e1);
    RunOne(mid, ends, e2);
    RunConcat(sys, ends, [e1], [e2]);
    assert [e1] + [e2] == SwitchEvents<M>(t);
    Sc.DonatedYield(sys.sched, t);
  }

  /** `n` messages have gone to port `k`, whose bound is `bound`, and nobody has reaped. */
  ghost predicate Flooded<M>(sys: Sys<M>, ends: Ends, k: nat, bound: nat, n: nat) {
    var p := sys.proto;
    && SysInv(sys, ends)
    && sys.sched.current == ends.sender
    && ends.receiver < |sys.sched.threads| && sys.sched.threads[ends.receiver].state == Sc.Ready
    && p.chan.capacity > 0 && p.chan == New(p.chan.capacity) && p.sender.SIdle? && p.receiver.RIdle?
    && k in p.custody.ports
    && p.custody.ports[k].port.waiter == None && p.custody.ports[k].port.maxQueued == bound
    && |p.custody.ports[k].port.queue| == (if n < bound then n else bound)
    && |LostOf(p.custody.handed)| == (if n < bound then 0 else n - bound)
    && |p.answers| == n && forall a <- p.answers :: a.ok
  }

  function RoundEvents<M>(ends: Ends, k: nat, m: M): seq<Event<M>> {
    [Do(Send(m, true))] + SwitchEvents(ends.receiver) + [Do(SubmitRecv(PortRecv(k, 0, 0)))] + SwitchEvents(ends.sender)
  }

  lemma NothingWoken(s: Sc.Sched)
    requires Sc.Inv(s)
    ensures WakeAll(s, []) == s
  {
  }

  /** A non-blocking send into the empty buffer, and what it leaves. */
  lemma FloodSend<M>(sys: Sys<M>, ends: Ends, k: nat, bound: nat, n: nat, m: M)
    requires Flooded(sys, ends, k, bound, n)
    ensures EventLegal(sys, ends, Do(Send(m, true)))
    ensures var r := SysStep(sys, ends, Do(Send(m, true)));
            && r.sched == sys.sched
            && r.proto == sys.proto.(chan := sys.proto.chan.(queue := [m]), accepted := sys.proto.accepted + [m],
                                     answers := sys.proto.answers + [Answer(m, true)])
  {
    hide Sc.Inv, ProtoInv, Sc.Step;
    NothingWoken(sys.sched);
    assert sys.proto.chan.queue + [m] == [m];
  }

  /** A port receive that finds a message completes at once, kept or lost. */
  lemma FloodRecv<M>(sys: Sys<M>, ends: Ends, k: nat, m: M)
    requires SysInv(sys, ends) && sys.sched.current == ends.receiver && sys.proto.receiver.RIdle? && sys.proto.sender.SIdle?
    requires sys.proto.chan == New<M>(sys.proto.chan.capacity).(queue := [m]) && sys.proto.chan.capacity > 0
    requires k in sys.proto.custody.ports && sys.proto.custody.ports[k].port.waiter == None
    ensures EventLegal(sys, ends, Do(SubmitRecv(PortRecv(k, 0, 0))))
    ensures var r := SysStep(sys, ends, Do(SubmitRecv(PortRecv(k, 0, 0))));
            && r.sched == sys.sched
            && r.proto == sys.proto.(chan := New(sys.proto.chan.capacity), custody := HandPort(sys.proto.custody, k, m))
  {
    hide Sc.Inv, ProtoInv, Sc.Step, HandPort;
    NothingWoken(sys.sched);
    assert [m][1..] == [];
    assert Waiters(sys.proto.custody, [k]) == [] by { assert [k][1..] == []; }
  }

  lemma FloodRound<M>(sys: Sys<M>, ends: Ends, k: nat, bound: nat, n: nat, m: M)
    requires Flooded(sys, ends, k, bound, n)
    ensures LegalRun(sys, ends, RoundEvents(ends, k, m))
    ensures Flooded(Run(sys, ends, RoundEvents(ends, k, m)), ends, k, bound, n + 1)
    ensures Run(sys, ends, RoundEvents(ends, k, m)).proto.custody == HandPort(sys.proto.custody, k, m)
  {
    hide Sc.Inv, ProtoInv, SysStep, EventLegal, LegalRun, Run, HandPort;
    var e1, e2: Event<M> := Do(Send(m, true)), Do(SubmitRecv(PortRecv(k, 0, 0)));
    FloodSend(sys, ends, k, bound, n, m);
    RunOne(sys, ends, e1);
    var s1 := Run(sys, ends, [e1]);
    SwitchRuns(s1, ends, ends.receiver);
    RunConcat(sys, ends, [e1], SwitchEvents(ends.receiver));
    var s2 := Run(s1, ends, SwitchEvents(ends.receiver));
    FloodRecv(s2, ends, k, m);
    RunOne(s2, ends, e2);
    RunConcat(sys, ends, [e1] + SwitchEvents(ends.receiver), [e2]);
    var s3 := Run(s2, ends, [e2]);
    SwitchRuns(s3, ends, ends.sender);
    RunConcat(sys, ends, [e1] + SwitchEvents(ends.receiver) + [e2], SwitchEvents(ends.sender));
    FloodPort(sys.proto.custody, k, m);
  }

  lemma FloodPort<M>(c: Custody<M>, k: nat, m: M)
    requires k in c.ports && c.ports[k].port.waiter == None && |c.ports[k].port.queue| <= c.ports[k].port.maxQueued
    ensures var c' := HandPort(c, k, m);
            && k in c'.ports && c'.ports[k].port.waiter == None && c'.ports[k].port.maxQueued == c.ports[k].port.maxQueued
            && |c'.ports[k].port.queue| == |c.ports[k].port.queue| + (if HasRoom(c, k) then 1 else 0)
            && |LostOf(c'.handed)| == |LostOf(c.handed)| + (if HasRoom(c, k) then 0 else 1)
  {
    LostSnoc(c.handed, ToPort(m, k, HasRoom(c, k)));
  }

  function FloodEvents<M>(ends: Ends, k: nat, m: M, n: nat): seq<Event<M>> {
    if n == 0 then [] else FloodEvents(ends, k, m, n - 1) + RoundEvents(ends, k, m)
  }

  lemma {:induction false} FloodRuns<M>(sys: Sys<M>, ends: Ends, k: nat, bound: nat, m: M, n: nat)
    requires Flooded(sys, ends, k, bound, 0)
    ensures SysInv(sys, ends) && LegalRun(sys, ends, FloodEvents(ends, k, m, n))
    ensures Flooded(Run(sys, ends, FloodEvents(ends, k, m, n)), ends, k, bound, n)
    decreases n
  {
    hide Sc.Inv, ProtoInv, RoundEvents;
    if n > 0 {
      FloodRuns(sys, ends, k, bound, m, n - 1);
      var s := Run(sys, ends, FloodEvents(ends, k, m, n - 1));
      FloodRound(s, ends, k, bound, n - 1, m);
      RunConcat(sys, ends, FloodEvents(ends, k, m, n - 1), RoundEvents(ends, k, m));
    }
  }

  /**
   * 257 sends that all answer success, each taken at once by a port receive that nobody reaps:
   * with the default bound of 256 the last message is lost.
   */
  lemma FullPortLosesMessage<M>(sys: Sys<M>, ends: Ends, k: nat, m: M)
    requires Flooded(sys, ends, k, Port.DEFAULT_MAX_QUEUED, 0)
    ensures SysInv(sys, ends) && LegalRun(sys, ends, FloodEvents(ends, k, m, 257))
    ensures var p := Run(sys, ends, FloodEvents(ends, k, m, 257)).proto;
            && |p.answers| == 257 && (forall a <- p.answers :: a.ok)
            && |LostOf(p.custody.handed)| == 1
            && !RoomAtEveryPost(sys, ends, FloodEvents(ends, k, m, 257))
  {
    hide Sc.Inv, ProtoInv, FloodEvents, LegalRun, Run, RoomAtEveryPost, LostOf;
    FloodRuns(sys, ends, k, Port.DEFAULT_MAX_QUEUED, m, 257);
    LostIffNoRoom(sys, ends, FloodEvents(ends, k, m, 257));
  }

  /** A direct receive while an earlier message waits in a port. */
  function OvertakingEvents<M>(ends: Ends, k: nat, m: M): seq<Event<M>> {
    RoundEvents(ends, k, m) + ([Do(Send(m, true))] + SwitchEvents(ends.receiver) + [Do(Recv(true))])
  }

  /** The receiver gets the second message first: mixing both ways of receiving needs the ports reaped in between. */
  lemma MixedReceiptsOvertake<M>(sys: Sys<M>, ends: Ends, k: nat, bound: nat, m: M)
    requires Flooded(sys, ends, k, bound, 0) && bound > 0
    ensures SysInv(sys, ends) && LegalRun(sys, ends, OvertakingEvents(ends, k, m))
    ensures !InOrder(Run(sys, ends, OvertakingEvents(ends, k, m)).proto.custody)
  {
    hide Sc.Inv, ProtoInv, SysStep, EventLegal, LegalRun, Run, HandPort, InOrder, IsWaiting, RoundEvents;
    FloodRound(sys, ends, k, bound, 0, m);
    var s0 := Run(sys, ends, RoundEvents(ends, k, m));
    OneWaits(sys, ends, k, m);
    var e1, e2: Event<M> := Do(Send(m, true)), Do(Recv(true));
    FloodSend(s0, ends, k, bound, 1, m);
    RunOne(s0, ends, e1);
    var s1 := Run(s0, ends, [e1]);
    SwitchRuns(s1, ends, ends.receiver);
    RunConcat(s0, ends, [e1], SwitchEvents(ends.receiver));
    var s2 := Run(s1, ends, SwitchEvents(ends.receiver));
    DirectOvertakes(s2, ends, m);
    RunOne(s2, ends, e2);
    RunConcat(s0, ends, [e1] + SwitchEvents(ends.receiver), [e2]);
    RunConcat(sys, ends, RoundEvents(ends, k, m), [e1] + SwitchEvents(ends.receiver) + [e2]);
  }

  lemma OneWaits<M>(sys: Sys<M>, ends: Ends, k: nat, m: M)
    requires SysInv(sys, ends) && HasRoom(sys.proto.custody, k)
    ensures SomeWaiting(HandPort(sys.proto.custody, k, m))
  {
    hide Sc.Inv, Registered;
    CustodyIsOk(sys.proto, ends);
    HandWaiting(sys.proto.custody, k, m, |sys.proto.custody.handed|);
  }

  lemma DirectOvertakes<M>(sys: Sys<M>, ends: Ends, m: M)
    requires SysInv(sys, ends) && sys.sched.current == ends.receiver && sys.proto.receiver.RIdle? && sys.proto.sender.SIdle?
    requires sys.proto.chan == New<M>(sys.proto.chan.capacity).(queue := [m]) && sys.proto.chan.capacity > 0
    requires SomeWaiting(sys.proto.custody)
    ensures EventLegal(sys, ends, Do(Recv(true))) && !InOrder(SysStep(sys, ends, Do(Recv(true))).proto.custody)
  {
    hide Sc.Inv, ProtoInv, Sc.Step, InOrder, SomeWaiting;
    StepOrder(sys, ends, Do(Recv(true)));
  }

  // ---- a send that answers early ----

  function TickEvents<M>(n: nat): seq<Event<M>> {
    if n == 0 then [] else [Env(Sc.Tick)] + TickEvents(n - 1)
  }

  lemma ReadyIsQueued(s: Sc.Sched, t: nat)
    requires Sc.Inv(s) && t != s.idle && t < |s.threads| && s.threads[t].state == Sc.Ready
    ensures t in s.queue
  {
  }

  /** Whoever runs, the timer brings a queued thread to run. */
  lemma {:induction false} TicksUntil<M>(sys: Sys<M>, ends: Ends, t: nat) returns (n: nat)
    requires SysInv(sys, ends) && t in sys.sched.queue
    ensures LegalRun(sys, ends, TickEvents(n))
    ensures Run(sys, ends, TickEvents(n)).proto == sys.proto && Run(sys, ends, TickEvents(n)).sched.current == t
    decreases TicksLeft(sys, ends, t)
  {
    hide SysInv, Sc.Inv, Sc.Step, Sc.TicksAhead;
    var e: Event<M> := Env(Sc.Tick);
    TickIsFair(sys, ends, t);
    RunOne(sys, ends, e);
    var s1 := SysStep(sys, ends, e);
    if s1.sched.current == t {
      n := 1;
      assert TickEvents<M>(1) == [e];
    } else {
      var rest := TicksUntil(s1, ends, t);
      n := rest + 1;
      RunConcat(sys, ends, [e], TickEvents(rest));
    }
  }

  ghost function TicksLeft<M>(sys: Sys<M>, ends: Ends, t: nat): nat
    requires SysInv(sys, ends)
  {
    Sc.TicksAhead(sys.sched, t)
  }

  lemma TickIsFair<M>(sys: Sys<M>, ends: Ends, t: nat)
    requires SysInv(sys, ends) && t in sys.sched.queue
    ensures EventLegal(sys, ends, Env(Sc.Tick)) && SysInv(SysStep(sys, ends, Env(Sc.Tick)), ends)
    ensures var r := SysStep(sys, ends, Env(Sc.Tick));
            && r.proto == sys.proto
            && (r.sched.current == t || (t in r.sched.queue && TicksLeft(r, ends, t) < TicksLeft(sys, ends, t)))
  {
    hide Sc.Inv, Sc.Step, ProtoInv, Sc.TicksAhead;
    SysStepKeepsInv(sys, ends, Env(Sc.Tick));
    Sc.PositionFalls(sys.sched, Sc.Tick, t);
    if Sc.Step(sys.sched, Sc.Tick).current != t { Sc.TicksAheadFalls(sys.sched, Sc.Tick, t); }
  }

  /** A new rendezvous channel; the sender runs. */
  ghost predicate AtRest<M>(sys: Sys<M>, ends: Ends, k: nat) {
    && SysInv(sys, ends) && sys.sched.current == ends.sender
    && sys.proto.chan == New(0) && sys.proto.sender.SIdle? && sys.proto.receiver.RIdle?
    && k in sys.proto.custody.ports
  }

  /** The sender waits on a port until its timer fires, and leaves itself registered there. */
  function TimedOutEvents<M>(ends: Ends, k: nat, a: nat): seq<Event<M>> {
    [Await(k), Env(Sc.Unblock(ends.sender))] + TickEvents(a)
  }

  /** Its rendezvous send is then woken by a completion on that port. */
  function EarlyEvents<M>(ends: Ends, k: nat, m: M, a: nat, b: nat): seq<Event<M>> {
    TimedOutEvents(ends, k, a) + ([Do(Send(m, false)), Foreign(k)] + TickEvents(b) + [Do(ResumeSend)])
  }

  lemma RunTwo<M>(sys: Sys<M>, ends: Ends, a: Event<M>, b: Event<M>)
    requires SysInv(sys, ends) && EventLegal(sys, ends, a)
    requires SysInv(SysStep(sys, ends, a), ends) && EventLegal(SysStep(sys, ends, a), ends, b)
    ensures LegalRun(sys, ends, [a, b]) && Run(sys, ends, [a, b]) == SysStep(SysStep(sys, ends, a), ends, b)
    ensures SysInv(SysStep(SysStep(sys, ends, a), ends, b), ends)
  {
    hide SysInv, SysStep, EventLegal;
    RunOne(sys, ends, a);
    RunOne(SysStep(sys, ends, a), ends, b);
    RunConcat(sys, ends, [a], [b]);
    assert [a] + [b] == [a, b];
  }

  lemma TimesOut<M>(sys: Sys<M>, ends: Ends, k: nat) returns (a: nat)
    requires AtRest(sys, ends, k)
    ensures LegalRun(sys, ends, TimedOutEvents(ends, k, a))
    ensures var r := Run(sys, ends, TimedOutEvents(ends, k, a));
            AtRest(r, ends, k) && r.proto == sys.proto.(custody := Awaited(sys.proto.custody, k, ends.sender))
  {
    hide Sc.Inv, ProtoInv, Sc.Step, LegalRun, Run;
    var e1, e2: Event<M> := Await(k), Env(Sc.Unblock(ends.sender));
    SysStepKeepsInv(sys, ends, e1);
    var s1 := SysStep(sys, ends, e1);
    Sc.BlockedOnlyBy(sys.sched, Sc.BlockAndYield, ends.sender);
    RunTwo(sys, ends, e1, e2);
    var s2 := Run(sys, ends, [e1, e2]);
    Sc.UnblockReadies(s1.sched, ends.sender);
    ReadyIsQueued(s2.sched, ends.sender);
    a := TicksUntil(s2, ends, ends.sender);
    RunConcat(sys, ends, [e1, e2], TickEvents(a));
  }

  lemma OneWoken(s: Sc.Sched, t: nat)
    requires Sc.Inv(s)
    ensures WakeAll(s, [t]) == Sc.Step(s, Sc.Unblock(t))
  {
    Sc.StepKeepsInv(s, Sc.Unblock(t));
    NothingWoken(Sc.Step(s, Sc.Unblock(t)));
    assert [t][1..] == [];
  }

  /** The send waits, the completion wakes it. */
  lemma WokenByPort<M>(sys: Sys<M>, ends: Ends, k: nat, m: M)
    requires AtRest(sys, ends, k) && Waiter(sys.proto.custody, k) == Some(ends.sender)
    ensures var e1, e2: Event<M> := Do(Send(m, false)), Foreign(k);
            && LegalRun(sys, ends, [e1, e2])
            && var r := Run(sys, ends, [e1, e2]);
               && ends.sender < |r.sched.threads| && r.sched.threads[ends.sender].state == Sc.Ready
               && r.proto.sender == SWaiting(m, |sys.proto.custody.handed|)
               && r.proto.chan == New<M>(0).(pendingSend := Some(m), blockedSender := Some(ends.sender))
               && r.proto.answers == sys.proto.answers && r.proto.overwritten == sys.proto.overwritten
               && r.proto.custody.handed == sys.proto.custody.handed && k in r.proto.custody.ports
  {
    hide Sc.Inv, ProtoInv, Sc.Step, LegalRun, Run;
    var e1, e2: Event<M> := Do(Send(m, false)), Foreign(k);
    SysStepKeepsInv(sys, ends, e1);
    var s1 := SysStep(sys, ends, e1);
    Sc.BlockedOnlyBy(sys.sched, Sc.BlockAndYield, ends.sender);
    RunTwo(sys, ends, e1, e2);
    assert Waiters(s1.proto.custody, [k]) == [ends.sender] by { assert [k][1..] == []; }
    OneWoken(s1.sched, ends.sender);
    Sc.UnblockReadies(s1.sched, ends.sender);
    PostedLog(s1.proto.custody, k, Status);
  }

  /** The state a send leaves that answered success while its message was still in the slot. */
  ghost predicate AnsweredEarly<M>(sys: Sys<M>, ends: Ends, k: nat, m: M, before: Proto<M>) {
    && SysInv(sys, ends) && sys.sched.current == ends.sender && sys.proto.sender.SIdle?
    && sys.proto.answers == before.answers + [Answer(m, true)]
    && sys.proto.chan == New<M>(0).(pendingSend := Some(m), blockedSender := Some(ends.sender))
    && sys.proto.custody.handed == before.custody.handed && sys.proto.overwritten == before.overwritten
    && k in sys.proto.custody.ports
  }

  lemma AnswersEarly<M>(sys: Sys<M>, ends: Ends, k: nat, m: M) returns (a: nat, b: nat)
    requires AtRest(sys, ends, k)
    ensures SysInv(sys, ends) && LegalRun(sys, ends, EarlyEvents(ends, k, m, a, b))
    ensures AnsweredEarly(Run(sys, ends, EarlyEvents(ends, k, m, a, b)), ends, k, m, sys.proto)
  {
    hide Sc.Inv, ProtoInv, Sc.Step, LegalRun, Run, EventLegal, SysStep;
    a := TimesOut(sys, ends, k);
    var s0 := Run(sys, ends, TimedOutEvents(ends, k, a));
    var e1, e2, e3: Event<M> := Do(Send(m, false)), Foreign(k), Do(ResumeSend);
    WokenByPort(s0, ends, k, m);
    var s1 := Run(s0, ends, [e1, e2]);
    ReadyIsQueued(s1.sched, ends.sender);
    b := TicksUntil(s1, ends, ends.sender);
    RunConcat(s0, ends, [e1, e2], TickEvents(b));
    var s2 := Run(s1, ends, TickEvents(b));
    ResumeAnswers(s2, ends, m);
    RunOne(s2, ends, e3);
    RunConcat(s0, ends, [e1, e2] + TickEvents(b), [e3]);
    RunConcat(sys, ends, TimedOutEvents(ends, k, a), [e1, e2] + TickEvents(b) + [e3]);
  }

  lemma ResumeAnswers<M>(sys: Sys<M>, ends: Ends, m: M)
    requires SysInv(sys, ends) && sys.sched.current == ends.sender && sys.proto.sender.SWaiting?
    requires sys.proto.sender.msg == m && !sys.proto.chan.recvClosed
    ensures EventLegal(sys, ends, Do(ResumeSend))
    ensures var r := SysStep(sys, ends, Do(ResumeSend));
            && r.sched == sys.sched
            && r.proto == sys.proto.(sender := SIdle, answers := sys.proto.answers + [Answer(m, true)])
  {
    hide Sc.Inv, ProtoInv, Sc.Step;
    NothingWoken(sys.sched);
  }

  /**
   * A timed-out `io_wait`, a blocking rendezvous send, a completion on that port: the send answers
   * success with its message still in the slot, and a second blocking send loses the message.
   */
  lemma EarlyAnswerLosesMessage<M>(sys: Sys<M>, ends: Ends, k: nat, m: M, m2: M) returns (a: nat, b: nat)
    requires AtRest(sys, ends, k)
    ensures var events := EarlyEvents(ends, k, m, a, b) + [Do(Send(m2, false))];
            && SysInv(sys, ends) && LegalRun(sys, ends, events)
            && var p := Run(sys, ends, events).proto;
               && p.answers == sys.proto.answers + [Answer(m, true)]
               && p.overwritten == sys.proto.overwritten + [m] && p.custody.handed == sys.proto.custody.handed
  {
    hide Sc.Inv, ProtoInv, LegalRun, Run, EarlyEvents, Sc.Step;
    a, b := AnswersEarly(sys, ends, k, m);
    var s := Run(sys, ends, EarlyEvents(ends, k, m, a, b));
    RunOne(s, ends, Do(Send(m2, false)));
    RunConcat(sys, ends, EarlyEvents(ends, k, m, a, b), [Do(Send(m2, false))]);
  }

  /** The same start, then an armed send and the close of the receive end: the armed send is never answered. */
  lemma EarlyAnswerStrandsSend<M>(sys: Sys<M>, ends: Ends, k: nat, m: M, info: PortSend<M>) returns (a: nat, b: nat)
    requires AtRest(sys, ends, k) && info.port in sys.proto.custody.ports
    ensures var events := EarlyEvents(ends, k, m, a, b) + [Do(SubmitSend(info)), Do(CloseRecv)];
            SysInv(sys, ends) && LegalRun(sys, ends, events) && Stranded(Run(sys, ends, events).proto)
  {
    hide Sc.Inv, ProtoInv, LegalRun, Run, EarlyEvents, Sc.Step;
    a, b := AnswersEarly(sys, ends, k, m);
    var s := Run(sys, ends, EarlyEvents(ends, k, m, a, b));
    PortsRemain(sys, ends, EarlyEvents(ends, k, m, a, b), info.port);
    SysStepKeepsInv(s, ends, Do(SubmitSend(info)));
    RunTwo(s, ends, Do(SubmitSend(info)), Do(CloseRecv));
    RunConcat(sys, ends, EarlyEvents(ends, k, m, a, b), [Do(SubmitSend(info)), Do(CloseRecv)]);
  }

  /** No event takes a port away. */
  lemma {:induction false} PortsRemain<M>(sys: Sys<M>, ends: Ends, events: seq<Event<M>>, k: nat)
    requires SysInv(sys, ends) && LegalRun(sys, ends, events) && k in sys.proto.custody.ports
    ensures k in Run(sys, ends, events).proto.custody.ports
    decreases |events|
  {
    hide SysInv, CallStep, SchedAfter, Sc.Step, Delivery.Inv;
    if events != [] {
      SysStepKeepsInv(sys, ends, events[0]);
      ProtoIsOk(sys, ends);
      CustodyIsOk(sys.proto, ends);
      if events[0].Do? {
        CallCustody(sys.proto, ends, events[0].call);
      } else {
        PortEventCustody(sys.proto.custody, events[0], sys.sched.current);
      }
      PortsRemain(SysStep(sys, ends, events[0]), ends, events[1..], k);
    }
  }

}
