/**
 * What becomes of messages once a channel hands them to the receiver: taken
 * at once by a receive call, or posted as a completion to a port
 * (completion-port/src/port.rs, libkernel/src/completion_port.rs), where a
 * full queue drops them and `io_wait` takes the others later.
 */
module Delivery {
  import opened Base
  import opened Port

  /** A completion: one that carries a message, the report that the peer is gone, or any other. */
  datatype Item<M> = Msg(msg: M, index: nat) | Closed | Status

  /** A port; with rings, completions without data bypass the queue. */
  datatype Box<M> = Box(port: PortState<Item<M>>, ring: bool)

  /** How a message left the channel; `kept` tells whether the port had room for it. */
  datatype Hand<M> = Direct(msg: M) | ToPort(msg: M, port: nat, kept: bool)

  /** `handed` lists every message that left the channel, `received` the positions in it that reached the receiver. */
  datatype Custody<M> = Custody(ports: map<nat, Box<M>>, handed: seq<Hand<M>>, received: seq<nat>)

  predicate Safe<M>(h: Hand<M>) {
    h.Direct? || h.kept
  }

  /** The messages handed over, in order. */
  function Messages<M>(handed: seq<Hand<M>>): (ms: seq<M>)
    ensures |ms| == |handed| && forall i | 0 <= i < |handed| :: ms[i] == handed[i].msg
  {
    seq(|handed|, i requires 0 <= i < |handed| => handed[i].msg)
  }

  function LostOf<M>(handed: seq<Hand<M>>): seq<M> {
    if handed == [] then []
    else
      var last := handed[|handed| - 1];
      LostOf(handed[..|handed| - 1]) + (if Safe(last) then [] else [last.msg])
  }

  /** The positions of the messages in a port's queue, in order. */
  function Indices<M>(q: seq<Item<M>>): seq<nat> {
    if q == [] then []
    else
      var last := q[|q| - 1];
      Indices(q[..|q| - 1]) + (if last.Msg? then [last.index] else [])
  }

  /** The queue the port has, or nothing. */
  function QueueOf<M>(c: Custody<M>, k: nat): seq<Item<M>> {
    if k in c.ports then c.ports[k].port.queue else []
  }

  function Waiter<M>(c: Custody<M>, k: nat): Option<nat> {
    if k in c.ports then c.ports[k].port.waiter else None
  }

  predicate HasRoom<M>(c: Custody<M>, k: nat) {
    k in c.ports && |c.ports[k].port.queue| < c.ports[k].port.maxQueued
  }

  function WithBox<M>(ports: map<nat, Box<M>>, k: nat, b: Box<M>): (r: map<nat, Box<M>>)
    ensures forall j :: j in r <==> j in ports || j == k
    ensures forall j | j in r :: r[j] == if j == k then b else ports[j]
  {
    ports[k := b]
  }

  /** `post`; a completion without data goes to the ring of a port that has one. */
  function Posted<M>(c: Custody<M>, k: nat, item: Item<M>): Custody<M> {
    if k !in c.ports then c
    else
      var b := c.ports[k];
      var after := if b.ring && !item.Msg? then b.port.(waiter := None) else PostStep(b.port, item).0;
      c.(ports := WithBox(c.ports, k, b.(port := after)))
  }

  function HandDirect<M>(c: Custody<M>, m: M): Custody<M> {
    c.(handed := c.handed + [Direct(m)], received := c.received + [|c.handed|])
  }

  function HandPort<M>(c: Custody<M>, k: nat, m: M): Custody<M> {
    Posted(c, k, Msg(m, |c.handed|)).(handed := c.handed + [ToPort(m, k, HasRoom(c, k))])
  }

  /** Up to `max` completions leave the port's queue. */
  function Reaped<M>(c: Custody<M>, k: nat, max: nat): Custody<M> {
    if k !in c.ports then c
    else
      var b := c.ports[k];
      var n := DrainCount(b.port, max);
      c.(ports := WithBox(c.ports, k, b.(port := b.port.(queue := b.port.queue[n..]))),
         received := c.received + Indices(b.port.queue[..n]))
  }

  function Awaited<M>(c: Custody<M>, k: nat, thread: nat): Custody<M> {
    if k !in c.ports then c
    else c.(ports := WithBox(c.ports, k, c.ports[k].(port := c.ports[k].port.(waiter := Some(thread)))))
  }

  function Opened<M>(c: Custody<M>, k: nat, bound: nat, ring: bool): Custody<M> {
    if k in c.ports then c else c.(ports := WithBox(c.ports, k, Box(PortState([], None, bound), ring)))
  }

  /**
   * A post ends the registration with its port and touches no other; it queues the completion
   * unless the queue is at its bound, or the port has a ring and it is not a message.
   */
  lemma PostsTo<M>(c: Custody<M>, k: nat, item: Item<M>)
    requires k in c.ports
    ensures var r, b := Posted(c, k, item), c.ports[k];
            && r.handed == c.handed && r.received == c.received
            && (forall j :: j in r.ports <==> j in c.ports) && (forall j | j in c.ports && j != k :: r.ports[j] == c.ports[j])
            && r.ports[k].ring == b.ring && r.ports[k].port.waiter == None && r.ports[k].port.maxQueued == b.port.maxQueued
            && r.ports[k].port.queue ==
               if |b.port.queue| >= b.port.maxQueued || (b.ring && !item.Msg?) then b.port.queue else b.port.queue + [item]
  {
  }

  /** A new port is empty, has the bound it was given, and nobody waits on it. */
  lemma OpensEmpty<M>(c: Custody<M>, k: nat, bound: nat, ring: bool)
    requires k !in c.ports
    ensures var r := Opened(c, k, bound, ring);
            && r.handed == c.handed && r.received == c.received
            && (forall j :: j in r.ports <==> j in c.ports || j == k) && (forall j | j in c.ports :: r.ports[j] == c.ports[j])
            && r.ports[k].ring == ring && r.ports[k].port.queue == [] && r.ports[k].port.waiter == None
            && r.ports[k].port.maxQueued == bound
  {
  }

  // ---- every message has one fate ----

  predicate Ascending(s: seq<nat>) {
    forall i, j | 0 <= i < j < |s| :: s[i] < s[j]
  }

  /** The message completions in a queue are those the log says were kept there, oldest first. */
  ghost predicate QueueOk<M>(handed: seq<Hand<M>>, k: nat, q: seq<Item<M>>) {
    && Ascending(Indices(q))
    && (forall i <- Indices(q) :: i < |handed| && handed[i].ToPort? && handed[i].port == k && handed[i].kept)
    && (forall x <- q :: x.Msg? ==> x.index < |handed| && handed[x.index].msg == x.msg)
  }

  predicate IsWaiting<M>(c: Custody<M>, i: nat) {
    i < |c.handed| && c.handed[i].ToPort? && i in Indices(QueueOf(c, c.handed[i].port))
  }

  predicate WentTo<M>(c: Custody<M>, i: nat, k: nat) {
    i < |c.handed| && c.handed[i].ToPort? && c.handed[i].port == k
  }

  predicate IsLost<M>(c: Custody<M>, i: nat) {
    i < |c.handed| && !Safe(c.handed[i])
  }

  /** Two messages that went the same way. */
  predicate SamePath<M>(a: Hand<M>, b: Hand<M>) {
    (a.Direct? && b.Direct?) || (a.ToPort? && b.ToPort? && a.port == b.port)
  }

  ghost predicate PortsOk<M>(c: Custody<M>) {
    forall k | k in c.ports :: QueueOk(c.handed, k, c.ports[k].port.queue)
      && |c.ports[k].port.queue| <= c.ports[k].port.maxQueued
  }

  /** Each message handed over was received, waits in its port, or was lost: exactly one of the three. */
  ghost predicate OneFate<M>(c: Custody<M>) {
    && NoDuplicates(c.received)
    && (forall i <- c.received :: i < |c.handed|)
    && (forall i | 0 <= i < |c.handed| ::
          if IsLost(c, i) then i !in c.received && !IsWaiting(c, i) else i in c.received <==> !IsWaiting(c, i))
  }

  /** Along one path nothing overtakes. */
  ghost predicate PathsInOrder<M>(c: Custody<M>) {
    && (forall a, b | 0 <= a < b < |c.received| && c.received[b] < |c.handed| && c.received[a] < |c.handed|
          && SamePath(c.handed[c.received[a]], c.handed[c.received[b]]) :: c.received[a] < c.received[b])
    && (forall r: nat, w: nat | r in c.received && r < |c.handed| && IsWaiting(c, w) && SamePath(c.handed[r], c.handed[w]) :: r < w)
  }

  ghost predicate Inv<M>(c: Custody<M>) {
    PortsOk(c) && OneFate(c) && PathsInOrder(c)
  }

  lemma {:induction false} IndicesConcat<M>(a: seq<Item<M>>, b: seq<Item<M>>)
    ensures Indices(a + b) == Indices(a) + Indices(b)
    decreases |b|
  {
    if b == [] {
      assert a + b == a;
    } else {
      assert (a + b)[..|a + b| - 1] == a + b[..|b| - 1];
      IndicesConcat(a, b[..|b| - 1]);
    }
  }

  lemma IndicesSnoc<M>(q: seq<Item<M>>, x: Item<M>)
    ensures Indices(q + [x]) == Indices(q) + (if x.Msg? then [x.index] else [])
  {
    assert (q + [x])[..|q|] == q;
  }

  lemma IndicesSplit<M>(q: seq<Item<M>>, n: nat)
    requires n <= |q|
    ensures Indices(q) == Indices(q[..n]) + Indices(q[n..])
  {
    assert q == q[..n] + q[n..];
    IndicesConcat(q[..n], q[n..]);
  }

  /** Ports that hold nothing. */
  lemma FreshKeepsInv<M>(ports: map<nat, Box<M>>)
    requires forall k | k in ports :: ports[k].port.queue == []
    ensures Inv(Custody(ports, [], [])) && InOrder(Custody(ports, [], [])) && LostOf<M>([]) == []
  {
    hide IsWaiting;
    var c := Custody(ports, [], []);
    NotYetWaiting(c);
    assert Indices<M>([]) == [];
  }

  // ---- steps that move no message ----

  /** The same messages wait in the same ports. */
  ghost predicate SameWaiting<M>(c: Custody<M>, c': Custody<M>) {
    && c'.handed == c.handed && c'.received == c.received
    && forall k: nat :: Indices(QueueOf(c', k)) == Indices(QueueOf(c, k))
  }

  lemma SameWaitingKeepsFates<M>(c: Custody<M>, c': Custody<M>)
    requires SameWaiting(c, c')
    ensures forall i: nat :: IsWaiting(c', i) <==> IsWaiting(c, i)
    ensures OneFate(c) ==> OneFate(c')
    ensures PathsInOrder(c) ==> PathsInOrder(c')
  {
    hide Indices, QueueOf;
  }

  lemma NoteKeepsInv<M>(c: Custody<M>, k: nat, item: Item<M>)
    requires Inv(c) && !item.Msg?
    ensures Inv(Posted(c, k, item)) && SameWaiting(c, Posted(c, k, item))
  {
    hide OneFate, PathsInOrder, Indices;
    var c' := Posted(c, k, item);
    if k in c.ports {
      IndicesSnoc(c.ports[k].port.queue, item);
    }
    SameWaitingKeepsFates(c, c');
  }

  lemma AwaitKeepsInv<M>(c: Custody<M>, k: nat, thread: nat)
    requires Inv(c)
    ensures Inv(Awaited(c, k, thread)) && SameWaiting(c, Awaited(c, k, thread))
  {
    hide OneFate, PathsInOrder, Indices;
    SameWaitingKeepsFates(c, Awaited(c, k, thread));
  }

  lemma OpenKeepsInv<M>(c: Custody<M>, k: nat, bound: nat, ring: bool)
    requires Inv(c)
    ensures Inv(Opened(c, k, bound, ring)) && SameWaiting(c, Opened(c, k, bound, ring))
  {
    hide OneFate, PathsInOrder;
    SameWaitingKeepsFates(c, Opened(c, k, bound, ring));
  }

  // ---- hand-over and reaping ----

  lemma QueueOkLonger<M>(handed: seq<Hand<M>>, k: nat, q: seq<Item<M>>, h: Hand<M>)
    requires QueueOk(handed, k, q)
    ensures QueueOk(handed + [h], k, q)
  {
    hide Indices;
  }

  lemma QueueOkSnoc<M>(handed: seq<Hand<M>>, k: nat, q: seq<Item<M>>, m: M)
    requires QueueOk(handed, k, q)
    ensures QueueOk(handed + [ToPort(m, k, true)], k, q + [Msg(m, |handed|)])
  {
    hide Indices;
    IndicesSnoc(q, Msg(m, |handed|));
    var was := Indices(q);
    forall i, j | 0 <= i < j < |was + [|handed|]|
      ensures (was + [|handed|])[i] < (was + [|handed|])[j]
    {
      assert was[i] in was;
    }
  }

  lemma QueueOkRest<M>(handed: seq<Hand<M>>, k: nat, q: seq<Item<M>>, n: nat)
    requires QueueOk(handed, k, q) && n <= |q|
    ensures QueueOk(handed, k, q[n..])
  {
    hide Indices;
    IndicesSplit(q, n);
    AscendingSplit(Indices(q[..n]), Indices(q[n..]));
    forall i | i in Indices(q[n..])
      ensures i < |handed| && handed[i].ToPort? && handed[i].port == k && handed[i].kept
    {
      assert i in Indices(q);
    }
    forall x | x in q[n..]
      ensures x.Msg? ==> x.index < |handed| && handed[x.index].msg == x.msg
    {
      assert x in q;
    }
  }

  lemma DirectPorts<M>(c: Custody<M>, m: M)
    requires PortsOk(c)
    ensures PortsOk(HandDirect(c, m))
  {
    hide QueueOk;
    forall k | k in c.ports
      ensures QueueOk(c.handed + [Direct(m)], k, c.ports[k].port.queue)
    {
      QueueOkLonger(c.handed, k, c.ports[k].port.queue, Direct(m));
    }
  }

  lemma PortPorts<M>(c: Custody<M>, k: nat, m: M)
    requires PortsOk(c)
    ensures PortsOk(HandPort(c, k, m))
  {
    hide QueueOk;
    var h := ToPort(m, k, HasRoom(c, k));
    forall j | j in c.ports
      ensures QueueOk(c.handed + [h], j, HandPort(c, k, m).ports[j].port.queue)
    {
      var q := c.ports[j].port.queue;
      if j == k && HasRoom(c, k) {
        QueueOkSnoc(c.handed, k, q, m);
      } else {
        QueueOkLonger(c.handed, j, q, h);
      }
    }
  }

  lemma ReapPorts<M>(c: Custody<M>, k: nat, max: nat)
    requires PortsOk(c)
    ensures PortsOk(Reaped(c, k, max))
  {
    hide QueueOk;
    if k in c.ports {
      QueueOkRest(c.handed, k, c.ports[k].port.queue, DrainCount(c.ports[k].port, max));
    }
  }

  /** Who waits after a message is handed over. */
  lemma HandWaiting<M>(c: Custody<M>, k: nat, m: M, i: nat)
    requires PortsOk(c)
    ensures IsWaiting(HandDirect(c, m), i) <==> IsWaiting(c, i)
    ensures IsWaiting(HandPort(c, k, m), i) <==> IsWaiting(c, i) || (i == |c.handed| && HasRoom(c, k))
  {
    assert Indices<M>([]) == [];
    hide Indices;
    if k in c.ports {
      var q := c.ports[k].port.queue;
      IndicesSnoc(q, Msg(m, |c.handed|));
      assert |c.handed| !in Indices(q) by { assert QueueOk(c.handed, k, q); }
    }
  }

  /** Who waits after a reap. */
  lemma ReapWaiting<M>(c: Custody<M>, k: nat, max: nat, i: nat)
    requires PortsOk(c) && k in c.ports
    ensures var taken := Indices(c.ports[k].port.queue[..DrainCount(c.ports[k].port, max)]);
            && (IsWaiting(Reaped(c, k, max), i) <==> IsWaiting(c, i) && i !in taken)
            && (i in taken ==> IsWaiting(c, i) && WentTo(c, i, k))
            && Ascending(taken)
            && (IsWaiting(c, i) && WentTo(c, i, k) && i !in taken ==> forall t <- taken :: t < i)
  {
    hide Indices;
    var b := c.ports[k];
    var q, n := b.port.queue, DrainCount(b.port, max);
    assert QueueOk(c.handed, k, q);
    IndicesSplit(q, n);
    AscendingSplit(Indices(q[..n]), Indices(q[n..]));
  }

  lemma AscendingSplit(a: seq<nat>, b: seq<nat>)
    requires Ascending(a + b)
    ensures Ascending(a) && Ascending(b) && forall x <- a, y <- b :: x < y
  {
    forall i, j | 0 <= i < j < |a| ensures a[i] < a[j] {
      assert (a + b)[i] < (a + b)[j];
    }
    forall i, j | 0 <= i < j < |b| ensures b[i] < b[j] {
      assert (a + b)[|a| + i] < (a + b)[|a| + j];
    }
    forall x, y | x in a && y in b ensures x < y {
      var i :| 0 <= i < |a| && a[i] == x;
      var j :| 0 <= j < |b| && b[j] == y;
      assert (a + b)[i] < (a + b)[|a| + j];
    }
  }

  lemma NotYetWaiting<M>(c: Custody<M>)
    ensures forall i: nat :: IsWaiting(c, i) ==> i < |c.handed| && c.handed[i].ToPort?
  {
  }

  lemma NoDuplicatesSnoc(s: seq<nat>, x: nat)
    requires NoDuplicates(s) && x !in s
    ensures NoDuplicates(s + [x])
  {
    NoDuplicatesConcat(s, [x]);
  }

  lemma DirectKeepsInv<M>(c: Custody<M>, m: M)
    requires Inv(c)
    ensures Inv(HandDirect(c, m))
  {
    DirectPorts(c, m);
    hide PortsOk, IsWaiting;
    forall i: nat ensures IsWaiting(HandDirect(c, m), i) <==> IsWaiting(c, i) { HandWaiting(c, 0, m, i); }
    NotYetWaiting(c);
    DirectFates(c, m);
    DirectPaths(c, m);
  }

  lemma DirectFates<M>(c: Custody<M>, m: M)
    requires OneFate(c)
    requires forall i: nat :: IsWaiting(HandDirect(c, m), i) <==> IsWaiting(c, i)
    requires forall i: nat :: IsWaiting(c, i) ==> i < |c.handed| && c.handed[i].ToPort?
    ensures OneFate(HandDirect(c, m))
  {
    hide IsWaiting;
    NoDuplicatesSnoc(c.received, |c.handed|);
  }

  lemma DirectPaths<M>(c: Custody<M>, m: M)
    requires OneFate(c) && PathsInOrder(c)
    requires forall i: nat :: IsWaiting(HandDirect(c, m), i) <==> IsWaiting(c, i)
    requires forall i: nat :: IsWaiting(c, i) ==> i < |c.handed| && c.handed[i].ToPort?
    ensures PathsInOrder(HandDirect(c, m))
  {
    hide IsWaiting;
    var c' := HandDirect(c, m);
    forall a, b | 0 <= a < b < |c'.received| && c'.received[b] < |c'.handed| && c'.received[a] < |c'.handed|
          && SamePath(c'.handed[c'.received[a]], c'.handed[c'.received[b]])
      ensures c'.received[a] < c'.received[b]
    {
      assert c.received[a] in c.received;
      if b < |c.received| { assert c.received[b] in c.received; }
    }
  }

  lemma PortKeepsInv<M>(c: Custody<M>, k: nat, m: M)
    requires Inv(c)
    ensures Inv(HandPort(c, k, m))
  {
    PortPorts(c, k, m);
    hide PortsOk, IsWaiting;
    forall i: nat
      ensures IsWaiting(HandPort(c, k, m), i) <==> IsWaiting(c, i) || (i == |c.handed| && HasRoom(c, k))
    {
      HandWaiting(c, k, m, i);
    }
    NotYetWaiting(c);
    PortFates(c, k, m);
    PortPaths(c, k, m);
  }

  lemma PortFates<M>(c: Custody<M>, k: nat, m: M)
    requires OneFate(c)
    requires forall i: nat ::
               IsWaiting(HandPort(c, k, m), i) <==> IsWaiting(c, i) || (i == |c.handed| && HasRoom(c, k))
    requires forall i: nat :: IsWaiting(c, i) ==> i < |c.handed| && c.handed[i].ToPort?
    ensures OneFate(HandPort(c, k, m))
  {
    hide IsWaiting;
  }

  lemma PortPaths<M>(c: Custody<M>, k: nat, m: M)
    requires OneFate(c) && PathsInOrder(c)
    requires forall i: nat ::
               IsWaiting(HandPort(c, k, m), i) <==> IsWaiting(c, i) || (i == |c.handed| && HasRoom(c, k))
    requires forall i: nat :: IsWaiting(c, i) ==> i < |c.handed| && c.handed[i].ToPort?
    ensures PathsInOrder(HandPort(c, k, m))
  {
    hide IsWaiting;
    var c' := HandPort(c, k, m);
    assert c'.received == c.received && forall i | 0 <= i < |c.handed| :: c'.handed[i] == c.handed[i];
    forall a | 0 <= a < |c.received| ensures c.received[a] < |c.handed| {
      assert c.received[a] in c.received;
    }
  }

  ghost function Taken<M>(c: Custody<M>, k: nat, max: nat): seq<nat>
    requires k in c.ports
  {
    Indices(c.ports[k].port.queue[..DrainCount(c.ports[k].port, max)])
  }

  lemma ReapFates<M>(c: Custody<M>, k: nat, max: nat)
    requires Inv(c) && k in c.ports
    ensures OneFate(Reaped(c, k, max))
  {
    hide IsWaiting, PathsInOrder, PortsOk, Indices;
    var c', taken := Reaped(c, k, max), Taken(c, k, max);
    ReapWaiting(c, k, max, 0);
    forall i: nat
      ensures (IsWaiting(c', i) <==> IsWaiting(c, i) && i !in taken) && (i in taken ==> IsWaiting(c, i))
    {
      ReapWaiting(c, k, max, i);
    }
    NotYetWaiting(c);
    forall i <- taken ensures i !in c.received {
      assert IsWaiting(c, i);
    }
    NoDuplicatesConcat(c.received, taken);
  }

  lemma ReapPaths<M>(c: Custody<M>, k: nat, max: nat)
    requires Inv(c) && k in c.ports
    ensures PathsInOrder(Reaped(c, k, max))
  {
    hide IsWaiting, PortsOk, Indices;
    var c', taken := Reaped(c, k, max), Taken(c, k, max);
    ReapWaiting(c, k, max, 0);
    forall i: nat
      ensures IsWaiting(c', i) <==> IsWaiting(c, i) && i !in taken
      ensures i in taken ==> IsWaiting(c, i) && WentTo(c, i, k)
      ensures IsWaiting(c, i) && WentTo(c, i, k) && i !in taken ==> forall t <- taken :: t < i
    {
      NotYetWaiting(c);
      ReapWaiting(c, k, max, i);
    }
    NotYetWaiting(c);
    var n := |c.received|;
    forall a, b | 0 <= a < b < |c'.received| && c'.received[b] < |c'.handed| && c'.received[a] < |c'.handed|
          && SamePath(c'.handed[c'.received[a]], c'.handed[c'.received[b]])
      ensures c'.received[a] < c'.received[b]
    {
      if a < n <= b {
        assert c.received[a] in c.received && taken[b - n] in taken;
      } else if n <= a {
        assert taken[a - n] < taken[b - n];
      }
    }
  }

  lemma ReapKeepsInv<M>(c: Custody<M>, k: nat, max: nat)
    requires Inv(c)
    ensures Inv(Reaped(c, k, max))
  {
    if k in c.ports {
      ReapPorts(c, k, max);
      ReapFates(c, k, max);
      ReapPaths(c, k, max);
    }
  }

  // ---- nothing lost, nothing overtaken ----

  lemma LostSnoc<M>(handed: seq<Hand<M>>, h: Hand<M>)
    ensures LostOf(handed + [h]) == LostOf(handed) + (if Safe(h) then [] else [h.msg])
  {
    assert (handed + [h])[..|handed|] == handed;
  }

  /** The receiver has seen the messages in the order in which they were handed over, without gaps. */
  ghost predicate InOrder<M>(c: Custody<M>) {
    forall a, i | 0 <= a < |c.received| && 0 <= i < c.received[a] && i < |c.handed| && Safe(c.handed[i]) ::
      i in c.received[..a]
  }

  /** A message waits in some port. */
  ghost predicate SomeWaiting<M>(c: Custody<M>) {
    exists i: nat :: IsWaiting(c, i)
  }

  /** Reaping this port takes a message while an older one waits in another. */
  ghost predicate ReapOvertakes<M>(c: Custody<M>, k: nat, max: nat) {
    k in c.ports && exists i: nat, t: nat :: IsWaiting(c, i) && !WentTo(c, i, k) && t in Taken(c, k, max) && i < t
  }

  lemma OutOfOrderStays<M>(c: Custody<M>, c': Custody<M>)
    requires c.received <= c'.received && c.handed <= c'.handed && InOrder(c')
    ensures InOrder(c)
  {
    forall a, i | 0 <= a < |c.received| && 0 <= i < c.received[a] && i < |c.handed| && Safe(c.handed[i])
      ensures i in c.received[..a]
    {
      assert c'.received[a] == c.received[a] && c'.handed[i] == c.handed[i];
      assert c'.received[..a] == c.received[..a];
    }
  }

  lemma DirectOrder<M>(c: Custody<M>, m: M)
    requires Inv(c)
    ensures InOrder(HandDirect(c, m)) <==> InOrder(c) && !SomeWaiting(c)
  {
    hide IsWaiting, PathsInOrder, PortsOk;
    NotYetWaiting(c);
    var c' := HandDirect(c, m);
    var n := |c.received|;
    assert c'.received[..n] == c.received && c'.received[n] == |c.handed|;
    if InOrder(c') { OutOfOrderStays(c, c'); }
    if i: nat :| IsWaiting(c, i) {
      assert i !in c'.received[..n] && Safe(c'.handed[i]);
    }
    if InOrder(c) && !SomeWaiting(c) {
      forall a, i | 0 <= a < |c'.received| && 0 <= i < c'.received[a] && i < |c'.handed| && Safe(c'.handed[i])
        ensures i in c'.received[..a]
      {
        if a < n {
          assert c.received[a] in c.received && c'.received[..a] == c.received[..a];
        } else {
          assert !IsWaiting(c, i);
          assert c'.received[..a] == c.received;
        }
      }
    }
  }

  lemma ReapOrder<M>(c: Custody<M>, k: nat, max: nat)
    requires Inv(c)
    ensures InOrder(Reaped(c, k, max)) <==> InOrder(c) && !ReapOvertakes(c, k, max)
  {
    if k in c.ports {
      var c', taken := Reaped(c, k, max), Taken(c, k, max);
      forall i: nat
        ensures i in taken ==> IsWaiting(c, i) && WentTo(c, i, k)
        ensures IsWaiting(c, i) && WentTo(c, i, k) && i !in taken ==> forall t <- taken :: t < i
      {
        ReapWaiting(c, k, max, i);
      }
      ReapWaiting(c, k, max, 0);
      hide IsWaiting, Taken, Reaped;
      ReapedLog(c, k, max);
      if InOrder(c') { OutOfOrderStays(c, c'); }
      if ReapOvertakes(c, k, max) {
        var i: nat, t: nat :| IsWaiting(c, i) && !WentTo(c, i, k) && t in taken && i < t;
        TakenOutOfOrder(c, c', k, taken, i, t);
      }
      if InOrder(c) && !ReapOvertakes(c, k, max) {
        TakenInOrder(c, c', k, taken);
      }
    }
  }

  lemma ReapedLog<M>(c: Custody<M>, k: nat, max: nat)
    requires k in c.ports
    ensures Reaped(c, k, max).handed == c.handed && Reaped(c, k, max).received == c.received + Taken(c, k, max)
  {
  }

  lemma TakenOutOfOrder<M>(c: Custody<M>, c': Custody<M>, k: nat, taken: seq<nat>, i: nat, t: nat)
    requires OneFate(c) && c'.handed == c.handed && c'.received == c.received + taken
    requires forall x <- taken :: WentTo(c, x, k)
    requires IsWaiting(c, i) && !WentTo(c, i, k) && t in taken && i < t
    ensures !InOrder(c')
  {
    NotYetWaiting(c);
    hide IsWaiting;
    var a :| 0 <= a < |taken| && taken[a] == t;
    var n := |c.received|;
    assert c'.received[n + a] == t;
    assert c'.received[..n + a] == c.received + taken[..a];
    assert i !in c'.received[..n + a] && Safe(c'.handed[i]);
  }

  lemma TakenInOrder<M>(c: Custody<M>, c': Custody<M>, k: nat, taken: seq<nat>)
    requires OneFate(c) && InOrder(c) && c'.handed == c.handed && c'.received == c.received + taken && Ascending(taken)
    requires forall i: nat, t: nat :: IsWaiting(c, i) && t in taken && i < t ==> i in taken
    ensures InOrder(c')
  {
    hide IsWaiting;
    var n := |c.received|;
    forall a, i | 0 <= a < |c'.received| && 0 <= i < c'.received[a] && i < |c'.handed| && Safe(c'.handed[i])
      ensures i in c'.received[..a]
    {
      if a < n {
        assert c'.received[..a] == c.received[..a];
      } else {
        assert taken[a - n] in taken && c'.received[..a] == c.received + taken[..a - n];
        if i !in c.received {
          assert IsWaiting(c, i) && i in taken;
          var b :| 0 <= b < |taken| && taken[b] == i;
          assert b < a - n;
          assert taken[..a - n][b] == i;
        }
      }
    }
  }

  /** Without losses, and with nothing waiting, exactly then everything handed over has been received. */
  lemma AllReceived<M>(c: Custody<M>)
    requires Inv(c)
    ensures (forall i | 0 <= i < |c.handed| :: i in c.received) <==> LostOf(c.handed) == [] && !SomeWaiting(c)
  {
    hide IsWaiting, PathsInOrder, PortsOk;
    NotYetWaiting(c);
    NothingLost(c.handed);
  }

  lemma {:induction false} NothingLost<M>(handed: seq<Hand<M>>)
    ensures LostOf(handed) == [] <==> forall i | 0 <= i < |handed| :: Safe(handed[i])
  {
    if handed != [] {
      var front := handed[..|handed| - 1];
      NothingLost(front);
      assert forall i | 0 <= i < |front| :: front[i] == handed[i];
    }
  }

  /** Messages handed over and not lost, in order. */
  function KeptOf<M>(handed: seq<Hand<M>>): seq<M> {
    if handed == [] then []
    else
      var last := handed[|handed| - 1];
      KeptOf(handed[..|handed| - 1]) + (if Safe(last) then [last.msg] else [])
  }

  lemma {:induction false} KeptAndLost<M>(handed: seq<Hand<M>>)
    ensures |KeptOf(handed)| + |LostOf(handed)| == |handed|
    ensures LostOf(handed) == [] ==> KeptOf(handed) == Messages(handed)
  {
    if handed != [] {
      KeptAndLost(handed[..|handed| - 1]);
    }
  }

  /** With no losses and no overtaking, what has been received is a prefix of what was handed over. */
  lemma {:induction false} ReceivedIsPrefix<M>(c: Custody<M>, a: nat)
    requires OneFate(c) && InOrder(c) && LostOf(c.handed) == [] && a <= |c.received|
    ensures forall j | 0 <= j < a :: c.received[j] == j
  {
    if a > 0 {
      ReceivedIsPrefix(c, a - 1);
      NothingLost(c.handed);
      var r := c.received[a - 1];
      assert r in c.received;
      forall j | 0 <= j < a - 1 ensures c.received[j] == j && c.received[j] != r {
        assert c.received[j] != c.received[a - 1];
      }
      var k := if r < a - 1 then r else 0;
      assert a > 1 ==> c.received[k] == k && c.received[k] != r;
      assert a - 1 !in c.received[..a - 1];
      assert a - 1 < |c.handed| ==> Safe(c.handed[a - 1]);
    }
  }

  lemma LongerLogKeepsOrder<M>(c: Custody<M>, c': Custody<M>)
    requires OneFate(c) && c'.received == c.received && c.handed <= c'.handed
    ensures InOrder(c') <==> InOrder(c)
  {
    if InOrder(c') { OutOfOrderStays(c, c'); }
    if InOrder(c) {
      forall a, i | 0 <= a < |c'.received| && 0 <= i < c'.received[a] && i < |c'.handed| && Safe(c'.handed[i])
        ensures i in c'.received[..a]
      {
        assert c.received[a] in c.received;
      }
    }
  }

}
