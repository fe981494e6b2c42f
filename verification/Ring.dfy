/**
 * The single-producer single-consumer ring shared between kernel and user
 * space: the Rust side (completion-port/src/ring.rs), the C side
 * (user/lib/ostoo.c) and the batched submission-queue reader
 * (osl/src/io_port.rs).
 *
 * `State` and `Step` break both parties into their individual loads, tests,
 * slot accesses and stores, so that a sequence of `Action`s is one
 * interleaving.  `pushed` and `popped` record the unbounded history that the
 * wrapping 32-bit counters stand for.
 */
module Ring {
  import opened Base
  import opened Bits

  /** The ring header's counters and the entry slots. */
  datatype Mem<T> = Mem(head: nat, tail: nat, slots: seq<T>)

  /** Rust loads the peer's counter first and tests `>= entry_count`; C loads its own first and tests `> mask`. */
  datatype Flavour = Rust | C

  /** Where the producer is.  `room` records the occupancy at the instant the head was loaded. */
  datatype Producer<T> =
    | PIdle
    | PHead(entry: T, head: nat, room: int)
    | PTail(entry: T, tail: nat)
    | PLoaded(entry: T, flavour: Flavour, head: nat, tail: nat, room: int)
    | PWrite(entry: T, tail: nat)
    | PRelease(entry: T, tail: nat)

  /** Where the consumer is.  `ready` records the occupancy at the instant the tail was loaded. */
  datatype Consumer<T> =
    | CIdle
    | CTail(tail: nat, ready: int)
    | CHead(head: nat)
    | CLoaded(head: nat, tail: nat, ready: int)
    | CRead(head: nat)
    | CRelease(head: nat, entry: T)
    | BHead(head: nat, max: nat)
    | BRead(head: nat, count: nat, got: seq<T>)
    | BRelease(head: nat, count: nat, got: seq<T>)

  datatype Mode = Single(flavour: Flavour) | Batch(max: nat)

  datatype Action<T> = Produce(entry: T, flavour: Flavour) | Consume(mode: Mode)

  datatype State<T> = State(mem: Mem<T>, prod: Producer<T>, cons: Consumer<T>, pushed: seq<T>, popped: seq<T>)

  predicate IsPowerOfTwo(n: nat) {
    exists k: nat | k < 32 :: n == Pow2(k)
  }

  /** `index & (entry_count - 1)` */
  function Slot(n: nat, index: nat): nat
    requires n >= 1
  {
    And(index, n - 1)
  }

  lemma PowerOfTwoFacts(n: nat)
    requires IsPowerOfTwo(n)
    ensures 1 <= n < U32
    ensures U32 % n == 0
  {
    var k: nat :| k < 32 && n == Pow2(k);
    Pow2Values();
    Pow2Add(k, 32 - k);
    Pow2Monotone(k, 31);
    ModUnique(U32, n, Pow2(32 - k), 0);
  }

  /** The slot of a wrapped counter is the slot of the unbounded counter. */
  lemma SlotOfCounter(n: nat, c: nat)
    requires IsPowerOfTwo(n)
    ensures 1 <= n < U32
    ensures Slot(n, c % U32) == c % n
    ensures 0 <= c % n < n
  {
    var k: nat :| k < 32 && n == Pow2(k);
    PowerOfTwoFacts(n);
    MaskIsMod(c % U32, k);
    Pow2Values();
    Pow2Add(k, 32 - k);
    ModMod(c, n, Pow2(32 - k));
  }

  /** Counters less than `n` apart use different slots. */
  lemma SlotsDiffer(a: nat, b: nat, n: nat)
    requires n >= 1 && a < b < a + n
    ensures a % n != b % n
  {
    if a % n == b % n {
      var qa, qb := a / n, b / n;
      assert a == n * qa + a % n && b == n * qb + b % n;
      assert n * qb - n * qa == b - a;
      if qb > qa {
        MulMonotone(n, qa + 1, qb);
      } else {
        MulMonotone(n, qb, qa);
      }
    }
  }

  lemma AddCounter(c: nat, i: nat)
    requires i < U32
    ensures Add32(c % U32, i) == (c + i) % U32
  {
  }

  // ---- the two parties, one memory access at a time ----

  function Get<T>(slots: seq<T>, index: nat): T
    requires |slots| >= 1
  {
    AndBound(index, |slots| - 1);
    slots[Slot(|slots|, index)]
  }

  function Put<T>(slots: seq<T>, index: nat, e: T): (r: seq<T>)
    requires |slots| >= 1
    ensures |r| == |slots|
  {
    AndBound(index, |slots| - 1);
    slots[Slot(|slots|, index) := e]
  }

  predicate IsFull(f: Flavour, n: nat, head: nat, tail: nat)
    requires n >= 1
  {
    if f.Rust? then Sub32(tail, head) >= n else Sub32(tail, head) > n - 1
  }

  function ProducerStep<T>(s: State<T>, e: T, f: Flavour): State<T>
    requires |s.mem.slots| >= 1
  {
    var m := s.mem;
    match s.prod
    case PIdle =>
      if f.Rust? then s.(prod := PHead(e, m.head, |s.pushed| - |s.popped|))
      else s.(prod := PTail(e, m.tail))
    case PHead(e, h, room) => s.(prod := PLoaded(e, Rust, h, m.tail, room))
    case PTail(e, t) => s.(prod := PLoaded(e, C, m.head, t, |s.pushed| - |s.popped|))
    case PLoaded(e, f, h, t, room) =>
      if IsFull(f, |m.slots|, h, t) then s.(prod := PIdle) else s.(prod := PWrite(e, t))
    case PWrite(e, t) =>
      s.(mem := m.(slots := Put(m.slots, t, e)), prod := PRelease(e, t))
    case PRelease(e, t) =>
      s.(mem := m.(tail := Add32(t, 1)), prod := PIdle, pushed := s.pushed + [e])
  }

  function ConsumerStep<T>(s: State<T>, mode: Mode): State<T>
    requires |s.mem.slots| >= 1
  {
    var m := s.mem;
    match s.cons
    case CIdle =>
      (match mode
       case Single(Rust) => s.(cons := CTail(m.tail, |s.pushed| - |s.popped|))
       case Single(C) => s.(cons := CHead(m.head))
       case Batch(max) => s.(cons := BHead(m.head, max)))
    case CTail(t, ready) => s.(cons := CLoaded(m.head, t, ready))
    case CHead(h) => s.(cons := CLoaded(h, m.tail, |s.pushed| - |s.popped|))
    case CLoaded(h, t, ready) =>
      if h == t then s.(cons := CIdle) else s.(cons := CRead(h))
    case CRead(h) => s.(cons := CRelease(h, Get(m.slots, h)))
    case CRelease(h, e) =>
      s.(mem := m.(head := Add32(h, 1)), cons := CIdle, popped := s.popped + [e])
    case BHead(h, max) =>
      var pending := Sub32(m.tail, h);
      s.(cons := BRead(h, if pending < max then pending else max, []))
    case BRead(h, count, got) =>
      if |got| < count then s.(cons := BRead(h, count, got + [Get(m.slots, Add32(h, |got|))]))
      else if count > 0 then s.(cons := BRelease(m.head, count, got))
      else s.(cons := CIdle)
    case BRelease(h, count, got) =>
      s.(mem := m.(head := Add32(h, count)), cons := CIdle, popped := s.popped + got)
  }

  function Step<T>(s: State<T>, a: Action<T>): (r: State<T>)
    requires |s.mem.slots| >= 1
    ensures |r.mem.slots| == |s.mem.slots|
  {
    match a
    case Produce(e, f) => ProducerStep(s, e, f)
    case Consume(mode) => ConsumerStep(s, mode)
  }

  function Run<T>(s: State<T>, actions: seq<Action<T>>): State<T>
    requires |s.mem.slots| >= 1
    decreases |actions|
  {
    if actions == [] then s else Run(Step(s, actions[0]), actions[1..])
  }

  /** `init_header`: both counters zero, the slots hold whatever the page held. */
  function Init<T>(slots: seq<T>): State<T> {
    State(Mem(0, 0, slots), PIdle, CIdle, [], [])
  }

  // ---- what every step keeps ----

  /** Unread entries sit in the slots of their positions in the history. */
  ghost predicate Stored<T>(slots: seq<T>, pushed: seq<T>, from: nat)
    requires |slots| >= 1
  {
    forall k: nat | from <= k < |pushed| :: slots[k % |slots|] == pushed[k]
  }

  ghost predicate CoreInv<T>(s: State<T>) {
    var n := |s.mem.slots|;
    && IsPowerOfTwo(n) && n >= 1
    && s.mem.head == |s.popped| % U32
    && s.mem.tail == |s.pushed| % U32
    && |s.popped| <= |s.pushed| <= |s.popped| + n
    && s.popped == s.pushed[..|s.popped|]
    && Stored(s.mem.slots, s.pushed, |s.popped|)
  }

  function Occupancy<T>(s: State<T>): int {
    |s.pushed| - |s.popped|
  }

  ghost predicate ProducerInv<T>(s: State<T>)
    requires |s.mem.slots| >= 1
  {
    var n := |s.mem.slots|;
    match s.prod
    case PIdle => true
    case PHead(_, h, room) => Sub32(s.mem.tail, h) == room && Occupancy(s) <= room <= n
    case PTail(_, t) => t == s.mem.tail
    case PLoaded(_, _, h, t, room) =>
      t == s.mem.tail && Sub32(t, h) == room && Occupancy(s) <= room <= n
    case PWrite(_, t) => t == s.mem.tail && Occupancy(s) < n
    case PRelease(e, t) =>
      t == s.mem.tail && Occupancy(s) < n && s.mem.slots[|s.pushed| % n] == e
  }

  ghost predicate ConsumerInv<T>(s: State<T>) {
    match s.cons
    case CIdle => true
    case CTail(t, ready) =>
      t < U32 && Sub32(t, s.mem.head) == ready && 0 <= ready <= Occupancy(s)
    case CHead(h) => h == s.mem.head
    case CLoaded(h, t, ready) =>
      h == s.mem.head && t < U32 && Sub32(t, h) == ready && 0 <= ready <= Occupancy(s)
    case CRead(h) => h == s.mem.head && |s.popped| < |s.pushed|
    case CRelease(h, e) =>
      h == s.mem.head && |s.popped| < |s.pushed| && e == s.pushed[|s.popped|]
    case BHead(h, _) => h == s.mem.head
    case BRead(h, count, got) =>
      h == s.mem.head && count <= Occupancy(s) && GotPrefix(s, count, got)
    case BRelease(h, count, got) =>
      h == s.mem.head && count <= Occupancy(s) && GotPrefix(s, count, got) && |got| == count
  }

  ghost predicate GotPrefix<T>(s: State<T>, count: nat, got: seq<T>) {
    |got| <= count && |s.popped| + count <= |s.pushed| && got == s.pushed[|s.popped|..|s.popped| + |got|]
  }

  ghost predicate Inv<T>(s: State<T>) {
    CoreInv(s) && ProducerInv(s) && ConsumerInv(s)
  }

  lemma InitInv<T>(slots: seq<T>)
    requires IsPowerOfTwo(|slots|)
    ensures Inv(Init(slots))
  {
    PowerOfTwoFacts(|slots|);
  }

  /** Writing the slot of position |pushed| leaves every unread entry alone. */
  lemma WriteKeepsUnread<T>(s: State<T>, e: T)
    requires CoreInv(s) && Occupancy(s) < |s.mem.slots|
    ensures var n := |s.mem.slots|;
            var slots := Put(s.mem.slots, s.mem.tail, e);
            slots == s.mem.slots[|s.pushed| % n := e] && Stored(slots, s.pushed, |s.popped|)
  {
    var n := |s.mem.slots|;
    SlotOfCounter(n, |s.pushed|);
    forall k: nat | |s.popped| <= k < |s.pushed|
      ensures k % n != |s.pushed| % n
    {
      SlotsDiffer(k, |s.pushed|, n);
    }
  }

  /** Loads and tests: shared memory and history stay as they are. */
  lemma ProducerLoadKeepsInv<T>(s: State<T>, e: T, f: Flavour)
    requires Inv(s) && !s.prod.PWrite? && !s.prod.PRelease?
    ensures Inv(ProducerStep(s, e, f))
  {
    hide Stored, IsPowerOfTwo;
    var r := ProducerStep(s, e, f);
    assert CoreInv(r) && ConsumerInv(r) by {
      assert r == s.(prod := r.prod);
    }
    assert Sub32(s.mem.tail, s.mem.head) == Occupancy(s) by {
      PowerOfTwoFacts(|s.mem.slots|);
      Sub32Exact(|s.pushed|, |s.popped|);
    }
  }

  lemma ProducerWriteKeepsInv<T>(s: State<T>, e: T, f: Flavour)
    requires Inv(s) && s.prod.PWrite?
    ensures Inv(ProducerStep(s, e, f))
  {
    WriteKeepsUnread(s, s.prod.entry);
    SlotOfCounter(|s.mem.slots|, |s.pushed|);
  }

  lemma ProducerReleaseKeepsInv<T>(s: State<T>, e: T, f: Flavour)
    requires Inv(s) && s.prod.PRelease?
    ensures Inv(ProducerStep(s, e, f))
  {
    var r := ProducerStep(s, e, f);
    AddCounter(|s.pushed|, 1);
    assert r.pushed[..|s.popped|] == s.pushed[..|s.popped|];
    forall k: nat | |s.popped| <= k < |r.pushed|
      ensures r.mem.slots[k % |r.mem.slots|] == r.pushed[k]
    {
      if k < |s.pushed| {
        assert r.pushed[k] == s.pushed[k];
      }
    }
    LongerHistory(s, r);
  }

  /** The consumer's view only gains entries when the producer releases one. */
  lemma LongerHistory<T>(s: State<T>, r: State<T>)
    requires ConsumerInv(s) && r.cons == s.cons && r.mem.head == s.mem.head
    requires r.popped == s.popped && s.pushed <= r.pushed
    ensures ConsumerInv(r)
  {
  }

  lemma ProducerKeepsInv<T>(s: State<T>, e: T, f: Flavour)
    requires Inv(s)
    ensures Inv(ProducerStep(s, e, f))
  {
    match s.prod
    case PWrite(_, _) => ProducerWriteKeepsInv(s, e, f);
    case PRelease(_, _) => ProducerReleaseKeepsInv(s, e, f);
    case _ => ProducerLoadKeepsInv(s, e, f);
  }

  lemma ConsumerLoadKeepsInv<T>(s: State<T>, mode: Mode)
    requires Inv(s)
    requires s.cons.CIdle? || s.cons.CTail? || s.cons.CHead? || s.cons.CLoaded? || s.cons.BHead?
    ensures Inv(ConsumerStep(s, mode))
  {
    hide Stored, IsPowerOfTwo;
    PowerOfTwoFacts(|s.mem.slots|);
    Sub32Exact(|s.pushed|, |s.popped|);
  }

  /** The slot of the i-th unread entry holds the i-th unread entry. */
  lemma ReadsUnread<T>(s: State<T>, i: nat)
    requires CoreInv(s) && i < Occupancy(s)
    ensures Get(s.mem.slots, Add32(s.mem.head, i)) == s.pushed[|s.popped| + i]
  {
    PowerOfTwoFacts(|s.mem.slots|);
    AddCounter(|s.popped|, i);
    SlotOfCounter(|s.mem.slots|, |s.popped| + i);
  }

  lemma ConsumerReadKeepsInv<T>(s: State<T>, mode: Mode)
    requires Inv(s) && (s.cons.CRead? || s.cons.BRead?)
    ensures Inv(ConsumerStep(s, mode))
  {
    var r := ConsumerStep(s, mode);
    assert CoreInv(r) && ProducerInv(r) by {
      assert r == s.(cons := r.cons);
    }
    if s.cons.CRead? {
      assert Add32(s.cons.head, 0) == s.cons.head;
      ReadsUnread(s, 0);
    } else {
      BatchReadKeepsInv(s, mode);
    }
  }

  lemma BatchReadKeepsInv<T>(s: State<T>, mode: Mode)
    requires Inv(s) && s.cons.BRead?
    ensures ConsumerInv(ConsumerStep(s, mode))
  {
    var BRead(h, count, got) := s.cons;
    if |got| < count { ReadsUnread(s, |got|); }
  }

  lemma ReleaseHeadKeepsInv<T>(s: State<T>, got: seq<T>)
    requires Inv(s) && GotPrefix(s, |got|, got) && |got| < U32
    ensures var r := s.(mem := s.mem.(head := Add32(s.mem.head, |got|)), cons := CIdle, popped := s.popped + got);
            Inv(r)
  {
    AddCounter(|s.popped|, |got|);
    assert s.popped + got == s.pushed[..|s.popped| + |got|];
  }

  lemma ConsumerKeepsInv<T>(s: State<T>, mode: Mode)
    requires Inv(s)
    ensures Inv(ConsumerStep(s, mode))
  {
    PowerOfTwoFacts(|s.mem.slots|);
    match s.cons
    case CRead(_) => ConsumerReadKeepsInv(s, mode);
    case BRead(_, _, _) => ConsumerReadKeepsInv(s, mode);
    case CRelease(_, e) => ReleaseHeadKeepsInv(s, [e]);
    case BRelease(_, _, got) => ReleaseHeadKeepsInv(s, got);
    case _ => ConsumerLoadKeepsInv(s, mode);
  }

  lemma StepKeepsInv<T>(s: State<T>, a: Action<T>)
    requires Inv(s)
    ensures Inv(Step(s, a))
  {
    match a
    case Produce(e, f) => ProducerKeepsInv(s, e, f);
    case Consume(mode) => ConsumerKeepsInv(s, mode);
  }

  lemma {:induction false} RunKeepsInv<T>(s: State<T>, actions: seq<Action<T>>)
    requires Inv(s)
    ensures Inv(Run(s, actions))
    decreases |actions|
  {
    if actions != [] {
      StepKeepsInv(s, actions[0]);
      RunKeepsInv(Step(s, actions[0]), actions[1..]);
    }
  }

  // ---- refinement of an unbounded FIFO ----

  datatype Event<T> = Silent | Enqueue(entry: T) | Dequeue(entries: seq<T>)

  /** What a step makes visible: a release of the tail enqueues, a release of the head dequeues what was read. */
  function EventOf<T>(s: State<T>, a: Action<T>): Event<T> {
    if a.Produce? && s.prod.PRelease? then Enqueue(s.prod.entry)
    else if a.Consume? && s.cons.CRelease? then Dequeue([s.cons.entry])
    else if a.Consume? && s.cons.BRelease? then Dequeue(s.cons.got)
    else Silent
  }

  function Trace<T>(s: State<T>, actions: seq<Action<T>>): seq<Event<T>>
    requires |s.mem.slots| >= 1
    decreases |actions|
  {
    if actions == [] then [] else [EventOf(s, actions[0])] + Trace(Step(s, actions[0]), actions[1..])
  }

  /** The reference queue: unbounded, first in first out; `None` when a dequeue returns anything but the front. */
  function Fifo<T(==)>(queue: seq<T>, events: seq<Event<T>>): Option<seq<T>>
    decreases |events|
  {
    if events == [] then Some(queue)
    else match events[0]
      case Silent => Fifo(queue, events[1..])
      case Enqueue(e) => Fifo(queue + [e], events[1..])
      case Dequeue(es) => if es <= queue then Fifo(queue[|es|..], events[1..]) else None
  }

  function Unread<T>(s: State<T>): seq<T>
    requires |s.popped| <= |s.pushed|
  {
    s.pushed[|s.popped|..]
  }

  lemma EnqueueRefines<T>(s: State<T>, a: Action<T>)
    requires Inv(s) && EventOf(s, a).Enqueue?
    ensures Step(s, a).popped == s.popped
    ensures Unread(Step(s, a)) == Unread(s) + [EventOf(s, a).entry]
  {
  }

  lemma DequeueRefines<T>(s: State<T>, a: Action<T>)
    requires Inv(s) && EventOf(s, a).Dequeue?
    ensures |Step(s, a).popped| <= |Step(s, a).pushed|
    ensures Unread(s) == EventOf(s, a).entries + Unread(Step(s, a))
  {
    hide Inv, Step;
    ReadsFront(s, a);
    SplitRest(s.pushed, |s.popped|, |s.popped| + |EventOf(s, a).entries|);
  }

  /** A release of the head takes exactly the oldest unread entries. */
  lemma ReadsFront<T>(s: State<T>, a: Action<T>)
    requires Inv(s) && EventOf(s, a).Dequeue?
    ensures var es, r := EventOf(s, a).entries, Step(s, a);
            && |s.popped| + |es| <= |s.pushed|
            && es == s.pushed[|s.popped|..|s.popped| + |es|]
            && r.pushed == s.pushed && r.popped == s.popped + es
  {
    hide Stored, ProducerInv, IsPowerOfTwo, Add32, Sub32;
  }

  lemma SplitRest<T>(p: seq<T>, i: nat, j: nat)
    requires i <= j <= |p|
    ensures p[i..] == p[i..j] + p[j..]
  {
  }

  lemma StepRefinesFifo<T>(s: State<T>, a: Action<T>)
    requires Inv(s)
    ensures Inv(Step(s, a))
    ensures Fifo(Unread(s), [EventOf(s, a)]) == Some(Unread(Step(s, a)))
  {
    StepKeepsInv(s, a);
    match EventOf(s, a)
    case Silent => assert Step(s, a).pushed == s.pushed && Step(s, a).popped == s.popped;
    case Enqueue(e) => EnqueueRefines(s, a);
    case Dequeue(es) => DequeueRefines(s, a);
  }

  lemma {:induction false} RunRefinesFifo<T>(s: State<T>, actions: seq<Action<T>>)
    requires Inv(s)
    ensures Inv(Run(s, actions))
    ensures Fifo(Unread(s), Trace(s, actions)) == Some(Unread(Run(s, actions)))
    decreases |actions|
  {
    if actions != [] {
      var r := Step(s, actions[0]);
      StepRefinesFifo(s, actions[0]);
      RunRefinesFifo(r, actions[1..]);
      var e := EventOf(s, actions[0]);
      assert Trace(s, actions)[1..] == Trace(r, actions[1..]);
      assert [e][1..] == [];
    }
  }

  /**
   * Every interleaving of one producer and one consumer, Rust or C, popping singly or in
   * batches, for any power-of-two size and any number of counter wrap-arounds.
   */
  lemma RingIsFifo<T>(slots: seq<T>, actions: seq<Action<T>>)
    requires IsPowerOfTwo(|slots|)
    ensures |slots| >= 1
    ensures var s := Run(Init(slots), actions);
            && s.popped <= s.pushed
            && |s.pushed| - |s.popped| <= |slots|
            && Sub32(s.mem.tail, s.mem.head) == |s.pushed| - |s.popped|
            && Fifo([], Trace(Init(slots), actions)) == Some(s.pushed[|s.popped|..])
  {
    InitInv(slots);
    RunRefinesFifo(Init(slots), actions);
    var s := Run(Init(slots), actions);
    RunKeepsSize(Init(slots), actions);
    PowerOfTwoFacts(|slots|);
    Sub32Exact(|s.pushed|, |s.popped|);
    assert Unread(Init(slots)) == [];
  }

  lemma {:induction false} RunKeepsSize<T>(s: State<T>, actions: seq<Action<T>>)
    requires |s.mem.slots| >= 1
    ensures |Run(s, actions).mem.slots| == |s.mem.slots|
    decreases |actions|
  {
    if actions != [] { RunKeepsSize(Step(s, actions[0]), actions[1..]); }
  }

  /** The slot the consumer is about to read, if any. */
  function ReadIndex<T>(c: Consumer<T>): Option<nat> {
    match c
    case CRead(h) => Some(h)
    case BRead(h, count, got) => if |got| < count then Some(Add32(h, |got|)) else None
    case _ => None
  }

  /** The producer never writes an unread slot, nor the slot being read; the consumer never reads an unwritten one. */
  lemma SlotAccessesAreSafe<T>(s: State<T>)
    requires Inv(s)
    ensures s.prod.PWrite? ==>
              forall k: nat | |s.popped| <= k < |s.pushed| :: Slot(|s.mem.slots|, s.prod.tail) != k % |s.mem.slots|
    ensures ReadIndex(s.cons).Some? ==>
              exists k: nat | |s.popped| <= k < |s.pushed| ::
                Slot(|s.mem.slots|, ReadIndex(s.cons).value) == k % |s.mem.slots|
    ensures s.prod.PWrite? && ReadIndex(s.cons).Some? ==>
              Slot(|s.mem.slots|, s.prod.tail) != Slot(|s.mem.slots|, ReadIndex(s.cons).value)
  {
    var n := |s.mem.slots|;
    PowerOfTwoFacts(n);
    if s.prod.PWrite? {
      SlotOfCounter(n, |s.pushed|);
      forall k: nat | |s.popped| <= k < |s.pushed|
        ensures Slot(n, s.prod.tail) != k % n
      {
        SlotsDiffer(k, |s.pushed|, n);
      }
    }
    if ReadIndex(s.cons).Some? {
      var i := if s.cons.CRead? then 0 else |s.cons.got|;
      var k := |s.popped| + i;
      AddCounter(|s.popped|, i);
      SlotOfCounter(n, k);
      assert Slot(n, ReadIndex(s.cons).value) == k % n;
    }
  }

  /** A refusal is exact: full, or empty, at the instant the peer's counter was loaded, in either flavour. */
  lemma RefusalsAreExact<T>(s: State<T>, e: T, f: Flavour, mode: Mode)
    requires Inv(s)
    ensures s.prod.PLoaded? ==> (ProducerStep(s, e, f).prod.PIdle? <==> s.prod.room == |s.mem.slots|)
    ensures s.cons.CLoaded? ==> (ConsumerStep(s, mode).cons.CIdle? <==> s.cons.ready == 0)
  {
  }

  // ---- a party running alone, and the ring object ----

  predicate WellFormed<T>(m: Mem<T>) {
    && IsPowerOfTwo(|m.slots|) && |m.slots| >= 1
    && m.head < U32 && m.tail < U32 && Sub32(m.tail, m.head) <= |m.slots|
  }

  /** The entries pushed and not yet popped, oldest first, as the slots hold them. */
  function ContentsOf<T>(m: Mem<T>): (c: seq<T>)
    requires |m.slots| >= 1
    ensures |c| == Sub32(m.tail, m.head)
  {
    seq(Sub32(m.tail, m.head), i requires 0 <= i => Get(m.slots, Add32(m.head, i)))
  }

  /** The memory after one party takes `k` steps with the other at rest. */
  function Alone<T>(m: Mem<T>, a: Action<T>, k: nat): (s: State<T>)
    requires |m.slots| >= 1
    ensures |s.mem.slots| == |m.slots|
  {
    if k == 0 then State(m, PIdle, CIdle, [], []) else Step(Alone(m, a, k - 1), a)
  }

  const PUSH_STEPS := 5
  const POP_STEPS := 5

  function Pushed<T>(m: Mem<T>, e: T): Mem<T>
    requires |m.slots| >= 1
  {
    m.(slots := Put(m.slots, m.tail, e), tail := Add32(m.tail, 1))
  }

  lemma PushAlone<T>(m: Mem<T>, e: T, f: Flavour)
    requires WellFormed(m)
    ensures Alone(m, Produce(e, f), PUSH_STEPS).mem ==
            if |ContentsOf(m)| < |m.slots| then Pushed(m, e) else m
  {
    var a := Produce(e, f);
    var s1 := Alone(m, a, 1);
    assert s1 == Step(Alone(m, a, 0), a);
    var s2 := Alone(m, a, 2);
    assert s2 == Step(s1, a);
    assert s2.prod.PLoaded? && s2.mem == m && s2.prod.head == m.head && s2.prod.tail == m.tail;
    var s3 := Alone(m, a, 3);
    assert s3 == Step(s2, a);
    var s4 := Alone(m, a, 4);
    assert s4 == Step(s3, a);
    assert Alone(m, a, 5) == Step(s4, a);
  }

  lemma TailSlot<T>(m: Mem<T>)
    requires WellFormed(m)
    ensures Slot(|m.slots|, m.tail) == (m.head + |ContentsOf(m)|) % |m.slots|
  {
    hide And, ContentsOf, IsPowerOfTwo;
    SlotOfCounter(|m.slots|, m.head + Sub32(m.tail, m.head));
    HeadPlusLength(m.tail, m.head);
  }

  lemma HeadPlusLength(tail: nat, head: nat)
    requires tail < U32 && head < U32
    ensures (head + Sub32(tail, head)) % U32 == tail
  {
    assert Sub32(tail, head) == if tail >= head then tail - head else tail - head + U32;
  }

  lemma PushedLength<T>(m: Mem<T>, e: T)
    requires WellFormed(m) && |ContentsOf(m)| < |m.slots|
    ensures WellFormed(Pushed(m, e))
    ensures |ContentsOf(Pushed(m, e))| == |ContentsOf(m)| + 1
  {
    PowerOfTwoFacts(|m.slots|);
    Sub32Advance(m.tail, m.head, 1);
    assert |Pushed(m, e).slots| == |m.slots|;
  }

  lemma PushedAt<T>(m: Mem<T>, e: T, i: nat)
    requires WellFormed(m) && i <= |ContentsOf(m)| < |m.slots|
    ensures Get(Pushed(m, e).slots, Add32(m.head, i)) ==
            if i < |ContentsOf(m)| then Get(m.slots, Add32(m.head, i)) else e
  {
    hide Add32, And, ContentsOf, IsPowerOfTwo, Sub32;
    var n, len := |m.slots|, |ContentsOf(m)|;
    SlotAt(m, i);
    TailSlot(m);
    if i < len { SlotsDiffer(m.head + i, m.head + len, n); }
  }

  lemma SlotAt<T>(m: Mem<T>, i: nat)
    requires WellFormed(m)
    ensures Slot(|m.slots|, Add32(m.head, i)) == (m.head + i) % |m.slots|
  {
    hide And, IsPowerOfTwo;
    SlotOfCounter(|m.slots|, m.head + i);
  }

  lemma FirstEntry<T>(m: Mem<T>)
    requires WellFormed(m) && |ContentsOf(m)| > 0
    ensures ContentsOf(m)[0] == Get(m.slots, m.head)
  {
    assert Add32(m.head, 0) == m.head;
  }

  lemma PushedContents<T>(m: Mem<T>, e: T)
    requires WellFormed(m) && |ContentsOf(m)| < |m.slots|
    ensures WellFormed(Pushed(m, e))
    ensures ContentsOf(Pushed(m, e)) == ContentsOf(m) + [e]
  {
    PushedLength(m, e);
    forall i: nat | i <= |ContentsOf(m)|
      ensures ContentsOf(Pushed(m, e))[i] == (ContentsOf(m) + [e])[i]
    {
      PushedAt(m, e, i);
    }
  }

  lemma PopAlone<T>(m: Mem<T>, f: Flavour)
    requires WellFormed(m)
    ensures var s := Alone(m, Consume(Single(f)), POP_STEPS);
            if |ContentsOf(m)| > 0
            then s.mem == Popped(m, 1) && s.popped == [ContentsOf(m)[0]]
            else s.mem == m && s.popped == []
  {
    var a: Action<T> := Consume(Single(f));
    var s1 := Alone(m, a, 1);
    assert s1 == Step(Alone(m, a, 0), a);
    var s2 := Alone(m, a, 2);
    assert s2 == Step(s1, a);
    assert s2.cons.CLoaded? && s2.mem == m && s2.cons.head == m.head && s2.cons.tail == m.tail;
    var s3 := Alone(m, a, 3);
    assert s3 == Step(s2, a);
    var s4 := Alone(m, a, 4);
    assert s4 == Step(s3, a);
    assert Alone(m, a, 5) == Step(s4, a);
    assert Add32(m.head, 0) == m.head;
  }

  function Popped<T>(m: Mem<T>, count: nat): Mem<T> {
    m.(head := Add32(m.head, count))
  }

  lemma PoppedLength<T>(m: Mem<T>, count: nat)
    requires WellFormed(m) && count <= |ContentsOf(m)|
    ensures WellFormed(Popped(m, count))
    ensures |ContentsOf(Popped(m, count))| == |ContentsOf(m)| - count
  {
    PowerOfTwoFacts(|m.slots|);
    Sub32Advance(m.tail, m.head, count);
  }

  lemma PoppedContents<T>(m: Mem<T>, count: nat)
    requires WellFormed(m) && count <= |ContentsOf(m)|
    ensures WellFormed(Popped(m, count))
    ensures ContentsOf(Popped(m, count)) == ContentsOf(m)[count..]
  {
    PoppedLength(m, count);
    forall i: nat | i < |ContentsOf(m)| - count
      ensures ContentsOf(Popped(m, count))[i] == ContentsOf(m)[count..][i]
    {
      Add32Add(m.head, count, i);
    }
  }

  function Least(a: nat, b: nat): nat {
    if a < b then a else b
  }

  /** How many steps a batch of `count` entries takes: two loads, the reads, the test, and the head advance if any. */
  function BatchSteps(count: nat): nat {
    if count == 0 then 3 else count + 4
  }

  lemma {:induction false} BatchReads<T>(m: Mem<T>, max: nat, i: nat)
    requires WellFormed(m) && i <= Least(|ContentsOf(m)|, max)
    ensures var s := Alone(m, Consume(Batch(max)), i + 2);
            s.mem == m && s.popped == [] && s.cons == BRead(m.head, Least(|ContentsOf(m)|, max), ContentsOf(m)[..i])
    decreases i
  {
    var a: Action<T> := Consume(Batch(max));
    assert Alone(m, a, i + 2) == Step(Alone(m, a, i + 1), a);
    if i == 0 {
      assert Alone(m, a, 1) == Step(Alone(m, a, 0), a);
    } else {
      BatchReads(m, max, i - 1);
      assert ContentsOf(m)[..i] == ContentsOf(m)[..i - 1] + [ContentsOf(m)[i - 1]];
    }
  }

  /** The consumer's batch steps run without interference take the oldest entries up to the limit, at once. */
  lemma BatchAlone<T>(m: Mem<T>, max: nat)
    requires WellFormed(m)
    ensures var n := Least(|ContentsOf(m)|, max);
            var s := Alone(m, Consume(Batch(max)), BatchSteps(n));
            s.cons.CIdle? && s.popped == ContentsOf(m)[..n] && s.mem == if n == 0 then m else Popped(m, n)
  {
    var a: Action<T> := Consume(Batch(max));
    var n := Least(|ContentsOf(m)|, max);
    BatchReads(m, max, n);
    assert Alone(m, a, n + 3) == Step(Alone(m, a, n + 2), a);
    if n > 0 { assert Alone(m, a, n + 4) == Step(Alone(m, a, n + 3), a); }
  }

  /**
   * In any interleaving a batch fixes its size when it loads the tail, at the number of unread
   * entries or the limit, and its head advance dequeues exactly that many of the oldest.
   */
  lemma BatchTakes<T>(s: State<T>, mode: Mode)
    requires Inv(s)
    ensures s.cons.BHead? ==> ConsumerStep(s, mode).cons == BRead(s.mem.head, Least(|s.pushed| - |s.popped|, s.cons.max), [])
    ensures s.cons.BRead? ==>
              var r := ConsumerStep(s, mode).cons;
              (r.BRead? ==> r.count == s.cons.count) && (r.BRelease? ==> r.count == s.cons.count > 0) && (r.CIdle? ==> s.cons.count == 0)
    ensures s.cons.BRelease? ==>
              && |s.popped| + s.cons.count <= |s.pushed|
              && ConsumerStep(s, mode).popped == s.popped + s.pushed[|s.popped|..|s.popped| + s.cons.count]
  {
    hide Stored, IsPowerOfTwo;
    PowerOfTwoFacts(|s.mem.slots|);
    Sub32Exact(|s.pushed|, |s.popped|);
  }

  class SpscRing<T> {
    const slots: array<T>
    var head: nat
    var tail: nat

    /** The ring as the interleaving model's shared memory. */
    ghost function View(): Mem<T>
      reads this, slots
    {
      Mem(head, tail, slots[..])
    }

    ghost predicate Valid()
      reads this, slots
    {
      WellFormed(View())
    }

    ghost function Contents(): seq<T>
      requires Valid()
      reads this, slots
    {
      ContentsOf(View())
    }

    constructor (backing: array<T>)
      requires IsPowerOfTwo(backing.Length)
      ensures Valid() && slots == backing
      ensures Contents() == [] && View() == Init(backing[..]).mem
    {
      slots := backing;
      head := 0;
      tail := 0;
      new;
      PowerOfTwoFacts(backing.Length);
    }

    method Len() returns (n: nat)
      requires Valid()
      ensures n == |Contents()|
    {
      n := Sub32(tail, head);
    }

    method Available() returns (n: nat)
      requires Valid()
      ensures n == slots.Length - |Contents()|
    {
      n := slots.Length - Sub32(tail, head);
    }

    method ReadEntry(index: nat) returns (e: T)
      requires Valid()
      ensures e == Get(slots[..], index)
    {
      AndBound(index, slots.Length - 1);
      e := slots[Slot(slots.Length, index)];
    }

    method WriteEntry(index: nat, e: T)
      requires Valid()
      modifies slots
      ensures slots[..] == Put(old(slots[..]), index, e)
    {
      AndBound(index, slots.Length - 1);
      slots[Slot(slots.Length, index)] := e;
    }

    method Push(entry: T) returns (ok: bool)
      requires Valid()
      modifies this`tail, slots
      ensures Valid()
      ensures ok <==> |old(Contents())| < slots.Length
      ensures Contents() == if ok then old(Contents()) + [entry] else old(Contents())
      ensures View() == Alone(old(View()), Produce(entry, Rust), PUSH_STEPS).mem
    {
      PushAlone(View(), entry, Rust);
      var h := head;
      var t := tail;
      if Sub32(t, h) >= slots.Length {
        return false;
      }
      PushedContents(View(), entry);
      WriteEntry(t, entry);
      tail := Add32(t, 1);
      ok := true;
    }

    method Pop() returns (r: Option<T>)
      requires Valid()
      modifies this`head
      ensures Valid()
      ensures r == if |old(Contents())| > 0 then Some(old(Contents())[0]) else None
      ensures Contents() == if r.Some? then old(Contents())[1..] else old(Contents())
      ensures View() == Alone(old(View()), Consume(Single(Rust)), POP_STEPS).mem
    {
      PopAlone(View(), Rust);
      var t := tail;
      var h := head;
      if h == t {
        return None;
      }
      PoppedContents(View(), 1);
      FirstEntry(View());
      var entry := ReadEntry(h);
      head := Add32(h, 1);
      r := Some(entry);
    }

    /** `sq_push` of the C library: own counter first, and the test is against the mask. */
    method SqPush(entry: T) returns (rc: int)
      requires Valid()
      modifies this`tail, slots
      ensures Valid()
      ensures rc == if |old(Contents())| < slots.Length then 0 else -1
      ensures Contents() == if rc == 0 then old(Contents()) + [entry] else old(Contents())
      ensures View() == Alone(old(View()), Produce(entry, C), PUSH_STEPS).mem
    {
      PushAlone(View(), entry, C);
      var mask := slots.Length - 1;
      var t := tail;
      var h := head;
      if Sub32(t, h) > mask {
        return -1;
      }
      PushedContents(View(), entry);
      WriteEntry(t, entry);
      tail := Add32(t, 1);
      rc := 0;
    }

    /** `cq_pop` of the C library. */
    method CqPop() returns (r: Option<T>)
      requires Valid()
      modifies this`head
      ensures Valid()
      ensures r == if |old(Contents())| > 0 then Some(old(Contents())[0]) else None
      ensures Contents() == if r.Some? then old(Contents())[1..] else old(Contents())
      ensures View() == Alone(old(View()), Consume(Single(C)), POP_STEPS).mem
    {
      PopAlone(View(), C);
      var h := head;
      var t := tail;
      if h == t {
        return None;
      }
      PoppedContents(View(), 1);
      FirstEntry(View());
      var entry := ReadEntry(h);
      head := Add32(h, 1);
      r := Some(entry);
    }

    /** The submission-queue half of `sys_io_ring_enter`: read up to `max` entries, then advance the head once. */
    method DrainBatch(max: nat) returns (got: seq<T>)
      requires Valid()
      modifies this`head
      ensures Valid()
      ensures |got| == if |old(Contents())| < max then |old(Contents())| else max
      ensures got + Contents() == old(Contents())
      ensures var s := Alone(old(View()), Consume(Batch(max)), BatchSteps(Least(|old(Contents())|, max)));
              View() == s.mem && got == s.popped
    {
      BatchAlone(View(), max);
      var h := head;
      var t := tail;
      var pending := Sub32(t, h);
      var count := if pending < max then pending else max;
      got := [];
      for i := 0 to count
        invariant head == h && got == Contents()[..i]
      {
        var entry := ReadEntry(Add32(h, i));
        got := got + [entry];
      }
      if count > 0 {
        PoppedContents(View(), count);
        head := Add32(head, count);
      }
    }
  }
}
