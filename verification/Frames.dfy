/**
 * Physical frames: the intrusive free list and sequential allocator
 * (libkernel/src/memory/frame_allocator.rs), the sparse reference-count table
 * (libkernel/src/memory/mod.rs) and the objects that hold references
 * (libkernel/src/shmem.rs, osl/src/syscalls/mem.rs).
 *
 * A frame is named by its physical address.  `Phys` is the kernel's own
 * state; `Model` adds what the kernel does not store: the chain of frames on
 * the free list and the multiset of references that owners hold.
 */
module Frames {
  import opened Base
  import opened Pages

  const WORDS: nat := 512
  const MAX_COUNT: nat := 65535

  datatype Phys = Phys(
    words: map<nat, seq<nat>>,
    freeHead: nat,
    next: nat,
    usable: seq<nat>,
    refcounts: map<nat, nat>)

  datatype Model = Model(phys: Phys, list: seq<nat>, held: multiset<nat>)

  // ---- the bootloader's memory map ----

  datatype Region = Region(start: nat, end: nat, usable: bool)

  function RegionFrames(start: nat, end: nat): seq<nat>
    decreases end - start
  {
    if start >= end then [] else [start / PAGE_SIZE * PAGE_SIZE] + RegionFrames(start + PAGE_SIZE, end)
  }

  function UsableFrames(regions: seq<Region>): seq<nat> {
    if regions == [] then []
    else (if regions[0].usable then RegionFrames(regions[0].start, regions[0].end) else [])
         + UsableFrames(regions[1..])
  }

  ghost predicate Apart(a: Region, b: Region) {
    a.end <= b.start || b.end <= a.start
  }

  lemma {:induction false} RegionFramesRange(start: nat, end: nat)
    requires start % PAGE_SIZE == 0
    ensures NoDuplicates(RegionFrames(start, end))
    ensures forall f <- RegionFrames(start, end) :: start <= f < end
    decreases end - start
  {
    if start < end {
      RegionFramesRange(start + PAGE_SIZE, end);
      NoDuplicatesConcat([start / PAGE_SIZE * PAGE_SIZE], RegionFrames(start + PAGE_SIZE, end));
    }
  }

  lemma {:induction false} RegionFramesAre(start: nat, end: nat, f: nat)
    requires start % PAGE_SIZE == 0
    ensures f in RegionFrames(start, end) <==> f % PAGE_SIZE == 0 && start <= f < end
    decreases end - start
  {
    if start < end { RegionFramesAre(start + PAGE_SIZE, end, f); }
  }

  /** The frames of a region come in ascending order. */
  lemma {:induction false} RegionFramesAscend(start: nat, end: nat)
    requires start % PAGE_SIZE == 0
    ensures forall i, j | 0 <= i < j < |RegionFrames(start, end)| :: RegionFrames(start, end)[i] < RegionFrames(start, end)[j]
    decreases end - start
  {
    if start < end {
      var rest := RegionFrames(start + PAGE_SIZE, end);
      RegionFramesAscend(start + PAGE_SIZE, end);
      RegionFramesRange(start + PAGE_SIZE, end);
      assert forall k | 0 <= k < |rest| :: rest[k] in rest;
      assert RegionFrames(start, end) == [start] + rest;
    }
  }

  /** A usable region that the frame lies in. */
  ghost predicate Offers(r: Region, f: nat) {
    r.usable && r.start <= f < r.end
  }

  /** The usable frames are exactly the page-aligned addresses in usable regions. */
  lemma {:induction false} UsableFramesAre(regions: seq<Region>, f: nat)
    requires forall r <- regions :: r.start % PAGE_SIZE == 0
    ensures f in UsableFrames(regions) <==> f % PAGE_SIZE == 0 && exists r <- regions :: Offers(r, f)
  {
    if regions != [] {
      var first, rest := regions[0], regions[1..];
      RegionFramesAre(first.start, first.end, f);
      UsableFramesAre(rest, f);
      assert regions == [first] + rest;
      assert (exists r <- regions :: Offers(r, f)) <==> Offers(first, f) || exists r <- rest :: Offers(r, f);
    }
  }

  /** `f` is offered before `g`: by an earlier region, or lower in the same one. */
  ghost predicate Earlier(regions: seq<Region>, a: nat, b: nat, f: nat, g: nat) {
    a <= b < |regions| && Offers(regions[a], f) && Offers(regions[b], g) && (a == b ==> f < g)
  }

  /**
   * They come in the order of the regions, ascending within each: a frame of an earlier region
   * before one of a later region, and of two frames of one region the lower one first.
   */
  lemma {:induction false} UsableFramesOrder(regions: seq<Region>, i: nat, j: nat) returns (a: nat, b: nat)
    requires forall r <- regions :: r.start % PAGE_SIZE == 0
    requires i < j < |UsableFrames(regions)|
    ensures Earlier(regions, a, b, UsableFrames(regions)[i], UsableFrames(regions)[j])
  {
    hide UsableFrames, OfferedBy, Offers;
    FirstRegion(regions);
    var here, rest := OfferedBy(regions[0]), UsableFrames(regions[1..]);
    if j < |here| {
      FirstRegionOrder(regions[0], i, j);
      a, b := 0, 0;
    } else if i < |here| {
      FirstRegionOrder(regions[0], i, i);
      assert rest[j - |here|] in rest;
      b := LaterRegion(regions, rest[j - |here|]);
      a := 0;
    } else {
      a, b := UsableFramesOrder(regions[1..], i - |here|, j - |here|);
      a, b := a + 1, b + 1;
    }
  }

  function OfferedBy(r: Region): seq<nat> {
    if r.usable then RegionFrames(r.start, r.end) else []
  }

  lemma FirstRegion(regions: seq<Region>)
    requires UsableFrames(regions) != []
    ensures regions != []
    ensures UsableFrames(regions) == OfferedBy(regions[0]) + UsableFrames(regions[1..])
    ensures regions[0] in regions && forall r <- regions[1..] :: r in regions
  {
    hide RegionFrames;
  }

  lemma FirstRegionOrder(r: Region, k: nat, l: nat)
    requires r.start % PAGE_SIZE == 0 && k <= l < |OfferedBy(r)|
    ensures Offers(r, OfferedBy(r)[k]) && Offers(r, OfferedBy(r)[l]) && (k < l ==> OfferedBy(r)[k] < OfferedBy(r)[l])
  {
    RegionFramesAscend(r.start, r.end);
    RegionFramesRange(r.start, r.end);
    assert OfferedBy(r)[k] in OfferedBy(r) && OfferedBy(r)[l] in OfferedBy(r);
  }

  lemma LaterRegion(regions: seq<Region>, g: nat) returns (k: nat)
    requires regions != [] && (forall r <- regions :: r.start % PAGE_SIZE == 0) && g in UsableFrames(regions[1..])
    ensures 0 < k < |regions| && Offers(regions[k], g)
  {
    UsableFramesAre(regions[1..], g);
    var r :| r in regions[1..] && Offers(r, g);
    var l :| 0 <= l < |regions| - 1 && regions[1..][l] == r;
    k := l + 1;
  }

  /** Page-aligned, pairwise disjoint regions yield each frame once. */
  lemma {:induction false} UsableFramesDistinct(regions: seq<Region>)
    requires forall r <- regions :: r.start % PAGE_SIZE == 0
    requires forall i, j | 0 <= i < j < |regions| :: Apart(regions[i], regions[j])
    ensures NoDuplicates(UsableFrames(regions))
  {
    if regions != [] {
      var first, rest := RegionFrames(regions[0].start, regions[0].end), regions[1..];
      UsableFramesDistinct(rest);
      RegionFramesRange(regions[0].start, regions[0].end);
      forall f, g | f in first && g in UsableFrames(rest)
        ensures f != g
      {
        UsableFramesAre(rest, g);
        var r :| r in rest && Offers(r, g);
        var j :| 0 <= j < |rest| && rest[j] == r;
        assert Apart(regions[0], regions[j + 1]);
      }
      if regions[0].usable { NoDuplicatesConcat(first, UsableFrames(rest)); }
    }
  }

  // ---- the allocator and the reference counts, as functions ----

  function WithWord(page: seq<nat>, i: nat, w: nat): (r: seq<nat>)
    requires i < |page|
    ensures |r| == |page| && r[i] == w
    ensures forall j | 0 <= j < |page| && j != i :: r[j] == page[j]
  {
    page[i := w]
  }

  /** `deallocate_frame`: link the frame to the old head through its own first word. */
  function Push(p: Phys, f: nat): Phys
    requires f in p.words && |p.words[f]| == WORDS
  {
    p.(words := p.words[f := WithWord(p.words[f], 0, p.freeHead)], freeHead := f)
  }

  function Untouched(p: Phys): seq<nat> {
    if p.next < |p.usable| then p.usable[p.next..] else []
  }

  /** `ref_release`: the new table, and whether the last reference went. */
  function RefRelease(counts: map<nat, nat>, f: nat): (map<nat, nat>, bool)
    requires f in counts ==> counts[f] >= 1
  {
    if f in counts then
      var c := counts[f] - 1;
      if c <= 1 then (counts - {f}, c == 0) else (counts[f := c], false)
    else (counts, true)
  }

  /** `ref_share`: an absent frame counts one. */
  function RefShare(counts: map<nat, nat>, f: nat): map<nat, nat> {
    counts[f := (if f in counts then counts[f] else 1) + 1]
  }

  // ---- operations on the model ----

  datatype Op =
    | Alloc
    | AllocSequential
    | Share(frame: nat)
    | Release(frame: nat)
    | Poke(frame: nat, index: nat, word: nat)

  predicate Legal(m: Model, op: Op) {
    match op
    case Share(f) => f in m.held && m.held[f] < MAX_COUNT
    case Release(f) => f in m.held
    case Poke(f, i, _) => f in m.held && i < WORDS
    case _ => true
  }

  function AllocSequentialStep(m: Model): (Model, Option<nat>) {
    var p := m.phys;
    if p.next < |p.usable| then
      var f := p.usable[p.next];
      (m.(phys := p.(next := p.next + 1), held := m.held + multiset{f}), Some(f))
    else (m.(phys := p.(next := p.next + 1)), None)
  }

  /** `allocate_frame`: the free list first, then the sequential allocator. */
  function AllocStep(m: Model): (Model, Option<nat>)
    requires Inv(m)
  {
    var p := m.phys;
    if p.freeHead != 0 then
      var f := p.freeHead;
      (Model(p.(freeHead := p.words[f][0]), m.list[1..], m.held + multiset{f}), Some(f))
    else AllocSequentialStep(m)
  }

  /** `release_shared_frame`: drop one reference, free the frame with the last. */
  function ReleaseStep(m: Model, f: nat): Model
    requires Inv(m) && f in m.held
  {
    var (counts, last) := RefRelease(m.phys.refcounts, f);
    var p := m.phys.(refcounts := counts);
    if last then Model(Push(p, f), [f] + m.list, m.held - multiset{f})
    else Model(p, m.list, m.held - multiset{f})
  }

  function ShareStep(m: Model, f: nat): Model {
    m.(phys := m.phys.(refcounts := RefShare(m.phys.refcounts, f)), held := m.held + multiset{f})
  }

  function Step(m: Model, op: Op): Model
    requires Inv(m) && Legal(m, op)
  {
    match op
    case Alloc => AllocStep(m).0
    case AllocSequential => AllocSequentialStep(m).0
    case Share(f) => ShareStep(m, f)
    case Release(f) => ReleaseStep(m, f)
    case Poke(f, i, w) => m.(phys := m.phys.(words := m.phys.words[f := WithWord(m.phys.words[f], i, w)]))
  }

  // ---- the invariant ----

  /** Every page present has its 512 words. */
  predicate Shape(m: Model) {
    && (forall f <- m.phys.words :: |m.phys.words[f]| == WORDS)
    && (forall f <- m.phys.usable :: f in m.phys.words && f != 0)
  }

  /** The links from `head` spell out `list`. */
  predicate Chain(words: map<nat, seq<nat>>, head: nat, list: seq<nat>)
    decreases |list|
  {
    if list == [] then head == 0
    else head == list[0] && head != 0 && head in words && |words[head]| == WORDS
         && Chain(words, words[head][0], list[1..])
  }

  /** Free, held and untouched frames are the usable frames, each in one class only. */
  predicate Partition(m: Model) {
    && (forall f <- m.list :: f in m.phys.usable && f !in m.held && f !in Untouched(m.phys))
    && (forall f <- m.held :: f in m.phys.usable && f !in Untouched(m.phys))
    && (forall f <- m.phys.usable :: f in m.list || f in m.held || f in Untouched(m.phys))
  }

  /** The sparse table holds exactly the counts of two and more. */
  predicate Counted(m: Model) {
    && (forall f <- m.phys.refcounts :: m.held[f] >= 2 && m.phys.refcounts[f] == m.held[f])
    && (forall f <- m.held :: m.held[f] >= 2 ==> f in m.phys.refcounts)
  }

  predicate Inv(m: Model) {
    && Shape(m)
    && NoDuplicates(m.phys.usable)
    && NoDuplicates(m.list)
    && Chain(m.phys.words, m.phys.freeHead, m.list)
    && Partition(m)
    && Counted(m)
  }

  // ---- every operation keeps the invariant ----

  /** Writing a page off the chain leaves the chain alone. */
  lemma {:induction false} ChainFrame(words: map<nat, seq<nat>>, head: nat, list: seq<nat>, f: nat, page: seq<nat>)
    requires Chain(words, head, list) && f !in list
    ensures Chain(words[f := page], head, list)
    decreases |list|
  {
    if list != [] { ChainFrame(words, words[head][0], list[1..], f, page); }
  }

  lemma AllocKeepsInv(m: Model)
    requires Inv(m)
    ensures Inv(AllocStep(m).0)
    ensures AllocStep(m).1.Some? ==>
              var f := AllocStep(m).1.value; f in m.phys.usable && f !in m.held && AllocStep(m).0.held == m.held + multiset{f}
    ensures AllocStep(m).1.None? <==> m.list == [] && Untouched(m.phys) == []
  {
    if m.phys.freeHead == 0 {
      AllocSequentialKeepsInv(m);
    } else {
      AllocListKeepsInv(m);
    }
  }

  lemma AllocListKeepsInv(m: Model)
    requires Inv(m) && m.phys.freeHead != 0
    ensures Inv(AllocStep(m).0)
  {
    var m', f := AllocStep(m).0, m.phys.freeHead;
    assert m.list == [f] + m'.list;
    assert f in m.list && f !in m'.list;
  }

  lemma AllocSequentialKeepsInv(m: Model)
    requires Inv(m)
    ensures Inv(AllocSequentialStep(m).0)
    ensures AllocSequentialStep(m).1.Some? ==> AllocSequentialStep(m).1.value !in m.held
    ensures AllocSequentialStep(m).1.None? <==> Untouched(m.phys) == []
  {
    var p := m.phys;
    if p.next < |p.usable| {
      var m', f := AllocSequentialStep(m).0, p.usable[p.next];
      assert p.usable[p.next..] == [f] + p.usable[p.next + 1..];
      assert Untouched(m.phys) == [f] + Untouched(m'.phys);
      assert f !in Untouched(m'.phys);
    }
  }

  lemma ShareKeepsInv(m: Model, f: nat)
    requires Inv(m) && Legal(m, Share(f))
    ensures Inv(ShareStep(m, f))
  {
  }

  lemma PokeKeepsInv(m: Model, f: nat, i: nat, w: nat)
    requires Inv(m) && Legal(m, Poke(f, i, w))
    ensures Inv(Step(m, Poke(f, i, w)))
  {
    ChainFrame(m.phys.words, m.phys.freeHead, m.list, f, WithWord(m.phys.words[f], i, w));
  }

  /** The frame goes to the free list exactly when the released reference was the last. */
  lemma ReleaseKeepsInv(m: Model, f: nat)
    requires Inv(m) && f in m.held
    ensures var m' := ReleaseStep(m, f);
            && Inv(m')
            && m'.held == m.held - multiset{f}
            && m'.list == (if m.held[f] == 1 then [f] + m.list else m.list)
            && (forall x <- m'.held :: m'.phys.words[x] == m.phys.words[x])
  {
    LastRelease(m, f);
    if m.held[f] == 1 {
      LastReleaseKeepsInv(m, f);
    } else {
      EarlyReleaseKeepsInv(m, f);
    }
  }

  /** `ref_release` asks for the frame to be freed exactly when one reference is held, and then leaves the table alone. */
  lemma LastRelease(m: Model, f: nat)
    requires Inv(m) && f in m.held
    ensures f in m.phys.words && |m.phys.words[f]| == WORDS
    ensures f in m.phys.refcounts ==> m.phys.refcounts[f] >= 1
    ensures RefRelease(m.phys.refcounts, f).1 <==> m.held[f] == 1
    ensures m.held[f] == 1 ==> RefRelease(m.phys.refcounts, f).0 == m.phys.refcounts
  {
  }

  lemma LastReleaseKeepsInv(m: Model, f: nat)
    requires Inv(m) && m.held[f] == 1
    ensures Inv(ReleaseStep(m, f))
  {
    var m' := ReleaseStep(m, f);
    ChainFrame(m.phys.words, m.phys.freeHead, m.list, f, WithWord(m.phys.words[f], 0, m.phys.freeHead));
    assert m'.list[1..] == m.list;
    NoDuplicatesConcat([f], m.list);
    ReleaseCounts(m, f);
  }

  lemma EarlyReleaseKeepsInv(m: Model, f: nat)
    requires Inv(m) && m.held[f] > 1
    ensures Inv(ReleaseStep(m, f))
  {
    ReleaseCounts(m, f);
  }

  lemma ReleaseCounts(m: Model, f: nat)
    requires Inv(m) && f in m.held
    ensures Counted(ReleaseStep(m, f))
  {
  }

  lemma StepKeepsInv(m: Model, op: Op)
    requires Inv(m) && Legal(m, op)
    ensures Inv(Step(m, op))
  {
    match op
    case Alloc => AllocKeepsInv(m);
    case AllocSequential => AllocSequentialKeepsInv(m);
    case Share(f) => ShareKeepsInv(m, f);
    case Release(f) => ReleaseKeepsInv(m, f);
    case Poke(f, i, w) => PokeKeepsInv(m, f, i, w);
  }

  // ---- whole runs ----

  ghost predicate LegalRun(m: Model, ops: seq<Op>)
    requires Inv(m)
    decreases |ops|
  {
    ops == [] || (Legal(m, ops[0]) && (StepKeepsInv(m, ops[0]); LegalRun(Step(m, ops[0]), ops[1..])))
  }

  ghost function Run(m: Model, ops: seq<Op>): (r: Model)
    requires Inv(m) && LegalRun(m, ops)
    ensures Inv(r)
    decreases |ops|
  {
    if ops == [] then m
    else StepKeepsInv(m, ops[0]); Run(Step(m, ops[0]), ops[1..])
  }

  /** The state `init` builds: an empty list, nothing handed out. */
  function Boot(regions: seq<Region>, words: map<nat, seq<nat>>): Model {
    Model(Phys(words, 0, 0, UsableFrames(regions), map[]), [], multiset{})
  }

  lemma BootInv(regions: seq<Region>, words: map<nat, seq<nat>>)
    requires forall r <- regions :: r.start % PAGE_SIZE == 0 && (r.usable ==> r.start > 0)
    requires forall i, j | 0 <= i < j < |regions| :: Apart(regions[i], regions[j])
    requires Shape(Boot(regions, words))
    ensures Inv(Boot(regions, words))
  {
    UsableFramesDistinct(regions);
  }

  /** References held on `f`, as the kernel's sparse table records them. */
  function TableCount(p: Phys, f: nat): nat {
    if f in p.refcounts then p.refcounts[f] else 1
  }

  /**
   * Any run from boot in which only held references are shared and released: the table
   * agrees with the true owner count, and free, held and untouched frames partition the
   * usable ones, the free list listing each of its frames once.
   */
  lemma FrameAccounting(m: Model, ops: seq<Op>)
    requires Inv(m) && LegalRun(m, ops)
    ensures var r := Run(m, ops);
            && (forall f <- r.held :: TableCount(r.phys, f) == r.held[f])
            && NoDuplicates(r.list)
            && Chain(r.phys.words, r.phys.freeHead, r.list)
            && (forall f <- r.phys.usable ::
                  && (f in r.list ==> f !in r.held && f !in Untouched(r.phys))
                  && (f in r.held ==> f !in Untouched(r.phys))
                  && (f in r.list || f in r.held || f in Untouched(r.phys)))
  {
  }

  /** An allocation never returns a frame that somebody still holds, and fails only when nothing is left. */
  lemma AllocIsFresh(m: Model, ops: seq<Op>)
    requires Inv(m) && LegalRun(m, ops)
    ensures var r := Run(m, ops);
            var (r', got) := AllocStep(r);
            && (got.Some? ==> got.value !in r.held && got.value in r.phys.usable && r'.held[got.value] == 1)
            && (got.None? <==> r.list == [] && Untouched(r.phys) == [])
  {
    AllocKeepsInv(Run(m, ops));
  }

  /** Releasing references one after another. */
  ghost function ReleaseAll(m: Model, frames: seq<nat>): (r: Model)
    requires Inv(m) && multiset(frames) <= m.held
    ensures Inv(r) && r.held == m.held - multiset(frames)
    decreases |frames|
  {
    hide Inv, ReleaseStep;
    if frames == [] then m
    else
      var init, f := frames[..|frames| - 1], frames[|frames| - 1];
      SplitLast(frames);
      var m' := ReleaseAll(m, init);
      ReleaseKeepsInv(m', f);
      ReleaseTakesOne(m', f);
      ReleaseStep(m', f)
  }

  lemma ReleaseTakesOne(m: Model, f: nat)
    requires Inv(m) && f in m.held
    ensures ReleaseStep(m, f).held == m.held - multiset{f}
  {
    hide Inv;
  }

  lemma SplitLast(frames: seq<nat>)
    requires frames != []
    ensures frames == frames[..|frames| - 1] + [frames[|frames| - 1]]
    ensures multiset(frames) == multiset(frames[..|frames| - 1]) + multiset{frames[|frames| - 1]}
  {
    assert frames == frames[..|frames| - 1] + [frames[|frames| - 1]];
  }

  /** Pages still held afterwards keep every word; nothing new is handed out. */
  lemma {:induction false} ReleaseAllFrame(m: Model, frames: seq<nat>)
    requires Inv(m) && multiset(frames) <= m.held
    ensures var r := ReleaseAll(m, frames);
            && r.phys.usable == m.phys.usable && r.phys.next == m.phys.next
            && (forall x <- r.held :: x in r.phys.words && x in m.phys.words && r.phys.words[x] == m.phys.words[x])
    decreases |frames|
  {
    hide Inv;
    if frames == [] {
      HeldHasPage(m);
    } else {
      var init, f := frames[..|frames| - 1], frames[|frames| - 1];
      SplitLast(frames);
      ReleaseAllFrame(m, init);
      ReleaseKeepsInv(ReleaseAll(m, init), f);
      HeldHasPage(ReleaseAll(m, frames));
    }
  }

  /** The frames that can still be allocated: those on the free list and those never touched. */
  function Available(m: Model): nat {
    |m.list| + |Untouched(m.phys)|
  }

  lemma AllocTakesOne(m: Model)
    requires Inv(m)
    ensures AllocStep(m).0.phys.words == m.phys.words
    ensures AllocStep(m).1.None? <==> Available(m) == 0
    ensures Available(AllocStep(m).0) == if Available(m) == 0 then 0 else Available(m) - 1
  {
    hide Inv;
    ListHead(m);
    AllocKeepsInv(m);
  }

  lemma ListHead(m: Model)
    requires Inv(m)
    ensures m.phys.freeHead != 0 <==> m.list != []
    ensures m.phys.freeHead != 0 ==> m.phys.freeHead in m.phys.words && |m.phys.words[m.phys.freeHead]| == WORDS
  {
  }

  /** Allocation prefers the frame freed last, and then takes the untouched frames in order. */
  lemma AllocOrder(m: Model)
    requires Inv(m)
    ensures var (m', got) := AllocStep(m);
            if m.list != [] then got == Some(m.list[0]) && m'.list == m.list[1..] && Untouched(m'.phys) == Untouched(m.phys)
            else if Untouched(m.phys) != [] then got == Some(Untouched(m.phys)[0]) && Untouched(m'.phys) == Untouched(m.phys)[1..]
            else got == None && m'.held == m.held && m'.list == m.list && Untouched(m'.phys) == []
  {
  }

  /** A frame that was just freed is the next one allocated. */
  lemma FreedIsReused(m: Model, f: nat)
    requires Inv(m) && m.held[f] == 1
    ensures Inv(ReleaseStep(m, f)) && AllocStep(ReleaseStep(m, f)).1 == Some(f)
  {
    ReleaseKeepsInv(m, f);
    AllocOrder(ReleaseStep(m, f));
  }

  lemma HeldHasPage(m: Model)
    requires Inv(m)
    ensures forall x <- m.held :: x in m.phys.words && |m.phys.words[x]| == WORDS
  {
  }

  lemma ReleaseAllAppend(m: Model, a: seq<nat>, f: nat)
    requires Inv(m) && multiset(a + [f]) <= m.held
    ensures multiset(a) <= m.held && f in ReleaseAll(m, a).held
    ensures ReleaseAll(m, a + [f]) == ReleaseStep(ReleaseAll(m, a), f)
  {
    hide Inv;
    SplitLast(a + [f]);
    assert (a + [f])[..|a|] == a;
  }

  lemma {:induction false} ReleaseAllConcat(m: Model, a: seq<nat>, b: seq<nat>)
    requires Inv(m) && multiset(a + b) <= m.held
    ensures multiset(a) <= m.held && multiset(b) <= ReleaseAll(m, a).held
    ensures ReleaseAll(m, a + b) == ReleaseAll(ReleaseAll(m, a), b)
    decreases |b|
  {
    assert multiset(a + b) == multiset(a) + multiset(b);
    if b == [] {
      assert a + b == a;
    } else {
      var init, f := b[..|b| - 1], b[|b| - 1];
      assert b == init + [f];
      assert a + b == (a + init) + [f];
      ReleaseAllAppend(m, a + init, f);
      ReleaseAllConcat(m, a, init);
    }
  }

  /** A frame is on the free list afterwards exactly when every reference to it went. */
  lemma ReleaseAllFrees(m: Model, frames: seq<nat>, f: nat)
    requires Inv(m) && multiset(frames) <= m.held && f in frames
    ensures f in ReleaseAll(m, frames).list <==> multiset(frames)[f] == m.held[f]
  {
    var r := ReleaseAll(m, frames);
    ReleaseAllFrame(m, frames);
    assert f in multiset(frames);
    assert f in m.held;
    hide Inv;
    PartitionOf(m, f);
    PartitionOf(r, f);
  }

  lemma PartitionOf(m: Model, f: nat)
    requires Inv(m)
    ensures f in m.held ==> f in m.phys.usable && f !in m.list && f !in Untouched(m.phys)
    ensures f in m.phys.usable && f !in m.held && f !in Untouched(m.phys) ==> f in m.list
  {
  }

}
