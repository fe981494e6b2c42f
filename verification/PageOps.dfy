/**
 * That the page-table operations can be carried out in the four-level tables: whatever page is to
 * be mapped, unmapped or given other flags, there are steps of the memory services that do it.
 */
module PageOps {
  import opened Pages
  import opened Frames
  import opened AddressSpace
  import opened Mapping

  /** Frames are whole pages, and fit into an entry. */
  predicate FramesFit(m: Model) {
    forall f <- m.phys.usable :: f % PAGE_SIZE == 0 && 0 < f < 0x10_0000_0000_0000
  }

  /** Used, present, writable and for user code. */
  function EntryFor(f: nat): nat {
    f + 7
  }

  lemma EntryForIs(f: nat)
    requires f % PAGE_SIZE == 0 && f < 0x10_0000_0000_0000
    ensures EntryAddr(EntryFor(f)) == f && !Unused(EntryFor(f)) && !Huge(EntryFor(f))
  {
    var k := f / PAGE_SIZE;
    assert f == k * PAGE_SIZE && (f + 7) / PAGE_SIZE == k && (f + 7) / 128 == 32 * k;
  }

  // ---- sequences of steps ----

  lemma OpsOne(m: Model, pml4: nat, op: TableOp, pages: set<nat>)
    requires Sound(m, pml4) && OpReady(m, pml4, op)
    ensures OpsReady(m, pml4, [op]) && OpsRun(m, pml4, [op]) == OpStep(m, pml4, op)
    ensures PagesAfterAll(pages, [op]) == PagesAfter(pages, op)
  {
    hide Sound, OpReady, OpStep;
    assert [op][1..] == [];
  }

  lemma {:induction false} OpsConcat(m: Model, pml4: nat, a: seq<TableOp>, b: seq<TableOp>, pages: set<nat>)
    requires Sound(m, pml4) && OpsReady(m, pml4, a) && OpsReady(OpsRun(m, pml4, a), pml4, b)
    ensures OpsReady(m, pml4, a + b) && OpsRun(m, pml4, a + b) == OpsRun(OpsRun(m, pml4, a), pml4, b)
    ensures PagesAfterAll(pages, a + b) == PagesAfterAll(PagesAfterAll(pages, a), b)
    decreases |a|
  {
    hide Sound, OpReady, OpStep, PagesAfter;
    if a == [] {
      assert a + b == b;
    } else {
      assert (a + b)[1..] == a[1..] + b;
      OpsConcat(OpStep(m, pml4, a[0]), pml4, a[1..], b, PagesAfter(pages, a[0]));
    }
  }

  // ---- a fresh, cleared frame ----

  /** What allocating and clearing a frame leaves as it was. */
  ghost predicate Aside(m: Model, m': Model, pml4: nat) {
    m'.phys.usable == m.phys.usable && SameTables(m.phys.words, m'.phys.words, pml4)
  }

  lemma {:induction false} ClearOps(m: Model, pml4: nat, n: nat, j: nat, pages: set<nat>) returns (ops: seq<TableOp>)
    requires Sound(m, pml4) && n in m.held && Table(n) !in Walk(m.phys.words, PML4, pml4) && j <= WORDS
    ensures OpsReady(m, pml4, ops) && PagesAfterAll(pages, ops) == pages
    ensures var m' := OpsRun(m, pml4, ops);
            && Aside(m, m', pml4) && m'.held == m.held && Available(m') == Available(m)
            && AgreeOff(m.phys.words, m'.phys.words, n)
            && forall i: nat :: Word(m'.phys.words, n, i) == if i < j then 0 else Word(m.phys.words, n, i)
    decreases j
  {
    hide Inv, Owned, Walk, MapsTo;
    if j == 0 {
      ops := [];
    } else {
      var op := Other(Poke(n, j - 1, 0));
      OthersKeep(m, pml4, Poke(n, j - 1, 0));
      PokeChangesOne(m, n, j - 1, 0);
      OpsOne(m, pml4, op, pages);
      var m1 := OpStep(m, pml4, op);
      var rest := ClearOps(m1, pml4, n, j - 1, pages);
      OpsConcat(m, pml4, [op], rest, pages);
      ops := [op] + rest;
    }
  }

  lemma AllocOp(m: Model, pml4: nat, pages: set<nat>) returns (n: nat)
    requires Sound(m, pml4) && FramesFit(m) && Available(m) > 0
    ensures OpReady(m, pml4, Other(Alloc)) && OpsReady(m, pml4, [Other(Alloc)]) && PagesAfterAll(pages, [Other(Alloc)]) == pages
    ensures var m' := OpsRun(m, pml4, [Other(Alloc)]);
            && m'.phys.words == m.phys.words && m'.phys.usable == m.phys.usable && Available(m') == Available(m) - 1
            && n in m.phys.usable && n !in m.held && m'.held == m.held + multiset{n}
  {
    hide Inv, Owned, Walk, MapsTo;
    OthersKeep(m, pml4, Alloc);
    OpsOne(m, pml4, Other(Alloc), pages);
    AllocKeepsInv(m);
    AllocTakesOne(m);
    n := AllocStep(m).1.value;
  }

  /** A frame that nobody holds is not visited by the walk of an owned space. */
  lemma UnheldIsUnvisited(m: Model, pml4: nat, n: nat)
    requires Sound(m, pml4) && n !in m.held
    ensures n !in FramesOf(Walk(m.phys.words, PML4, pml4)) && Table(n) !in Walk(m.phys.words, PML4, pml4)
  {
    hide Inv, Walk;
    var visits := Walk(m.phys.words, PML4, pml4);
    UnheldIsNoTable(m, visits, n);
    assert n !in multiset(FramesOf(visits));
  }

  /** Allocate a frame and clear it. */
  lemma FreshOps(m: Model, pml4: nat, pages: set<nat>) returns (ops: seq<TableOp>, n: nat)
    requires Sound(m, pml4) && FramesFit(m) && Available(m) > 0
    ensures OpsReady(m, pml4, ops) && PagesAfterAll(pages, ops) == pages
    ensures var m' := OpsRun(m, pml4, ops);
            && Aside(m, m', pml4) && Available(m') == Available(m) - 1 && AgreeOff(m.phys.words, m'.phys.words, n)
            && n in m.phys.usable && n !in m.held && m'.held == m.held + multiset{n}
            && forall i: nat | i < WORDS :: Word(m'.phys.words, n, i) == 0
  {
    hide Inv, Owned, Walk, MapsTo, OpReady;
    n := AllocOp(m, pml4, pages);
    var m1 := OpsRun(m, pml4, [Other(Alloc)]);
    UnheldIsUnvisited(m, pml4, n);
    var clear := ClearOps(m1, pml4, n, WORDS, pages);
    OpsConcat(m, pml4, [Other(Alloc)], clear, pages);
    ops := [Other(Alloc)] + clear;
  }

  // ---- mapping a page ----

  /** The path from this table on is not cut off by a huge entry. */
  ghost predicate Passable(w: map<nat, seq<nat>>, level: nat, t: nat, q: seq<nat>)
    requires |q| == level && 1 <= level <= PML4
    decreases level
  {
    level == PT || var e := Word(w, t, q[0]); Unused(e) || (!Skipped(level, e) && Passable(w, level - 1, EntryAddr(e), q[1..]))
  }

  lemma UnmappedIsUnused(w: map<nat, seq<nat>>, pml4: nat, page: nat, t: nat)
    requires PageIn(w, pml4, page, t) && !IsMapped(w, pml4, PathOf(page))
    ensures Unused(Word(w, t, PathOf(page)[3]))
  {
    hide TableAt, MapsTo;
    assert PathOf(page)[..3] + [PathOf(page)[3]] == PathOf(page);
    if !Unused(Word(w, t, PathOf(page)[3])) {
      LeafBelow(w, PML4, pml4, PathOf(page)[..3], t, PathOf(page)[3]);
    }
  }

  lemma OwnedPlus(m: Model, m': Model, visits: seq<Visit>, n: nat)
    requires Owned(m, visits) && m'.held == m.held + multiset{n}
    ensures multiset(FramesOf(visits)) + multiset{n} <= m'.held
  {
  }

  /** With the page table in place: allocate and clear a frame, and fill the entry. */
  lemma LeafOps(m: Model, pml4: nat, page: nat, t: nat, pages: set<nat>) returns (ops: seq<TableOp>)
    requires Sound(m, pml4) && FramesFit(m) && Available(m) > 0
    requires PageIn(m.phys.words, pml4, page, t) && !IsMapped(m.phys.words, pml4, PathOf(page))
    ensures OpsReady(m, pml4, ops) && PagesAfterAll(pages, ops) == pages + {page}
  {
    hide Inv, Owned, Walk, MapsTo, TableAt, PathOf, FramesOf;
    var taken, n := FreshOps(m, pml4, pages);
    var m1 := OpsRun(m, pml4, taken);
    EntryForIs(n);
    PathInRange(page);
    UnmappedIsUnused(m.phys.words, pml4, page, t);
    KeepsTable(m, m1, pml4, PathOf(page)[..3], t, n);
    OwnedPlus(m, m1, Walk(m.phys.words, PML4, pml4), n);
    var op := SetLeaf(page, t, EntryFor(n));
    assert OpReady(m1, pml4, op);
    OpsOne(m1, pml4, op, pages);
    OpsConcat(m, pml4, taken, [op], pages);
    ops := taken + [op];
  }

  /** A table stays where it is, with its entries, when some other frame is written. */
  lemma KeepsTable(m: Model, m': Model, pml4: nat, path: seq<nat>, t: nat, n: nat)
    requires Sound(m, pml4) && |path| < PML4 && TableAt(m.phys.words, PML4, pml4, path, t)
    requires n !in m.held && AgreeOff(m.phys.words, m'.phys.words, n)
    ensures TableAt(m'.phys.words, PML4, pml4, path, t) && n != t
    ensures forall i: nat :: Word(m'.phys.words, t, i) == Word(m.phys.words, t, i)
  {
    hide Inv, Owned, Walk, TableAt, AgreeOff, Reaches;
    VisitedOnce(m, pml4, path, t);
    UnheldIsUnvisited(m, pml4, n);
    WalkVisitsTables(m.phys.words, PML4, pml4, n);
    AgreeElsewhere(m.phys.words, m'.phys.words, n, t);
    SamePath(m.phys.words, m'.phys.words, PML4, pml4, path, t, n);
  }

  lemma {:induction false} SamePath(w: map<nat, seq<nat>>, w': map<nat, seq<nat>>, level: nat, f: nat, path: seq<nat>, t: nat, n: nat)
    requires |path| < level <= PML4 && TableAt(w, level, f, path, t) && AgreeOff(w, w', n) && !Reaches(w, level, f, n)
    ensures TableAt(w', level, f, path, t)
    decreases |path|
  {
    if path != [] {
      var e := Word(w, f, path[0]);
      assert Word(w', f, path[0]) == e;
      assert !ReachesThrough(w, level, f, path[0], n);
      SamePath(w, w', level - 1, EntryAddr(e), path[1..], t, n);
    }
  }

  /** Allocate and clear a table frame, and link it into the unused entry on the page's path. */
  lemma TableOps(m: Model, pml4: nat, path: seq<nat>, t: nat, i: nat, pages: set<nat>) returns (ops: seq<TableOp>, n: nat)
    requires Sound(m, pml4) && FramesFit(m) && Available(m) > 0
    requires |path| < 3 && TableAt(m.phys.words, PML4, pml4, path, t) && i < Limit(PML4 - |path|) && Unused(Word(m.phys.words, t, i))
    ensures OpsReady(m, pml4, ops) && PagesAfterAll(pages, ops) == pages
    ensures var m' := OpsRun(m, pml4, ops);
            && FramesFit(m') && Available(m') == Available(m) - 1
            && TableAt(m'.phys.words, PML4, pml4, path + [i], n)
            && (forall j: nat | j < WORDS :: Unused(Word(m'.phys.words, n, j)))
            && (forall q: seq<nat>, g: nat :: MapsTo(m'.phys.words, PML4, pml4, q, g) <==> MapsTo(m.phys.words, PML4, pml4, q, g))
  {
    hide Inv, Owned, Walk, MapsTo, TableAt, FramesOf, Mappings;
    var taken;
    taken, n := FreshOps(m, pml4, pages);
    var m1 := OpsRun(m, pml4, taken);
    EntryForIs(n);
    KeepsTable(m, m1, pml4, path, t, n);
    UnheldIsUnvisited(m, pml4, n);
    var op := SetTable(path, t, i, EntryFor(n));
    assert OpReady(m1, pml4, op);
    OpsOne(m1, pml4, op, pages);
    OpsConcat(m, pml4, taken, [op], pages);
    ops := taken + [op];
    LinkTable(m1, pml4, path, t, i, EntryFor(n));
    PokeChangesOne(m1, t, i, EntryFor(n));
    AgreeElsewhere(m1.phys.words, OpsRun(m, pml4, ops).phys.words, t, n);
  }

  /** From a table on the page's path, `k` indices down. */
  lemma {:induction false} DescendOps(m: Model, pml4: nat, page: nat, k: nat, t: nat, pages: set<nat>) returns (ops: seq<TableOp>)
    requires Sound(m, pml4) && FramesFit(m) && k <= 3 && Available(m) >= 4 - k && page % PAGE_SIZE == 0 && page < USER_END
    requires TableAt(m.phys.words, PML4, pml4, PathOf(page)[..k], t) && !IsMapped(m.phys.words, pml4, PathOf(page))
    requires Passable(m.phys.words, PML4 - k, t, PathOf(page)[k..])
    ensures OpsReady(m, pml4, ops) && PagesAfterAll(pages, ops) == pages + {page}
    decreases 3 - k
  {
    hide Sound, TableAt, MapsTo, IsMapped, OpsReady, OpsRun, PathOf;
    if k == 3 {
      ops := LeafOps(m, pml4, page, t, pages);
      return;
    }
    PathInRange(page);
    var q, path, i := PathOf(page), PathOf(page)[..k], PathOf(page)[k];
    var e := Word(m.phys.words, t, i);
    assert q[..k + 1] == path + [i] && q[k..][1..] == q[k + 1..] && q[k..][0] == i;
    if Unused(e) {
      var link, n := TableOps(m, pml4, path, t, i, pages);
      var m1 := OpsRun(m, pml4, link);
      SameAtPath(m.phys.words, m1.phys.words, pml4, q);
      assert Unused(Word(m1.phys.words, n, q[k + 1]));
      var rest := DescendOps(m1, pml4, page, k + 1, n, pages);
      OpsConcat(m, pml4, link, rest, pages);
      ops := link + rest;
    } else {
      TableBelow(m.phys.words, PML4, pml4, path, t, i);
      ops := DescendOps(m, pml4, page, k + 1, EntryAddr(e), pages);
    }
  }

  lemma PathInRange(page: nat)
    requires page < USER_END
    ensures |PathOf(page)| == 4 && PathOf(page)[0] < Limit(PML4)
    ensures forall k | 0 <= k < 4 :: PathOf(page)[k] < WORDS
  {
  }

  /**
   * Any user page without an entry, and not under a huge one, can be mapped while four frames are
   * left: one for the page and one for each table that is missing on its path.
   */
  lemma CanMap(m: Model, pml4: nat, page: nat, pages: set<nat>) returns (ops: seq<TableOp>)
    requires Sound(m, pml4) && FramesFit(m) && Available(m) >= 4 && page % PAGE_SIZE == 0 && page < USER_END
    requires !IsMapped(m.phys.words, pml4, PathOf(page)) && Passable(m.phys.words, PML4, pml4, PathOf(page))
    ensures OpsReady(m, pml4, ops) && PagesAfterAll(pages, ops) == pages + {page}
  {
    hide Sound, MapsTo, IsMapped, OpsReady, OpsRun, Passable;
    assert PathOf(page)[0..] == PathOf(page) && PathOf(page)[..0] == [];
    ops := DescendOps(m, pml4, page, 0, pml4, pages);
  }

  /** The table that holds the entry of a mapped page. */
  lemma {:induction false} TableOfMapped(w: map<nat, seq<nat>>, level: nat, f: nat, q: seq<nat>, g: nat) returns (t: nat)
    requires 1 <= level <= PML4 && MapsTo(w, level, f, q, g)
    ensures |q| == level && TableAt(w, level, f, q[..level - 1], t) && !Unused(Word(w, t, q[level - 1]))
    decreases level
  {
    if level == PT {
      t := f;
    } else {
      t := TableOfMapped(w, level - 1, EntryAddr(Word(w, f, q[0])), q[1..], g);
      assert q[..level - 1][1..] == q[1..][..level - 2];
    }
  }

  /** Any mapped user page can be unmapped, and given other flags. */
  lemma CanUnmap(m: Model, pml4: nat, page: nat, pages: set<nat>) returns (t: nat)
    requires Sound(m, pml4) && page % PAGE_SIZE == 0 && page < USER_END && IsMapped(m.phys.words, pml4, PathOf(page))
    ensures OpsReady(m, pml4, [ClearLeaf(page, t)]) && PagesAfterAll(pages, [ClearLeaf(page, t)]) == pages - {page}
    ensures forall e: nat | e > 0 && EntryAddr(e) == EntryAddr(Word(m.phys.words, t, PathOf(page)[3])) ::
              OpReady(m, pml4, SetFlags(page, t, e))
  {
    hide Inv, Owned, Walk, TableAt, MapsTo;
    var g: nat :| MapsTo(m.phys.words, PML4, pml4, PathOf(page), g);
    t := TableOfMapped(m.phys.words, PML4, pml4, PathOf(page), g);
    OpsOne(m, pml4, ClearLeaf(page, t), pages);
  }
}
