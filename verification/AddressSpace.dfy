/**
 * Tearing down a user address space (`cleanup_user_address_space` in
 * libkernel/src/memory/mod.rs): which frames the four-level walk visits, in
 * which order, as a function of the page-table words before the walk starts.
 */
module AddressSpace {
  import opened Base
  import opened Pages
  import opened Frames

  const PML4: nat := 4
  const PT: nat := 1

  /** One thing the walk does: drop a leaf's reference, or free a table frame. */
  datatype Visit = Leaf(frame: nat) | Table(frame: nat)

  function Word(words: map<nat, seq<nat>>, frame: nat, i: nat): nat {
    if frame in words && i < |words[frame]| then words[frame][i] else 0
  }

  predicate Unused(entry: nat) {
    entry == 0
  }

  /** Bits 12 to 51. */
  function EntryAddr(entry: nat): nat {
    entry / PAGE_SIZE % 0x100_0000_0000 * PAGE_SIZE
  }

  predicate Huge(entry: nat) {
    entry / 128 % 2 == 1
  }

  /** The parts of an entry: flags below bit 12, the frame in bits 12 to 51, more flags (such as NX) from bit 52 on. */
  lemma EntryFields(high: nat, f: nat, low: nat)
    requires high < 4096 && f % PAGE_SIZE == 0 && f < 0x10_0000_0000_0000 && low < 4096
    ensures var e := high * 0x10_0000_0000_0000 + f + low;
            && EntryAddr(e) == f && (Huge(e) <==> low / 128 % 2 == 1) && (Unused(e) <==> high == 0 && f == 0 && low == 0)
  {
    var e, k := high * 0x10_0000_0000_0000 + f + low, f / PAGE_SIZE;
    assert f == k * PAGE_SIZE && k < 0x100_0000_0000;
    assert e / PAGE_SIZE == high * 0x100_0000_0000 + k;
    assert e / PAGE_SIZE % 0x100_0000_0000 == k;
    assert e / 128 == 2 * (high * 0x1000_0000_0000 + 16 * k) + low / 128;
  }

  /** Only the user half of the PML4 is walked. */
  function Limit(level: nat): nat {
    if level == PML4 then 256 else WORDS
  }

  /** Huge entries are skipped in the PDPT and the PD; in the PT the bit means something else. */
  predicate Skipped(level: nat, entry: nat) {
    Unused(entry) || ((level == 2 || level == 3) && Huge(entry))
  }

  function EntryVisits(words: map<nat, seq<nat>>, level: nat, entry: nat): seq<Visit>
    requires 1 <= level <= PML4
    decreases level, 0
  {
    if Skipped(level, entry) then []
    else if level == PT then [Leaf(EntryAddr(entry))]
    else Walk(words, level - 1, EntryAddr(entry))
  }

  /** The visits below the first `i` entries of a table. */
  function Entries(words: map<nat, seq<nat>>, level: nat, frame: nat, i: nat): seq<Visit>
    requires 1 <= level <= PML4
    decreases level, 1, i
  {
    if i == 0 then []
    else Entries(words, level, frame, i - 1) + EntryVisits(words, level, Word(words, frame, i - 1))
  }

  /** A table's entries first, then the table itself. */
  function Walk(words: map<nat, seq<nat>>, level: nat, frame: nat): seq<Visit>
    requires 1 <= level <= PML4
    decreases level, 2
  {
    Entries(words, level, frame, Limit(level)) + [Table(frame)]
  }

  /**
   * Which entries count: an unused one never, one with bit 7 (a huge page) not in the two middle
   * levels; in a page table and in the PML4 that bit does not matter.
   */
  lemma EntriesThatCount(words: map<nat, seq<nat>>, level: nat, e: nat)
    requires 1 <= level <= 4
    ensures EntryVisits(words, level, e) == [] <==> e == 0 || ((level == 2 || level == 3) && e / 128 % 2 == 1)
    ensures level == 1 && e != 0 ==> EntryVisits(words, level, e) == [Leaf(EntryAddr(e))]
    ensures level > 1 && EntryVisits(words, level, e) != [] ==> EntryVisits(words, level, e) == Walk(words, level - 1, EntryAddr(e))
  {
    hide Entries;
  }

  function FramesOf(visits: seq<Visit>): (r: seq<nat>)
    ensures |r| == |visits|
  {
    seq(|visits|, i requires 0 <= i < |visits| => visits[i].frame)
  }

  lemma FramesOfConcat(a: seq<Visit>, b: seq<Visit>)
    ensures FramesOf(a + b) == FramesOf(a) + FramesOf(b)
    ensures multiset(FramesOf(a + b)) == multiset(FramesOf(a)) + multiset(FramesOf(b))
  {
    assert FramesOf(a + b) == FramesOf(a) + FramesOf(b);
  }

  lemma {:induction false} EntriesPrefix(words: map<nat, seq<nat>>, level: nat, frame: nat, i: nat, j: nat)
    requires 1 <= level <= PML4 && i <= j
    ensures Entries(words, level, frame, i) <= Entries(words, level, frame, j)
    decreases j - i
  {
    if i < j { EntriesPrefix(words, level, frame, i, j - 1); }
  }

  /**
   * The address space is torn down by its sole owner: every visited reference is held,
   * and each table frame is held by the page table alone.
   */
  ghost predicate Owned(m: Model, visits: seq<Visit>) {
    && multiset(FramesOf(visits)) <= m.held
    && (forall v <- visits :: v.Table? ==> m.held[v.frame] == 1)
  }

  lemma VisitCounts(visits: seq<Visit>, k: nat)
    requires k < |visits|
    ensures visits[k].frame in FramesOf(visits)
    ensures multiset(FramesOf(visits))[visits[k].frame] >= 1
  {
    assert FramesOf(visits)[k] == visits[k].frame;
  }

  /** What is left of an owned walk is still owned once a first part has been released. */
  lemma OwnedRest(m: Model, done: seq<Visit>, rest: seq<Visit>)
    requires Inv(m) && Owned(m, done + rest)
    ensures multiset(FramesOf(done)) <= m.held
    ensures Owned(ReleaseAll(m, FramesOf(done)), rest)
  {
    hide Inv;
    FramesOfConcat(done, rest);
    var r := ReleaseAll(m, FramesOf(done));
    forall v | v in rest && v.Table?
      ensures r.held[v.frame] == 1
    {
      var k :| 0 <= k < |rest| && rest[k] == v;
      VisitCounts(rest, k);
      assert v in done + rest;
    }
  }

  lemma OwnedPrefix(m: Model, done: seq<Visit>, rest: seq<Visit>)
    requires Owned(m, done + rest)
    ensures Owned(m, done)
  {
    FramesOfConcat(done, rest);
    forall v | v in done && v.Table?
      ensures m.held[v.frame] == 1
    {
      assert v in done + rest;
    }
  }

  /** Freeing a table whose frame nobody else holds is releasing its one reference. */
  lemma TableFreed(m: Model, f: nat)
    requires Inv(m) && m.held[f] == 1
    ensures f in m.phys.words && |m.phys.words[f]| == WORDS
    ensures ReleaseStep(m, f) == Model(Push(m.phys, f), [f] + m.list, m.held - multiset{f})
  {
  }

  lemma ReleaseOne(m: Model, f: nat)
    requires Inv(m) && f in m.held
    ensures ReleaseAll(m, [f]) == ReleaseStep(m, f)
  {
    hide Inv;
    ReleaseAllAppend(m, [], f);
    assert [] + [f] == [f];
  }

  lemma NoVisit(m: Model)
    requires Inv(m)
    ensures FramesOf([]) == [] && ReleaseAll(m, []) == m
  {
    hide Inv;
  }

  lemma LeafVisit(m: Model, f: nat)
    requires Inv(m) && Owned(m, [Leaf(f)])
    ensures f in m.held && ReleaseAll(m, FramesOf([Leaf(f)])) == ReleaseStep(m, f)
  {
    hide Inv;
    assert FramesOf([Leaf(f)]) == [f];
    assert f in multiset(FramesOf([Leaf(f)]));
    ReleaseOne(m, f);
  }

  /** Before entry `i`: the table is still held, and the entry's visits are still owned. */
  lemma NextEntry(m: Model, words: map<nat, seq<nat>>, level: nat, table: nat, i: nat)
    requires Inv(m) && 1 <= level <= PML4 && i < Limit(level)
    requires Owned(m, Walk(words, level, table))
    ensures Owned(m, Entries(words, level, table, i)) && Owned(m, Entries(words, level, table, i + 1))
    ensures var r := ReleaseAll(m, FramesOf(Entries(words, level, table, i)));
            r.held[table] == 1 && Owned(r, EntryVisits(words, level, Word(words, table, i)))
  {
    hide Inv, Owned, EntryVisits, ReleaseAll, Entries, Walk, FramesOf;
    var done := Entries(words, level, table, i);
    var now := EntryVisits(words, level, Word(words, table, i));
    var tail := WalkSplits(words, level, table, i);
    OwnedPrefix(m, done + now, tail);
    OwnedPrefix(m, done, now);
    OwnedRest(m, done, now);
    OwnedRest(m, done, now + tail);
    OwnedTable(ReleaseAll(m, FramesOf(done)), now + tail, table);
  }

  /** The walk of a table around its entry `i`. */
  lemma WalkSplits(words: map<nat, seq<nat>>, level: nat, table: nat, i: nat) returns (tail: seq<Visit>)
    requires 1 <= level <= PML4 && i < Limit(level)
    ensures var done, now := Entries(words, level, table, i), EntryVisits(words, level, Word(words, table, i));
            && Entries(words, level, table, i + 1) == done + now
            && Walk(words, level, table) == done + now + tail == done + (now + tail)
            && Table(table) in now + tail
  {
    hide EntryVisits, Word;
    var all, more := Entries(words, level, table, Limit(level)), Entries(words, level, table, i + 1);
    EntriesPrefix(words, level, table, i + 1, Limit(level));
    tail := all[|more|..] + [Table(table)];
    assert all == more + all[|more|..];
  }

  /** Releasing up to entry `i`, then the entry's visits, is releasing up to entry `i + 1`. */
  lemma EntriesStep(m: Model, words: map<nat, seq<nat>>, level: nat, table: nat, i: nat)
    requires Inv(m) && 1 <= level <= PML4
    requires Owned(m, Entries(words, level, table, i + 1))
    ensures var done, now := FramesOf(Entries(words, level, table, i)), FramesOf(EntryVisits(words, level, Word(words, table, i)));
            && multiset(done) <= m.held && multiset(now) <= ReleaseAll(m, done).held
            && ReleaseAll(m, FramesOf(Entries(words, level, table, i + 1))) == ReleaseAll(ReleaseAll(m, done), now)
  {
    hide Inv, EntryVisits, ReleaseAll;
    var done, now := Entries(words, level, table, i), EntryVisits(words, level, Word(words, table, i));
    FramesOfConcat(done, now);
    ReleaseAllConcat(m, FramesOf(done), FramesOf(now));
  }

  lemma OwnedTable(m: Model, visits: seq<Visit>, t: nat)
    requires Owned(m, visits) && Table(t) in visits
    ensures m.held[t] == 1
  {
  }

  /** After the last entry the table itself is the one visit left. */
  lemma TableLast(m: Model, words: map<nat, seq<nat>>, level: nat, table: nat)
    requires Inv(m) && 1 <= level <= PML4
    requires Owned(m, Walk(words, level, table))
    ensures var all := FramesOf(Entries(words, level, table, Limit(level)));
            && multiset(all) <= m.held
            && ReleaseAll(m, all).held[table] == 1
            && multiset(FramesOf(Walk(words, level, table))) <= m.held
            && ReleaseAll(m, FramesOf(Walk(words, level, table))) == ReleaseStep(ReleaseAll(m, all), table)
  {
    hide Inv, ReleaseAll, Entries;
    var all := Entries(words, level, table, Limit(level));
    OwnedRest(m, all, [Table(table)]);
    OwnedTable(ReleaseAll(m, FramesOf(all)), [Table(table)], table);
    FramesOfConcat(all, [Table(table)]);
    assert FramesOf([Table(table)]) == [table];
    ReleaseAllAppend(m, FramesOf(all), table);
  }

  // ---- an independent account of which tables there are ----

  /** `t` is the table `f` or is reached from it through used, non-huge entries. */
  ghost predicate Reaches(words: map<nat, seq<nat>>, level: nat, f: nat, t: nat)
    requires 1 <= level <= PML4
    decreases level
  {
    f == t || (level > 1 && exists i | 0 <= i < Limit(level) :: ReachesThrough(words, level, f, i, t))
  }

  ghost predicate ReachesThrough(words: map<nat, seq<nat>>, level: nat, f: nat, i: nat, t: nat)
    requires 2 <= level <= PML4
    decreases level, 0
  {
    var e := Word(words, f, i);
    !Skipped(level, e) && Reaches(words, level - 1, EntryAddr(e), t)
  }

  lemma {:induction false} WalkVisitsTables(words: map<nat, seq<nat>>, level: nat, f: nat, t: nat)
    requires 1 <= level <= PML4
    ensures Table(t) in Walk(words, level, f) <==> Reaches(words, level, f, t)
    decreases level, 2
  {
    var entries := Entries(words, level, f, Limit(level));
    EntriesVisitTables(words, level, f, Limit(level), t);
    assert Walk(words, level, f) == entries + [Table(f)];
    assert Table(t) in Walk(words, level, f) <==> Table(t) in entries || t == f;
    assert Reaches(words, level, f, t) <==>
           f == t || (level > 1 && exists i | 0 <= i < Limit(level) :: ReachesThrough(words, level, f, i, t));
  }

  lemma {:induction false} EntriesVisitTables(words: map<nat, seq<nat>>, level: nat, f: nat, n: nat, t: nat)
    requires 1 <= level <= PML4
    ensures Table(t) in Entries(words, level, f, n) <==>
            level > 1 && exists i | 0 <= i < n :: ReachesThrough(words, level, f, i, t)
    decreases level, 1, n
  {
    hide ReachesThrough, EntryVisits;
    if n > 0 {
      var e := Word(words, f, n - 1);
      var before, now := Entries(words, level, f, n - 1), EntryVisits(words, level, e);
      EntriesVisitTables(words, level, f, n - 1, t);
      EntryVisitsTables(words, level, f, n - 1, t);
      assert Entries(words, level, f, n) == before + now;
      assert Table(t) in before + now <==> Table(t) in before || Table(t) in now;
    }
  }

  lemma {:induction false} EntryVisitsTables(words: map<nat, seq<nat>>, level: nat, f: nat, i: nat, t: nat)
    requires 1 <= level <= PML4
    ensures Table(t) in EntryVisits(words, level, Word(words, f, i)) <==>
            level > 1 && ReachesThrough(words, level, f, i, t)
    decreases level, 0, 0
  {
    var e := Word(words, f, i);
    if level > 1 && !Skipped(level, e) {
      WalkVisitsTables(words, level - 1, EntryAddr(e), t);
    }
  }

  // ---- an independent account of the leaf mappings ----

  /** All index paths through `level` tables. */
  ghost function Paths(level: nat): set<seq<nat>> {
    if level == 0 then {[]} else set i: nat, q: seq<nat> | i in Indices(WORDS) && q in Paths(level - 1) :: [i] + q
  }

  ghost function Indices(n: nat): (r: set<nat>)
    ensures forall i: nat :: i in r <==> i < n
  {
    if n == 0 then {} else Indices(n - 1) + {n - 1}
  }

  /** Following `path` from the table through used, non-huge entries ends at the frame `f`. */
  ghost predicate MapsTo(words: map<nat, seq<nat>>, level: nat, table: nat, path: seq<nat>, f: nat)
    requires 1 <= level <= PML4
    decreases level
  {
    && |path| == level && path[0] < Limit(level)
    && var e := Word(words, table, path[0]);
       !Skipped(level, e) && (if level == PT then EntryAddr(e) == f else MapsTo(words, level - 1, EntryAddr(e), path[1..], f))
  }

  /** The leaf mappings of `f`: the paths that end at it. */
  ghost function Mappings(words: map<nat, seq<nat>>, level: nat, table: nat, f: nat): set<seq<nat>>
    requires 1 <= level <= PML4
  {
    set q | q in Paths(level) && MapsTo(words, level, table, q, f)
  }

  lemma {:induction false} MappedPathIn(words: map<nat, seq<nat>>, level: nat, table: nat, path: seq<nat>, f: nat)
    requires 1 <= level <= PML4 && MapsTo(words, level, table, path, f)
    ensures path in Paths(level)
    decreases level
  {
    assert path == [path[0]] + path[1..];
    if level == PT {
      assert path[1..] == [] && path[1..] in Paths(0);
    } else {
      MappedPathIn(words, level - 1, EntryAddr(Word(words, table, path[0])), path[1..], f);
    }
    assert path[0] in Indices(WORDS) && path[1..] in Paths(level - 1);
  }

  /** The mappings whose first index is below `n`, and those whose first index is `i`. */
  ghost function MappingsBelow(words: map<nat, seq<nat>>, level: nat, table: nat, f: nat, n: nat): set<seq<nat>>
    requires 1 <= level <= PML4
  {
    set q | q in Mappings(words, level, table, f) && q != [] && q[0] < n
  }

  ghost function MappingsAt(words: map<nat, seq<nat>>, level: nat, table: nat, f: nat, i: nat): set<seq<nat>>
    requires 1 <= level <= PML4
  {
    set q | q in Mappings(words, level, table, f) && q != [] && q[0] == i
  }

  ghost function Prefixed(i: nat, qs: set<seq<nat>>): set<seq<nat>> {
    set q | q in qs :: [i] + q
  }

  lemma {:induction false} PrefixedSize(i: nat, qs: set<seq<nat>>)
    ensures |Prefixed(i, qs)| == |qs|
    decreases |qs|
  {
    if qs == {} {
      assert Prefixed(i, qs) == {};
    } else {
      var q :| q in qs;
      PrefixedSize(i, qs - {q});
      assert [i] + q !in Prefixed(i, qs - {q}) by {
        forall r | r in qs - {q} ensures [i] + r != [i] + q {
          assert ([i] + r)[1..] == r && ([i] + q)[1..] == q;
        }
      }
      assert Prefixed(i, qs) == Prefixed(i, qs - {q}) + {[i] + q};
    }
  }

  /** The mappings through one entry are those of the table below it. */
  lemma MappingsThrough(words: map<nat, seq<nat>>, level: nat, table: nat, f: nat, i: nat)
    requires 2 <= level <= PML4 && i < Limit(level)
    ensures var e := Word(words, table, i);
            MappingsAt(words, level, table, f, i) ==
              if Skipped(level, e) then {} else Prefixed(i, Mappings(words, level - 1, EntryAddr(e), f))
  {
    var e := Word(words, table, i);
    var at := MappingsAt(words, level, table, f, i);
    if !Skipped(level, e) {
      var below := Mappings(words, level - 1, EntryAddr(e), f);
      forall q | q in at ensures q in Prefixed(i, below) {
        assert q == [i] + q[1..];
        MappedPathIn(words, level - 1, EntryAddr(e), q[1..], f);
        assert q[1..] in below;
      }
      forall r | r in below ensures [i] + r in at {
        assert ([i] + r)[1..] == r && MapsTo(words, level, table, [i] + r, f);
        MappedPathIn(words, level, table, [i] + r, f);
      }
    }
  }

  lemma LeafMappings(words: map<nat, seq<nat>>, table: nat, f: nat, i: nat)
    requires i < Limit(PT)
    ensures var e := Word(words, table, i);
            MappingsAt(words, PT, table, f, i) == if !Skipped(PT, e) && EntryAddr(e) == f then {[i]} else {}
  {
    var e := Word(words, table, i);
    var at := MappingsAt(words, PT, table, f, i);
    forall q | q in at ensures q == [i] && !Skipped(PT, e) && EntryAddr(e) == f {
      assert MapsTo(words, PT, table, q, f) && |q| == 1;
    }
    if !Skipped(PT, e) && EntryAddr(e) == f {
      assert MapsTo(words, PT, table, [i], f);
      MappedPathIn(words, PT, table, [i], f);
      assert [i] in at;
    }
  }

  lemma MappingsGrow(words: map<nat, seq<nat>>, level: nat, table: nat, f: nat, n: nat)
    requires 1 <= level <= PML4
    ensures |MappingsBelow(words, level, table, f, n + 1)|
            == |MappingsBelow(words, level, table, f, n)| + |MappingsAt(words, level, table, f, n)|
  {
    var below, at := MappingsBelow(words, level, table, f, n), MappingsAt(words, level, table, f, n);
    assert MappingsBelow(words, level, table, f, n + 1) == below + at;
    assert below !! at;
  }

  lemma MappingsAll(words: map<nat, seq<nat>>, level: nat, table: nat, f: nat)
    requires 1 <= level <= PML4
    ensures MappingsBelow(words, level, table, f, Limit(level)) == Mappings(words, level, table, f)
    ensures MappingsBelow(words, level, table, f, 0) == {}
  {
  }

  /** The walk drops one reference for each leaf mapping, no more and no fewer. */
  lemma {:induction false} WalkVisitsLeaves(words: map<nat, seq<nat>>, level: nat, table: nat, f: nat)
    requires 1 <= level <= PML4
    ensures Leaves(Walk(words, level, table), f) == |Mappings(words, level, table, f)|
    decreases level, 2
  {
    hide Mappings, MappingsBelow, Entries;
    var all := Entries(words, level, table, Limit(level));
    EntriesVisitLeaves(words, level, table, f, Limit(level));
    MappingsAll(words, level, table, f);
    LeavesConcat(all, [Table(table)], f);
    assert [Table(table)][..0] == [];
  }

  lemma {:induction false} EntriesVisitLeaves(words: map<nat, seq<nat>>, level: nat, table: nat, f: nat, n: nat)
    requires 1 <= level <= PML4 && n <= Limit(level)
    ensures Leaves(Entries(words, level, table, n), f) == |MappingsBelow(words, level, table, f, n)|
    decreases level, 1, n
  {
    hide Mappings, MappingsBelow, MappingsAt, EntryVisits;
    if n == 0 {
      MappingsAll(words, level, table, f);
    } else {
      EntriesVisitLeaves(words, level, table, f, n - 1);
      EntryVisitsLeaves(words, level, table, f, n - 1);
      MappingsGrow(words, level, table, f, n - 1);
      LeavesConcat(Entries(words, level, table, n - 1), EntryVisits(words, level, Word(words, table, n - 1)), f);
    }
  }

  lemma {:induction false} EntryVisitsLeaves(words: map<nat, seq<nat>>, level: nat, table: nat, f: nat, i: nat)
    requires 1 <= level <= PML4 && i < Limit(level)
    ensures Leaves(EntryVisits(words, level, Word(words, table, i)), f) == |MappingsAt(words, level, table, f, i)|
    decreases level, 0, 0
  {
    hide Mappings, MappingsAt, Walk;
    var e := Word(words, table, i);
    if level == PT {
      LeafMappings(words, table, f, i);
      assert [Leaf(EntryAddr(e))][..0] == [];
    } else {
      MappingsThrough(words, level, table, f, i);
      if !Skipped(level, e) {
        WalkVisitsLeaves(words, level - 1, EntryAddr(e), f);
        PrefixedSize(i, Mappings(words, level - 1, EntryAddr(e), f));
      }
    }
  }

  lemma {:induction false} LeavesConcat(a: seq<Visit>, b: seq<Visit>, f: nat)
    ensures Leaves(a + b, f) == Leaves(a, f) + Leaves(b, f)
    decreases |b|
  {
    if b == [] {
      assert a + b == a;
    } else {
      assert (a + b)[..|a + b| - 1] == a + b[..|b| - 1];
      LeavesConcat(a, b[..|b| - 1], f);
    }
  }

  // ---- what the teardown achieves ----

  function Leaves(visits: seq<Visit>, f: nat): nat {
    if visits == [] then 0
    else Leaves(visits[..|visits| - 1], f) + (if visits[|visits| - 1] == Leaf(f) then 1 else 0)
  }

  lemma {:induction false} LeafCounts(visits: seq<Visit>, f: nat)
    requires forall v <- visits :: v.Table? ==> v.frame != f
    ensures multiset(FramesOf(visits))[f] == Leaves(visits, f)
  {
    if visits != [] {
      var init, v := visits[..|visits| - 1], visits[|visits| - 1];
      assert visits == init + [v];
      FramesOfConcat(init, [v]);
      assert FramesOf([v]) == [v.frame];
      LeafCounts(init, f);
    }
  }

  /**
   * Releasing everything the walk visits: each table reachable from the PML4 ends up on
   * the free list, once; each other frame loses exactly as many references as there are paths
   * through the tables that map it, and a mapped one is freed exactly when those were its last.
   */
  lemma Teardown(m: Model, pml4: nat)
    requires Inv(m) && Owned(m, Walk(m.phys.words, PML4, pml4))
    ensures var w := m.phys.words;
            var r := ReleaseAll(m, FramesOf(Walk(w, PML4, pml4)));
            && Inv(r) && NoDuplicates(r.list)
            && (forall t | Reaches(w, PML4, pml4, t) :: t in r.list && t !in m.list && t !in r.held)
            && (forall f | !Reaches(w, PML4, pml4, f) :: r.held[f] == m.held[f] - |Mappings(w, PML4, pml4, f)|)
            && (forall f | Mappings(w, PML4, pml4, f) != {} :: f in r.list <==> m.held[f] == |Mappings(w, PML4, pml4, f)|)
  {
    hide Inv, Owned, Walk, Mappings, Reaches, ReleaseAll, FramesOf;
    var w := m.phys.words;
    var visits := Walk(w, PML4, pml4);
    OwnedFits(m, visits);
    var r := ReleaseAll(m, FramesOf(visits));
    ListIsDistinct(r);
    forall t: nat | Reaches(w, PML4, pml4, t)
      ensures t in r.list && t !in m.list && t !in r.held
    {
      WalkVisitsTables(w, PML4, pml4, t);
      TableVisited(m, visits, t);
    }
    forall f: nat | !Reaches(w, PML4, pml4, f)
      ensures r.held[f] == m.held[f] - |Mappings(w, PML4, pml4, f)|
    {
      WalkVisitsTables(w, PML4, pml4, f);
      WalkVisitsLeaves(w, PML4, pml4, f);
      NoTableCounts(visits, f);
    }
    forall f: nat | Mappings(w, PML4, pml4, f) != {}
      ensures f in r.list <==> m.held[f] == |Mappings(w, PML4, pml4, f)|
    {
      WalkVisitsLeaves(w, PML4, pml4, f);
      LeafIsVisited(visits, f);
      LeafVisited(m, visits, f);
    }
  }

  lemma OwnedFits(m: Model, visits: seq<Visit>)
    requires Owned(m, visits)
    ensures multiset(FramesOf(visits)) <= m.held
  {
  }

  lemma ListIsDistinct(m: Model)
    requires Inv(m)
    ensures NoDuplicates(m.list)
  {
  }

  lemma NoTableCounts(visits: seq<Visit>, f: nat)
    requires Table(f) !in visits
    ensures multiset(FramesOf(visits))[f] == Leaves(visits, f)
  {
    LeafCounts(visits, f);
  }

  lemma {:induction false} LeafIsVisited(visits: seq<Visit>, f: nat)
    requires Leaves(visits, f) > 0
    ensures Leaf(f) in visits
  {
    if visits[|visits| - 1] != Leaf(f) { LeafIsVisited(visits[..|visits| - 1], f); }
  }

  /** A new address space, its user half empty and its PML4 held once, can be torn down. */
  lemma FreshSpaceIsOwned(m: Model, pml4: nat)
    requires m.held[pml4] == 1 && forall i | 0 <= i < 256 :: Unused(Word(m.phys.words, pml4, i))
    ensures Walk(m.phys.words, PML4, pml4) == [Table(pml4)] && Owned(m, Walk(m.phys.words, PML4, pml4))
  {
    hide Entries, EntryVisits;
    NoEntries(m.phys.words, PML4, pml4, 256);
    assert FramesOf([Table(pml4)]) == [pml4];
  }

  lemma {:induction false} NoEntries(words: map<nat, seq<nat>>, level: nat, table: nat, n: nat)
    requires 1 <= level <= PML4 && forall i | 0 <= i < n :: Unused(Word(words, table, i))
    ensures Entries(words, level, table, n) == []
    decreases n
  {
    if n > 0 {
      NoEntries(words, level, table, n - 1);
      assert Unused(Word(words, table, n - 1));
    }
  }

  lemma TableVisited(m: Model, visits: seq<Visit>, t: nat)
    requires Inv(m) && Owned(m, visits) && Table(t) in visits
    ensures var r := ReleaseAll(m, FramesOf(visits)); t in r.list && t !in m.list && t !in r.held
  {
    var k :| 0 <= k < |visits| && visits[k] == Table(t);
    VisitCounts(visits, k);
    ReleaseAllFrees(m, FramesOf(visits), t);
    PartitionOf(m, t);
  }

  lemma LeafVisited(m: Model, visits: seq<Visit>, f: nat)
    requires Inv(m) && Owned(m, visits) && Leaf(f) in visits
    ensures f in ReleaseAll(m, FramesOf(visits)).list <==> m.held[f] == Leaves(visits, f)
  {
    var k :| 0 <= k < |visits| && visits[k] == Leaf(f);
    VisitCounts(visits, k);
    assert Table(f) !in visits by {
      if Table(f) in visits {
        var j :| 0 <= j < |visits| && visits[j] == Table(f);
        VisitedTwice(visits, j, k);
      }
    }
    LeafCounts(visits, f);
    ReleaseAllFrees(m, FramesOf(visits), f);
  }

  lemma VisitedTwice(visits: seq<Visit>, j: nat, k: nat)
    requires j < |visits| && k < |visits| && j != k && visits[j].frame == visits[k].frame
    ensures multiset(FramesOf(visits))[visits[k].frame] >= 2
  {
    var a, b := if j < k then j else k, if j < k then k else j;
    assert visits == visits[..b] + visits[b..];
    FramesOfConcat(visits[..b], visits[b..]);
    VisitCounts(visits[..b], a);
    VisitCounts(visits[b..], 0);
  }

}
