/**
 * Growing and shrinking a user address space one entry at a time (`map_user_page` and
 * `unmap_and_release_user_page` in libkernel/src/memory/mod.rs): each keeps what the teardown of
 * the address space needs, and adds or removes exactly the mapping it is about.
 */
module Mapping {
  import opened Frames
  import opened Pages
  import opened AddressSpace

  /** Following `path` through used, non-huge entries leads to the table `t`. */
  ghost predicate TableAt(words: map<nat, seq<nat>>, level: nat, f: nat, path: seq<nat>, t: nat)
    requires |path| < level <= PML4
    decreases |path|
  {
    if path == [] then f == t
    else
      && path[0] < Limit(level)
      && var e := Word(words, f, path[0]);
         !Skipped(level, e) && TableAt(words, level - 1, EntryAddr(e), path[1..], t)
  }

  /** The two memories differ at most in the frame `t`. */
  ghost predicate AgreeOff(w: map<nat, seq<nat>>, w': map<nat, seq<nat>>, t: nat) {
    forall x: nat, j: nat :: x != t ==> Word(w', x, j) == Word(w, x, j)
  }

  // ---- walks that do not meet the changed table ----

  lemma {:induction false} WalkUnchanged(w: map<nat, seq<nat>>, w': map<nat, seq<nat>>, level: nat, f: nat, t: nat)
    requires 1 <= level <= PML4 && AgreeOff(w, w', t) && Table(t) !in Walk(w, level, f)
    ensures Walk(w', level, f) == Walk(w, level, f)
    decreases level, 2
  {
    var entries := Entries(w, level, f, Limit(level));
    assert Walk(w, level, f) == entries + [Table(f)];
    assert Table(f) in entries + [Table(f)] && forall v <- entries :: v in entries + [Table(f)];
    EntriesUnchanged(w, w', level, f, Limit(level), t);
  }

  lemma {:induction false} EntriesUnchanged(w: map<nat, seq<nat>>, w': map<nat, seq<nat>>, level: nat, f: nat, n: nat, t: nat)
    requires 1 <= level <= PML4 && AgreeOff(w, w', t) && Table(t) !in Entries(w, level, f, n)
    requires forall j: nat | j < n :: Word(w', f, j) == Word(w, f, j)
    ensures Entries(w', level, f, n) == Entries(w, level, f, n)
    decreases level, 1, n
  {
    hide EntryVisits, AgreeOff;
    if n > 0 {
      var before, now := Entries(w, level, f, n - 1), EntryVisits(w, level, Word(w, f, n - 1));
      assert Entries(w, level, f, n) == before + now;
      assert forall v :: v in before || v in now ==> v in before + now;
      EntriesUnchanged(w, w', level, f, n - 1, t);
      EntryUnchanged(w, w', level, Word(w, f, n - 1), t);
    }
  }

  lemma {:induction false} EntryUnchanged(w: map<nat, seq<nat>>, w': map<nat, seq<nat>>, level: nat, e: nat, t: nat)
    requires 1 <= level <= PML4 && AgreeOff(w, w', t) && Table(t) !in EntryVisits(w, level, e)
    ensures EntryVisits(w', level, e) == EntryVisits(w, level, e)
    decreases level, 0, 0
  {
    hide AgreeOff;
    if level > PT && !Skipped(level, e) {
      WalkUnchanged(w, w', level - 1, EntryAddr(e), t);
    }
  }

  /** The upper half of a PML4 that the walk visits once, the kernel's half, has no part in the walk. */
  lemma KernelHalfIgnored(w: map<nat, seq<nat>>, w': map<nat, seq<nat>>, pml4: nat)
    requires AgreeOff(w, w', pml4) && forall i: nat | i < 256 :: Word(w', pml4, i) == Word(w, pml4, i)
    requires multiset(Walk(w, PML4, pml4))[Table(pml4)] <= 1
    ensures Walk(w', PML4, pml4) == Walk(w, PML4, pml4)
  {
    hide Entries, AgreeOff, EntryVisits;
    WalkEnds(w, PML4, pml4);
    assert Table(pml4) !in multiset(Entries(w, PML4, pml4, 256));
    EntriesUnchanged(w, w', PML4, pml4, 256, pml4);
  }

  // ---- the walk around one entry ----

  /** Only what entry `i` of the table contributes differs between the two walks of that table. */
  lemma {:induction false} EntriesAround(w: map<nat, seq<nat>>, w': map<nat, seq<nat>>, level: nat, f: nat, i: nat, n: nat, t: nat)
    returns (rest: seq<Visit>)
    requires 1 <= level <= PML4 && i < n && AgreeOff(w, w', t)
    requires forall j: nat | j != i :: Word(w', f, j) == Word(w, f, j)
    requires Table(t) !in Entries(w, level, f, i)
    requires forall j | i < j < n :: Table(t) !in EntryVisits(w, level, Word(w, f, j))
    ensures var done := Entries(w, level, f, i);
            && Entries(w, level, f, n) == done + EntryVisits(w, level, Word(w, f, i)) + rest
            && Entries(w', level, f, n) == done + EntryVisits(w', level, Word(w', f, i)) + rest
    decreases n
  {
    hide EntryVisits, AgreeOff, Entries, Word;
    EntriesLast(w, level, f, n);
    EntriesLast(w', level, f, n);
    if n == i + 1 {
      rest := [];
      EntriesUnchanged(w, w', level, f, i, t);
    } else {
      var before := EntriesAround(w, w', level, f, i, n - 1, t);
      var last := EntryVisits(w, level, Word(w, f, n - 1));
      EntryUnchanged(w, w', level, Word(w, f, n - 1), t);
      rest := before + last;
      Regroup([], Entries(w, level, f, i), EntryVisits(w, level, Word(w, f, i)), before, last);
      Regroup([], Entries(w, level, f, i), EntryVisits(w', level, Word(w', f, i)), before, last);
    }
  }

  lemma EntriesLast(w: map<nat, seq<nat>>, level: nat, f: nat, n: nat)
    requires 1 <= level <= PML4 && n > 0
    ensures Entries(w, level, f, n) == Entries(w, level, f, n - 1) + EntryVisits(w, level, Word(w, f, n - 1))
  {
    hide EntryVisits;
  }

  lemma Regroup<T>(a: seq<T>, b: seq<T>, x: seq<T>, c: seq<T>, d: seq<T>)
    ensures a + (b + x + c) + d == (a + b) + x + (c + d)
    ensures (b + x + c) + d == b + x + (c + d)
  {
  }

  lemma {:induction false} EntryWithin(w: map<nat, seq<nat>>, level: nat, f: nat, i: nat, n: nat)
    requires 1 <= level <= PML4 && i < n
    ensures multiset(Entries(w, level, f, i)) + multiset(EntryVisits(w, level, Word(w, f, i))) <= multiset(Entries(w, level, f, n))
    decreases n
  {
    hide EntryVisits;
    if i + 1 < n { EntryWithin(w, level, f, i, n - 1); }
  }

  /** A visit made once, by entry `i`, is made by no other entry. */
  lemma OnlyThere(w: map<nat, seq<nat>>, level: nat, f: nat, i: nat, n: nat, v: Visit)
    requires 1 <= level <= PML4 && i < n
    requires multiset(Entries(w, level, f, n))[v] <= multiset(EntryVisits(w, level, Word(w, f, i)))[v]
    ensures v !in Entries(w, level, f, i)
    ensures forall j | i < j < n :: v !in EntryVisits(w, level, Word(w, f, j))
  {
    hide EntryVisits, Entries;
    EntryWithin(w, level, f, i, n);
    assert v !in multiset(Entries(w, level, f, i));
    forall j | i < j < n
      ensures v !in EntryVisits(w, level, Word(w, f, j))
    {
      EntryWithin(w, level, f, j, n);
      EntryWithin(w, level, f, i, j);
      assert v !in multiset(EntryVisits(w, level, Word(w, f, j)));
    }
  }

  /** The same for a whole table that the changed table is not below, other than through entry `i`. */
  lemma TableAround(w: map<nat, seq<nat>>, w': map<nat, seq<nat>>, level: nat, f: nat, i: nat, t: nat)
    returns (rest: seq<Visit>)
    requires 1 <= level <= PML4 && i < Limit(level) && AgreeOff(w, w', t)
    requires forall j: nat | j != i :: Word(w', f, j) == Word(w, f, j)
    requires multiset(Entries(w, level, f, Limit(level)))[Table(t)]
          <= multiset(EntryVisits(w, level, Word(w, f, i)))[Table(t)]
    ensures var done := Entries(w, level, f, i);
            && Walk(w, level, f) == done + EntryVisits(w, level, Word(w, f, i)) + rest
            && Walk(w', level, f) == done + EntryVisits(w', level, Word(w', f, i)) + rest
    ensures Table(f) in rest
  {
    hide EntryVisits, AgreeOff, Entries, Word;
    OnlyThere(w, level, f, i, Limit(level), Table(t));
    var before := EntriesAround(w, w', level, f, i, Limit(level), t);
    rest := before + [Table(f)];
    assert rest[|before|] == Table(f);
    Regroup([], Entries(w, level, f, i), EntryVisits(w, level, Word(w, f, i)), before, [Table(f)]);
    Regroup([], Entries(w, level, f, i), EntryVisits(w', level, Word(w', f, i)), before, [Table(f)]);
  }

  /**
   * Changing entry `i` of the table at `path`, a table the walk visits once, replaces what that
   * entry contributed to the walk and leaves the rest of the walk as it was.
   */
  lemma {:induction false} WalkAround(w: map<nat, seq<nat>>, w': map<nat, seq<nat>>,
                                      level: nat, f: nat, path: seq<nat>, t: nat, i: nat)
    returns (pre: seq<Visit>, post: seq<Visit>)
    requires |path| < level <= PML4 && TableAt(w, level, f, path, t) && i < Limit(level - |path|)
    requires AgreeOff(w, w', t) && forall j: nat | j != i :: Word(w', t, j) == Word(w, t, j)
    requires multiset(Walk(w, level, f))[Table(t)] <= 1
    ensures var l := level - |path|;
            && Walk(w, level, f) == pre + EntryVisits(w, l, Word(w, t, i)) + post
            && Walk(w', level, f) == pre + EntryVisits(w', l, Word(w', t, i)) + post
    ensures Table(t) in post && TableAt(w', level, f, path, t)
    decreases |path|
  {
    hide Entries, EntryVisits, AgreeOff, Walk, Word;
    var n := Limit(level);
    WalkEnds(w, level, f);
    if path == [] {
      post := TableAround(w, w', level, f, i, t);
      pre := Entries(w, level, f, i);
    } else {
      var e := Word(w, f, path[0]);
      EntryWithin(w, level, f, path[0], n);
      EntryBelow(w, level, e);
      var p, q := WalkAround(w, w', level - 1, EntryAddr(e), path[1..], t, i);
      InMiddle(p, EntryVisits(w, level - |path|, Word(w, t, i)), q, Table(t));
      var l := level - |path|;
      pre, post := AroundBelow(w, w', level, f, path[0], t, p, EntryVisits(w, l, Word(w, t, i)), EntryVisits(w', l, Word(w', t, i)), q);
      AgreeElsewhere(w, w', t, f);
    }
  }

  /** From the table below entry `i` to the table that holds the entry. */
  lemma AroundBelow(w: map<nat, seq<nat>>, w': map<nat, seq<nat>>, level: nat, f: nat, i: nat, t: nat,
                    p: seq<Visit>, x: seq<Visit>, x': seq<Visit>, q: seq<Visit>)
    returns (pre: seq<Visit>, post: seq<Visit>)
    requires 2 <= level <= PML4 && i < Limit(level) && AgreeOff(w, w', t) && f != t && !Skipped(level, Word(w, f, i))
    requires Walk(w, level - 1, EntryAddr(Word(w, f, i))) == p + x + q && Table(t) in q
    requires Walk(w', level - 1, EntryAddr(Word(w, f, i))) == p + x' + q
    requires multiset(Walk(w, level, f))[Table(t)] <= 1
    ensures Walk(w, level, f) == pre + x + post && Walk(w', level, f) == pre + x' + post && Table(t) in post
  {
    hide Entries, EntryVisits, AgreeOff, Walk, Word;
    var e := Word(w, f, i);
    WalkEnds(w, level, f);
    EntryBelow(w, level, e);
    EntryBelow(w', level, e);
    InMiddle(p, x, q, Table(t));
    AgreeElsewhere(w, w', t, f);
    var rest := TableAround(w, w', level, f, i, t);
    pre, post := Entries(w, level, f, i) + p, q + rest;
    Regroup(Entries(w, level, f, i), p, x, q, rest);
    Regroup(Entries(w, level, f, i), p, x', q, rest);
  }

  lemma WalkEnds(w: map<nat, seq<nat>>, level: nat, f: nat)
    requires 1 <= level <= PML4
    ensures multiset(Walk(w, level, f)) == multiset(Entries(w, level, f, Limit(level))) + multiset{Table(f)}
  {
    hide Entries;
  }

  lemma InMiddle(p: seq<Visit>, x: seq<Visit>, q: seq<Visit>, v: Visit)
    requires v in q
    ensures multiset(p + x + q)[v] >= 1
  {
  }

  lemma AgreeElsewhere(w: map<nat, seq<nat>>, w': map<nat, seq<nat>>, t: nat, f: nat)
    requires AgreeOff(w, w', t) && f != t
    ensures forall j: nat :: Word(w', f, j) == Word(w, f, j)
  {
  }

  lemma EntryBelow(w: map<nat, seq<nat>>, level: nat, e: nat)
    requires 2 <= level <= PML4 && !Skipped(level, e)
    ensures EntryVisits(w, level, e) == Walk(w, level - 1, EntryAddr(e))
  {
  }

  // ---- ownership ----

  lemma {:induction false} VisitedAtMost(visits: seq<Visit>, v: Visit)
    ensures multiset(visits)[v] <= multiset(FramesOf(visits))[v.frame]
  {
    if visits != [] {
      var init, last := visits[..|visits| - 1], visits[|visits| - 1];
      assert visits == init + [last];
      VisitedAtMost(init, v);
      FramesOfConcat(init, [last]);
      assert FramesOf([last]) == [last.frame];
    }
  }

  /** A table of an owned address space is held, and the walk visits it once. */
  lemma VisitedOnce(m: Model, pml4: nat, path: seq<nat>, t: nat)
    requires |path| < PML4 && TableAt(m.phys.words, PML4, pml4, path, t)
    requires Owned(m, Walk(m.phys.words, PML4, pml4))
    ensures m.held[t] == 1 && multiset(Walk(m.phys.words, PML4, pml4))[Table(t)] <= 1
  {
    hide Walk, TableAt;
    var visits := Walk(m.phys.words, PML4, pml4);
    TableIsReached(m.phys.words, PML4, pml4, path, t);
    WalkVisitsTables(m.phys.words, PML4, pml4, t);
    OwnedTable(m, visits, t);
    VisitedAtMost(visits, Table(t));
  }

  lemma {:induction false} TableIsReached(w: map<nat, seq<nat>>, level: nat, f: nat, path: seq<nat>, t: nat)
    requires |path| < level <= PML4 && TableAt(w, level, f, path, t)
    ensures Reaches(w, level, f, t)
    decreases |path|
  {
    if path != [] {
      TableIsReached(w, level - 1, EntryAddr(Word(w, f, path[0])), path[1..], t);
      assert ReachesThrough(w, level, f, path[0], t);
    }
  }

  /** One word of a held frame is written. */
  lemma PokeChangesOne(m: Model, t: nat, i: nat, e: nat)
    requires Inv(m) && t in m.held && i < WORDS
    ensures Legal(m, Poke(t, i, e))
    ensures var m' := Step(m, Poke(t, i, e));
            && Inv(m') && m'.held == m.held && m'.list == m.list
            && AgreeOff(m.phys.words, m'.phys.words, t)
            && Word(m'.phys.words, t, i) == e
            && forall j: nat | j != i :: Word(m'.phys.words, t, j) == Word(m.phys.words, t, j)
  {
    PokeKeepsInv(m, t, i, e);
  }

  /**
   * The owned walk before and after entry `i` of the table at `path` is set to `e`.
   */
  lemma EntrySet(m: Model, pml4: nat, path: seq<nat>, t: nat, i: nat, e: nat)
    returns (pre: seq<Visit>, post: seq<Visit>)
    requires Inv(m) && |path| < PML4 && TableAt(m.phys.words, PML4, pml4, path, t) && i < Limit(PML4 - |path|)
    requires Owned(m, Walk(m.phys.words, PML4, pml4))
    ensures m.held[t] == 1 && Legal(m, Poke(t, i, e)) && Table(t) in post
    ensures var m', l := Step(m, Poke(t, i, e)), PML4 - |path|;
            && TableAt(m'.phys.words, PML4, pml4, path, t) && Word(m'.phys.words, t, i) == e
            && Inv(m') && m'.held == m.held && m'.list == m.list && AgreeOff(m.phys.words, m'.phys.words, t)
            && Walk(m.phys.words, PML4, pml4) == pre + EntryVisits(m.phys.words, l, Word(m.phys.words, t, i)) + post
            && Walk(m'.phys.words, PML4, pml4) == pre + EntryVisits(m'.phys.words, l, e) + post
  {
    hide Inv, Owned, Walk, EntryVisits, TableAt, AgreeOff;
    VisitedOnce(m, pml4, path, t);
    PokeChangesOne(m, t, i, e);
    pre, post := WalkAround(m.phys.words, Step(m, Poke(t, i, e)).phys.words, PML4, pml4, path, t, i);
  }

  lemma OwnedWith(m: Model, pre: seq<Visit>, v: Visit, post: seq<Visit>)
    requires Owned(m, pre + post) && multiset(FramesOf(pre + post)) + multiset{v.frame} <= m.held
    requires v.Table? ==> m.held[v.frame] == 1
    ensures Owned(m, pre + [v] + post)
  {
    FramesOfConcat(pre, post);
    FramesOfConcat(pre, [v]);
    FramesOfConcat(pre + [v], post);
    assert FramesOf([v]) == [v.frame];
    forall x | x in pre + [v] + post && x.Table?
      ensures m.held[x.frame] == 1
    {
      assert x in pre + post || x == v;
    }
  }

  lemma LeavesWith(pre: seq<Visit>, v: Visit, post: seq<Visit>, g: nat)
    ensures Leaves(pre + [v] + post, g) == Leaves(pre + post, g) + (if v == Leaf(g) then 1 else 0)
  {
    LeavesConcat(pre, [v], g);
    LeavesConcat(pre + [v], post, g);
    LeavesConcat(pre, post, g);
    assert [v][..0] == [];
  }

  /** The numbers of paths to each frame, told by the two walks. */
  lemma MappingsWith(w: map<nat, seq<nat>>, w': map<nat, seq<nat>>, pml4: nat, pre: seq<Visit>, v: Visit, post: seq<Visit>, g: nat)
    requires Walk(w, PML4, pml4) == pre + post && Walk(w', PML4, pml4) == pre + [v] + post
    ensures |Mappings(w', PML4, pml4, g)| == |Mappings(w, PML4, pml4, g)| + (if v == Leaf(g) then 1 else 0)
  {
    hide Walk, Mappings;
    WalkVisitsLeaves(w, PML4, pml4, g);
    WalkVisitsLeaves(w', PML4, pml4, g);
    LeavesWith(pre, v, post, g);
  }

  // ---- what each path leads to ----

  lemma {:induction false} MapsUnchanged(w: map<nat, seq<nat>>, w': map<nat, seq<nat>>, level: nat, f: nat, t: nat, q: seq<nat>, g: nat)
    requires 1 <= level <= PML4 && AgreeOff(w, w', t) && !Reaches(w, level, f, t)
    ensures MapsTo(w', level, f, q, g) <==> MapsTo(w, level, f, q, g)
    decreases level
  {
    if |q| == level && q[0] < Limit(level) {
      var e := Word(w, f, q[0]);
      assert Word(w', f, q[0]) == e;
      if level > PT && !Skipped(level, e) {
        assert !ReachesThrough(w, level, f, q[0], t);
        MapsUnchanged(w, w', level - 1, EntryAddr(e), t, q[1..], g);
      }
    }
  }

  /** A table visited once, and through entry `i`, is not reached through another entry. */
  lemma NotThrough(w: map<nat, seq<nat>>, level: nat, f: nat, i: nat, j: nat, t: nat)
    requires 2 <= level <= PML4 && i < Limit(level) && j < Limit(level) && i != j
    requires multiset(Walk(w, level, f))[Table(t)] <= 1 && ReachesThrough(w, level, f, i, t)
    ensures !ReachesThrough(w, level, f, j, t) && f != t
  {
    hide Entries, EntryVisits, Walk, ReachesThrough;
    var n := Limit(level);
    WalkEnds(w, level, f);
    EntryVisitsTables(w, level, f, i, t);
    EntryVisitsTables(w, level, f, j, t);
    EntryWithin(w, level, f, i, n);
    InSeq(EntryVisits(w, level, Word(w, f, i)), Table(t));
    OnlyThere(w, level, f, i, n, Table(t));
    if j < i {
      EntryWithin(w, level, f, j, i);
      InSeq(Entries(w, level, f, i), Table(t));
      InSeq(EntryVisits(w, level, Word(w, f, j)), Table(t));
    }
  }

  lemma InSeq(s: seq<Visit>, v: Visit)
    ensures v in s <==> multiset(s)[v] >= 1
  {
  }

  /** A table visited once is not below itself. */
  lemma NotBelowItself(w: map<nat, seq<nat>>, level: nat, t: nat, j: nat)
    requires 2 <= level <= PML4 && j < Limit(level) && multiset(Walk(w, level, t))[Table(t)] <= 1
    ensures !ReachesThrough(w, level, t, j, t)
  {
    hide Entries, EntryVisits, Walk, ReachesThrough;
    WalkEnds(w, level, t);
    EntryVisitsTables(w, level, t, j, t);
    EntryWithin(w, level, t, j, Limit(level));
    InSeq(EntryVisits(w, level, Word(w, t, j)), Table(t));
  }

  /** The walk of the table below an entry is part of the walk. */
  lemma BelowAtMost(w: map<nat, seq<nat>>, level: nat, f: nat, i: nat, v: Visit)
    requires 2 <= level <= PML4 && i < Limit(level) && !Skipped(level, Word(w, f, i))
    ensures multiset(Walk(w, level - 1, EntryAddr(Word(w, f, i))))[v] <= multiset(Walk(w, level, f))[v]
  {
    hide Entries, EntryVisits, Walk, Word;
    WalkEnds(w, level, f);
    EntryWithin(w, level, f, i, Limit(level));
    EntryBelow(w, level, Word(w, f, i));
  }

  /**
   * Changing entry `i` of the table at `path`, a table the walk visits once, changes what no path
   * leads to, except those through that entry.
   */
  lemma {:induction false} MapsElsewhere(w: map<nat, seq<nat>>, w': map<nat, seq<nat>>, level: nat, f: nat,
                                         path: seq<nat>, t: nat, i: nat, q: seq<nat>, g: nat)
    requires |path| < level <= PML4 && TableAt(w, level, f, path, t)
    requires AgreeOff(w, w', t) && forall j: nat | j != i :: Word(w', t, j) == Word(w, t, j)
    requires multiset(Walk(w, level, f))[Table(t)] <= 1 && !(path + [i] <= q)
    ensures MapsTo(w', level, f, q, g) <==> MapsTo(w, level, f, q, g)
    decreases level
  {
    hide Walk, AgreeOff;
    if |q| != level || q[0] >= Limit(level) {
      return;
    }
    var e := Word(w, f, q[0]);
    if path == [] {
      assert q[0] != i;
      if level > PT && !Skipped(level, e) {
        NotBelowItself(w, level, t, q[0]);
        MapsUnchanged(w, w', level - 1, EntryAddr(e), t, q[1..], g);
      }
    } else {
      PathEnters(w, level, f, path, t);
      AgreeElsewhere(w, w', t, f);
      if !Skipped(level, e) {
        if q[0] == path[0] {
          BelowAtMost(w, level, f, q[0], Table(t));
          assert path + [i] == [path[0]] + (path[1..] + [i]) && q == [q[0]] + q[1..];
          MapsElsewhere(w, w', level - 1, EntryAddr(e), path[1..], t, i, q[1..], g);
        } else {
          NotThrough(w, level, f, path[0], q[0], t);
          MapsUnchanged(w, w', level - 1, EntryAddr(e), t, q[1..], g);
        }
      }
    }
  }

  /** A path to a table visited once does not start at that table. */
  lemma PathEnters(w: map<nat, seq<nat>>, level: nat, f: nat, path: seq<nat>, t: nat)
    requires 0 < |path| < level <= PML4 && TableAt(w, level, f, path, t) && multiset(Walk(w, level, f))[Table(t)] <= 1
    ensures f != t && ReachesThrough(w, level, f, path[0], t)
  {
    hide Walk;
    TableIsReached(w, level - 1, EntryAddr(Word(w, f, path[0])), path[1..], t);
    if f == t { NotBelowItself(w, level, t, path[0]); }
  }

  /** A path leads to one frame. */
  lemma {:induction false} MapsToOne(w: map<nat, seq<nat>>, level: nat, f: nat, q: seq<nat>, g: nat, h: nat)
    requires 1 <= level <= PML4 && MapsTo(w, level, f, q, g) && MapsTo(w, level, f, q, h)
    ensures g == h
    decreases level
  {
    if level > PT { MapsToOne(w, level - 1, EntryAddr(Word(w, f, q[0])), q[1..], g, h); }
  }

  /** Nothing is mapped through an unused entry. */
  lemma {:induction false} UnusedMapsNothing(w: map<nat, seq<nat>>, level: nat, f: nat, path: seq<nat>, t: nat, i: nat, q: seq<nat>, g: nat)
    requires |path| < level <= PML4 && TableAt(w, level, f, path, t) && Unused(Word(w, t, i)) && path + [i] <= q
    ensures !MapsTo(w, level, f, q, g)
    decreases level
  {
    assert q[..|path| + 1] == path + [i];
    if path == [] {
      assert q[0] == i;
    } else if |q| == level && q[0] < Limit(level) {
      assert q[0] == path[0] && path[1..] + [i] <= q[1..] by {
        assert q[1..][..|path|] == q[..|path| + 1][1..];
      }
      UnusedMapsNothing(w, level - 1, EntryAddr(Word(w, f, path[0])), path[1..], t, i, q[1..], g);
    }
  }

  /** What the paths lead to after entry `i` of an owned page table has been set. */
  lemma SetTranslates(m: Model, pml4: nat, path: seq<nat>, t: nat, i: nat, e: nat, q: seq<nat>, g: nat)
    requires Inv(m) && |path| < PML4 && TableAt(m.phys.words, PML4, pml4, path, t) && i < Limit(PML4 - |path|)
    requires Owned(m, Walk(m.phys.words, PML4, pml4)) && Legal(m, Poke(t, i, e)) && !(path + [i] <= q)
    ensures MapsTo(Step(m, Poke(t, i, e)).phys.words, PML4, pml4, q, g) <==> MapsTo(m.phys.words, PML4, pml4, q, g)
  {
    hide Inv, Owned, Walk, TableAt, AgreeOff, MapsTo;
    VisitedOnce(m, pml4, path, t);
    PokeChangesOne(m, t, i, e);
    MapsElsewhere(m.phys.words, Step(m, Poke(t, i, e)).phys.words, PML4, pml4, path, t, i, q, g);
  }

  /** Mapping a held frame through an unused entry of a page table. */
  lemma LinkLeaf(m: Model, pml4: nat, path: seq<nat>, t: nat, i: nat, e: nat)
    requires Inv(m) && |path| == 3 && TableAt(m.phys.words, PML4, pml4, path, t) && i < WORDS
    requires Owned(m, Walk(m.phys.words, PML4, pml4)) && Unused(Word(m.phys.words, t, i)) && !Unused(e)
    requires multiset(FramesOf(Walk(m.phys.words, PML4, pml4))) + multiset{EntryAddr(e)} <= m.held
    ensures Legal(m, Poke(t, i, e))
    ensures var m' := Step(m, Poke(t, i, e));
            && Inv(m') && Owned(m', Walk(m'.phys.words, PML4, pml4))
            && (forall g: nat :: |Mappings(m'.phys.words, PML4, pml4, g)|
                              == |Mappings(m.phys.words, PML4, pml4, g)| + (if g == EntryAddr(e) then 1 else 0))
            && (forall q: seq<nat>, g: nat :: MapsTo(m'.phys.words, PML4, pml4, q, g) <==>
                  if q == path + [i] then g == EntryAddr(e) else MapsTo(m.phys.words, PML4, pml4, q, g))
  {
    hide Inv, Owned, Walk, Mappings, TableAt, AgreeOff, MapsTo;
    var pre, post := EntrySet(m, pml4, path, t, i, e);
    var m' := Step(m, Poke(t, i, e));
    var v := Leaf(EntryAddr(e));
    assert Walk(m.phys.words, PML4, pml4) == pre + post;
    SameHeld(m, m', pre + post);
    OwnedWith(m', pre, v, post);
    forall g: nat
      ensures |Mappings(m'.phys.words, PML4, pml4, g)|
           == |Mappings(m.phys.words, PML4, pml4, g)| + (if g == EntryAddr(e) then 1 else 0)
    {
      MappingsWith(m.phys.words, m'.phys.words, pml4, pre, v, post, g);
    }
    forall q: seq<nat>, g: nat
      ensures MapsTo(m'.phys.words, PML4, pml4, q, g) <==>
              if q == path + [i] then g == EntryAddr(e) else MapsTo(m.phys.words, PML4, pml4, q, g)
    {
      LeafTranslates(m, pml4, path, t, i, e, q, g);
    }
  }

  lemma LeafTranslates(m: Model, pml4: nat, path: seq<nat>, t: nat, i: nat, e: nat, q: seq<nat>, g: nat)
    requires Inv(m) && |path| == 3 && TableAt(m.phys.words, PML4, pml4, path, t) && i < WORDS
    requires Owned(m, Walk(m.phys.words, PML4, pml4)) && Legal(m, Poke(t, i, e))
    requires var w := Step(m, Poke(t, i, e)).phys.words; TableAt(w, PML4, pml4, path, t) && Word(w, t, i) == e
    ensures MapsTo(Step(m, Poke(t, i, e)).phys.words, PML4, pml4, q, g) <==>
            if q == path + [i] then !Unused(e) && g == EntryAddr(e) else MapsTo(m.phys.words, PML4, pml4, q, g)
  {
    hide Inv, Owned, Walk, TableAt, MapsTo;
    var w := Step(m, Poke(t, i, e)).phys.words;
    if q == path + [i] {
      if Unused(e) {
        UnusedMapsNothing(w, PML4, pml4, path, t, i, q, g);
      } else {
        LeafBelow(w, PML4, pml4, path, t, i);
        if MapsTo(w, PML4, pml4, q, g) { MapsToOne(w, PML4, pml4, q, g, EntryAddr(e)); }
      }
    } else if |q| == PML4 {
      assert path + [i] <= q ==> q == path + [i];
      SetTranslates(m, pml4, path, t, i, e, q, g);
    } else {
      WrongLength(w, pml4, q, g);
      WrongLength(m.phys.words, pml4, q, g);
    }
  }

  lemma WrongLength(w: map<nat, seq<nat>>, pml4: nat, q: seq<nat>, g: nat)
    requires |q| != PML4
    ensures !MapsTo(w, PML4, pml4, q, g)
  {
  }

  lemma {:induction false} LeafBelow(w: map<nat, seq<nat>>, level: nat, f: nat, path: seq<nat>, t: nat, i: nat)
    requires |path| + 1 == level <= PML4 && TableAt(w, level, f, path, t) && i < WORDS && !Unused(Word(w, t, i))
    ensures MapsTo(w, level, f, path + [i], EntryAddr(Word(w, t, i)))
    decreases |path|
  {
    if path != [] {
      LeafBelow(w, level - 1, EntryAddr(Word(w, f, path[0])), path[1..], t, i);
      assert (path + [i])[1..] == path[1..] + [i];
    }
  }

  lemma {:induction false} TableBelow(w: map<nat, seq<nat>>, level: nat, f: nat, path: seq<nat>, t: nat, i: nat)
    requires |path| + 1 < level <= PML4 && TableAt(w, level, f, path, t) && i < Limit(level - |path|)
    requires !Skipped(level - |path|, Word(w, t, i))
    ensures TableAt(w, level, f, path + [i], EntryAddr(Word(w, t, i)))
    decreases |path|
  {
    if path != [] {
      TableBelow(w, level - 1, EntryAddr(Word(w, f, path[0])), path[1..], t, i);
      assert (path + [i])[1..] == path[1..] + [i];
    } else {
      assert (path + [i])[1..] == [];
    }
  }

  lemma TableIsVisited(visits: seq<Visit>, t: nat)
    requires Table(t) in visits
    ensures t in FramesOf(visits)
  {
    var k :| 0 <= k < |visits| && visits[k] == Table(t);
    VisitCounts(visits, k);
  }

  lemma NewTable(w: map<nat, seq<nat>>, level: nat, n: nat)
    requires 1 <= level < PML4 && forall j | 0 <= j < WORDS :: Unused(Word(w, n, j))
    ensures Walk(w, level, n) == [Table(n)]
  {
    NoEntries(w, level, n, WORDS);
  }

  lemma NewIsFree(m: Model, visits: seq<Visit>, n: nat)
    requires Owned(m, visits) && m.held[n] == 1 && n !in FramesOf(visits)
    ensures multiset(FramesOf(visits)) + multiset{n} <= m.held
  {
    assert n !in multiset(FramesOf(visits));
  }

  lemma SameHeld(m: Model, m': Model, visits: seq<Visit>)
    requires Owned(m, visits) && m'.held == m.held
    ensures Owned(m', visits)
  {
  }

  /** Linking a cleared table frame, held once and not yet in the tree, into an unused entry of a higher table. */
  lemma LinkTable(m: Model, pml4: nat, path: seq<nat>, t: nat, i: nat, e: nat)
    requires Inv(m) && |path| < 3 && TableAt(m.phys.words, PML4, pml4, path, t) && i < Limit(PML4 - |path|)
    requires Owned(m, Walk(m.phys.words, PML4, pml4)) && Unused(Word(m.phys.words, t, i))
    requires !Unused(e) && !Huge(e) && m.held[EntryAddr(e)] == 1
    requires EntryAddr(e) !in FramesOf(Walk(m.phys.words, PML4, pml4))
    requires forall j | 0 <= j < WORDS :: Unused(Word(m.phys.words, EntryAddr(e), j))
    ensures Legal(m, Poke(t, i, e))
    ensures var m' := Step(m, Poke(t, i, e));
            && Inv(m') && Owned(m', Walk(m'.phys.words, PML4, pml4))
            && TableAt(m'.phys.words, PML4, pml4, path + [i], EntryAddr(e))
            && (forall g: nat :: |Mappings(m'.phys.words, PML4, pml4, g)| == |Mappings(m.phys.words, PML4, pml4, g)|)
            && (forall q: seq<nat>, g: nat ::
                  MapsTo(m'.phys.words, PML4, pml4, q, g) <==> MapsTo(m.phys.words, PML4, pml4, q, g))
  {
    hide Inv, Owned, Walk, Mappings, TableAt, FramesOf, MapsTo;
    var n := EntryAddr(e);
    var pre, post := EntrySet(m, pml4, path, t, i, e);
    var m' := Step(m, Poke(t, i, e));
    assert Walk(m.phys.words, PML4, pml4) == pre + post;
    assert n != t by { TableIsVisited(pre + post, t); }
    NewTable(m'.phys.words, PML4 - |path| - 1, n);
    EntryBelow(m'.phys.words, PML4 - |path|, e);
    SameHeld(m, m', pre + post);
    NewIsFree(m', pre + post, n);
    OwnedWith(m', pre, Table(n), post);
    TableBelow(m'.phys.words, PML4, pml4, path, t, i);
    forall g: nat
      ensures |Mappings(m'.phys.words, PML4, pml4, g)| == |Mappings(m.phys.words, PML4, pml4, g)|
    {
      MappingsWith(m.phys.words, m'.phys.words, pml4, pre, Table(n), post, g);
    }
    forall q: seq<nat>, g: nat
      ensures MapsTo(m'.phys.words, PML4, pml4, q, g) <==> MapsTo(m.phys.words, PML4, pml4, q, g)
    {
      if path + [i] <= q {
        UnusedMapsNothing(m.phys.words, PML4, pml4, path, t, i, q, g);
        NewTableMapsNothing(m'.phys.words, pml4, path + [i], n, q, g);
      } else {
        SetTranslates(m, pml4, path, t, i, e, q, g);
      }
    }
  }

  lemma NewTableMapsNothing(w: map<nat, seq<nat>>, pml4: nat, path: seq<nat>, n: nat, q: seq<nat>, g: nat)
    requires |path| < PML4 && TableAt(w, PML4, pml4, path, n) && path <= q
    requires forall j | 0 <= j < WORDS :: Unused(Word(w, n, j))
    ensures !MapsTo(w, PML4, pml4, q, g)
  {
    hide TableAt, MapsTo;
    if MapsTo(w, PML4, pml4, q, g) {
      IndicesInRange(w, PML4, pml4, q, g, |path|);
      var j := q[|path|];
      assert path + [j] <= q by { assert q[..|path| + 1] == q[..|path|] + [j]; }
      UnusedMapsNothing(w, PML4, pml4, path, n, j, q, g);
    }
  }

  lemma {:induction false} IndicesInRange(w: map<nat, seq<nat>>, level: nat, f: nat, q: seq<nat>, g: nat, k: nat)
    requires 1 <= level <= PML4 && MapsTo(w, level, f, q, g) && k < level
    ensures |q| == level && q[k] < WORDS
    decreases level
  {
    if k > 0 { IndicesInRange(w, level - 1, EntryAddr(Word(w, f, q[0])), q[1..], g, k - 1); }
  }

  /** Without one of its leaves, and without the reference that leaf stood for, the space is still owned. */
  lemma OwnedWithout(m: Model, m': Model, pre: seq<Visit>, f: nat, post: seq<Visit>)
    requires Owned(m, pre + [Leaf(f)] + post) && m'.held == m.held - multiset{f}
    ensures f in m.held && Table(f) !in pre + post && Owned(m', pre + post)
  {
    FramesOfConcat(pre, post);
    FramesOfConcat(pre, [Leaf(f)]);
    FramesOfConcat(pre + [Leaf(f)], post);
    assert FramesOf([Leaf(f)]) == [f];
    assert forall x :: x in pre + post ==> x in pre + [Leaf(f)] + post;
    if Table(f) in pre + post {
      TableIsVisited(pre + post, f);
      assert false;
    }
    forall x | x in pre + post && x.Table?
      ensures m'.held[x.frame] == 1
    {
      assert x in pre + [Leaf(f)] + post && x.frame != f;
    }
  }

  lemma ReleaseChangesOne(m: Model, f: nat)
    requires Inv(m) && f in m.held
    ensures var m' := ReleaseStep(m, f);
            Inv(m') && m'.held == m.held - multiset{f} && AgreeOff(m.phys.words, m'.phys.words, f)
  {
    ReleaseKeepsInv(m, f);
  }

  /** `unmap_and_release_user_page` on a mapped page: its entry is cleared, then its reference given up. */
  lemma UnmapLeaf(m: Model, pml4: nat, path: seq<nat>, t: nat, i: nat)
    requires Inv(m) && |path| == 3 && TableAt(m.phys.words, PML4, pml4, path, t) && i < WORDS
    requires Owned(m, Walk(m.phys.words, PML4, pml4)) && !Unused(Word(m.phys.words, t, i))
    ensures Legal(m, Poke(t, i, 0))
    ensures var f, cleared := EntryAddr(Word(m.phys.words, t, i)), Step(m, Poke(t, i, 0));
            && Inv(cleared) && f in cleared.held
            && var m' := ReleaseStep(cleared, f);
               && Inv(m') && m'.held == m.held - multiset{f} && Owned(m', Walk(m'.phys.words, PML4, pml4))
               && (forall g: nat :: |Mappings(m'.phys.words, PML4, pml4, g)| + (if g == f then 1 else 0)
                                 == |Mappings(m.phys.words, PML4, pml4, g)|)
               && (forall q: seq<nat>, g: nat ::
                     MapsTo(m'.phys.words, PML4, pml4, q, g) <==> q != path + [i] && MapsTo(m.phys.words, PML4, pml4, q, g))
  {
    hide Inv, Owned, Walk, Mappings, TableAt, AgreeOff, ReleaseStep, MapsTo, Reaches;
    var f := EntryAddr(Word(m.phys.words, t, i));
    var pre, post := EntrySet(m, pml4, path, t, i, 0);
    var cleared := Step(m, Poke(t, i, 0));
    assert Walk(cleared.phys.words, PML4, pml4) == pre + post;
    OwnedHolds(m, pre, f, post);
    ReleaseChangesOne(cleared, f);
    var m' := ReleaseStep(cleared, f);
    OwnedWithout(m, m', pre, f, post);
    WalkUnchanged(cleared.phys.words, m'.phys.words, PML4, pml4, f);
    forall g: nat
      ensures |Mappings(m'.phys.words, PML4, pml4, g)| + (if g == f then 1 else 0)
           == |Mappings(m.phys.words, PML4, pml4, g)|
    {
      MappingsWith(m'.phys.words, m.phys.words, pml4, pre, Leaf(f), post, g);
    }
    WalkVisitsTables(cleared.phys.words, PML4, pml4, f);
    forall q: seq<nat>, g: nat
      ensures MapsTo(m'.phys.words, PML4, pml4, q, g) <==> q != path + [i] && MapsTo(m.phys.words, PML4, pml4, q, g)
    {
      LeafTranslates(m, pml4, path, t, i, 0, q, g);
      MapsUnchanged(cleared.phys.words, m'.phys.words, PML4, pml4, f, q, g);
    }
  }

  lemma OwnedHolds(m: Model, pre: seq<Visit>, f: nat, post: seq<Visit>)
    requires Owned(m, pre + [Leaf(f)] + post)
    ensures f in m.held
  {
    var visits := pre + [Leaf(f)] + post;
    assert visits[|pre|] == Leaf(f);
    VisitCounts(visits, |pre|);
  }

  // ---- addresses ----

  const USER_END: nat := 0x8000_0000_0000

  /** The four table indices of an address. */
  function PathOf(a: nat): seq<nat> {
    [a / 0x80_0000_0000 % WORDS, a / 0x4000_0000 % WORDS, a / 0x20_0000 % WORDS, a / 0x1000 % WORDS]
  }

  lemma Split(x: nat)
    ensures x / 0x20_0000 == x / 0x1000 / WORDS && x / 0x4000_0000 == x / 0x20_0000 / WORDS
    ensures x / 0x80_0000_0000 == x / 0x4000_0000 / WORDS
  {
  }

  /** Different user pages have different paths. */
  lemma PathsDiffer(a: nat, b: nat)
    requires a % PAGE_SIZE == 0 && b % PAGE_SIZE == 0 && a < USER_END && b < USER_END && PathOf(a) == PathOf(b)
    ensures a == b
  {
    Split(a);
    Split(b);
    assert PathOf(a)[0] == PathOf(b)[0] && PathOf(a)[1] == PathOf(b)[1];
    assert PathOf(a)[2] == PathOf(b)[2] && PathOf(a)[3] == PathOf(b)[3];
    assert a / 0x80_0000_0000 < WORDS && b / 0x80_0000_0000 < WORDS;
    assert a / 0x80_0000_0000 == b / 0x80_0000_0000;
    assert a / 0x4000_0000 == b / 0x4000_0000;
    assert a / 0x20_0000 == b / 0x20_0000;
    assert a / 0x1000 == b / 0x1000;
  }

  ghost predicate IsMapped(w: map<nat, seq<nat>>, pml4: nat, q: seq<nat>) {
    exists g: nat :: MapsTo(w, PML4, pml4, q, g)
  }

  /** The tables below `pml4` map exactly these user pages. */
  ghost predicate Shows(w: map<nat, seq<nat>>, pml4: nat, pages: set<nat>) {
    forall a: nat | a % PAGE_SIZE == 0 && a < USER_END :: a in pages <==> IsMapped(w, pml4, PathOf(a))
  }

  lemma SameAtPath(w: map<nat, seq<nat>>, w': map<nat, seq<nat>>, pml4: nat, q: seq<nat>)
    requires forall g: nat :: MapsTo(w', PML4, pml4, q, g) <==> MapsTo(w, PML4, pml4, q, g)
    ensures IsMapped(w', pml4, q) <==> IsMapped(w, pml4, q)
  {
    if IsMapped(w', pml4, q) {
      var g: nat :| MapsTo(w', PML4, pml4, q, g);
      assert MapsTo(w, PML4, pml4, q, g);
    }
    if IsMapped(w, pml4, q) {
      var g: nat :| MapsTo(w, PML4, pml4, q, g);
      assert MapsTo(w', PML4, pml4, q, g);
    }
  }

  /** What changes at one page's path alone changes at that page alone. */
  lemma OtherPages(w: map<nat, seq<nat>>, w': map<nat, seq<nat>>, pml4: nat, a: nat, b: nat)
    requires a % PAGE_SIZE == 0 && b % PAGE_SIZE == 0 && a < USER_END && b < USER_END && a != b
    requires forall q: seq<nat>, g: nat | q != PathOf(a) :: MapsTo(w', PML4, pml4, q, g) <==> MapsTo(w, PML4, pml4, q, g)
    ensures IsMapped(w', pml4, PathOf(b)) <==> IsMapped(w, pml4, PathOf(b))
  {
    hide PathOf;
    if PathOf(a) == PathOf(b) { PathsDiffer(a, b); }
    SameAtPath(w, w', pml4, PathOf(b));
  }

  /** A change at the path of `a` alone, after which that path is mapped or not. */
  lemma PageChanged(w: map<nat, seq<nat>>, w': map<nat, seq<nat>>, pml4: nat, pages: set<nat>, a: nat)
    requires Shows(w, pml4, pages) && a % PAGE_SIZE == 0 && a < USER_END
    requires forall q: seq<nat>, g: nat | q != PathOf(a) :: MapsTo(w', PML4, pml4, q, g) <==> MapsTo(w, PML4, pml4, q, g)
    ensures Shows(w', pml4, if IsMapped(w', pml4, PathOf(a)) then pages + {a} else pages - {a})
  {
    hide IsMapped, PathOf;
    forall b: nat | b % PAGE_SIZE == 0 && b < USER_END && b != a
      ensures b in pages <==> IsMapped(w', pml4, PathOf(b))
    {
      OtherPages(w, w', pml4, a, b);
    }
  }

  lemma PagesKept(w: map<nat, seq<nat>>, w': map<nat, seq<nat>>, pml4: nat, pages: set<nat>)
    requires Shows(w, pml4, pages)
    requires forall q: seq<nat>, g: nat :: MapsTo(w', PML4, pml4, q, g) <==> MapsTo(w, PML4, pml4, q, g)
    ensures Shows(w', pml4, pages)
  {
    hide IsMapped, PathOf;
    forall b: nat | b % PAGE_SIZE == 0 && b < USER_END
      ensures b in pages <==> IsMapped(w', pml4, PathOf(b))
    {
      SameAtPath(w, w', pml4, PathOf(b));
    }
  }

  /**
   * One step of the memory services while this address space exists: an entry of its tables is
   * filled, given other flags or cleared, or anybody allocates, shares, releases or writes a frame.
   */
  datatype TableOp =
    | SetLeaf(page: nat, t: nat, e: nat)
    | SetTable(path: seq<nat>, t: nat, i: nat, e: nat)
    | SetFlags(page: nat, t: nat, e: nat)
    | ClearLeaf(page: nat, t: nat)
    | Other(op: Op)

  /** The page table `t` is where the page's path leads. */
  ghost predicate PageIn(w: map<nat, seq<nat>>, pml4: nat, page: nat, t: nat) {
    page % PAGE_SIZE == 0 && page < USER_END && TableAt(w, PML4, pml4, PathOf(page)[..3], t)
  }

  /**
   * What each step needs: the table it writes is at its place and the entry is unused, or used;
   * the others leave this space's tables and the references it owns alone.
   */
  ghost predicate OpReady(m: Model, pml4: nat, op: TableOp)
    requires Inv(m)
  {
    var w, visits := m.phys.words, Walk(m.phys.words, PML4, pml4);
    match op
    case SetLeaf(page, t, e) =>
      && PageIn(w, pml4, page, t) && Unused(Word(w, t, PathOf(page)[3])) && !Unused(e)
      && multiset(FramesOf(visits)) + multiset{EntryAddr(e)} <= m.held
    case SetTable(path, t, i, e) =>
      && |path| < 3 && TableAt(w, PML4, pml4, path, t) && i < Limit(PML4 - |path|) && Unused(Word(w, t, i))
      && !Unused(e) && !Huge(e) && m.held[EntryAddr(e)] == 1 && EntryAddr(e) !in FramesOf(visits)
      && forall j | 0 <= j < WORDS :: Unused(Word(w, EntryAddr(e), j))
    case SetFlags(page, t, e) =>
      && PageIn(w, pml4, page, t) && !Unused(Word(w, t, PathOf(page)[3])) && !Unused(e)
      && EntryAddr(e) == EntryAddr(Word(w, t, PathOf(page)[3]))
    case ClearLeaf(page, t) => PageIn(w, pml4, page, t) && !Unused(Word(w, t, PathOf(page)[3]))
    case Other(o) =>
      Legal(m, o) &&
      match o
      case Share(f) => Table(f) !in visits
      case Poke(f, _, _) => Table(f) !in visits
      case Release(f) => multiset(FramesOf(visits)) + multiset{f} <= m.held
      case _ => true
  }

  /** The pages mapped afterwards. */
  function PagesAfter(pages: set<nat>, op: TableOp): set<nat> {
    match op
    case SetLeaf(page, _, _) => pages + {page}
    case ClearLeaf(page, _) => pages - {page}
    case _ => pages
  }

  /** Giving a leaf other flags leaves what every path leads to. */
  lemma ChangeFlags(m: Model, pml4: nat, path: seq<nat>, t: nat, i: nat, e: nat)
    requires Inv(m) && |path| == 3 && TableAt(m.phys.words, PML4, pml4, path, t) && i < WORDS
    requires Owned(m, Walk(m.phys.words, PML4, pml4)) && !Unused(Word(m.phys.words, t, i)) && !Unused(e)
    requires EntryAddr(e) == EntryAddr(Word(m.phys.words, t, i))
    ensures Legal(m, Poke(t, i, e))
    ensures var m' := Step(m, Poke(t, i, e));
            && Inv(m') && Owned(m', Walk(m'.phys.words, PML4, pml4))
            && (forall q: seq<nat>, g: nat ::
                  MapsTo(m'.phys.words, PML4, pml4, q, g) <==> MapsTo(m.phys.words, PML4, pml4, q, g))
  {
    hide Inv, Owned, Walk, TableAt, AgreeOff, MapsTo;
    var pre, post := EntrySet(m, pml4, path, t, i, e);
    var m', f := Step(m, Poke(t, i, e)), EntryAddr(e);
    SameHeld(m, m', pre + [Leaf(f)] + post);
    LeafBelow(m.phys.words, PML4, pml4, path, t, i);
    forall q: seq<nat>, g: nat
      ensures MapsTo(m'.phys.words, PML4, pml4, q, g) <==> MapsTo(m.phys.words, PML4, pml4, q, g)
    {
      LeafTranslates(m, pml4, path, t, i, e, q, g);
      if q == path + [i] && MapsTo(m.phys.words, PML4, pml4, q, g) { MapsToOne(m.phys.words, PML4, pml4, q, g, f); }
    }
  }

  /** Without a write to this space's tables the walk stays, and so does what every path leads to. */
  ghost predicate SameTables(w: map<nat, seq<nat>>, w': map<nat, seq<nat>>, pml4: nat) {
    && Walk(w', PML4, pml4) == Walk(w, PML4, pml4)
    && forall q: seq<nat>, g: nat :: MapsTo(w', PML4, pml4, q, g) <==> MapsTo(w, PML4, pml4, q, g)
  }

  lemma OtherFrame(w: map<nat, seq<nat>>, w': map<nat, seq<nat>>, pml4: nat, f: nat)
    requires AgreeOff(w, w', f) && Table(f) !in Walk(w, PML4, pml4)
    ensures SameTables(w, w', pml4)
  {
    hide AgreeOff, Walk, MapsTo, Reaches;
    WalkUnchanged(w, w', PML4, pml4, f);
    WalkVisitsTables(w, PML4, pml4, f);
    forall q: seq<nat>, g: nat
      ensures MapsTo(w', PML4, pml4, q, g) <==> MapsTo(w, PML4, pml4, q, g)
    {
      MapsUnchanged(w, w', PML4, pml4, f, q, g);
    }
  }

  lemma MoreHeld(m: Model, m': Model, visits: seq<Visit>, f: nat)
    requires Owned(m, visits) && m'.held == m.held + multiset{f} && Table(f) !in visits
    ensures Owned(m', visits)
  {
    forall v | v in visits && v.Table?
      ensures m'.held[v.frame] == 1
    {
      assert v == Table(v.frame);
    }
  }

  /** A reference that this space does not own is given up. */
  lemma LessHeld(m: Model, m': Model, visits: seq<Visit>, f: nat)
    requires Owned(m, visits) && m'.held == m.held - multiset{f} && multiset(FramesOf(visits)) + multiset{f} <= m.held
    ensures f in m.held && Table(f) !in visits && Owned(m', visits)
  {
    assert (multiset(FramesOf(visits)) + multiset{f})[f] >= 1;
    if Table(f) in visits {
      TableIsVisited(visits, f);
      assert false;
    }
    forall v | v in visits && v.Table?
      ensures m'.held[v.frame] == 1
    {
      assert v == Table(v.frame);
    }
  }

  /** A frame that nobody holds is not a table of an owned space. */
  lemma UnheldIsNoTable(m: Model, visits: seq<Visit>, f: nat)
    requires Owned(m, visits) && f !in m.held
    ensures Table(f) !in visits
  {
  }

  lemma AllocGrants(m: Model, op: Op)
    requires Inv(m) && (op.Alloc? || op.AllocSequential?)
    ensures var m' := Step(m, op);
            && Inv(m') && m'.phys.words == m.phys.words
            && (m'.held == m.held || exists f :: f !in m.held && m'.held == m.held + multiset{f})
  {
    if op.Alloc? { AllocKeepsInv(m); } else { AllocSequentialKeepsInv(m); }
  }

  /** What the allocator and other owners do between two table operations keeps the space fit for teardown. */
  lemma OthersKeep(m: Model, pml4: nat, o: Op)
    requires Inv(m) && Owned(m, Walk(m.phys.words, PML4, pml4)) && OpReady(m, pml4, Other(o))
    ensures var m' := Step(m, o);
            Inv(m') && Owned(m', Walk(m'.phys.words, PML4, pml4)) && SameTables(m.phys.words, m'.phys.words, pml4)
  {
    hide Inv, Owned, Walk, FramesOf, AgreeOff, MapsTo, ReleaseStep, AllocStep, AllocSequentialStep;
    var visits, m' := Walk(m.phys.words, PML4, pml4), Step(m, o);
    match o
    case Share(f) =>
      ShareKeepsInv(m, f);
      MoreHeld(m, m', visits, f);
    case Poke(f, i, e) =>
      PokeChangesOne(m, f, i, e);
      OtherFrame(m.phys.words, m'.phys.words, pml4, f);
      SameHeld(m, m', visits);
    case Release(f) =>
      ReleaseChangesOne(m, f);
      LessHeld(m, m', visits, f);
      OtherFrame(m.phys.words, m'.phys.words, pml4, f);
    case _ =>
      AllocGrants(m, o);
      if m'.held != m.held {
        var f :| f !in m.held && m'.held == m.held + multiset{f};
        UnheldIsNoTable(m, visits, f);
        MoreHeld(m, m', visits, f);
      } else {
        SameHeld(m, m', visits);
      }
  }

  ghost predicate Sound(m: Model, pml4: nat) {
    Inv(m) && Owned(m, Walk(m.phys.words, PML4, pml4))
  }

  /** Each write to an entry that a step makes keeps the space fit for teardown. */
  lemma WriteKeeps(m: Model, pml4: nat, op: TableOp)
    requires Sound(m, pml4) && OpReady(m, pml4, op)
    ensures op.SetLeaf? || op.SetFlags? ==>
              Legal(m, Poke(op.t, PathOf(op.page)[3], op.e)) && Sound(Step(m, Poke(op.t, PathOf(op.page)[3], op.e)), pml4)
    ensures op.SetTable? ==> Legal(m, Poke(op.t, op.i, op.e)) && Sound(Step(m, Poke(op.t, op.i, op.e)), pml4)
    ensures op.Other? ==> Sound(Step(m, op.op), pml4)
  {
    hide Inv, Owned, Walk, TableAt, FramesOf, MapsTo, Mappings, SameTables, Step;
    match op
    case SetLeaf(page, t, e) => LinkLeaf(m, pml4, PathOf(page)[..3], t, PathOf(page)[3], e);
    case SetTable(path, t, i, e) => LinkTable(m, pml4, path, t, i, e);
    case SetFlags(page, t, e) => ChangeFlags(m, pml4, PathOf(page)[..3], t, PathOf(page)[3], e);
    case ClearLeaf(page, t) =>
    case Other(o) => OthersKeep(m, pml4, o);
  }

  lemma ClearKeeps(m: Model, pml4: nat, page: nat, t: nat)
    requires Sound(m, pml4) && OpReady(m, pml4, ClearLeaf(page, t))
    ensures var i := PathOf(page)[3];
            && Legal(m, Poke(t, i, 0)) && Inv(Step(m, Poke(t, i, 0)))
            && EntryAddr(Word(m.phys.words, t, i)) in Step(m, Poke(t, i, 0)).held
            && Sound(ReleaseStep(Step(m, Poke(t, i, 0)), EntryAddr(Word(m.phys.words, t, i))), pml4)
  {
    hide Inv, Owned, Walk, TableAt, FramesOf, ReleaseStep, MapsTo, Mappings;
    UnmapLeaf(m, pml4, PathOf(page)[..3], t, PathOf(page)[3]);
  }

  /** The frames after a step; a cleared leaf's reference is given up. */
  ghost function OpStep(m: Model, pml4: nat, op: TableOp): (r: Model)
    requires Sound(m, pml4) && OpReady(m, pml4, op)
    ensures Sound(r, pml4)
  {
    hide Inv, Owned, Walk, ReleaseStep, Step, PathOf, PageIn, EntryAddr, Word;
    WriteKeeps(m, pml4, op);
    match op
    case SetLeaf(page, t, e) => Step(m, Poke(t, PathOf(page)[3], e))
    case SetTable(path, t, i, e) => Step(m, Poke(t, i, e))
    case SetFlags(page, t, e) => Step(m, Poke(t, PathOf(page)[3], e))
    case ClearLeaf(page, t) =>
      ClearKeeps(m, pml4, page, t);
      ReleaseStep(Step(m, Poke(t, PathOf(page)[3], 0)), EntryAddr(Word(m.phys.words, t, PathOf(page)[3])))
    case Other(o) => Step(m, o)
  }

  /** In the four-level tables, each step maps or unmaps exactly its own page, or none. */
  lemma OpShows(m: Model, pml4: nat, op: TableOp, pages: set<nat>)
    requires Sound(m, pml4) && OpReady(m, pml4, op)
    requires Shows(m.phys.words, pml4, pages)
    ensures Shows(OpStep(m, pml4, op).phys.words, pml4, PagesAfter(pages, op))
  {
    hide Inv, Owned, Walk, TableAt, FramesOf, ReleaseStep, MapsTo, Mappings, Shows;
    var m' := OpStep(m, pml4, op);
    match op
    case SetLeaf(page, t, e) =>
      LinkLeaf(m, pml4, PathOf(page)[..3], t, PathOf(page)[3], e);
      assert PathOf(page)[..3] + [PathOf(page)[3]] == PathOf(page);
      assert MapsTo(m'.phys.words, PML4, pml4, PathOf(page), EntryAddr(e));
      PageChanged(m.phys.words, m'.phys.words, pml4, pages, page);
    case SetTable(path, t, i, e) =>
      LinkTable(m, pml4, path, t, i, e);
      PagesKept(m.phys.words, m'.phys.words, pml4, pages);
    case SetFlags(page, t, e) =>
      ChangeFlags(m, pml4, PathOf(page)[..3], t, PathOf(page)[3], e);
      PagesKept(m.phys.words, m'.phys.words, pml4, pages);
    case ClearLeaf(page, t) =>
      UnmapLeaf(m, pml4, PathOf(page)[..3], t, PathOf(page)[3]);
      assert PathOf(page)[..3] + [PathOf(page)[3]] == PathOf(page);
      PageChanged(m.phys.words, m'.phys.words, pml4, pages, page);
    case Other(o) =>
      OthersKeep(m, pml4, o);
      PagesKept(m.phys.words, m'.phys.words, pml4, pages);
  }

  ghost predicate OpsReady(m: Model, pml4: nat, ops: seq<TableOp>)
    requires Sound(m, pml4)
    decreases |ops|
  {
    ops == [] || (OpReady(m, pml4, ops[0]) && OpsReady(OpStep(m, pml4, ops[0]), pml4, ops[1..]))
  }

  ghost function OpsRun(m: Model, pml4: nat, ops: seq<TableOp>): (r: Model)
    requires Sound(m, pml4) && OpsReady(m, pml4, ops)
    ensures Sound(r, pml4)
    decreases |ops|
  {
    if ops == [] then m else OpsRun(OpStep(m, pml4, ops[0]), pml4, ops[1..])
  }

  function PagesAfterAll(pages: set<nat>, ops: seq<TableOp>): set<nat>
    decreases |ops|
  {
    if ops == [] then pages else PagesAfterAll(PagesAfter(pages, ops[0]), ops[1..])
  }

  /** Any sequence of such operations keeps the space fit for teardown, and the tables map the pages they should. */
  lemma {:induction false} OpsShow(m: Model, pml4: nat, ops: seq<TableOp>, pages: set<nat>)
    requires Sound(m, pml4) && OpsReady(m, pml4, ops)
    requires Shows(m.phys.words, pml4, pages)
    ensures Shows(OpsRun(m, pml4, ops).phys.words, pml4, PagesAfterAll(pages, ops))
    decreases |ops|
  {
    hide Inv, Owned, Walk, OpReady, OpStep, Shows, PagesAfter;
    if ops != [] {
      OpShows(m, pml4, ops[0], pages);
      OpsShow(OpStep(m, pml4, ops[0]), pml4, ops[1..], PagesAfter(pages, ops[0]));
    }
  }
}
