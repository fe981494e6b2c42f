/**
 * The kernel's memory services as an object: frame allocator, reference
 * counts and address-space teardown (libkernel/src/memory/mod.rs and
 * frame_allocator.rs), and the shared-memory objects built on them
 * (libkernel/src/shmem.rs, `mmap_shared_pages` in osl/src/syscalls/mem.rs).
 */
module Memory {
  import opened Base
  import opened Pages
  import opened Frames
  import opened AddressSpace

  predicate Cleared(page: seq<nat>) {
    |page| == WORDS && forall j | 0 <= j < WORDS :: page[j] == 0
  }

  class MemoryServices {
    const usable: seq<nat>
    var words: map<nat, seq<nat>>
    var freeHead: nat
    var next: nat
    var refcounts: map<nat, nat>
    ghost var freeList: seq<nat>
    ghost var held: multiset<nat>

    ghost function View(): Model
      reads this
    {
      Model(Phys(words, freeHead, next, usable, refcounts), freeList, held)
    }

    ghost predicate Valid()
      reads this
    {
      Inv(View())
    }

    constructor (regions: seq<Region>, ram: map<nat, seq<nat>>)
      requires forall r <- regions :: r.start % PAGE_SIZE == 0 && (r.usable ==> r.start > 0)
      requires forall i, j | 0 <= i < j < |regions| :: Apart(regions[i], regions[j])
      requires Shape(Boot(regions, ram))
      ensures Valid() && View() == Boot(regions, ram)
    {
      usable := UsableFrames(regions);
      words, freeHead, next, refcounts := ram, 0, 0, map[];
      freeList, held := [], multiset{};
      new;
      BootInv(regions, ram);
    }

    method AllocateFrameSequential() returns (f: Option<nat>)
      requires Valid()
      modifies this
      ensures Valid() && (View(), f) == AllocSequentialStep(old(View()))
    {
      hide Inv;
      AllocSequentialKeepsInv(View());
      f := if next < |usable| then Some(usable[next]) else None;
      next := next + 1;
      if f.Some? { held := held + multiset{f.value}; }
    }

    method AllocateFrame() returns (f: Option<nat>)
      requires Valid()
      modifies this
      ensures Valid() && (View(), f) == AllocStep(old(View()))
      ensures f.Some? ==> f.value !in old(held) && held == old(held) + multiset{f.value}
      ensures f.None? <==> old(freeList) == [] && Untouched(old(View()).phys) == []
    {
      AllocKeepsInv(View());
      if freeHead != 0 {
        f := Some(freeHead);
        held := held + multiset{freeHead};
        freeList := freeList[1..];
        freeHead := words[freeHead][0];
      } else {
        f := AllocateFrameSequential();
      }
    }

    method DeallocateFrame(f: nat)
      requires Valid() && held[f] == 1
      modifies this
      ensures Valid() && View() == ReleaseStep(old(View()), f)
      ensures forall x <- held :: words[x] == old(words)[x]
    {
      hide Inv;
      TableFreed(View(), f);
      ReleaseKeepsInv(View(), f);
      words := words[f := WithWord(words[f], 0, freeHead)];
      freeHead := f;
      freeList := [f] + freeList;
      held := held - multiset{f};
    }

    /** `clear_page` on a frame somebody holds. */
    method ClearPage(f: nat)
      requires Valid() && f in held
      modifies this`words
      ensures Valid() && f in words && Cleared(words[f])
      ensures forall x | x in old(words) && x != f :: x in words && words[x] == old(words)[x]
    {
      hide Inv;
      HeldHasPage(View());
      ghost var was := words;
      for i := 0 to WORDS
        invariant Valid() && f in words && |words[f]| == WORDS
        invariant forall j | 0 <= j < i :: words[f][j] == 0
        invariant forall x | x in was && x != f :: x in words && words[x] == was[x]
      {
        PokeKeepsInv(View(), f, i, 0);
        words := words[f := WithWord(words[f], i, 0)];
      }
    }

    /** One page for a shared-memory object: allocated, then cleared. */
    method AllocateCleared() returns (r: Option<nat>)
      requires Valid()
      modifies this
      ensures Valid()
      ensures r.None? ==> held == old(held) && words == old(words) && Available(View()) == Available(old(View())) == 0
      ensures r.Some? ==> r.value !in old(held) && held == old(held) + multiset{r.value}
      ensures r.Some? ==> Available(old(View())) == Available(View()) + 1
      ensures r.Some? ==> r.value in words && Cleared(words[r.value])
      ensures forall x | x in old(words) && r != Some(x) :: x in words && words[x] == old(words)[x]
    {
      hide Inv, Cleared;
      AllocTakesOne(View());
      r := AllocateFrame();
      if r.Some? {
        ClearPage(r.value);
      }
    }

    /** The walk terminates because the links spell out a finite list of distinct frames. */
    method FreeListLen() returns (n: nat)
      requires Valid()
      ensures n == |freeList| == |Elements(freeList)|
    {
      n := 0;
      var addr := freeHead;
      while addr != 0
        invariant n <= |freeList| && Chain(words, addr, freeList[n..])
        decreases |freeList| - n
      {
        n := n + 1;
        addr := words[addr][0];
      }
      DistinctCount(freeList);
    }

    method RefShare(f: nat)
      requires Valid() && f in held && held[f] < MAX_COUNT
      modifies this
      ensures Valid() && View() == ShareStep(old(View()), f)
    {
      hide Inv;
      ShareKeepsInv(View(), f);
      var count := if f in refcounts then refcounts[f] else 1;
      refcounts := refcounts[f := count + 1];
      held := held + multiset{f};
    }

    method RefRelease(f: nat) returns (last: bool)
      requires Valid() && f in held
      modifies this`refcounts
      ensures (refcounts, last) == Frames.RefRelease(old(refcounts), f)
      ensures last <==> held[f] == 1
    {
      hide Inv;
      LastRelease(View(), f);
      if f in refcounts {
        var count := refcounts[f] - 1;
        if count <= 1 {
          refcounts := refcounts - {f};
          last := count == 0;
        } else {
          refcounts := refcounts[f := count];
          last := false;
        }
      } else {
        last := true;
      }
    }

    method ReleaseSharedFrame(f: nat)
      requires Valid() && f in held
      modifies this
      ensures Valid() && View() == ReleaseStep(old(View()), f)
      ensures f in freeList <==> old(held)[f] == 1
      ensures forall x <- held :: words[x] == old(words)[x]
    {
      hide Inv;
      LastRelease(View(), f);
      ReleaseKeepsInv(View(), f);
      PartitionOf(View(), f);
      var last := RefRelease(f);
      if last {
        DeallocateFrame(f);
      } else {
        held := held - multiset{f};
      }
    }

    /** `unmapped` is the frame the page-table walk took out, if the page was mapped. */
    method UnmapAndReleaseUserPage(unmapped: Option<nat>) returns (wasMapped: bool)
      requires Valid() && (unmapped.Some? ==> unmapped.value in held)
      modifies this
      ensures Valid() && wasMapped == unmapped.Some?
      ensures View() == if unmapped.Some? then ReleaseStep(old(View()), unmapped.value) else old(View())
    {
      if unmapped.Some? {
        ReleaseSharedFrame(unmapped.value);
      }
      wasMapped := unmapped.Some?;
    }

    /** Frames freed so far were not held any more, so the words of every held page are as `before`. */
    ghost predicate Unchanged(before: map<nat, seq<nat>>)
      reads this
    {
      forall x <- held :: x in before && x in words && words[x] == before[x] && |words[x]| == WORDS
    }

    method ReleaseLeaf(f: nat, ghost before: map<nat, seq<nat>>)
      requires Valid() && f in held && Unchanged(before)
      modifies this
      ensures Valid() && Unchanged(before) && View() == ReleaseStep(old(View()), f)
    {
      hide Inv;
      ReleaseSharedFrame(f);
      assert View().held <= old(held);
    }

    /** One entry of a table: nothing, a leaf's reference, or the subtree below it. */
    method VisitEntry(level: nat, entry: nat, ghost before: map<nat, seq<nat>>)
      requires Valid() && 1 <= level <= PML4
      requires Owned(View(), EntryVisits(before, level, entry)) && Unchanged(before)
      modifies this
      ensures Valid() && Unchanged(before)
      ensures View() == ReleaseAll(old(View()), FramesOf(EntryVisits(before, level, entry)))
      decreases level, 0
    {
      hide Inv, Walk, FramesOf, ReleaseAll, ReleaseStep, Owned, Unchanged;
      if Skipped(level, entry) {
        NoVisit(View());
        return;
      }
      if level == PT {
        LeafVisit(View(), EntryAddr(entry));
        ReleaseLeaf(EntryAddr(entry), before);
      } else {
        FreeTable(level - 1, EntryAddr(entry), before);
      }
    }

    /**
     * One level of the walk: visit the entries in order, then free the table itself.  The
     * entries are read while frames are being freed, and are still those of `before`.
     */
    method FreeTable(level: nat, table: nat, ghost before: map<nat, seq<nat>>)
      requires Valid() && 1 <= level <= PML4
      requires Owned(View(), Walk(before, level, table)) && Unchanged(before)
      modifies this
      ensures Valid() && Unchanged(before)
      ensures View() == ReleaseAll(old(View()), FramesOf(Walk(before, level, table)))
      decreases level, 1
    {
      hide Inv;
      ghost var m0 := View();
      for i := 0 to Limit(level)
        invariant Valid() && Unchanged(before)
        invariant Owned(m0, Entries(before, level, table, i))
        invariant View() == ReleaseAll(m0, FramesOf(Entries(before, level, table, i)))
      {
        NextEntry(m0, before, level, table, i);
        EntriesStep(m0, before, level, table, i);
        var entry := words[table][i];
        VisitEntry(level, entry, before);
      }
      TableLast(m0, before, level, table);
      DeallocateFrame(table);
    }

    method CleanupUserAddressSpace(pml4: nat)
      requires Valid() && Owned(View(), Walk(words, PML4, pml4))
      modifies this
      ensures Valid()
      ensures View() == ReleaseAll(old(View()), FramesOf(Walk(old(words), PML4, pml4)))
    {
      HeldHasPage(View());
      FreeTable(PML4, pml4, words);
    }
  }

  ghost function Elements(s: seq<nat>): set<nat> {
    set x | x in s
  }

  lemma {:induction false} DistinctCount(s: seq<nat>)
    requires NoDuplicates(s)
    ensures |Elements(s)| == |s|
  {
    if s != [] {
      var init, last := s[..|s| - 1], s[|s| - 1];
      DistinctCount(init);
      assert s == init + [last];
      assert Elements(s) == Elements(init) + {last};
      assert last !in Elements(init);
    }
  }

  /** A shared-memory object: the frames behind it, and whether it owns a reference to each. */
  class SharedMem {
    const frames: seq<nat>
    const size: nat
    const owned: bool

    /** `from_existing`: borrowed frames, never released. */
    constructor FromExisting(frames: seq<nat>, size: nat)
      ensures this.frames == frames && this.size == size && !owned
    {
      this.frames, this.size, this.owned := frames, size, false;
    }

    constructor Owning(frames: seq<nat>, size: nat)
      ensures this.frames == frames && this.size == size && owned
    {
      this.frames, this.size, this.owned := frames, size, true;
    }

    /** Dropping the last handle gives back exactly the references the object owns. */
    method Drop(mem: MemoryServices)
      requires mem.Valid() && (owned ==> multiset(frames) <= mem.held)
      modifies mem
      ensures mem.Valid()
      ensures mem.View() == if owned then ReleaseAll(old(mem.View()), frames) else old(mem.View())
    {
      hide Inv;
      if owned {
        ghost var m0 := mem.View();
        for i := 0 to |frames|
          invariant mem.Valid() && multiset(frames[..i]) <= m0.held
          invariant mem.View() == ReleaseAll(m0, frames[..i])
        {
          TakeOneMore(frames, i);
          ReleaseAllAppend(m0, frames[..i], frames[i]);
          mem.ReleaseSharedFrame(frames[i]);
        }
        assert frames[..|frames|] == frames;
      }
    }
  }

  lemma TakeOneMore(s: seq<nat>, i: nat)
    requires i < |s|
    ensures s[..i + 1] == s[..i] + [s[i]]
    ensures multiset(s[..i + 1]) <= multiset(s)
  {
    assert s == s[..i + 1] + s[i + 1..];
  }

  /**
   * `SharedMemInner::new`: one fresh frame a page, exactly when that many are left.  Otherwise it
   * takes all that are left, and they stay held, by nobody.
   */
  method NewSharedMem(mem: MemoryServices, size: nat) returns (r: Option<SharedMem>, ghost taken: seq<nat>)
    requires mem.Valid()
    modifies mem
    ensures mem.Valid()
    ensures mem.held == old(mem.held) + multiset(taken)
    ensures NoDuplicates(taken) && forall f <- taken :: f !in old(mem.held)
    ensures size == 0 ==> r.None? && taken == []
    ensures r.Some? ==> fresh(r.value) && r.value.owned && r.value.frames == taken && r.value.size == size
    ensures r.Some? ==> (|taken| - 1) * PAGE_SIZE < size <= |taken| * PAGE_SIZE
    ensures r.Some? <==> size > 0 && size <= Available(old(mem.View())) * PAGE_SIZE
    ensures Available(mem.View()) + |taken| == Available(old(mem.View()))
    ensures r.None? && size > 0 ==> Available(mem.View()) == 0
    ensures forall f <- taken :: f in mem.words && Cleared(mem.words[f])
  {
    hide Inv, Cleared, MemoryServices.View, Available;
    taken := [];
    if size == 0 {
      return None, taken;
    }
    var pages := (size + PAGE_SIZE - 1) / PAGE_SIZE;
    var frames: seq<nat> := [];
    for i := 0 to pages
      invariant mem.Valid() && frames == taken && |frames| == i
      invariant Available(mem.View()) + i == Available(old(mem.View()))
      invariant mem.held == old(mem.held) + multiset(taken)
      invariant NoDuplicates(taken) && forall f <- taken :: f !in old(mem.held)
      invariant forall f <- taken :: f in mem.words && Cleared(mem.words[f])
    {
      var f := mem.AllocateCleared();
      if f.None? {
        return None, taken;
      }
      NoDuplicatesConcat(taken, [f.value]);
      frames := frames + [f.value];
      taken := frames;
    }
    var obj := new SharedMem.Owning(frames, size);
    r := Some(obj);
  }

  /**
   * `mmap_shared_pages`: map each frame and take a reference to it.  `mapped[i]` is what the
   * page-table insertion of page `i` answers; the first refusal ends the loop and keeps the
   * references taken so far.
   */
  method MmapSharedPages(mem: MemoryServices, frames: seq<nat>, mapped: seq<bool>) returns (ok: bool, ghost count: nat)
    requires mem.Valid() && |mapped| == |frames|
    requires forall f <- frames :: f in mem.held && mem.held[f] + |frames| <= MAX_COUNT
    modifies mem
    ensures mem.Valid()
    ensures count <= |frames| && mem.held == old(mem.held) + multiset(frames[..count])
    ensures ok <==> count == |frames|
    ensures (forall i | 0 <= i < count :: mapped[i]) && (count < |frames| ==> !mapped[count])
    ensures mem.freeList == old(mem.freeList)
  {
    hide Inv;
    count := 0;
    for i := 0 to |frames|
      invariant mem.Valid() && count == i
      invariant mem.held == old(mem.held) + multiset(frames[..i])
      invariant forall j | 0 <= j < i :: mapped[j]
      invariant mem.freeList == old(mem.freeList)
    {
      if !mapped[i] {
        return false, i;
      }
      TakeOneMore(frames, i);
      CountAtMost(frames[..i], frames[i]);
      mem.RefShare(frames[i]);
      count := i + 1;
    }
    ok := true;
    assert frames[..|frames|] == frames;
  }

  lemma CountAtMost(s: seq<nat>, f: nat)
    ensures multiset(s)[f] <= |s|
  {
  }

}
