/**
 * The memory-mapping system calls (osl/src/syscalls/mem.rs): `mmap` (private
 * or shared, fixed or in a gap), `munmap` and `mprotect` on a process's areas
 * and on its page table.
 *
 * How many pages the frame allocator can still back, and what the descriptor
 * names, come in as arguments.  Additions that overflow 64 bits stop the
 * kernel and are an outcome of their own.
 */
module Mmap {
  import opened Base
  import opened Bits
  import opened Pages
  import opened Resident
  import opened VmaMap

  const MAP_SHARED: nat := 0x01
  const MAP_PRIVATE: nat := 0x02
  const MAP_FIXED: nat := 0x10
  const MAP_ANONYMOUS: nat := 0x20
  const EBADF: int := 9
  const ENOMEM: int := 12
  const ENODEV: int := 19
  const EINVAL: int := 22

  datatype Outcome = Done(value: nat) | Errno(code: int) | Panics

  // ---- the pages of a list of runs ----

  /** The pages of one run. */
  function PagesOf(r: PageRun): (pages: seq<nat>)
    ensures |pages| == r.count
  {
    seq(r.count, i requires 0 <= i => r.base + i * PAGE_SIZE)
  }

  function AllPages(runs: seq<PageRun>): seq<nat> {
    if runs == [] then [] else AllPages(runs[..|runs| - 1]) + PagesOf(runs[|runs| - 1])
  }

  lemma PagesOfMembers(r: PageRun, a: nat)
    requires r.base % PAGE_SIZE == 0
    ensures a in PagesOf(r) <==> a % PAGE_SIZE == 0 && InRun(r, a)
  {
    if a % PAGE_SIZE == 0 && InRun(r, a) {
      var i := (a - r.base) / PAGE_SIZE;
      AlignedBetween(r.base, a);
      assert PagesOf(r)[i] == a;
    }
  }

  lemma {:induction false} AllPagesMembers(runs: seq<PageRun>, a: nat)
    requires forall r <- runs :: r.base % PAGE_SIZE == 0
    ensures a in AllPages(runs) <==> a % PAGE_SIZE == 0 && exists r <- runs :: InRun(r, a)
  {
    if runs != [] {
      var last := |runs| - 1;
      assert runs == runs[..last] + [runs[last]];
      AllPagesMembers(runs[..last], a);
      PagesOfMembers(runs[last], a);
    }
  }

  lemma {:induction false} AllPagesAscend(runs: seq<PageRun>)
    requires forall r <- runs :: r.base % PAGE_SIZE == 0
    requires forall i, j | 0 <= i < j < |runs| :: RunEnd(runs[i]) <= runs[j].base
    ensures Ascending(AllPages(runs))
  {
    if runs != [] {
      var last := |runs| - 1;
      var front := AllPages(runs[..last]);
      AllPagesAscend(runs[..last]);
      forall a | a in front
        ensures a < runs[last].base
      {
        AllPagesMembers(runs[..last], a);
        var r :| r in runs[..last] && InRun(r, a);
        var i :| 0 <= i < last && runs[..last][i] == r;
      }
      AscendingConcat(front, PagesOf(runs[last]), runs[last].base);
    }
  }

  lemma AscendingConcat(a: seq<nat>, b: seq<nat>, k: nat)
    requires Ascending(a) && Ascending(b) && (forall x <- a :: x < k) && forall x <- b :: k <= x
    ensures Ascending(a + b)
  {
    forall i, j | 0 <= i < j < |a + b|
      ensures (a + b)[i] < (a + b)[j]
    {
      if i < |a| <= j {
        assert a[i] in a && b[j - |a|] in b;
      }
    }
  }

  /** `pages` are, in order and once each, the pages of `[start, end)` that are mapped in `m`. */
  ghost predicate MappedPages(m: Areas, start: nat, end: nat, pages: seq<nat>) {
    && Ascending(pages)
    && forall a: nat :: a in pages <==> a % PAGE_SIZE == 0 && InRange(a, start, end) && Lookup(m, a).Some?
  }

  lemma PartitionPages(m: Areas, start: nat, end: nat, runs: seq<PageRun>)
    requires Partition(m, start, end, runs)
    ensures MappedPages(m, start, end, AllPages(runs))
  {
    hide Lookup, InRun;
    AllPagesAscend(runs);
    forall a: nat
      ensures a in AllPages(runs) <==> a % PAGE_SIZE == 0 && InRange(a, start, end) && Lookup(m, a).Some?
    {
      AllPagesMembers(runs, a);
    }
  }

  // ---- the loops over pages ----

  ghost function SpaceOf(p: Process): Space
    reads p
  {
    Space(p.vmas, p.table)
  }

  lemma AllPagesStep(runs: seq<PageRun>, i: nat, j: nat)
    requires i < |runs| && j < runs[i].count
    ensures AllPages(runs[..i]) + PagesOf(runs[i])[..j + 1]
            == AllPages(runs[..i]) + PagesOf(runs[i])[..j] + [runs[i].base + j * PAGE_SIZE]
  {
    assert PagesOf(runs[i])[..j + 1] == PagesOf(runs[i])[..j] + [PagesOf(runs[i])[j]];
  }

  lemma AllPagesRun(runs: seq<PageRun>, i: nat)
    requires i < |runs|
    ensures AllPages(runs[..i + 1]) == AllPages(runs[..i]) + PagesOf(runs[i])[..runs[i].count]
  {
    assert runs[..i + 1][..i] == runs[..i];
    assert PagesOf(runs[i])[..runs[i].count] == PagesOf(runs[i]);
  }

  lemma UnmappedOne(t: Table, pages: seq<nat>, a: nat)
    ensures var u := Unmapped(t, pages);
            Unmapped(t, pages + [a]) == if a in u && u[a] != PROT_NONE then u - {a} else u
  {
  }

  lemma ProtectedOne(t: Table, pages: seq<nat>, prot: nat, a: nat)
    ensures var u := Protected(t, pages, prot);
            Protected(t, pages + [a], prot) == if a in u then u[a := prot] else u
  {
  }

  /** The nested loops of `munmap`: one table entry dropped for each page listed, unless it is not present. */
  method UnmapPages(p: Process, runs: seq<PageRun>) returns (pages: seq<nat>)
    modifies p`table
    ensures pages == AllPages(runs) && p.table == Unmapped(old(p.table), pages)
  {
    hide Unmapped;
    pages := [];
    ghost var t := p.table;
    assert p.table == Unmapped(t, []) by { NothingUnmapped(t); }
    for i := 0 to |runs|
      invariant pages == AllPages(runs[..i]) && p.table == Unmapped(t, pages)
    {
      for j := 0 to runs[i].count
        invariant pages == AllPages(runs[..i]) + PagesOf(runs[i])[..j] && p.table == Unmapped(t, pages)
      {
        var page := runs[i].base + j * PAGE_SIZE;
        UnmappedOne(t, pages, page);
        AllPagesStep(runs, i, j);
        if page in p.table && p.table[page] != PROT_NONE {
          p.table := p.table - {page};
        }
        pages := pages + [page];
      }
      AllPagesRun(runs, i);
    }
    assert runs[..|runs|] == runs;
  }

  lemma NothingUnmapped(t: Table)
    ensures Unmapped(t, []) == t && forall prot: nat :: Protected(t, [], prot) == t
  {
  }

  /** The nested loops of `mprotect`: the entry of each page listed gets the new flags. */
  method ProtectPages(p: Process, runs: seq<PageRun>, prot: nat) returns (pages: seq<nat>)
    modifies p`table
    ensures pages == AllPages(runs) && p.table == Protected(old(p.table), pages, prot)
  {
    hide Protected;
    pages := [];
    ghost var t := p.table;
    NothingUnmapped(t);
    for i := 0 to |runs|
      invariant pages == AllPages(runs[..i]) && p.table == Protected(t, pages, prot)
    {
      for j := 0 to runs[i].count
        invariant pages == AllPages(runs[..i]) + PagesOf(runs[i])[..j] && p.table == Protected(t, pages, prot)
      {
        var page := runs[i].base + j * PAGE_SIZE;
        ProtectedOne(t, pages, prot, page);
        AllPagesStep(runs, i, j);
        if page in p.table {
          p.table := p.table[page := prot];
        }
        pages := pages + [page];
      }
      AllPagesRun(runs, i);
    }
    assert runs[..|runs|] == runs;
  }

  /** Back and map each page in turn; the first that fails ends the loop and leaves the others mapped. */
  method MapPages(p: Process, base: nat, count: nat, prot: nat, budget: nat) returns (ok: bool)
    modifies p`table
    ensures var n := Reach(old(p.table), base, count, budget);
            p.table == Extended(old(p.table), base, n, prot) && (ok <==> n == count)
  {
    hide Extended;
    ghost var t := p.table;
    assert Extended(t, base, 0, prot) == t by { ExtendedByNone(t, base, prot); }
    for i := 0 to count
      invariant i <= budget && p.table == Extended(t, base, i, prot)
      invariant Reach(t, base, count, budget) == i + Reach(t, base + i * PAGE_SIZE, count - i, budget - i)
    {
      var page := base + i * PAGE_SIZE;
      ExtendedAt(t, base, i, prot, page);
      if i >= budget || page in p.table {
        return false;
      }
      ExtendedByOne(t, base, i, prot);
      p.table := p.table[page := prot];
    }
    ok := true;
  }

  lemma ExtendedByNone(t: Table, base: nat, prot: nat)
    ensures Extended(t, base, 0, prot) == t
  {
  }

  lemma ExtendedByOne(t: Table, base: nat, n: nat, prot: nat)
    ensures Extended(t, base, n + 1, prot) == Extended(t, base, n, prot)[base + n * PAGE_SIZE := prot]
  {
  }

  /** The pages listed are those of the areas in the range. */
  lemma TablesAgree(s: Space, start: nat, end: nat, pages: seq<nat>)
    requires MappedPages(s.areas, start, end, pages) && forall a | a in s.table :: a % PAGE_SIZE == 0
    ensures Unmapped(s.table, pages) == CutTable(s, start, end)
    ensures forall prot: nat :: Protected(s.table, pages, prot) == SetTable(s, start, end, prot)
  {
    hide Lookup;
    forall a | a in s.table
      ensures a in pages <==> CoveredIn(s, start, end, a)
    {
    }
  }

  // ---- munmap and mprotect ----

  /** Why a range is refused before anything is done. */
  function RangeRefusal(kernel: bool, addr: nat, length: nat): Option<Outcome> {
    if addr % PAGE_SIZE != 0 || length == 0 || kernel then Some(Errno(-EINVAL))
    else if length + PAGE_MASK >= U64 then Some(Panics)
    else if addr + AlignUp(length) >= U64 then Some(Panics)
    else None
  }

  lemma RangeIsPages(addr: nat, length: nat)
    requires addr % PAGE_SIZE == 0 && 0 < length && length + PAGE_MASK < U64
    ensures WholePages(addr, addr + AlignUp(length))
  {
    AlignUpIs(length);
    hide AlignUp;
    SumAligned(addr, AlignUp(length));
  }

  /** `unmapped` lists the pages visited. */
  method SysMunmap(p: Process, kernel: bool, addr: nat, length: nat) returns (r: Outcome, unmapped: seq<nat>)
    requires Valid(p.vmas) && Backed(SpaceOf(p))
    modifies p
    ensures Valid(p.vmas) && Backed(SpaceOf(p))
    ensures match RangeRefusal(kernel, addr, length)
            case Some(refusal) => r == refusal && SpaceOf(p) == old(SpaceOf(p)) && unmapped == []
            case None =>
              var end := addr + AlignUp(length);
              && r == Done(0)
              && SpaceStep(old(SpaceOf(p)), Release(addr, end), SpaceOf(p))
              && MappedPages(old(p.vmas), addr, end, unmapped)
  {
    hide Valid, Rebuilt, Partition, And, Lookup, AlignUp, Unmapped, CutTable, MappedPages, Backed;
    unmapped := [];
    MisalignedIs(addr);
    if Misaligned(addr) || length == 0 || kernel {
      return Errno(-EINVAL), [];
    }
    if length + PAGE_MASK >= U64 || addr + AlignUp(length) >= U64 {
      return Panics, [];
    }
    var alignedLen := AlignUp(length);
    RangeIsPages(addr, length);
    ghost var s := SpaceOf(p);
    var runs := p.MunmapVmas(addr, alignedLen);
    PartitionPages(s.areas, addr, addr + alignedLen, runs);
    WholeEntries(s);
    TablesAgree(s, addr, addr + alignedLen, AllPages(runs));
    r := Done(0);
    if runs == [] {
      NothingUnmapped(p.table);
    } else {
      unmapped := UnmapPages(p, runs);
    }
    StepKeepsBacked(s, Release(addr, addr + alignedLen), SpaceOf(p));
  }

  lemma WholeEntries(s: Space)
    requires Backed(s)
    ensures forall a | a in s.table :: a % PAGE_SIZE == 0
  {
  }

  /** `updated` lists the pages whose table entries get the new flags. */
  method SysMprotect(p: Process, kernel: bool, addr: nat, length: nat, prot: nat)
    returns (r: Outcome, updated: seq<nat>)
    requires Valid(p.vmas) && Backed(SpaceOf(p))
    modifies p
    ensures Valid(p.vmas) && Backed(SpaceOf(p))
    ensures match RangeRefusal(kernel, addr, length)
            case Some(refusal) => r == refusal && SpaceOf(p) == old(SpaceOf(p)) && updated == []
            case None =>
              var end := addr + AlignUp(length);
              && r == Done(0)
              && SpaceStep(old(SpaceOf(p)), Change(addr, end, prot % U32), SpaceOf(p))
              && MappedPages(old(p.vmas), addr, end, updated)
  {
    hide Valid, Rebuilt, Partition, And, Lookup, AlignUp, Protected, SetTable, MappedPages, Backed;
    updated := [];
    MisalignedIs(addr);
    if Misaligned(addr) || length == 0 || kernel {
      return Errno(-EINVAL), [];
    }
    if length + PAGE_MASK >= U64 || addr + AlignUp(length) >= U64 {
      return Panics, [];
    }
    var alignedLen := AlignUp(length);
    RangeIsPages(addr, length);
    ghost var s := SpaceOf(p);
    var runs := p.MprotectVmas(addr, alignedLen, prot % U32);
    PartitionPages(s.areas, addr, addr + alignedLen, runs);
    WholeEntries(s);
    TablesAgree(s, addr, addr + alignedLen, AllPages(runs));
    r := Done(0);
    if runs == [] {
      NothingUnmapped(p.table);
    } else {
      updated := ProtectPages(p, runs, prot % U32);
    }
    StepKeepsBacked(s, Change(addr, addr + alignedLen, prot % U32), SpaceOf(p));
  }

  // ---- mmap ----

  /** What the descriptor argument names. */
  datatype FdObject = NoFd | OtherFd | File(readable: bool) | Shm(size: nat, frames: nat)

  datatype MmapArgs = MmapArgs(
    kernel: bool,
    addr: nat,
    length: nat,
    prot: nat,
    flags: nat,
    fd: nat,
    offset: nat,
    target: FdObject)

  predicate HasFlag(flags: nat, flag: nat) {
    And(flags % U32, flag) != 0
  }

  /** A descriptor cut to 32 bits and sign-extended. */
  function AsFd(x: nat): nat {
    var low := x % U32;
    if low < U32 / 2 then low else low + U64 - U32
  }

  /** The descriptor recorded in the area. */
  function AreaFd(a: MmapArgs): Option<nat> {
    if HasFlag(a.flags, MAP_SHARED) then Some(a.fd)
    else if HasFlag(a.flags, MAP_ANONYMOUS) then None
    else Some(AsFd(a.fd))
  }

  function AreaOffset(a: MmapArgs): nat {
    if !HasFlag(a.flags, MAP_SHARED) && HasFlag(a.flags, MAP_ANONYMOUS) then 0 else a.offset
  }

  /** The area a request asks for, at a given place. */
  function Requested(a: MmapArgs, base: nat): Vma
    requires a.length + PAGE_MASK < U64
  {
    Vma(base, AlignUp(a.length), a.prot % U32, a.flags % U32, AreaFd(a), AreaOffset(a))
  }

  /** A shared mapping must lie within the object, up to its last whole page. */
  function SharedRefusal(a: MmapArgs): Option<Outcome>
    requires 0 < a.length && a.length + PAGE_MASK < U64
  {
    if a.offset % PAGE_SIZE != 0 then Some(Errno(-EINVAL))
    else if !a.target.Shm? then Some(Errno(-ENODEV))
    else
      var len := AlignUp(a.length);
      if a.offset + len >= U64 then Some(Panics)
      else if a.offset + len > a.target.size && a.target.size + PAGE_MASK >= U64 then Some(Panics)
      else if a.offset + len > a.target.size && a.offset + len > AlignUp(a.target.size) then Some(Errno(-EINVAL))
      else if a.offset / PAGE_SIZE + len / PAGE_SIZE > a.target.frames then Some(Errno(-EINVAL))
      else None
  }

  function PrivateRefusal(a: MmapArgs): Option<Outcome> {
    if HasFlag(a.flags, MAP_ANONYMOUS) then None
    else if a.offset % PAGE_SIZE != 0 then Some(Errno(-EINVAL))
    else if !a.target.File? then Some(Errno(-EBADF))
    else if !a.target.readable then Some(Errno(-ENODEV))
    else None
  }

  function FixedRefusal(a: MmapArgs): Option<Outcome>
    requires 0 < a.length && a.length + PAGE_MASK < U64
  {
    if a.addr == 0 || a.addr % PAGE_SIZE != 0 then Some(Errno(-EINVAL))
    else if a.addr + AlignUp(a.length) >= U64 then Some(Panics)
    else None
  }

  /** Why a request is refused before anything is done, in the order of the checks. */
  function Refusal(a: MmapArgs): Option<Outcome> {
    var shared, private := HasFlag(a.flags, MAP_SHARED), HasFlag(a.flags, MAP_PRIVATE);
    if a.kernel then Some(Errno(-ENOMEM))
    else if a.length + PAGE_MASK >= U64 then Some(Panics)
    else if a.length == 0 || shared == private || (shared && HasFlag(a.flags, MAP_ANONYMOUS)) then Some(Errno(-EINVAL))
    else
      var refused := if shared then SharedRefusal(a) else PrivateRefusal(a);
      if refused.Some? then refused
      else if HasFlag(a.flags, MAP_FIXED) then FixedRefusal(a)
      else None
  }

  // ---- what the arguments mean ----

  /** Testing one of the low 32 flags is testing its bit. */
  lemma FlagIs(flags: nat, k: nat)
    requires k < 32
    ensures HasFlag(flags, Pow2(k)) <==> Bit(flags, k)
  {
    Pow2Values();
    hide And, Pow2, Bit;
    FlagBit(flags % U32, k);
    LowBit(flags, 32, k);
  }

  lemma FlagsAre(flags: nat)
    ensures HasFlag(flags, MAP_SHARED) <==> Bit(flags, 0)
    ensures HasFlag(flags, MAP_PRIVATE) <==> Bit(flags, 1)
    ensures HasFlag(flags, MAP_FIXED) <==> Bit(flags, 4)
    ensures HasFlag(flags, MAP_ANONYMOUS) <==> Bit(flags, 5)
  {
    assert Pow2(0) == 1 && Pow2(1) == 2 && Pow2(2) == 4 && Pow2(3) == 8 && Pow2(4) == 16 && Pow2(5) == 32;
    hide HasFlag, Pow2, Bit;
    FlagIs(flags, 0);
    FlagIs(flags, 1);
    FlagIs(flags, 4);
    FlagIs(flags, 5);
  }

  /** A user process asks for something, and exactly one of shared and private, shared memory not being anonymous. */
  predicate Sensible(a: MmapArgs) {
    && !a.kernel && 0 < a.length && a.length + 4095 < 0x1_0000_0000_0000_0000
    && (Bit(a.flags, 0) <==> !Bit(a.flags, 1)) && !(Bit(a.flags, 0) && Bit(a.flags, 5))
  }

  /** The object is there and covers the request: shared memory up to its last whole page, or a readable file. */
  predicate Backing(a: MmapArgs)
    requires Sensible(a)
  {
    var len := AlignUp(a.length);
    if Bit(a.flags, 0) then
      && a.offset % 4096 == 0 && a.target.Shm? && a.offset + len < 0x1_0000_0000_0000_0000
      && (a.offset + len <= a.target.size ||
          (a.target.size + 4095 < 0x1_0000_0000_0000_0000 && a.offset + len <= AlignUp(a.target.size)))
      && a.offset / 4096 + len / 4096 <= a.target.frames
    else Bit(a.flags, 5) || (a.offset % 4096 == 0 && a.target.File? && a.target.readable)
  }

  /** A request gets past the checks exactly when it is sensible, backed, and at a usable place if it names one. */
  lemma AcceptedExactly(a: MmapArgs)
    ensures Refusal(a).None? <==>
            && Sensible(a) && Backing(a)
            && (Bit(a.flags, 4) ==> a.addr != 0 && a.addr % 4096 == 0 && a.addr + AlignUp(a.length) < 0x1_0000_0000_0000_0000)
  {
    FlagsAre(a.flags);
    hide HasFlag, Bit, AlignUp;
  }

  /** Which error a refused request gets: 12 for a kernel thread, 19 or 9 for the wrong object, 22 for anything else. */
  lemma RefusalCodes(a: MmapArgs)
    ensures Refusal(a) == Some(Errno(-12)) <==> a.kernel
    ensures Refusal(a) == Some(Errno(-19)) <==>
            Sensible(a) && a.offset % 4096 == 0 &&
            if Bit(a.flags, 0) then !a.target.Shm? else !Bit(a.flags, 5) && a.target.File? && !a.target.readable
    ensures Refusal(a) == Some(Errno(-9)) <==>
            Sensible(a) && Bit(a.flags, 1) && !Bit(a.flags, 5) && a.offset % 4096 == 0 && !a.target.File?
    ensures Refusal(a).Some? && Refusal(a).value.Errno? ==> Refusal(a).value.code in {-12, -19, -9, -22}
    ensures Refusal(a) == Some(Panics) ==>
            || a.length + 4095 >= 0x1_0000_0000_0000_0000
            || (Sensible(a) && Bit(a.flags, 0) && a.target.Shm? &&
                (a.offset + AlignUp(a.length) >= 0x1_0000_0000_0000_0000 || a.target.size + 4095 >= 0x1_0000_0000_0000_0000))
            || (Sensible(a) && Bit(a.flags, 4) && a.addr + AlignUp(a.length) >= 0x1_0000_0000_0000_0000)
  {
    FlagsAre(a.flags);
    hide HasFlag, Bit, AlignUp;
  }

  /** `munmap` and `mprotect` refuse a kernel thread, an unaligned address and an empty range with 22, and nothing else. */
  lemma RangeRefusedExactly(kernel: bool, addr: nat, length: nat)
    ensures RangeRefusal(kernel, addr, length) == Some(Errno(-22)) <==> kernel || addr % 4096 != 0 || length == 0
    ensures RangeRefusal(kernel, addr, length).None? ==> addr + AlignUp(length) < 0x1_0000_0000_0000_0000
    ensures RangeRefusal(kernel, addr, length).Some? ==> RangeRefusal(kernel, addr, length).value in {Errno(-22), Panics}
  {
  }

  /**
   * What a successful request gets at `b`: an area of the least whole number of pages, with the
   * protection, flags, descriptor and offset it asked for, and a table entry for each of its
   * pages with that protection.
   */
  ghost predicate Granted(s: Space, a: MmapArgs, b: nat) {
    && b in s.areas
    && var v := s.areas[b];
       && v.start == b && v.len % 4096 == 0 && a.length <= v.len < a.length + 4096
       && v.prot == a.prot % 0x1_0000_0000 && v.flags == a.flags % 0x1_0000_0000
       && v.fd == (if Bit(a.flags, 0) then Some(a.fd) else if Bit(a.flags, 5) then None else Some(AsFd(a.fd)))
       && v.offset == (if Bit(a.flags, 5) then 0 else a.offset)
       && forall x: nat | b <= x < b + v.len && x % 4096 == 0 :: Entry(s.table, x) == Some(a.prot % 0x1_0000_0000)
  }

  /** A descriptor that fits in 31 bits is kept; of any other the low 32 bits are, read as a signed number. */
  lemma AsFdIs(fd: nat)
    ensures fd < 0x8000_0000 ==> AsFd(fd) == fd
    ensures AsFd(fd) % 0x1_0000_0000 == fd % 0x1_0000_0000 && AsFd(fd) < 0x1_0000_0000_0000_0000
    ensures AsFd(fd) < 0x8000_0000 || AsFd(fd) >= 0xFFFF_FFFF_8000_0000
  {
  }

  /** A mapping call that succeeds puts its area in place. */
  lemma AreaIsPlaced(s: Space, c: MemCall, s': Space)
    requires Valid(s'.areas) && Backed(s') && SpaceStep(s, c, s') && (c.Gap? || c.Fixed?) && Succeeds(s, c)
    ensures c.v.start in s'.areas && s'.areas[c.v.start] == c.v
    ensures forall x: nat | Covers(c.v, x) && x % PAGE_SIZE == 0 :: Entry(s'.table, x) == Some(c.v.prot)
  {
    hide Rebuilt, Placeable, Lookup, Valid;
    var k := c.v.start;
    assert k in s'.areas && s'.areas[k] == c.v;
    forall x: nat | Covers(c.v, x) && x % PAGE_SIZE == 0
      ensures Entry(s'.table, x) == Some(c.v.prot)
    {
      LookupIs(s'.areas, k, x);
    }
  }

  lemma RequestIsGranted(s: Space, c: MemCall, s': Space, a: MmapArgs)
    requires Valid(s'.areas) && Backed(s') && SpaceStep(s, c, s') && (c.Gap? || c.Fixed?) && Succeeds(s, c)
    requires Refusal(a).None? && a.length + PAGE_MASK < U64 && c.v == Requested(a, c.v.start)
    ensures Granted(s', a, c.v.start)
  {
    hide Valid, Backed, SpaceStep, Succeeds, And, Bit, AlignUp, HasFlag;
    AreaIsPlaced(s, c, s');
    FlagsAre(a.flags);
    AcceptedExactly(a);
    AlignUpIs(a.length);
  }

  /** The checks on a shared-memory descriptor. */
  method CheckShared(a: MmapArgs, alignedLen: nat) returns (r: Option<Outcome>)
    requires 0 < a.length && a.length + PAGE_MASK < U64 && alignedLen == AlignUp(a.length)
    ensures r == SharedRefusal(a)
  {
    hide And, AlignUp;
    MisalignedIs(a.offset);
    if Misaligned(a.offset) {
      return Some(Errno(-EINVAL));
    }
    if !a.target.Shm? {
      return Some(Errno(-ENODEV));
    }
    if a.offset + alignedLen >= U64 {
      return Some(Panics);
    }
    if a.offset + alignedLen > a.target.size {
      if a.target.size + PAGE_MASK >= U64 {
        return Some(Panics);
      }
      var pageAlignedSize := AlignUp(a.target.size);
      if a.offset + alignedLen > pageAlignedSize {
        return Some(Errno(-EINVAL));
      }
    }
    var firstPage := a.offset / PAGE_SIZE;
    if firstPage + alignedLen / PAGE_SIZE > a.target.frames {
      return Some(Errno(-EINVAL));
    }
    r := None;
  }

  /** Map at the requested address, unmapping whatever is there first. */
  method MapFixedArea(p: Process, v: Vma, budget: nat) returns (r: Outcome, unmapped: seq<nat>)
    requires Valid(p.vmas) && Backed(SpaceOf(p)) && Aligned(v)
    modifies p
    ensures Valid(p.vmas) && Backed(SpaceOf(p)) && SpaceStep(old(SpaceOf(p)), Fixed(v, budget), SpaceOf(p))
    ensures MappedPages(old(p.vmas), v.start, End(v), unmapped)
    ensures r == if Succeeds(old(SpaceOf(p)), Fixed(v, budget)) then Done(v.start) else Errno(-ENOMEM)
  {
    hide Valid, Rebuilt, Partition, Lookup, Unmapped, CutTable, MappedPages, Backed, Extended, Reach;
    ghost var s := SpaceOf(p);
    AlignedEnd(v);
    var runs := p.MunmapVmas(v.start, v.len);
    PartitionPages(s.areas, v.start, End(v), runs);
    WholeEntries(s);
    TablesAgree(s, v.start, End(v), AllPages(runs));
    unmapped := UnmapPages(p, runs);
    var ok := MapPages(p, v.start, v.len / PAGE_SIZE, v.prot, budget);
    if ok {
      p.vmas := p.vmas[v.start := v];
      r := Done(v.start);
    } else {
      r := Errno(-ENOMEM);
    }
    StepKeepsBacked(s, Fixed(v, budget), SpaceOf(p));
  }

  /** The mmap window has a free place of that length, and the gap finder does not overlook it. */
  ghost predicate GapAvailable(m: Areas, len: nat) {
    (exists b: nat :: Placeable(m, b, len)) && !Overlooked(m, len)
  }

  ghost predicate HighestPlace(m: Areas, base: nat, len: nat) {
    Placeable(m, base, len) && forall b: nat | Placeable(m, b, len) :: b <= base
  }

  /** The request as it is made: at the highest free place, or not at all when the finder has none. */
  ghost predicate AsksFor(m: Areas, v: Vma, budget: nat, call: MemCall) {
    if GapAvailable(m, v.len) then
      exists base: nat :: HighestPlace(m, base, v.len) && call == Gap(v.(start := base), budget)
    else call == Nothing
  }

  /** Map in the highest gap of the mmap window. */
  method MapGapArea(p: Process, v: Vma, budget: nat) returns (r: Outcome, ghost call: MemCall)
    requires Valid(p.vmas) && Backed(SpaceOf(p)) && v.len > 0 && v.len % PAGE_SIZE == 0
    modifies p
    ensures Valid(p.vmas) && Backed(SpaceOf(p))
    ensures AsksFor(old(p.vmas), v, budget, call) && SpaceStep(old(SpaceOf(p)), call, SpaceOf(p))
    ensures r == if call.Gap? && Succeeds(old(SpaceOf(p)), call) then Done(call.v.start) else Errno(-ENOMEM)
  {
    hide Valid, Free, Overlooked, Placeable, Extended, Reach, Backed;
    ghost var s := SpaceOf(p);
    var base := p.FindMmapGap(v.len);
    if base.None? {
      call := Nothing;
      return Errno(-ENOMEM), call;
    }
    var placed := v.(start := base.value);
    call := Gap(placed, budget);
    var ok := MapPages(p, base.value, v.len / PAGE_SIZE, v.prot, budget);
    if ok {
      p.vmas := p.vmas[base.value := placed];
      r := Done(base.value);
    } else {
      r := Errno(-ENOMEM);
    }
    StepKeepsBacked(s, call, SpaceOf(p));
  }

  /** `call` is what the request comes to; `unmapped` lists the pages a fixed request visits first. */
  method SysMmap(p: Process, a: MmapArgs, budget: nat) returns (r: Outcome, unmapped: seq<nat>, ghost call: MemCall)
    requires Valid(p.vmas) && Backed(SpaceOf(p))
    modifies p
    ensures Valid(p.vmas) && Backed(SpaceOf(p)) && SpaceStep(old(SpaceOf(p)), call, SpaceOf(p))
    ensures Refusal(a).Some? ==> r == Refusal(a).value && call == Nothing && unmapped == []
    ensures Refusal(a).None? && HasFlag(a.flags, MAP_FIXED) ==>
              && a.length + PAGE_MASK < U64
              && call == Fixed(Requested(a, a.addr), budget)
              && MappedPages(old(p.vmas), a.addr, a.addr + AlignUp(a.length), unmapped)
    ensures Refusal(a).None? && !HasFlag(a.flags, MAP_FIXED) ==>
              a.length + PAGE_MASK < U64 && unmapped == [] && AsksFor(old(p.vmas), Requested(a, 0), budget, call)
    ensures Refusal(a).None? ==>
              r == if (call.Gap? || call.Fixed?) && Succeeds(old(SpaceOf(p)), call) then Done(call.v.start) else Errno(-ENOMEM)
    ensures r.Done? ==> Granted(SpaceOf(p), a, r.value)
  {
    hide Valid, Step, MappedPages, And, AlignUp, Placeable, GapAvailable, Backed, Succeeds, HighestPlace;
    unmapped, call := [], Nothing;
    ghost var s := SpaceOf(p);
    NothingChanges(s);
    if a.kernel {
      return Errno(-ENOMEM), [], call;
    }
    if a.length + PAGE_MASK >= U64 {
      return Panics, [], call;
    }
    var alignedLen := AlignUp(a.length);
    AlignUpIs(a.length);
    if alignedLen == 0 {
      return Errno(-EINVAL), [], call;
    }
    ZeroLength(a.length);
    var flags32 := a.flags % U32;
    var anonymous := And(flags32, MAP_ANONYMOUS) != 0;
    var fixed := And(flags32, MAP_FIXED) != 0;
    var shared := And(flags32, MAP_SHARED) != 0;
    var private := And(flags32, MAP_PRIVATE) != 0;
    if shared == private {
      return Errno(-EINVAL), [], call;
    }
    if shared && anonymous {
      return Errno(-EINVAL), [], call;
    }
    var fd, offset := None, 0;
    if shared {
      var refusal := CheckShared(a, alignedLen);
      if refusal.Some? {
        return refusal.value, [], call;
      }
      fd, offset := Some(a.fd), a.offset;
    } else if !anonymous {
      MisalignedIs(a.offset);
      if Misaligned(a.offset) {
        return Errno(-EINVAL), [], call;
      }
      if !a.target.File? {
        return Errno(-EBADF), [], call;
      }
      if !a.target.readable {
        return Errno(-ENODEV), [], call;
      }
      fd, offset := Some(AsFd(a.fd)), a.offset;
    }
    var v := Vma(a.addr, alignedLen, a.prot % U32, flags32, fd, offset);
    if fixed {
      MisalignedIs(a.addr);
      if a.addr == 0 || Misaligned(a.addr) {
        return Errno(-EINVAL), [], call;
      }
      if a.addr + alignedLen >= U64 {
        return Panics, [], call;
      }
      call := Fixed(v, budget);
      r, unmapped := MapFixedArea(p, v, budget);
    } else {
      r, call := MapGapArea(p, v.(start := 0), budget);
    }
    if r.Done? { RequestIsGranted(s, call, SpaceOf(p), a); }
  }

  lemma NothingChanges(s: Space)
    ensures SpaceStep(s, Nothing, s)
  {
  }

  lemma ZeroLength(length: nat)
    requires length + PAGE_MASK < U64 && AlignUp(length) > 0
    ensures length > 0
  {
    AlignUpRounds(length);
  }

  /**
   * A process whose only mapping is a fixed one below the mmap window gets no other mapping:
   * the second request fails although the whole window is free.
   */
  method LowMappingBlocksOthers(p: Process, low: MmapArgs, other: MmapArgs, budget: nat) returns (first: Outcome, second: Outcome)
    requires p.vmas == map[] && p.table == map[] && Refusal(low).None? && HasFlag(low.flags, MAP_FIXED)
    requires Refusal(other).None? && !HasFlag(other.flags, MAP_FIXED)
    requires low.length + PAGE_MASK < U64 && low.addr + AlignUp(low.length) < MMAP_FLOOR
    requires other.length + PAGE_MASK < U64 && AlignUp(other.length) <= MMAP_CEILING - MMAP_FLOOR
    modifies p
    ensures first == Done(low.addr) && second == Errno(-ENOMEM)
    ensures Placeable(p.vmas, MMAP_FLOOR, AlignUp(other.length))
  {
    hide And, AlignUp, Refusal;
    var unmapped: seq<nat>;
    ghost var call;
    ghost var v, s := Requested(low, low.addr), SpaceOf(p);
    first, unmapped, call := SysMmap(p, low, AlignUp(low.length) / PAGE_SIZE);
    EmptySpaceTakes(s, call);
    OnlyLowArea(v, p.vmas);
    LowAreasHideWindow(p.vmas, v.start, AlignUp(other.length));
    second, unmapped, call := SysMmap(p, other, budget);
  }

  /** An empty space takes any mapping that can be backed. */
  lemma EmptySpaceTakes(s: Space, c: MemCall)
    requires s == Space(map[], map[]) && (c.Gap? || c.Fixed?) && Aligned(c.v) && PageCount(c.v) <= c.budget
    ensures Succeeds(s, c)
  {
    ReachIs(Before(s, c), c.v.start, PageCount(c.v), c.budget);
  }

  /**
   * A request that runs out of frames half way leaves its pages in the table, and the same request
   * made again fails, however many frames there are by then, although no area is anywhere.
   */
  method HalfMappedBlocksOthers(p: Process, a: MmapArgs, few: nat, many: nat) returns (first: Outcome, second: Outcome)
    requires p.vmas == map[] && p.table == map[] && Refusal(a).None? && !HasFlag(a.flags, MAP_FIXED)
    requires a.length + PAGE_MASK < U64 && AlignUp(a.length) <= MMAP_CEILING - MMAP_FLOOR
    requires 0 < few < AlignUp(a.length) / PAGE_SIZE
    modifies p
    ensures first == second == Errno(-ENOMEM)
    ensures p.vmas == map[] && GapAvailable(p.vmas, AlignUp(a.length))
  {
    hide And, AlignUp, Refusal;
    var unmapped: seq<nat>;
    ghost var call, again;
    ghost var s := SpaceOf(p);
    EmptyWindow(AlignUp(a.length));
    first, unmapped, call := SysMmap(p, a, few);
    ghost var mid := SpaceOf(p);
    FirstPageStays(s, call, mid);
    second, unmapped, again := SysMmap(p, a, many);
    assert again.v == call.v;
    GapSucceeds(mid, again);
  }

  lemma EmptyWindow(len: nat)
    requires len <= MMAP_CEILING - MMAP_FLOOR
    ensures GapAvailable(map[], len)
  {
    assert Placeable(map[], MMAP_FLOOR, len);
  }

  lemma FirstPageStays(s: Space, c: MemCall, s': Space)
    requires s == Space(map[], map[]) && c.Gap? && 0 < c.budget < PageCount(c.v) && SpaceStep(s, c, s')
    ensures !Succeeds(s, c) && s'.areas == map[] && Stray(s', c.v.start)
  {
    hide Placeable;
    ReachIs(s.table, c.v.start, PageCount(c.v), c.budget);
    assert Mapped(s, c) > 0;
    ExtendedAt(s.table, c.v.start, Mapped(s, c), c.v.prot, c.v.start);
  }

  /** The map after one fixed mapping into an empty address space. */
  lemma OnlyLowArea(v: Vma, m: Areas)
    requires Step(map[], MapFixed(v, true), m)
    ensures m == map[v.start := v]
  {
    var mid :| Rebuilt(map[], Unmap, v.start, End(v), mid) && m == mid[v.start := v];
    assert mid == map[];
  }

}
