/**
 * The areas of a process beside its page table: which pages have an entry in the table after
 * any sequence of mapping calls (osl/src/syscalls/mem.rs), and which of them no area covers.
 *
 * The table is kept as a map from page to the protection its entry was given.  An entry
 * without the present bit (PROT_NONE) is in use: mapping over it fails, changing its flags works,
 * and unmapping it fails and leaves it.  `budget` is the number of pages the frame allocator can
 * still back when the call is made.
 */
module Resident {
  import opened Base
  import opened Pages
  import opened VmaMap
  import Frames
  import Mapping

  const PROT_NONE: nat := 0

  type Table = map<nat, nat>

  datatype Space = Space(areas: Areas, table: Table)

  function Entry(t: Table, a: nat): Option<nat> {
    if a in t then Some(t[a]) else None
  }

  function PageCount(v: Vma): nat {
    v.len / PAGE_SIZE
  }

  /** One of the `n` pages from `base` on. */
  predicate InPages(a: nat, base: nat, n: nat) {
    base <= a < base + n * PAGE_SIZE && (a - base) % PAGE_SIZE == 0
  }

  // ---- the loops over pages, on a table ----

  /** Map pages from `base` on, up to the first that cannot be backed or already has an entry. */
  function Reach(t: Table, base: nat, count: nat, budget: nat): (n: nat)
    ensures n <= count
    decreases count
  {
    if count == 0 || budget == 0 || base in t then 0
    else 1 + Reach(t, base + PAGE_SIZE, count - 1, budget - 1)
  }

  function Extended(t: Table, base: nat, n: nat, prot: nat): Table {
    if n == 0 then t else Extended(t, base, n - 1, prot)[base + (n - 1) * PAGE_SIZE := prot]
  }

  /** Drop the entries of these pages, except those that are not present. */
  function Unmapped(t: Table, pages: seq<nat>): Table {
    map a | a in t && !(a in pages && t[a] != PROT_NONE) :: t[a]
  }

  function Protected(t: Table, pages: seq<nat>, prot: nat): Table {
    map a | a in t :: if a in pages then prot else t[a]
  }

  lemma {:induction false} ExtendedAt(t: Table, base: nat, n: nat, prot: nat, a: nat)
    ensures Entry(Extended(t, base, n, prot), a) == if InPages(a, base, n) then Some(prot) else Entry(t, a)
    decreases n
  {
    if n > 0 { ExtendedAt(t, base, n - 1, prot, a); }
  }

  /** The pages mapped had no entry, and all of them were free exactly when the loop ends well. */
  lemma {:induction false} ReachIs(t: Table, base: nat, count: nat, budget: nat)
    ensures var n := Reach(t, base, count, budget);
            && (forall a | InPages(a, base, n) :: a !in t)
            && (n == count <==> count <= budget && forall a | InPages(a, base, count) :: a !in t)
    decreases count
  {
    if count > 0 {
      assert InPages(base, base, count);
      if budget > 0 && base !in t {
        ReachIs(t, base + PAGE_SIZE, count - 1, budget - 1);
        forall a: nat, k: nat | k <= count && InPages(a, base, k)
          ensures a == base || (k > 0 && InPages(a, base + PAGE_SIZE, k - 1))
        {
        }
        forall a | InPages(a, base + PAGE_SIZE, count - 1)
          ensures InPages(a, base, count)
        {
        }
      }
    }
  }

  // ---- the same, said of a range of addresses ----

  ghost predicate CoveredIn(s: Space, start: nat, end: nat, a: nat) {
    InRange(a, start, end) && Lookup(s.areas, a).Some?
  }

  /** Unmapping the pages of the areas in the range. */
  ghost function CutTable(s: Space, start: nat, end: nat): Table {
    map a | a in s.table && !(CoveredIn(s, start, end, a) && s.table[a] != PROT_NONE) :: s.table[a]
  }

  ghost function SetTable(s: Space, start: nat, end: nat, prot: nat): Table {
    map a | a in s.table :: if CoveredIn(s, start, end, a) then prot else s.table[a]
  }

  // ---- the calls ----

  /** `Gap` is placed where its area starts. */
  datatype MemCall =
    | Gap(v: Vma, budget: nat)
    | Fixed(v: Vma, budget: nat)
    | Release(start: nat, end: nat)
    | Change(start: nat, end: nat, prot: nat)
    | Nothing

  /** The table on which a mapping loop works. */
  ghost function Before(s: Space, c: MemCall): Table {
    if c.Fixed? then CutTable(s, c.v.start, End(c.v)) else s.table
  }

  ghost function Mapped(s: Space, c: MemCall): (n: nat)
    requires c.Gap? || c.Fixed?
    ensures n <= PageCount(c.v)
  {
    Reach(Before(s, c), c.v.start, PageCount(c.v), c.budget)
  }

  ghost predicate Succeeds(s: Space, c: MemCall)
    requires c.Gap? || c.Fixed?
  {
    Mapped(s, c) == PageCount(c.v)
  }

  /** The call on the areas alone. */
  ghost function AreaCall(s: Space, c: MemCall): Call {
    match c
    case Gap(v, _) => if Succeeds(s, c) then MapGap(v) else Refused
    case Fixed(v, _) => MapFixed(v, Succeeds(s, c))
    case Release(start, end) => Munmap(start, end)
    case Change(start, end, prot) => Mprotect(start, end, prot)
    case Nothing => Refused
  }

  ghost function TableAfter(s: Space, c: MemCall): Table {
    match c
    case Gap(v, _) => Extended(Before(s, c), v.start, Mapped(s, c), v.prot)
    case Fixed(v, _) => Extended(Before(s, c), v.start, Mapped(s, c), v.prot)
    case Release(start, end) => CutTable(s, start, end)
    case Change(start, end, prot) => SetTable(s, start, end, prot)
    case Nothing => s.table
  }

  ghost predicate SpaceStep(s: Space, c: MemCall, s': Space) {
    && (c.Gap? || c.Fixed? ==> Aligned(c.v))
    && (c.Gap? ==> Placeable(s.areas, c.v.start, c.v.len))
    && Step(s.areas, AreaCall(s, c), s'.areas)
    && s'.table == TableAfter(s, c)
  }

  // ---- how the two agree ----

  /** Every page of an area has an entry, with the area's protection; entries are for whole pages. */
  ghost predicate Backed(s: Space) {
    && (forall a | a in s.table :: a % PAGE_SIZE == 0)
    && (forall a: nat | a % PAGE_SIZE == 0 && Lookup(s.areas, a).Some? ::
          Entry(s.table, a) == Some(Lookup(s.areas, a).value.prot))
  }

  /** A page with an entry that no area covers. */
  ghost predicate Stray(s: Space, a: nat) {
    a in s.table && Lookup(s.areas, a).None?
  }

  /** A page of the range that an area covers without any access. */
  ghost predicate NoAccess(s: Space, start: nat, end: nat, a: nat) {
    a % PAGE_SIZE == 0 && InRange(a, start, end) && Lookup(s.areas, a).Some? && Lookup(s.areas, a).value.prot == PROT_NONE
  }

  /** The pages a call leaves behind without an area. */
  ghost predicate Leaks(s: Space, c: MemCall, a: nat) {
    match c
    case Gap(v, _) => !Succeeds(s, c) && InPages(a, v.start, Mapped(s, c))
    case Fixed(v, _) => NoAccess(s, v.start, End(v), a) || (!Succeeds(s, c) && InPages(a, v.start, Mapped(s, c)))
    case Release(start, end) => NoAccess(s, start, end, a)
    case _ => false
  }

  lemma AreaPages(v: Vma, a: nat)
    requires Aligned(v)
    ensures InPages(a, v.start, PageCount(v)) <==> Covers(v, a) && a % PAGE_SIZE == 0
  {
  }

  lemma PrefixPages(v: Vma, n: nat, a: nat)
    requires Aligned(v) && n <= PageCount(v) && InPages(a, v.start, n)
    ensures Covers(v, a) && a % PAGE_SIZE == 0
  {
    assert InPages(a, v.start, PageCount(v));
    AreaPages(v, a);
  }

  lemma CutAt(s: Space, start: nat, end: nat, a: nat)
    requires Backed(s)
    ensures var e := Entry(CutTable(s, start, end), a);
            if CoveredIn(s, start, end, a) && !NoAccess(s, start, end, a) then e == None else e == Entry(s.table, a)
  {
    hide Lookup;
  }

  /** A gap request maps where no area is, so all it can run into is a stray. */
  lemma GapSucceeds(s: Space, c: MemCall)
    requires Backed(s) && c.Gap? && Aligned(c.v) && Free(s.areas, c.v.start, c.v.len)
    ensures Succeeds(s, c) <==> PageCount(c.v) <= c.budget && forall a | Stray(s, a) :: !Covers(c.v, a)
  {
    hide Lookup, Free;
    ReachIs(s.table, c.v.start, PageCount(c.v), c.budget);
    forall a | a in s.table
      ensures InPages(a, c.v.start, PageCount(c.v)) <==> Covers(c.v, a) && Stray(s, a)
    {
      AreaPages(c.v, a);
      if Covers(c.v, a) { FreeIsUncovered(s.areas, c.v, a); }
    }
  }

  lemma FreeIsUncovered(m: Areas, v: Vma, a: nat)
    requires Free(m, v.start, v.len) && Covers(v, a)
    ensures Lookup(m, a).None?
  {
  }

  /** A fixed request can also run into a page of its range that was without access. */
  lemma FixedSucceeds(s: Space, c: MemCall)
    requires Backed(s) && c.Fixed? && Aligned(c.v)
    ensures Succeeds(s, c) <==>
            && PageCount(c.v) <= c.budget
            && (forall a | Stray(s, a) :: !Covers(c.v, a))
            && (forall a | NoAccess(s, c.v.start, End(c.v), a) :: false)
  {
    hide Lookup;
    var t := CutTable(s, c.v.start, End(c.v));
    ReachIs(t, c.v.start, PageCount(c.v), c.budget);
    forall a: nat
      ensures InPages(a, c.v.start, PageCount(c.v)) && a in t <==>
              (Covers(c.v, a) && Stray(s, a)) || NoAccess(s, c.v.start, End(c.v), a)
    {
      AreaPages(c.v, a);
      CutAt(s, c.v.start, End(c.v), a);
    }
  }

  // ---- every call ----

  lemma TableAt(s: Space, c: MemCall, a: nat)
    requires c.Gap? || c.Fixed?
    ensures Entry(TableAfter(s, c), a) ==
            if InPages(a, c.v.start, Mapped(s, c)) then Some(c.v.prot) else Entry(Before(s, c), a)
    ensures InPages(a, c.v.start, Mapped(s, c)) ==> a !in Before(s, c)
  {
    ExtendedAt(Before(s, c), c.v.start, Mapped(s, c), c.v.prot, a);
    ReachIs(Before(s, c), c.v.start, PageCount(c.v), c.budget);
  }

  /** What one call makes of one page. */
  lemma StepAt(s: Space, c: MemCall, s': Space, a: nat)
    requires Valid(s.areas) && Backed(s) && SpaceStep(s, c, s')
    ensures a in s'.table ==> a % PAGE_SIZE == 0
    ensures a % PAGE_SIZE == 0 && Lookup(s'.areas, a).Some? ==> Entry(s'.table, a) == Some(Lookup(s'.areas, a).value.prot)
    ensures Stray(s', a) <==> Stray(s, a) || Leaks(s, c, a)
  {
    hide Lookup, Step, Valid, Free;
    StepActsPointwise(s.areas, AreaCall(s, c), s'.areas, a);
    match c
    case Gap(v, _) => GapAt(s, c, s', a);
    case Fixed(v, _) => FixedAt(s, c, s', a);
    case Release(start, end) => CutAt(s, start, end, a);
    case Change(start, end, prot) =>
    case Nothing =>
  }

  lemma GapAt(s: Space, c: MemCall, s': Space, a: nat)
    requires Backed(s) && c.Gap? && Aligned(c.v) && Free(s.areas, c.v.start, c.v.len) && s'.table == TableAfter(s, c)
    requires Lookup(s'.areas, a) == CallAt(AreaCall(s, c), a, Lookup(s.areas, a))
    ensures a in s'.table ==> a % PAGE_SIZE == 0
    ensures a % PAGE_SIZE == 0 && Lookup(s'.areas, a).Some? ==> Entry(s'.table, a) == Some(Lookup(s'.areas, a).value.prot)
    ensures Stray(s', a) <==> Stray(s, a) || Leaks(s, c, a)
  {
    hide Lookup, Free, TableAfter, Mapped, InPages;
    TableAt(s, c, a);
    AreaPages(c.v, a);
    if InPages(a, c.v.start, Mapped(s, c)) { PrefixPages(c.v, Mapped(s, c), a); }
    if Covers(c.v, a) { FreeIsUncovered(s.areas, c.v, a); }
  }

  lemma FixedAt(s: Space, c: MemCall, s': Space, a: nat)
    requires Backed(s) && c.Fixed? && Aligned(c.v) && s'.table == TableAfter(s, c)
    requires Lookup(s'.areas, a) == CallAt(AreaCall(s, c), a, Lookup(s.areas, a))
    ensures a in s'.table ==> a % PAGE_SIZE == 0
    ensures a % PAGE_SIZE == 0 && Lookup(s'.areas, a).Some? ==> Entry(s'.table, a) == Some(Lookup(s'.areas, a).value.prot)
    ensures Stray(s', a) <==> Stray(s, a) || Leaks(s, c, a)
  {
    hide Lookup, TableAfter, Mapped, InPages;
    TableAt(s, c, a);
    AreaPages(c.v, a);
    FixedSucceeds(s, c);
    CutAt(s, c.v.start, End(c.v), a);
    if InPages(a, c.v.start, Mapped(s, c)) { PrefixPages(c.v, Mapped(s, c), a); }
  }

  lemma StepKeepsBacked(s: Space, c: MemCall, s': Space)
    requires Valid(s.areas) && Backed(s) && SpaceStep(s, c, s')
    ensures Valid(s'.areas) && Backed(s')
    ensures forall a: nat :: Stray(s', a) <==> Stray(s, a) || Leaks(s, c, a)
  {
    hide Valid, Step, Leaks, Lookup, SpaceStep;
    AreasStayValid(s, c, s');
    forall a: nat
      ensures a in s'.table ==> a % PAGE_SIZE == 0
      ensures a % PAGE_SIZE == 0 && Lookup(s'.areas, a).Some? ==> Entry(s'.table, a) == Some(Lookup(s'.areas, a).value.prot)
      ensures Stray(s', a) <==> Stray(s, a) || Leaks(s, c, a)
    {
      StepAt(s, c, s', a);
    }
  }

  lemma AreasStayValid(s: Space, c: MemCall, s': Space)
    requires Valid(s.areas) && SpaceStep(s, c, s')
    ensures Valid(s'.areas)
  {
    hide Valid, Step, Lookup;
    StepActsPointwise(s.areas, AreaCall(s, c), s'.areas, 0);
  }

  // ---- every history ----

  ghost predicate History(spaces: seq<Space>, calls: seq<MemCall>) {
    |spaces| == |calls| + 1 && forall i | 0 <= i < |calls| :: SpaceStep(spaces[i], calls[i], spaces[i + 1])
  }

  ghost predicate LeakedIn(spaces: seq<Space>, calls: seq<MemCall>, a: nat)
    requires |spaces| == |calls| + 1
  {
    exists i :: 0 <= i < |calls| && Leaks(spaces[i], calls[i], a)
  }

  /**
   * After any sequence of calls every page of an area has an entry with the area's protection,
   * and the pages with an entry but no area are those there were and those some call left behind.
   */
  lemma {:induction false} TableFollowsAreas(spaces: seq<Space>, calls: seq<MemCall>)
    requires History(spaces, calls) && Valid(spaces[0].areas) && Backed(spaces[0])
    ensures Valid(spaces[|calls|].areas) && Backed(spaces[|calls|])
    ensures forall a: nat :: Stray(spaces[|calls|], a) <==> Stray(spaces[0], a) || LeakedIn(spaces, calls, a)
    decreases |calls|
  {
    hide Valid, Backed, SpaceStep, Leaks, Stray;
    if calls != [] {
      var last := |calls| - 1;
      var before, done := spaces[..last + 1], calls[..last];
      assert History(before, done);
      TableFollowsAreas(before, done);
      assert SpaceStep(spaces[last], calls[last], spaces[last + 1]);
      StepKeepsBacked(spaces[last], calls[last], spaces[last + 1]);
      forall a: nat
        ensures LeakedIn(spaces, calls, a) <==> LeakedIn(before, done, a) || Leaks(spaces[last], calls[last], a)
      {
        if i :| 0 <= i < |calls| && Leaks(spaces[i], calls[i], a) {
          assert i < last ==> Leaks(before[i], done[i], a);
        }
        if i :| 0 <= i < last && Leaks(before[i], done[i], a) {
          assert Leaks(spaces[i], calls[i], a);
        }
      }
    }
  }

  /** A page has an entry exactly when an area covers it. */
  ghost predicate Matches(s: Space, lo: nat, hi: nat) {
    forall a: nat | lo <= a < hi && a % PAGE_SIZE == 0 :: a in s.table <==> Lookup(s.areas, a).Some?
  }

  /**
   * Over any window, starting from a table that matches the areas there, table and areas match
   * after a sequence of calls if and only if none of the calls left a page of the window behind.
   */
  lemma MatchesUnlessLeaked(spaces: seq<Space>, calls: seq<MemCall>, lo: nat, hi: nat)
    requires History(spaces, calls) && Valid(spaces[0].areas) && Backed(spaces[0]) && Matches(spaces[0], lo, hi)
    ensures Matches(spaces[|calls|], lo, hi) <==> forall a: nat | lo <= a < hi :: !LeakedIn(spaces, calls, a)
  {
    hide Valid, SpaceStep, Leaks, LeakedIn, Lookup;
    TableFollowsAreas(spaces, calls);
    var last := spaces[|calls|];
    forall a: nat | lo <= a < hi
      ensures LeakedIn(spaces, calls, a) <==> Stray(last, a)
    {
      assert !Stray(spaces[0], a);
    }
    if forall a: nat | lo <= a < hi :: !LeakedIn(spaces, calls, a) {
      forall a: nat | lo <= a < hi && a % PAGE_SIZE == 0
        ensures a in last.table <==> Lookup(last.areas, a).Some?
      {
        assert !Stray(last, a);
      }
    } else {
      var a: nat :| lo <= a < hi && LeakedIn(spaces, calls, a);
      assert Stray(last, a);
    }
  }

  // ---- the four-level tables ----

  /**
   * Steps of the memory services, those of this process and of all others, that take its tables
   * from the pages of `t` to those of `t'`.
   */
  ghost predicate Performed(m: Frames.Model, pml4: nat, t: Table, ops: seq<Mapping.TableOp>, m': Frames.Model, t': Table) {
    && Mapping.Sound(m, pml4) && Mapping.OpsReady(m, pml4, ops) && m' == Mapping.OpsRun(m, pml4, ops)
    && Mapping.PagesAfterAll(t.Keys, ops) == t'.Keys
  }

  /** Each call is carried out by such steps; what happens between two calls belongs to the first. */
  ghost predicate Carried(ms: seq<Frames.Model>, pml4: nat, spaces: seq<Space>, work: seq<seq<Mapping.TableOp>>) {
    && |spaces| == |ms| == |work| + 1
    && forall i | 0 <= i < |work| :: Performed(ms[i], pml4, spaces[i].table, work[i], ms[i + 1], spaces[i + 1].table)
  }

  lemma {:induction false} TablesShow(ms: seq<Frames.Model>, pml4: nat, spaces: seq<Space>, work: seq<seq<Mapping.TableOp>>)
    requires Carried(ms, pml4, spaces, work) && Mapping.Sound(ms[0], pml4)
    requires Mapping.Shows(ms[0].phys.words, pml4, spaces[0].table.Keys)
    ensures Mapping.Sound(ms[|work|], pml4) && Mapping.Shows(ms[|work|].phys.words, pml4, spaces[|work|].table.Keys)
    decreases |work|
  {
    hide Mapping.Sound, Mapping.Shows, Mapping.OpsReady, Mapping.OpsRun, Mapping.PagesAfterAll;
    if work != [] {
      var last := |work| - 1;
      assert Carried(ms[..last + 1], pml4, spaces[..last + 1], work[..last]);
      TablesShow(ms[..last + 1], pml4, spaces[..last + 1], work[..last]);
      assert Performed(ms[last], pml4, spaces[last].table, work[last], ms[last + 1], spaces[last + 1].table);
      Mapping.OpsShow(ms[last], pml4, work[last], spaces[last].table.Keys);
    }
  }

  /**
   * After any sequence of calls, carried out in the four-level tables while others use the frame
   * allocator: a user page is mapped there if and only if an area covers it, or it was astray at
   * the start, or some call left it behind.
   */
  lemma MappedIffCovered(ms: seq<Frames.Model>, pml4: nat, spaces: seq<Space>, calls: seq<MemCall>,
                         work: seq<seq<Mapping.TableOp>>, a: nat)
    requires History(spaces, calls) && Valid(spaces[0].areas) && Backed(spaces[0])
    requires Carried(ms, pml4, spaces, work) && Mapping.Sound(ms[0], pml4)
    requires Mapping.Shows(ms[0].phys.words, pml4, spaces[0].table.Keys)
    requires a % PAGE_SIZE == 0 && a < Mapping.USER_END
    ensures Mapping.IsMapped(ms[|calls|].phys.words, pml4, Mapping.PathOf(a)) <==>
            Lookup(spaces[|calls|].areas, a).Some? || Stray(spaces[0], a) || LeakedIn(spaces, calls, a)
  {
    hide Valid, SpaceStep, Leaks, LeakedIn, Lookup, Mapping.Sound, Mapping.IsMapped, Mapping.PathOf;
    TablesShow(ms, pml4, spaces, work);
    TableFollowsAreas(spaces, calls);
    var last := spaces[|calls|];
    assert a in last.table.Keys <==> Lookup(last.areas, a).Some? || Stray(last, a);
  }
}
