/**
 * The per-process map of virtual memory areas (libkernel/src/process.rs):
 * unmapping and re-protecting ranges by splitting areas, against the simple
 * view of which attributes each address has.
 *
 * `offset` is carried along but is not part of the view: splits do not adjust it.
 */
module VmaMap {
  import opened Base
  import opened Pages
  import Gap

  const MMAP_FLOOR: nat := 0x10_0000_0000
  const MMAP_CEILING: nat := 0x4000_0000_0000

  datatype Vma = Vma(start: nat, len: nat, prot: nat, flags: nat, fd: Option<nat>, offset: nat)

  datatype Attr = Attr(prot: nat, flags: nat, fd: Option<nat>)

  type Areas = map<nat, Vma>

  function End(v: Vma): nat {
    v.start + v.len
  }

  function AttrOf(v: Vma): Attr {
    Attr(v.prot, v.flags, v.fd)
  }

  predicate Covers(v: Vma, a: nat) {
    v.start <= a < End(v)
  }

  predicate Aligned(v: Vma) {
    v.start % PAGE_SIZE == 0 && v.len % PAGE_SIZE == 0 && v.len > 0
  }

  predicate Apart(v: Vma, w: Vma) {
    End(v) <= w.start || End(w) <= v.start
  }

  /** Keyed by start, page-aligned and pairwise disjoint. */
  predicate Valid(m: Areas) {
    && (forall k | k in m :: m[k].start == k && Aligned(m[k]))
    && (forall j, k | j in m && k in m && j != k :: Apart(m[j], m[k]))
  }

  /** What the address has, if anything is mapped there. */
  ghost function Lookup(m: Areas, a: nat): Option<Attr> {
    if exists k :: k in m && Covers(m[k], a)
    then
      var k :| k in m && Covers(m[k], a);
      Some(AttrOf(m[k]))
    else None
  }

  lemma CoverIsUnique(m: Areas, j: nat, k: nat, a: nat)
    requires Valid(m) && j in m && k in m && Covers(m[j], a) && Covers(m[k], a)
    ensures j == k
  {
  }

  lemma LookupIs(m: Areas, k: nat, a: nat)
    requires Valid(m) && k in m && Covers(m[k], a)
    ensures Lookup(m, a) == Some(Attr(prot := m[k].prot, flags := m[k].flags, fd := m[k].fd))
  {
    forall j | j in m && Covers(m[j], a)
      ensures j == k
    {
      CoverIsUnique(m, j, k, a);
    }
  }

  // ---- editing one area ----

  datatype Edit = Unmap | Protect(prot: nat)

  predicate Overlaps(v: Vma, start: nat, end: nat) {
    v.start < end && End(v) > start
  }

  /** The areas an edit of `[start, end)` leaves in place of `v`. */
  function Fragments(edit: Edit, v: Vma, start: nat, end: nat): seq<Vma>
    requires start <= end
  {
    if !Overlaps(v, start, end) then [v]
    else
      var left := if start > v.start then [v.(len := start - v.start)] else [];
      var right := if end < End(v) then [v.(start := end, len := End(v) - end)] else [];
      var lo := if start > v.start then start else v.start;
      var hi := if end < End(v) then end else End(v);
      match edit
      case Unmap => left + right
      case Protect(p) => left + [v.(start := lo, len := hi - lo, prot := p)] + right
  }

  predicate WholePages(start: nat, end: nat) {
    start < end && start % PAGE_SIZE == 0 && end % PAGE_SIZE == 0
  }

  predicate InRange(a: nat, start: nat, end: nat) {
    start <= a < end
  }

  /** The effect of an edit on one address. */
  function EditAt(edit: Edit, inside: bool, x: Option<Attr>): Option<Attr> {
    if !inside || x.None? then x
    else match edit
      case Unmap => None
      case Protect(p) => Some(x.value.(prot := p))
  }

  lemma FragmentsInside(edit: Edit, v: Vma, start: nat, end: nat, i: nat)
    requires Aligned(v) && WholePages(start, end) && i < |Fragments(edit, v, start, end)|
    ensures var f := Fragments(edit, v, start, end)[i];
            Aligned(f) && v.start <= f.start && End(f) <= End(v)
  {
    var f := Fragments(edit, v, start, end)[i];
    assert v.start <= f.start < End(f) <= End(v);
    assert (f.start == v.start || f.start == start || f.start == end) && (End(f) == End(v) || End(f) == start || End(f) == end);
    AlignedSum(v);
    AlignedBetween(f.start, End(f));
  }

  lemma AlignedSum(v: Vma)
    requires Aligned(v)
    ensures End(v) % PAGE_SIZE == 0
  {
  }

  lemma FragmentsApart(edit: Edit, v: Vma, start: nat, end: nat, i: nat, j: nat)
    requires Aligned(v) && WholePages(start, end) && i < j < |Fragments(edit, v, start, end)|
    ensures End(Fragments(edit, v, start, end)[i]) <= Fragments(edit, v, start, end)[j].start
  {
  }

  /** Each address of `v` ends up in one fragment, with the attributes the edit gives it, or in none. */
  lemma FragmentAt(edit: Edit, v: Vma, start: nat, end: nat, a: nat)
    requires Aligned(v) && WholePages(start, end) && Covers(v, a)
    ensures var after := EditAt(edit, InRange(a, start, end), Some(AttrOf(v)));
            var fs := Fragments(edit, v, start, end);
            if after.None? then forall f <- fs :: !Covers(f, a)
            else exists i :: 0 <= i < |fs| && Covers(fs[i], a) && AttrOf(fs[i]) == after.value
  {
    var fs := Fragments(edit, v, start, end);
    if !Overlaps(v, start, end) {
      assert Covers(fs[0], a);
    } else if a < start {
      assert Covers(fs[0], a);
    } else if a >= end {
      assert Covers(fs[|fs| - 1], a);
    } else if edit.Protect? {
      assert Covers(fs[if start > v.start then 1 else 0], a);
    }
  }

  // ---- editing the whole map ----

  predicate From(m: Areas, edit: Edit, start: nat, end: nat, k: nat, f: Vma)
    requires start <= end
  {
    k in m && f in Fragments(edit, m[k], start, end)
  }

  /** The new map holds exactly the fragments of the old one's areas. */
  ghost predicate Rebuilt(m: Areas, edit: Edit, start: nat, end: nat, m': Areas)
    requires start <= end
  {
    && (forall k, f | From(m, edit, start, end, k, f) :: f.start in m' && m'[f.start] == f)
    && (forall j | j in m' :: m'[j].start == j && exists k :: From(m, edit, start, end, k, m'[j]))
  }

  /** Fragments of different areas, and different fragments of one, are apart. */
  lemma FragmentsSeparate(m: Areas, edit: Edit, start: nat, end: nat, j: nat, f: Vma, k: nat, g: Vma)
    requires Valid(m) && WholePages(start, end)
    requires From(m, edit, start, end, j, f) && From(m, edit, start, end, k, g) && f != g
    ensures Apart(f, g) && f.start != g.start
  {
    hide Fragments;
    var fs, gs := Fragments(edit, m[j], start, end), Fragments(edit, m[k], start, end);
    var x :| 0 <= x < |fs| && fs[x] == f;
    var y :| 0 <= y < |gs| && gs[y] == g;
    FragmentsInside(edit, m[j], start, end, x);
    FragmentsInside(edit, m[k], start, end, y);
    if j == k {
      if x < y {
        FragmentsApart(edit, m[j], start, end, x, y);
      } else {
        FragmentsApart(edit, m[j], start, end, y, x);
      }
    } else {
      assert Apart(m[j], m[k]);
    }
  }

  lemma RebuiltIsValid(m: Areas, edit: Edit, start: nat, end: nat, m': Areas)
    requires Valid(m) && WholePages(start, end) && Rebuilt(m, edit, start, end, m')
    ensures Valid(m')
  {
    hide Fragments;
    forall j | j in m'
      ensures Aligned(m'[j])
    {
      var k :| From(m, edit, start, end, k, m'[j]);
      var x :| 0 <= x < |Fragments(edit, m[k], start, end)| && Fragments(edit, m[k], start, end)[x] == m'[j];
      FragmentsInside(edit, m[k], start, end, x);
    }
    forall i, j | i in m' && j in m' && i != j
      ensures Apart(m'[i], m'[j])
    {
      var k :| From(m, edit, start, end, k, m'[i]);
      var l :| From(m, edit, start, end, l, m'[j]);
      FragmentsSeparate(m, edit, start, end, k, m'[i], l, m'[j]);
    }
  }

  /** The edit acts address by address: exactly the mapped addresses in range change. */
  lemma RebuiltActsPointwise(m: Areas, edit: Edit, start: nat, end: nat, m': Areas, a: nat)
    requires Valid(m) && WholePages(start, end) && Rebuilt(m, edit, start, end, m')
    ensures Lookup(m', a) == EditAt(edit, InRange(a, start, end), Lookup(m, a))
  {
    hide Fragments;
    RebuiltIsValid(m, edit, start, end, m');
    if k :| k in m && Covers(m[k], a) {
      LookupIs(m, k, a);
      FragmentAt(edit, m[k], start, end, a);
      var after := EditAt(edit, InRange(a, start, end), Some(AttrOf(m[k])));
      var fs := Fragments(edit, m[k], start, end);
      if after.None? {
        forall j | j in m' && Covers(m'[j], a) ensures false { OnlyFromCover(m, edit, start, end, m', j, k, a); }
      } else {
        var i :| 0 <= i < |fs| && Covers(fs[i], a) && AttrOf(fs[i]) == after.value;
        assert From(m, edit, start, end, k, fs[i]);
        LookupIs(m', fs[i].start, a);
      }
    } else {
      forall j | j in m' && Covers(m'[j], a) ensures false { OnlyFromCover(m, edit, start, end, m', j, 0, a); }
    }
  }

  /** A new area over `a` is a fragment of the old area over `a`. */
  lemma OnlyFromCover(m: Areas, edit: Edit, start: nat, end: nat, m': Areas, j: nat, k: nat, a: nat)
    requires Valid(m) && WholePages(start, end) && Rebuilt(m, edit, start, end, m') && j in m' && Covers(m'[j], a)
    ensures exists i :: i in m && Covers(m[i], a)
    ensures k in m && Covers(m[k], a) ==> m'[j] in Fragments(edit, m[k], start, end)
  {
    hide Fragments;
    var i :| From(m, edit, start, end, i, m'[j]);
    var x :| 0 <= x < |Fragments(edit, m[i], start, end)| && Fragments(edit, m[i], start, end)[x] == m'[j];
    FragmentsInside(edit, m[i], start, end, x);
    if k in m && Covers(m[k], a) { CoverIsUnique(m, i, k, a); }
  }

  // ---- the page lists returned to the caller ----

  datatype PageRun = PageRun(base: nat, count: nat)

  function RunEnd(r: PageRun): nat {
    r.base + r.count * PAGE_SIZE
  }

  predicate InRun(r: PageRun, a: nat) {
    r.base <= a < RunEnd(r)
  }

  /** The part of `v` in `[start, end)`. */
  function Clip(v: Vma, start: nat, end: nat): PageRun
    requires start <= end && Overlaps(v, start, end)
  {
    var lo := if start > v.start then start else v.start;
    var hi := if end < End(v) then end else End(v);
    PageRun(lo, (hi - lo) / PAGE_SIZE)
  }

  lemma ClipIs(v: Vma, start: nat, end: nat, a: nat)
    requires Aligned(v) && WholePages(start, end) && Overlaps(v, start, end)
    ensures InRun(Clip(v, start, end), a) <==> InRange(a, start, end) && Covers(v, a)
    ensures v.start <= Clip(v, start, end).base && RunEnd(Clip(v, start, end)) <= End(v)
  {
    AlignedSum(v);
    var lo := if start > v.start then start else v.start;
    var hi := if end < End(v) then end else End(v);
    AlignedBetween(lo, hi);
    assert RunEnd(Clip(v, start, end)) == hi;
  }

  predicate Ascending(keys: seq<nat>) {
    forall i, j | 0 <= i < j < |keys| :: keys[i] < keys[j]
  }

  lemma AscendingAppend(keys: seq<nat>, k: nat)
    requires Ascending(keys) && forall j <- keys :: j < k
    ensures Ascending(keys + [k])
  {
    forall i, j | 0 <= i < j < |keys + [k]|
      ensures (keys + [k])[i] < (keys + [k])[j]
    {
      assert keys[i] in keys;
    }
  }

  /** The keys of the areas that meet the range, in ascending order. */
  predicate OverlapKeys(m: Areas, start: nat, end: nat, keys: seq<nat>) {
    && Ascending(keys)
    && (forall k <- keys :: k in m && Overlaps(m[k], start, end))
    && (forall k | k in m && Overlaps(m[k], start, end) :: k in keys)
  }

  predicate Clips(m: Areas, start: nat, end: nat, keys: seq<nat>, runs: seq<PageRun>)
    requires start <= end && forall k <- keys :: k in m && Overlaps(m[k], start, end)
  {
    |runs| == |keys| && forall i | 0 <= i < |keys| :: keys[i] in keys && runs[i] == Clip(m[keys[i]], start, end)
  }

  /** The runs are in order, do not meet, and together are exactly the mapped addresses in range. */
  ghost predicate Partition(m: Areas, start: nat, end: nat, runs: seq<PageRun>) {
    && (forall i, j | 0 <= i < j < |runs| :: RunEnd(runs[i]) <= runs[j].base)
    && (forall a: nat :: (exists r <- runs :: InRun(r, a)) <==> InRange(a, start, end) && Lookup(m, a).Some?)
    && (forall r <- runs :: r.base % PAGE_SIZE == 0)
  }

  lemma ClipsPartition(m: Areas, start: nat, end: nat, keys: seq<nat>, runs: seq<PageRun>)
    requires Valid(m) && WholePages(start, end) && OverlapKeys(m, start, end, keys) && Clips(m, start, end, keys, runs)
    ensures Partition(m, start, end, runs)
  {
    hide Clip;
    forall i, j | 0 <= i < j < |runs|
      ensures RunEnd(runs[i]) <= runs[j].base
    {
      ClipIs(m[keys[i]], start, end, 0);
      ClipIs(m[keys[j]], start, end, 0);
      assert Apart(m[keys[i]], m[keys[j]]);
    }
    forall a: nat
      ensures (exists r <- runs :: InRun(r, a)) <==> InRange(a, start, end) && Lookup(m, a).Some?
    {
      ClipsCover(m, start, end, keys, runs, a);
    }
    forall r | r in runs
      ensures r.base % PAGE_SIZE == 0
    {
      var i :| 0 <= i < |runs| && runs[i] == r;
      ClipAligned(m[keys[i]], start, end);
    }
  }

  lemma ClipAligned(v: Vma, start: nat, end: nat)
    requires Aligned(v) && WholePages(start, end) && Overlaps(v, start, end)
    ensures Clip(v, start, end).base % PAGE_SIZE == 0
  {
  }

  lemma ClipsCover(m: Areas, start: nat, end: nat, keys: seq<nat>, runs: seq<PageRun>, a: nat)
    requires Valid(m) && WholePages(start, end) && OverlapKeys(m, start, end, keys) && Clips(m, start, end, keys, runs)
    ensures (exists r <- runs :: InRun(r, a)) <==> InRange(a, start, end) && Lookup(m, a).Some?
  {
    hide Clip, InRun;
    if InRange(a, start, end) && Lookup(m, a).Some? {
      var k :| k in m && Covers(m[k], a);
      assert Overlaps(m[k], start, end);
      var i :| 0 <= i < |keys| && keys[i] == k;
      ClipIs(m[k], start, end, a);
      assert runs[i] in runs;
    }
    if r :| r in runs && InRun(r, a) {
      var i :| 0 <= i < |runs| && runs[i] == r;
      ClipIs(m[keys[i]], start, end, a);
      LookupIs(m, keys[i], a);
    }
  }

  // ---- how the loops rebuild the map ----

  function FragmentsOf(m: Areas, edit: Edit, start: nat, end: nat, keys: seq<nat>): seq<Vma>
    requires start <= end && forall k <- keys :: k in m
  {
    if keys == [] then []
    else
      var last := |keys| - 1;
      FragmentsOf(m, edit, start, end, keys[..last]) + Fragments(edit, m[keys[last]], start, end)
  }

  lemma {:induction false} FragmentsOfMembers(m: Areas, edit: Edit, start: nat, end: nat, keys: seq<nat>, f: Vma)
    requires start <= end && forall k <- keys :: k in m
    ensures f in FragmentsOf(m, edit, start, end, keys) <==> exists k <- keys :: From(m, edit, start, end, k, f)
  {
    hide Fragments;
    if keys != [] {
      var last := |keys| - 1;
      var front := keys[..last];
      FragmentsOfMembers(m, edit, start, end, front, f);
      assert keys == front + [keys[last]];
      if f in Fragments(edit, m[keys[last]], start, end) {
        assert From(m, edit, start, end, keys[last], f);
      } else if k :| k in keys && From(m, edit, start, end, k, f) {
        assert k in front;
      }
    }
  }

  /** What removing `keys` and then inserting `added` leaves. */
  ghost predicate Applied(m: Areas, keys: seq<nat>, added: seq<Vma>, m': Areas) {
    && (forall k | k in m && k !in keys :: k in m' && m'[k] == m[k])
    && (forall f <- added :: f.start in m' && m'[f.start] == f)
    && (forall j | j in m' :: (j in m && j !in keys && m'[j] == m[j]) || (m'[j] in added && m'[j].start == j))
  }

  /** Nothing inserted collides with what stays or with another insertion. */
  predicate NoClash(m: Areas, keys: seq<nat>, added: seq<Vma>) {
    && (forall f <- added :: f.start !in m || f.start in keys)
    && (forall f <- added, g <- added :: f.start == g.start ==> f == g)
  }

  function Without(m: Areas, keys: seq<nat>): Areas {
    map k | k in m && k !in keys :: m[k]
  }

  lemma AppliedStart(m: Areas, keys: seq<nat>)
    ensures Applied(m, keys, [], Without(m, keys))
  {
  }

  lemma AppliedInsert(m: Areas, keys: seq<nat>, added: seq<Vma>, f: Vma, m': Areas)
    requires Applied(m, keys, added, m') && NoClash(m, keys, added + [f])
    ensures Applied(m, keys, added + [f], m'[f.start := f])
  {
    assert f in added + [f];
    forall g | g in added
      ensures g.start == f.start ==> g == f
    {
      assert g in added + [f];
    }
  }

  lemma NoClashPrefix(m: Areas, keys: seq<nat>, added: seq<Vma>, n: nat)
    requires NoClash(m, keys, added) && n <= |added|
    ensures NoClash(m, keys, added[..n])
  {
    assert forall f <- added[..n] :: f in added;
  }

  lemma FragmentsNoClash(m: Areas, edit: Edit, start: nat, end: nat, keys: seq<nat>)
    requires Valid(m) && WholePages(start, end) && OverlapKeys(m, start, end, keys)
    ensures NoClash(m, keys, FragmentsOf(m, edit, start, end, keys))
  {
    hide Fragments, FragmentsOf;
    var added := FragmentsOf(m, edit, start, end, keys);
    forall f | f in added
      ensures f.start !in m || f.start in keys
    {
      FragmentsOfMembers(m, edit, start, end, keys, f);
      var k :| k in keys && From(m, edit, start, end, k, f);
      if f.start in m && f.start !in keys {
        Untouched(m, edit, start, end, f.start);
        if f != m[f.start] {
          FragmentsSeparate(m, edit, start, end, k, f, f.start, m[f.start]);
        } else {
          ParentKeys(m, edit, start, end, k, f);
        }
      }
    }
    forall f, g | f in added && g in added && f.start == g.start
      ensures f == g
    {
      FragmentsOfMembers(m, edit, start, end, keys, f);
      FragmentsOfMembers(m, edit, start, end, keys, g);
      var j :| j in keys && From(m, edit, start, end, j, f);
      var k :| k in keys && From(m, edit, start, end, k, g);
      if f != g { FragmentsSeparate(m, edit, start, end, j, f, k, g); }
    }
  }

  lemma Untouched(m: Areas, edit: Edit, start: nat, end: nat, k: nat)
    requires start <= end && k in m && !Overlaps(m[k], start, end)
    ensures From(m, edit, start, end, k, m[k])
  {
  }

  /** An area that is itself a fragment is a fragment of itself. */
  lemma ParentKeys(m: Areas, edit: Edit, start: nat, end: nat, k: nat, f: Vma)
    requires Valid(m) && WholePages(start, end) && From(m, edit, start, end, k, f) && f.start in m && m[f.start] == f
    ensures k == f.start
  {
    hide Fragments;
    var fs := Fragments(edit, m[k], start, end);
    var x :| 0 <= x < |fs| && fs[x] == f;
    FragmentsInside(edit, m[k], start, end, x);
    CoverIsUnique(m, k, f.start, f.start);
  }

  lemma AppliedRebuilds(m: Areas, edit: Edit, start: nat, end: nat, keys: seq<nat>, m': Areas)
    requires Valid(m) && WholePages(start, end) && OverlapKeys(m, start, end, keys)
    requires Applied(m, keys, FragmentsOf(m, edit, start, end, keys), m')
    ensures Rebuilt(m, edit, start, end, m')
  {
    hide FragmentsOf;
    var added := FragmentsOf(m, edit, start, end, keys);
    forall k, f | From(m, edit, start, end, k, f)
      ensures f.start in m' && m'[f.start] == f
    {
      if k in keys { FragmentsOfMembers(m, edit, start, end, keys, f); }
    }
    forall j | j in m'
      ensures m'[j].start == j && exists k :: From(m, edit, start, end, k, m'[j])
    {
      if m'[j] in added {
        FragmentsOfMembers(m, edit, start, end, keys, m'[j]);
      } else {
        Untouched(m, edit, start, end, j);
      }
    }
  }

  // ---- histories of calls ----

  /** Nothing in the map meets `[base, base + len)`. */
  predicate Free(m: Areas, base: nat, len: nat) {
    forall k | k in m :: End(m[k]) <= base || base + len <= m[k].start
  }

  predicate Placeable(m: Areas, base: nat, len: nat) {
    MMAP_FLOOR <= base && base + len <= MMAP_CEILING && Free(m, base, len)
  }

  /**
   * The places the gap finder overlooks: some area ends below the window, the place at the
   * floor is free, and no place directly above an area that reaches the floor is.
   */
  ghost predicate Overlooked(m: Areas, len: nat) {
    && (exists k :: k in m && End(m[k]) < MMAP_FLOOR)
    && Placeable(m, MMAP_FLOOR, len)
    && (forall k | k in m && End(m[k]) >= MMAP_FLOOR :: !Placeable(m, End(m[k]), len))
  }

  /** With areas, and all of them below the window, every place in it is overlooked. */
  lemma LowAreasHideWindow(m: Areas, k: nat, len: nat)
    requires k in m && (forall j | j in m :: End(m[j]) < MMAP_FLOOR) && MMAP_FLOOR + len <= MMAP_CEILING
    ensures Overlooked(m, len)
  {
  }

  /** What a call did to the map; a fixed mapping that fails has already unmapped its range. */
  datatype Call =
    | MapGap(area: Vma)
    | MapFixed(area: Vma, mapped: bool)
    | Munmap(start: nat, end: nat)
    | Mprotect(start: nat, end: nat, prot: nat)
    | Refused

  ghost predicate Step(m: Areas, c: Call, m': Areas) {
    match c
    case MapGap(v) => Aligned(v) && Placeable(m, v.start, v.len) && m' == m[v.start := v]
    case MapFixed(v, mapped) =>
      && Aligned(v)
      && exists mid :: Rebuilt(m, Unmap, v.start, End(v), mid) && m' == (if mapped then mid[v.start := v] else mid)
    case Munmap(start, end) => WholePages(start, end) && Rebuilt(m, Unmap, start, end, m')
    case Mprotect(start, end, prot) => WholePages(start, end) && Rebuilt(m, Protect(prot), start, end, m')
    case Refused => m' == m
  }

  /** The same call on a single address. */
  function CallAt(c: Call, a: nat, x: Option<Attr>): Option<Attr> {
    match c
    case MapGap(v) => if Covers(v, a) then Some(AttrOf(v)) else x
    case MapFixed(v, mapped) => if Covers(v, a) then (if mapped then Some(AttrOf(v)) else None) else x
    case Munmap(start, end) => EditAt(Unmap, InRange(a, start, end), x)
    case Mprotect(start, end, prot) => EditAt(Protect(prot), InRange(a, start, end), x)
    case Refused => x
  }

  lemma InsertIsValid(m: Areas, v: Vma)
    requires Valid(m) && Aligned(v) && Free(m, v.start, v.len)
    ensures Valid(m[v.start := v]) && v.start !in m
  {
  }

  lemma InsertActsPointwise(m: Areas, v: Vma, a: nat)
    requires Valid(m) && Aligned(v) && Free(m, v.start, v.len)
    ensures Valid(m[v.start := v])
    ensures Lookup(m[v.start := v], a) == if Covers(v, a) then Some(AttrOf(v)) else Lookup(m, a)
  {
    InsertIsValid(m, v);
    hide Valid, Aligned;
    var m' := m[v.start := v];
    if Covers(v, a) {
      LookupIs(m', v.start, a);
    } else if k :| k in m && Covers(m[k], a) {
      LookupIs(m, k, a);
      LookupIs(m', k, a);
    }
  }

  lemma UnmappedIsFree(m: Areas, start: nat, end: nat, m': Areas)
    requires Valid(m) && WholePages(start, end) && Rebuilt(m, Unmap, start, end, m')
    ensures Valid(m') && Free(m', start, end - start)
  {
    RebuiltIsValid(m, Unmap, start, end, m');
    hide Rebuilt;
    forall k | k in m'
      ensures End(m'[k]) <= start || end <= m'[k].start
    {
      var a := if m'[k].start > start then m'[k].start else start;
      RebuiltActsPointwise(m, Unmap, start, end, m', a);
      if Covers(m'[k], a) { LookupIs(m', k, a); }
    }
  }

  lemma AlignedEnd(v: Vma)
    requires Aligned(v)
    ensures WholePages(v.start, End(v))
  {
    AlignedSum(v);
  }

  lemma FixedActsPointwise(m: Areas, v: Vma, mid: Areas, a: nat)
    requires Valid(m) && Aligned(v) && Rebuilt(m, Unmap, v.start, End(v), mid)
    ensures Valid(mid) && Valid(mid[v.start := v])
    ensures Lookup(mid, a) == if Covers(v, a) then None else Lookup(m, a)
    ensures Lookup(mid[v.start := v], a) == if Covers(v, a) then Some(AttrOf(v)) else Lookup(m, a)
  {
    hide Rebuilt, Lookup, Valid;
    AlignedEnd(v);
    UnmappedIsFree(m, v.start, End(v), mid);
    RebuiltActsPointwise(m, Unmap, v.start, End(v), mid, a);
    InsertActsPointwise(mid, v, a);
  }

  /** Every call keeps the map valid and acts address by address. */
  lemma StepActsPointwise(m: Areas, c: Call, m': Areas, a: nat)
    requires Valid(m) && Step(m, c, m')
    ensures Valid(m') && Lookup(m', a) == CallAt(c, a, Lookup(m, a))
  {
    hide Rebuilt, Lookup, Valid;
    match c
    case MapGap(v) => InsertActsPointwise(m, v, a);
    case MapFixed(v, mapped) =>
      var mid :| Rebuilt(m, Unmap, v.start, End(v), mid) && m' == (if mapped then mid[v.start := v] else mid);
      FixedActsPointwise(m, v, mid, a);
    case Munmap(start, end) =>
      RebuiltIsValid(m, Unmap, start, end, m');
      RebuiltActsPointwise(m, Unmap, start, end, m', a);
    case Mprotect(start, end, prot) =>
      RebuiltIsValid(m, Protect(prot), start, end, m');
      RebuiltActsPointwise(m, Protect(prot), start, end, m', a);
    case Refused =>
  }

  /** The successive maps of a process making these calls. */
  ghost predicate History(maps: seq<Areas>, calls: seq<Call>) {
    |maps| == |calls| + 1 && forall i | 0 <= i < |calls| :: Step(maps[i], calls[i], maps[i + 1])
  }

  function CallsAt(calls: seq<Call>, a: nat, x: Option<Attr>): Option<Attr> {
    if calls == [] then x
    else CallAt(calls[|calls| - 1], a, CallsAt(calls[..|calls| - 1], a, x))
  }

  /**
   * Any sequence of gap and fixed mappings, unmappings and re-protections keeps the areas disjoint,
   * aligned and keyed by start, and gives each address what the calls give it one after the other.
   */
  lemma {:induction false} HistoryActsPointwise(maps: seq<Areas>, calls: seq<Call>, a: nat)
    requires History(maps, calls) && Valid(maps[0])
    ensures Valid(maps[|calls|])
    ensures Lookup(maps[|calls|], a) == CallsAt(calls, a, Lookup(maps[0], a))
    decreases |calls|
  {
    hide Lookup, Valid, Step;
    if calls != [] {
      var last := |calls| - 1;
      assert History(maps[..last + 1], calls[..last]);
      HistoryActsPointwise(maps[..last + 1], calls[..last], a);
      assert Step(maps[last], calls[last], maps[last + 1]);
      StepActsPointwise(maps[last], calls[last], maps[last + 1], a);
    }
  }

  // ---- the process object ----

  lemma {:induction false} LeastExists(s: set<nat>)
    requires s != {}
    ensures exists k: nat :: k in s && forall j <- s :: k <= j
  {
    var x :| x in s;
    if s != {x} {
      LeastExists(s - {x});
      var k: nat :| k in s - {x} && forall j <- s - {x} :: k <= j;
      var l := if x < k then x else k;
      forall j | j in s ensures l <= j {
        if j != x { assert j in s - {x}; }
      }
    }
  }

  lemma SortedByKey(m: Areas, keys: seq<nat>, ranges: seq<Gap.Range>)
    requires Valid(m) && Ascending(keys) && |ranges| == |keys|
    requires forall i | 0 <= i < |keys| :: keys[i] in m && ranges[i] == Gap.Range(keys[i], m[keys[i]].len)
    ensures Gap.Sorted(ranges)
  {
    forall i, j | 0 <= i < j < |ranges|
      ensures Gap.End(ranges[i]) <= ranges[j].start
    {
      assert Apart(m[keys[i]], m[keys[j]]);
    }
  }

  /** The ranges list the areas. */
  predicate Lists(ranges: seq<Gap.Range>, m: Areas) {
    && (forall k | k in m :: Gap.Range(k, m[k].len) in ranges)
    && (forall r <- ranges :: r.start in m && m[r.start].len == r.len)
  }

  lemma PlaceableIsFit(m: Areas, ranges: seq<Gap.Range>, len: nat)
    requires Valid(m) && Lists(ranges, m)
    ensures forall b: nat :: Placeable(m, b, len) <==> Gap.Fits(ranges, MMAP_FLOOR, MMAP_CEILING, len, b)
  {
    forall b: nat
      ensures Placeable(m, b, len) <==> Gap.Fits(ranges, MMAP_FLOOR, MMAP_CEILING, len, b)
    {
      if Placeable(m, b, len) {
        forall i | 0 <= i < |ranges|
          ensures b + len <= ranges[i].start || Gap.End(ranges[i]) <= b
        {
          assert ranges[i] in ranges;
        }
      }
      if Gap.Fits(ranges, MMAP_FLOOR, MMAP_CEILING, len, b) {
        forall k | k in m
          ensures End(m[k]) <= b || b + len <= m[k].start
        {
          var i :| 0 <= i < |ranges| && ranges[i] == Gap.Range(k, m[k].len);
        }
      }
    }
  }

  lemma TopAligned(m: Areas, ranges: seq<Gap.Range>, len: nat, base: nat)
    requires Valid(m) && Lists(ranges, m)
    requires exists i | 0 <= i <= |ranges| :: base + len == Gap.GapTop(ranges, MMAP_CEILING, i)
    ensures len % PAGE_SIZE == 0 ==> base % PAGE_SIZE == 0
  {
    var i :| 0 <= i <= |ranges| && base + len == Gap.GapTop(ranges, MMAP_CEILING, i);
    if i < |ranges| { assert ranges[i] in ranges; }
    assert (base + len) % PAGE_SIZE == 0;
    if len % PAGE_SIZE == 0 { AlignedBetween(len, base + len); }
  }

  lemma OverlookedIsMissed(m: Areas, ranges: seq<Gap.Range>, len: nat)
    requires Valid(m) && Lists(ranges, m) && Gap.Sorted(ranges) && len > 0
    ensures Gap.Missed(ranges, MMAP_FLOOR, MMAP_CEILING, len) <==> Overlooked(m, len)
  {
    Gap.MissedIsMissedPlaces(ranges, MMAP_FLOOR, MMAP_CEILING, len);
    PlaceableIsFit(m, ranges, len);
    hide Gap.Sorted, Gap.Fits, Placeable, Gap.Missed;
    forall k | k in m
      ensures exists i :: 0 <= i < |ranges| && ranges[i].start == k && Gap.End(ranges[i]) == End(m[k])
    {
      var i :| 0 <= i < |ranges| && ranges[i] == Gap.Range(k, m[k].len);
    }
    forall i | 0 <= i < |ranges|
      ensures ranges[i].start in m && Gap.End(ranges[i]) == End(m[ranges[i].start])
    {
      assert ranges[i] in ranges;
    }
  }

  /** A process's areas, and the user pages that have an entry in its page table with the protection given to each. */
  class Process {
    var vmas: Areas
    var table: map<nat, nat>

    /** The keys in the order in which the tree map iterates. */
    method OrderedKeys() returns (keys: seq<nat>)
      ensures Ascending(keys) && forall k :: k in keys <==> k in vmas
    {
      var rest := vmas.Keys;
      keys := [];
      while rest != {}
        invariant rest <= vmas.Keys && Ascending(keys)
        invariant forall k :: k in keys <==> k in vmas && k !in rest
        invariant forall k <- keys, j <- rest :: k < j
        decreases |rest|
      {
        LeastExists(rest);
        var k: nat :| k in rest && forall j <- rest :: k <= j;
        rest := rest - {k};
        AscendingAppend(keys, k);
        keys := keys + [k];
      }
    }

    method OverlappingKeys(start: nat, end: nat) returns (keys: seq<nat>)
      ensures OverlapKeys(vmas, start, end, keys)
    {
      var all := OrderedKeys();
      keys := [];
      for i := 0 to |all|
        invariant Ascending(keys)
        invariant forall k <- keys :: k in vmas && Overlaps(vmas[k], start, end) && k in all[..i]
        invariant forall k <- all[..i] :: k in vmas && (Overlaps(vmas[k], start, end) ==> k in keys)
      {
        assert all[i] in all && all[..i + 1] == all[..i] + [all[i]];
        forall k | k in keys ensures k < all[i] {
          var j :| 0 <= j < i && all[..i][j] == k;
        }
        if vmas[all[i]].start < end && End(vmas[all[i]]) > start {
          AscendingAppend(keys, all[i]);
          keys := keys + [all[i]];
        }
      }
      assert all[..|all|] == all;
    }

    /** The values of the tree map as the gap finder sees them. */
    method OccupiedRanges() returns (ranges: seq<Gap.Range>)
      requires Valid(vmas)
      ensures Gap.Sorted(ranges)
      ensures Lists(ranges, vmas)
    {
      var keys := OrderedKeys();
      ranges := [];
      for i := 0 to |keys|
        invariant |ranges| == i
        invariant forall j | 0 <= j < i :: keys[j] in vmas && ranges[j] == Gap.Range(keys[j], vmas[keys[j]].len)
      {
        assert keys[i] in keys;
        ranges := ranges + [Gap.Range(keys[i], vmas[keys[i]].len)];
      }
      SortedByKey(vmas, keys, ranges);
      forall k | k in vmas
        ensures Gap.Range(k, vmas[k].len) in ranges
      {
        var i :| 0 <= i < |keys| && keys[i] == k;
        assert ranges[i] in ranges;
      }
    }

    /** The highest free place in the mmap window, page-aligned for whole pages; found unless it is overlooked. */
    method FindMmapGap(len: nat) returns (base: Option<nat>)
      requires Valid(vmas)
      ensures base.Some? ==> Placeable(vmas, base.value, len)
      ensures base.Some? ==> forall b: nat | Placeable(vmas, b, len) :: b <= base.value
      ensures base.Some? && len % PAGE_SIZE == 0 ==> base.value % PAGE_SIZE == 0
      ensures len > 0 ==> (base.Some? <==> (exists b: nat :: Placeable(vmas, b, len)) && !Overlooked(vmas, len))
    {
      var ranges := OccupiedRanges();
      base := Gap.FindGapTopdown(ranges, MMAP_FLOOR, MMAP_CEILING, len);
      PlaceableIsFit(vmas, ranges, len);
      if base.Some? {
        TopAligned(vmas, ranges, len, base.value);
      }
      if len > 0 {
        OverlookedIsMissed(vmas, ranges, len);
      }
    }

    method RemoveKeys(remove: seq<nat>)
      modifies this`vmas
      ensures vmas == Without(old(vmas), remove)
    {
      ghost var m := vmas;
      for i := 0 to |remove|
        invariant vmas == Without(m, remove[..i])
      {
        assert remove[..i + 1] == remove[..i] + [remove[i]];
        vmas := vmas - {remove[i]};
      }
      assert remove[..|remove|] == remove;
    }

    /** The last two loops of both edits. */
    method ApplyMutations(remove: seq<nat>, insert: seq<Vma>)
      requires NoClash(vmas, remove, insert)
      modifies this`vmas
      ensures Applied(old(vmas), remove, insert, vmas)
    {
      hide Applied;
      ghost var m := vmas;
      RemoveKeys(remove);
      AppliedStart(m, remove);
      for i := 0 to |insert|
        invariant Applied(m, remove, insert[..i], vmas)
      {
        assert insert[..i + 1] == insert[..i] + [insert[i]];
        NoClashPrefix(m, remove, insert, i + 1);
        AppliedInsert(m, remove, insert[..i], insert[i], vmas);
        vmas := vmas[insert[i].start := insert[i]];
      }
      assert insert[..|insert|] == insert;
    }

    /** The part of the area starting at `key` that the range takes away, and what stays of it. */
    method CutVma(v: Vma, start: nat, end: nat) returns (run: PageRun, stay: seq<Vma>)
      requires start <= end && Overlaps(v, start, end)
      ensures run == Clip(v, start, end) && stay == Fragments(Unmap, v, start, end)
    {
      var vmaEnd := v.start + v.len;
      if start <= v.start && end >= vmaEnd {
        run := PageRun(v.start, v.len / PAGE_SIZE);
        stay := [];
      } else if start <= v.start && end < vmaEnd {
        var removed := end - v.start;
        run := PageRun(v.start, removed / PAGE_SIZE);
        stay := [v.(start := end, len := v.len - removed)];
      } else if start > v.start && end >= vmaEnd {
        var removed := vmaEnd - start;
        run := PageRun(start, removed / PAGE_SIZE);
        stay := [v.(len := start - v.start)];
      } else {
        var removed := end - start;
        run := PageRun(start, removed / PAGE_SIZE);
        stay := [v.(len := start - v.start), v.(start := end, len := vmaEnd - end)];
      }
    }

    method MunmapVmas(start: nat, len: nat) returns (pages: seq<PageRun>)
      requires Valid(vmas) && WholePages(start, start + len)
      modifies this`vmas
      ensures Rebuilt(old(vmas), Unmap, start, start + len, vmas) && Valid(vmas)
      ensures Partition(old(vmas), start, start + len, pages)
    {
      hide Valid, Fragments, Clip, Rebuilt, Partition, Applied, NoClash;
      var end := start + len;
      var overlapping := OverlappingKeys(start, end);
      ghost var m := vmas;
      pages := [];
      var toRemove: seq<nat> := [];
      var toInsert: seq<Vma> := [];
      for i := 0 to |overlapping|
        invariant vmas == m && toRemove == overlapping[..i]
        invariant Clips(m, start, end, overlapping[..i], pages)
        invariant toInsert == FragmentsOf(m, Unmap, start, end, overlapping[..i])
      {
        var key := overlapping[i];
        assert key in overlapping && overlapping[..i + 1][..i] == overlapping[..i];
        var run, stay := CutVma(vmas[key], start, end);
        pages := pages + [run];
        toRemove := toRemove + [key];
        toInsert := toInsert + stay;
      }
      assert overlapping[..|overlapping|] == overlapping;
      FragmentsNoClash(m, Unmap, start, end, overlapping);
      ApplyMutations(toRemove, toInsert);
      AppliedRebuilds(m, Unmap, start, end, overlapping, vmas);
      RebuiltIsValid(m, Unmap, start, end, vmas);
      ClipsPartition(m, start, end, overlapping, pages);
    }

    method ProtectVma(v: Vma, start: nat, end: nat, prot: nat) returns (run: PageRun, parts: seq<Vma>)
      requires start <= end && Overlaps(v, start, end)
      ensures run == Clip(v, start, end) && parts == Fragments(Protect(prot), v, start, end)
    {
      var vmaEnd := v.start + v.len;
      if start <= v.start && end >= vmaEnd {
        run := PageRun(v.start, v.len / PAGE_SIZE);
        parts := [v.(prot := prot)];
      } else if start <= v.start && end < vmaEnd {
        var frontLen := end - v.start;
        run := PageRun(v.start, frontLen / PAGE_SIZE);
        parts := [v.(len := frontLen, prot := prot), v.(start := end, len := vmaEnd - end)];
      } else if start > v.start && end >= vmaEnd {
        var tailLen := vmaEnd - start;
        run := PageRun(start, tailLen / PAGE_SIZE);
        parts := [v.(len := start - v.start), v.(start := start, len := tailLen, prot := prot)];
      } else {
        var midLen := end - start;
        run := PageRun(start, midLen / PAGE_SIZE);
        parts := [v.(len := start - v.start), v.(start := start, len := midLen, prot := prot),
                  v.(start := end, len := vmaEnd - end)];
      }
    }

    method MprotectVmas(start: nat, len: nat, prot: nat) returns (pages: seq<PageRun>)
      requires Valid(vmas) && WholePages(start, start + len)
      modifies this`vmas
      ensures Rebuilt(old(vmas), Protect(prot), start, start + len, vmas) && Valid(vmas)
      ensures Partition(old(vmas), start, start + len, pages)
    {
      hide Valid, Fragments, Clip, Rebuilt, Partition, Applied, NoClash;
      var end := start + len;
      var overlapping := OverlappingKeys(start, end);
      ghost var m := vmas;
      pages := [];
      var toRemove: seq<nat> := [];
      var toInsert: seq<Vma> := [];
      for i := 0 to |overlapping|
        invariant vmas == m && toRemove == overlapping[..i]
        invariant Clips(m, start, end, overlapping[..i], pages)
        invariant toInsert == FragmentsOf(m, Protect(prot), start, end, overlapping[..i])
      {
        var key := overlapping[i];
        assert key in overlapping && overlapping[..i + 1][..i] == overlapping[..i];
        var run, parts := ProtectVma(vmas[key], start, end, prot);
        pages := pages + [run];
        toRemove := toRemove + [key];
        toInsert := toInsert + parts;
      }
      assert overlapping[..|overlapping|] == overlapping;
      FragmentsNoClash(m, Protect(prot), start, end, overlapping);
      ApplyMutations(toRemove, toInsert);
      AppliedRebuilds(m, Protect(prot), start, end, overlapping, vmas);
      RebuiltIsValid(m, Protect(prot), start, end, vmas);
      ClipsPartition(m, start, end, overlapping, pages);
    }
  }

}
