/**
 * The top-down gap finder (libkernel/src/gap.rs) over the occupied ranges of
 * an address space, in ascending order.
 */
module Gap {
  import opened Base

  datatype Range = Range(start: nat, len: nat)

  function End(r: Range): nat {
    r.start + r.len
  }

  predicate Sorted(ranges: seq<Range>) {
    && (forall i | 0 <= i < |ranges| :: ranges[i].len > 0)
    && (forall i, j | 0 <= i < j < |ranges| :: End(ranges[i]) <= ranges[j].start)
  }

  /** `[base, base + len)` lies in the window and meets no range. */
  predicate Fits(ranges: seq<Range>, floor: nat, ceiling: nat, len: nat, base: nat) {
    && floor <= base && base + len <= ceiling
    && forall i | 0 <= i < |ranges| :: base + len <= ranges[i].start || End(ranges[i]) <= base
  }

  ghost predicate Highest(ranges: seq<Range>, floor: nat, ceiling: nat, len: nat, base: nat) {
    && Fits(ranges, floor, ceiling, len, base)
    && forall b: nat | Fits(ranges, floor, ceiling, len, b) :: b <= base
  }

  /** The end of the gap just below range `i`, or of the last gap. */
  function GapTop(ranges: seq<Range>, ceiling: nat, i: nat): nat
    requires i <= |ranges|
  {
    if i < |ranges| && ranges[i].start < ceiling then ranges[i].start else ceiling
  }

  /** How many ranges end strictly below the floor. */
  function Below(ranges: seq<Range>, floor: nat): (k: nat)
    ensures k <= |ranges|
    ensures forall i | 0 <= i < k :: End(ranges[i]) < floor
    ensures k < |ranges| ==> End(ranges[k]) >= floor
  {
    if ranges == [] || End(ranges[0]) >= floor then 0 else 1 + Below(ranges[1..], floor)
  }

  /** The gap over range `i` is too short. */
  predicate Short(ranges: seq<Range>, ceiling: nat, len: nat, i: nat)
    requires i < |ranges|
  {
    GapTop(ranges, ceiling, i + 1) < End(ranges[i]) + len
  }

  /**
   * The one case in which a gap is there and is not found: some range ends below the floor, the
   * gap that starts at the floor is long enough, and every gap above it is too short.
   */
  predicate Missed(ranges: seq<Range>, floor: nat, ceiling: nat, len: nat) {
    var k := Below(ranges, floor);
    && k > 0
    && GapTop(ranges, ceiling, k) >= floor + len
    && forall i | k <= i < |ranges| :: Short(ranges, ceiling, len, i)
  }

  /** A placement ends at or below some gap's top and starts at or above the range under that gap. */
  lemma {:induction false} PlacedInGap(ranges: seq<Range>, floor: nat, ceiling: nat, len: nat, base: nat, i: nat)
    requires Sorted(ranges) && Fits(ranges, floor, ceiling, len, base) && i <= |ranges| && len > 0
    requires base + len <= GapTop(ranges, ceiling, i)
    ensures i > 0 && GapTop(ranges, ceiling, i) < End(ranges[i - 1]) + len ==> base + len <= GapTop(ranges, ceiling, i - 1)
  {
  }

  lemma FitsAtTop(ranges: seq<Range>, floor: nat, ceiling: nat, len: nat, i: nat)
    requires Sorted(ranges) && i <= |ranges| && floor + len <= GapTop(ranges, ceiling, i)
    requires i > 0 ==> End(ranges[i - 1]) + len <= GapTop(ranges, ceiling, i)
    ensures Fits(ranges, floor, ceiling, len, GapTop(ranges, ceiling, i) - len)
  {
  }

  lemma BelowIs(ranges: seq<Range>, floor: nat, i: nat)
    requires Sorted(ranges) && i <= |ranges|
    requires i < |ranges| ==> End(ranges[i]) >= floor
    requires i > 0 ==> End(ranges[i - 1]) < floor
    ensures Below(ranges, floor) == i
  {
  }

  lemma AboveFloor(ranges: seq<Range>, floor: nat, ceiling: nat, i: nat)
    requires Sorted(ranges) && i <= |ranges| && GapTop(ranges, ceiling, i) >= floor
    ensures forall j | i <= j < |ranges| :: End(ranges[j]) >= floor
  {
  }

  lemma FloorBeforeBelow(ranges: seq<Range>, floor: nat, i: nat)
    requires Sorted(ranges) && i < |ranges| && End(ranges[i]) >= floor
    ensures Below(ranges, floor) <= i
  {
  }

  /** Below a range that starts under the floor there is no room. */
  lemma NothingBelowFloor(ranges: seq<Range>, floor: nat, ceiling: nat, len: nat, base: nat, i: nat)
    requires i <= |ranges| && GapTop(ranges, ceiling, i) < floor + len
    ensures !(Fits(ranges, floor, ceiling, len, base) && base + len <= GapTop(ranges, ceiling, i))
  {
  }

  /** What the scan knows once the ranges from `i` upwards are behind it. */
  ghost predicate Scanned(ranges: seq<Range>, floor: nat, ceiling: nat, len: nat, i: nat)
    requires i <= |ranges|
  {
    && (forall b: nat | Fits(ranges, floor, ceiling, len, b) :: b + len <= GapTop(ranges, ceiling, i))
    && (forall j | i <= j < |ranges| && End(ranges[j]) >= floor :: Short(ranges, ceiling, len, j))
  }

  /** Passing a range without returning: either its gap was too short, or it ends below the floor. */
  lemma ScanPasses(ranges: seq<Range>, floor: nat, ceiling: nat, len: nat, i: nat)
    requires Sorted(ranges) && i < |ranges| && len > 0 && Scanned(ranges, floor, ceiling, len, i + 1)
    requires Short(ranges, ceiling, len, i)
    ensures Scanned(ranges, floor, ceiling, len, i)
  {
    hide Fits;
    forall b: nat | Fits(ranges, floor, ceiling, len, b)
      ensures b + len <= GapTop(ranges, ceiling, i)
    {
      PlacedInGap(ranges, floor, ceiling, len, b, i + 1);
    }
  }

  /** How the scan's upper bound moves past range `i`. */
  lemma NextTop(ranges: seq<Range>, ceiling: nat, i: nat)
    requires Sorted(ranges) && i < |ranges|
    ensures var top := GapTop(ranges, ceiling, i + 1);
            GapTop(ranges, ceiling, i) == if End(ranges[i]) > top && ranges[i].start >= top then top else ranges[i].start
  {
  }

  lemma Found(ranges: seq<Range>, floor: nat, ceiling: nat, len: nat, i: nat)
    requires Sorted(ranges) && i <= |ranges| && Scanned(ranges, floor, ceiling, len, i)
    requires floor + len <= GapTop(ranges, ceiling, i)
    requires i > 0 ==> floor <= End(ranges[i - 1]) <= GapTop(ranges, ceiling, i) - len
    ensures Highest(ranges, floor, ceiling, len, GapTop(ranges, ceiling, i) - len)
    ensures !Missed(ranges, floor, ceiling, len)
  {
    FitsAtTop(ranges, floor, ceiling, len, i);
    if i > 0 {
      FoundNotMissed(ranges, floor, ceiling, len, i - 1);
    } else {
      NotMissed(ranges, floor, ceiling, len);
    }
  }

  lemma NotFound(ranges: seq<Range>, floor: nat, ceiling: nat, len: nat)
    requires Scanned(ranges, floor, ceiling, len, 0) && GapTop(ranges, ceiling, 0) < floor + len
    ensures !exists b: nat :: Fits(ranges, floor, ceiling, len, b)
  {
    hide Fits;
    forall b: nat ensures !Fits(ranges, floor, ceiling, len, b) {
      NothingBelowFloor(ranges, floor, ceiling, len, b, 0);
    }
  }

  lemma NothingFits(ranges: seq<Range>, floor: nat, ceiling: nat, len: nat)
    requires ceiling <= floor || len > ceiling - floor
    ensures len > 0 ==> !exists b: nat :: Fits(ranges, floor, ceiling, len, b)
  {
  }

  lemma NothingScanned(ranges: seq<Range>, floor: nat, ceiling: nat, len: nat)
    ensures Scanned(ranges, floor, ceiling, len, |ranges|)
  {
  }

  method FindGapTopdown(ranges: seq<Range>, floor: nat, ceiling: nat, len: nat) returns (base: Option<nat>)
    requires Sorted(ranges)
    ensures base.Some? ==> Highest(ranges, floor, ceiling, len, base.value)
    ensures base.Some? ==> exists i | 0 <= i <= |ranges| :: base.value + len == GapTop(ranges, ceiling, i)
    ensures len == 0 ==> base == None
    ensures len > 0 ==>
              (base.Some? <==> (exists b: nat :: Fits(ranges, floor, ceiling, len, b)) && !Missed(ranges, floor, ceiling, len))
  {
    hide Sorted, Fits, Missed, Scanned, Below, GapTop;
    if len == 0 || ceiling <= floor || len > ceiling - floor {
      if len > 0 { NothingFits(ranges, floor, ceiling, len); }
      return None;
    }
    var gapEnd := ceiling;
    var i := |ranges|;
    ghost var passed := false;
    NothingScanned(ranges, floor, ceiling, len);
    LastTop(ranges, ceiling);
    while i > 0
      invariant 0 <= i <= |ranges| && gapEnd == GapTop(ranges, ceiling, i) <= ceiling
      invariant !passed ==> Scanned(ranges, floor, ceiling, len, i)
      invariant passed ==> gapEnd < floor && Missed(ranges, floor, ceiling, len)
    {
      i := i - 1;
      var rangeEnd := ranges[i].start + ranges[i].len;
      NextTop(ranges, ceiling, i);
      if rangeEnd > gapEnd {
        if !passed { ScanPasses(ranges, floor, ceiling, len, i); }
        if ranges[i].start < gapEnd {
          gapEnd := ranges[i].start;
        }
        continue;
      }
      if gapEnd >= rangeEnd + len && rangeEnd >= floor {
        Found(ranges, floor, ceiling, len, i + 1);
        return Some(gapEnd - len);
      }
      if !passed {
        if gapEnd < rangeEnd + len {
          ScanPasses(ranges, floor, ceiling, len, i);
        } else {
          PassedOver(ranges, floor, ceiling, len, i);
          passed := gapEnd >= floor + len;
        }
      }
      gapEnd := ranges[i].start;
    }
    if gapEnd >= floor + len {
      Found(ranges, floor, ceiling, len, 0);
      base := Some(gapEnd - len);
    } else {
      base := None;
      if !passed { NotFound(ranges, floor, ceiling, len); }
    }
  }

  lemma LastTop(ranges: seq<Range>, ceiling: nat)
    ensures GapTop(ranges, ceiling, |ranges|) == ceiling
  {
  }

  /** A range below the floor: the gap over it is lost, and that is `Missed` if it was long enough. */
  lemma PassedOver(ranges: seq<Range>, floor: nat, ceiling: nat, len: nat, i: nat)
    requires Sorted(ranges) && i < |ranges| && len > 0 && Scanned(ranges, floor, ceiling, len, i + 1)
    requires End(ranges[i]) < floor && End(ranges[i]) + len <= GapTop(ranges, ceiling, i + 1)
    ensures GapTop(ranges, ceiling, i + 1) >= floor + len ==> Missed(ranges, floor, ceiling, len)
    ensures GapTop(ranges, ceiling, i + 1) < floor + len ==> Scanned(ranges, floor, ceiling, len, i)
  {
    hide Fits, GapTop;
    if GapTop(ranges, ceiling, i + 1) >= floor + len {
      AboveFloor(ranges, floor, ceiling, i + 1);
      BelowIs(ranges, floor, i + 1);
    } else {
      forall b: nat ensures !Fits(ranges, floor, ceiling, len, b) {
        NothingBelowFloor(ranges, floor, ceiling, len, b, i + 1);
      }
    }
  }

  lemma FoundNotMissed(ranges: seq<Range>, floor: nat, ceiling: nat, len: nat, i: nat)
    requires Sorted(ranges) && i < |ranges| && End(ranges[i]) >= floor
    requires GapTop(ranges, ceiling, i + 1) >= End(ranges[i]) + len
    ensures !Missed(ranges, floor, ceiling, len)
  {
    FloorBeforeBelow(ranges, floor, i);
    assert !Short(ranges, ceiling, len, i);
  }

  /** The last gap is taken only when no range was left below the floor. */
  lemma NotMissed(ranges: seq<Range>, floor: nat, ceiling: nat, len: nat)
    requires Sorted(ranges) && GapTop(ranges, ceiling, 0) >= floor + len
    ensures !Missed(ranges, floor, ceiling, len)
  {
  }

  /**
   * The same case without counting: some range ends below the floor, the place at the floor is
   * free, and no place directly above a range that reaches the floor is.
   */
  ghost predicate MissedPlaces(ranges: seq<Range>, floor: nat, ceiling: nat, len: nat) {
    && (exists i :: 0 <= i < |ranges| && End(ranges[i]) < floor)
    && Fits(ranges, floor, ceiling, len, floor)
    && (forall i | 0 <= i < |ranges| && End(ranges[i]) >= floor :: !Fits(ranges, floor, ceiling, len, End(ranges[i])))
  }

  /** Directly above range `i` there is room exactly when the gap over it is not too short. */
  lemma ShortIsTaken(ranges: seq<Range>, floor: nat, ceiling: nat, len: nat, i: nat)
    requires Sorted(ranges) && i < |ranges| && End(ranges[i]) >= floor && len > 0
    ensures Short(ranges, ceiling, len, i) <==> !Fits(ranges, floor, ceiling, len, End(ranges[i]))
  {
    var base := End(ranges[i]);
    if i + 1 < |ranges| {
      assert base + len <= ranges[i + 1].start ==>
             forall j | 0 <= j < |ranges| :: base + len <= ranges[j].start || End(ranges[j]) <= base;
    }
  }

  lemma BelowCounts(ranges: seq<Range>, floor: nat, i: nat)
    requires Sorted(ranges) && i < |ranges|
    ensures End(ranges[i]) < floor <==> i < Below(ranges, floor)
  {
  }

  lemma MissedIsMissedPlaces(ranges: seq<Range>, floor: nat, ceiling: nat, len: nat)
    requires Sorted(ranges) && len > 0
    ensures Missed(ranges, floor, ceiling, len) <==> MissedPlaces(ranges, floor, ceiling, len)
  {
    hide Short;
    var k := Below(ranges, floor);
    forall i | 0 <= i < |ranges|
      ensures End(ranges[i]) < floor <==> i < k
      ensures i >= k ==> (Short(ranges, ceiling, len, i) <==> !Fits(ranges, floor, ceiling, len, End(ranges[i])))
    {
      BelowCounts(ranges, floor, i);
      if i >= k { ShortIsTaken(ranges, floor, ceiling, len, i); }
    }
    hide Sorted;
    if Missed(ranges, floor, ceiling, len) {
      assert End(ranges[0]) < floor;
      FloorFits(ranges, floor, ceiling, len);
    }
    if MissedPlaces(ranges, floor, ceiling, len) {
      FloorGap(ranges, floor, ceiling, len);
    }
  }

  lemma FloorFits(ranges: seq<Range>, floor: nat, ceiling: nat, len: nat)
    requires Sorted(ranges) && GapTop(ranges, ceiling, Below(ranges, floor)) >= floor + len
    ensures Fits(ranges, floor, ceiling, len, floor)
  {
  }

  lemma FloorGap(ranges: seq<Range>, floor: nat, ceiling: nat, len: nat)
    requires Sorted(ranges) && Fits(ranges, floor, ceiling, len, floor)
    requires forall i | 0 <= i < |ranges| && End(ranges[i]) >= floor :: !Fits(ranges, floor, ceiling, len, End(ranges[i]))
    ensures GapTop(ranges, ceiling, Below(ranges, floor)) >= floor + len
  {
  }

  /** In that case a gap really is there. */
  lemma MissedFits(ranges: seq<Range>, floor: nat, ceiling: nat, len: nat)
    requires Sorted(ranges) && Missed(ranges, floor, ceiling, len)
    ensures Fits(ranges, floor, ceiling, len, GapTop(ranges, ceiling, Below(ranges, floor)) - len)
  {
    FitsAtTop(ranges, floor, ceiling, len, Below(ranges, floor));
  }

  /** With no range ending below the floor, nothing is ever missed: the answer is the highest gap, or there is none. */
  lemma CompleteAboveFloor(ranges: seq<Range>, floor: nat, ceiling: nat, len: nat)
    requires forall i | 0 <= i < |ranges| :: End(ranges[i]) >= floor
    ensures !Missed(ranges, floor, ceiling, len)
  {
  }

  /** When every range ends below the floor the window is free, and yet nothing is ever found in it. */
  lemma OnlyLowRanges(ranges: seq<Range>, floor: nat, ceiling: nat, len: nat)
    requires ranges != [] && forall i | 0 <= i < |ranges| :: End(ranges[i]) < floor
    ensures Missed(ranges, floor, ceiling, len) <==> floor + len <= ceiling
  {
    assert Below(ranges, floor) == |ranges|;
  }

  /** One range below the floor hides the whole free window. */
  lemma MissedExample()
    ensures Sorted([Range(0, 1)]) && Missed([Range(0, 1)], 10, 20, 5) && Fits([Range(0, 1)], 10, 20, 5, 15)
  {
    assert Below([Range(0, 1)], 10) == 1;
  }

}
