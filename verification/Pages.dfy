/** Page arithmetic on 64-bit addresses and lengths. */
module Pages {
  import opened Bits

  const PAGE_SIZE: nat := 0x1000
  const PAGE_MASK: nat := 0xFFF

  predicate Misaligned(x: nat) {
    And(x, PAGE_MASK) != 0
  }

  /** `(x + PAGE_MASK) & !PAGE_MASK` */
  function AlignUp(x: nat): nat
    requires x + PAGE_MASK < U64
  {
    And(x + PAGE_MASK, Not64(PAGE_MASK))
  }

  lemma MisalignedIs(x: nat)
    ensures Misaligned(x) <==> x % PAGE_SIZE != 0
  {
    Pow2Values();
    hide And, Pow2;
    MaskIsMod(x, 12);
  }

  /** The least whole number of pages that holds `x` bytes. */
  lemma AlignUpIs(x: nat)
    requires x + PAGE_MASK < U64
    ensures AlignUp(x) % PAGE_SIZE == 0 && x <= AlignUp(x) < x + PAGE_SIZE
  {
    AlignUpRounds(x);
    hide AlignUp;
    RoundedUp(x);
  }

  lemma AlignUpRounds(x: nat)
    requires x + PAGE_MASK < U64
    ensures AlignUp(x) == x + PAGE_MASK - (x + PAGE_MASK) % PAGE_SIZE
  {
    Pow2Values();
    hide And, Pow2;
    MaskRoundsDown(x + PAGE_MASK, 64, 12);
  }

  lemma RoundedUp(x: nat)
    ensures var r := x + PAGE_MASK - (x + PAGE_MASK) % PAGE_SIZE;
            r % PAGE_SIZE == 0 && x <= r < x + PAGE_SIZE
  {
  }

  /** `x & !PAGE_MASK` */
  function AlignDown(x: nat): nat {
    And(x, Not64(PAGE_MASK))
  }

  lemma AlignDownIs(x: nat)
    requires x < U64
    ensures AlignDown(x) == x - x % PAGE_SIZE
    ensures AlignDown(x) % PAGE_SIZE == 0 && AlignDown(x) <= x < AlignDown(x) + PAGE_SIZE
  {
    Pow2Values();
    hide And, Pow2;
    MaskRoundsDown(x, 64, 12);
  }

  lemma AlignedBetween(lo: nat, hi: nat)
    requires lo % PAGE_SIZE == 0 && hi % PAGE_SIZE == 0 && lo <= hi
    ensures (hi - lo) % PAGE_SIZE == 0
  {
  }

  lemma SumAligned(a: nat, b: nat)
    requires a % PAGE_SIZE == 0 && b % PAGE_SIZE == 0
    ensures (a + b) % PAGE_SIZE == 0
  {
  }

}
