/**
 * Unsigned machine words as natural numbers, with the bitwise operators the
 * kernel applies to them: masks of the form 2^k - 1 (ring slots, page
 * offsets), their complements (rounding down) and the signal bit sets.
 */
module Bits {

  const U32: nat := 0x1_0000_0000
  const U64: nat := 0x1_0000_0000_0000_0000

  function Pow2(k: nat): (r: nat)
    ensures r >= 1
  {
    if k == 0 then 1 else 2 * Pow2(k - 1)
  }

  /** Bit `i` of `x`. */
  predicate Bit(x: nat, i: nat) {
    if i == 0 then x % 2 == 1 else Bit(x / 2, i - 1)
  }

  /** `x & y` */
  function And(x: nat, y: nat): nat {
    if x == 0 || y == 0 then 0
    else (if x % 2 == 1 && y % 2 == 1 then 1 else 0) + 2 * And(x / 2, y / 2)
  }

  /** `x | y` */
  function Or(x: nat, y: nat): nat
    decreases x + y
  {
    if x == 0 && y == 0 then 0
    else (if x % 2 == 1 || y % 2 == 1 then 1 else 0) + 2 * Or(x / 2, y / 2)
  }

  /** `!x` on a 64-bit word */
  function Not64(x: nat): nat
    requires x < U64
  {
    U64 - 1 - x
  }

  /** `x & !y` */
  function AndNot(x: nat, y: nat): (r: nat)
    ensures r <= x
  {
    if x == 0 then 0
    else (if x % 2 == 1 && y % 2 == 0 then 1 else 0) + 2 * AndNot(x / 2, y / 2)
  }

  /** `x.trailing_zeros()`: the lowest bit set. */
  function LowestBit(x: nat): (k: nat)
    requires x != 0
    ensures Bit(x, k) && Pow2(k) <= x
    ensures forall i | 0 <= i < k :: !Bit(x, i)
  {
    if x % 2 == 1 then 0 else 1 + LowestBit(x / 2)
  }

  lemma {:induction false} AndNotBit(x: nat, y: nat, i: nat)
    ensures Bit(AndNot(x, y), i) <==> Bit(x, i) && !Bit(y, i)
    decreases i
  {
    if x == 0 {
      ZeroHasNoBits(i);
    } else if i > 0 {
      AndNotBit(x / 2, y / 2, i - 1);
    }
  }

  lemma {:induction false} PowBit(k: nat, i: nat)
    ensures Bit(Pow2(k), i) <==> i == k
  {
    if k == 0 {
      if i > 0 { ZeroHasNoBits(i - 1); }
    } else if i > 0 {
      PowBit(k - 1, i - 1);
    }
  }

  /** Testing a flag is testing its bit. */
  lemma {:induction false} FlagBit(x: nat, k: nat)
    ensures And(x, Pow2(k)) != 0 <==> Bit(x, k)
    decreases k
  {
    if x == 0 {
      ZeroHasNoBits(k);
    } else if k > 0 {
      FlagBit(x / 2, k - 1);
    }
  }

  lemma {:induction false} OrBit(x: nat, y: nat, i: nat)
    ensures Bit(Or(x, y), i) <==> Bit(x, i) || Bit(y, i)
    decreases i
  {
    if x == 0 && y == 0 {
      ZeroHasNoBits(i);
    } else if i > 0 {
      OrBit(x / 2, y / 2, i - 1);
    }
  }

  lemma {:induction false} ZeroHasNoBits(i: nat)
    ensures !Bit(0, i)
  {
    if i > 0 { ZeroHasNoBits(i - 1); }
  }

  /** A word is determined by its bits. */
  lemma {:induction false} SameBits(x: nat, y: nat, k: nat)
    requires x < Pow2(k) && y < Pow2(k)
    requires forall i | 0 <= i < k :: Bit(x, i) <==> Bit(y, i)
    ensures x == y
    decreases k
  {
    if k > 0 {
      assert Bit(x, 0) <==> Bit(y, 0);
      forall i | 0 <= i < k - 1
        ensures Bit(x / 2, i) <==> Bit(y / 2, i)
      {
        assert Bit(x, i + 1) <==> Bit(y, i + 1);
      }
      SameBits(x / 2, y / 2, k - 1);
    }
  }

  lemma {:induction false} AndBound(x: nat, y: nat)
    ensures And(x, y) <= x && And(x, y) <= y
    decreases x
  {
    if x != 0 && y != 0 { AndBound(x / 2, y / 2); }
  }

  lemma {:induction false} OrBound(x: nat, y: nat, k: nat)
    requires x < Pow2(k) && y < Pow2(k)
    ensures Or(x, y) < Pow2(k)
    decreases k
  {
    if k > 0 { OrBound(x / 2, y / 2, k - 1); }
  }

  /** Masking with 2^k - 1 is the remainder modulo 2^k. */
  lemma {:induction false} MaskIsMod(x: nat, k: nat)
    ensures And(x, Pow2(k) - 1) == x % Pow2(k)
    decreases k
  {
    if k == 0 {
    } else if x == 0 {
    } else {
      var p := Pow2(k - 1);
      assert (2 * p - 1) / 2 == p - 1 && (2 * p - 1) % 2 == 1;
      MaskIsMod(x / 2, k - 1);
      HalfMod(x, p);
    }
  }

  lemma HalfMod(x: nat, p: nat)
    requires p >= 1
    ensures x % (2 * p) == x % 2 + 2 * (x / 2 % p)
  {
    var q, r := x / 2 / p, x / 2 % p;
    assert x / 2 == q * p + r;
    assert x == (2 * p) * q + (x % 2 + 2 * r);
    ModUnique(x, 2 * p, q, x % 2 + 2 * r);
  }

  lemma MulMonotone(d: int, a: int, b: int)
    requires d >= 0 && a <= b
    ensures d * a <= d * b
  {
  }

  /** Quotient and remainder are unique. */
  lemma ModUnique(x: int, d: int, q: int, r: int)
    requires d >= 1 && 0 <= r < d && x == d * q + r
    ensures x / d == q && x % d == r
  {
    var q' := x / d;
    assert x == d * q' + x % d;
    if q' > q {
      MulMonotone(d, q + 1, q');
    } else if q' < q {
      MulMonotone(d, q' + 1, q);
    }
  }

  /** Masking with the complement of 2^k - 1 rounds down to a multiple of 2^k. */
  lemma {:induction false} MaskRoundsDown(x: nat, n: nat, k: nat)
    requires k <= n && x < Pow2(n)
    ensures Pow2(k) <= Pow2(n)
    ensures And(x, Pow2(n) - Pow2(k)) == x - x % Pow2(k)
    decreases k
  {
    Pow2Monotone(k, n);
    if k == 0 {
      MaskIsMod(x, n);
      ModUnique(x, Pow2(n), 0, x);
    } else {
      var p, m := Pow2(k - 1), Pow2(n - 1);
      MaskRoundsDown(x / 2, n - 1, k - 1);
      AndEven(x, m - p);
      HalfMod(x, p);
      assert And(x, 2 * m - 2 * p) == 2 * (x / 2 - x / 2 % p);
    }
  }

  lemma AndEven(x: nat, y: nat)
    ensures And(x, 2 * y) == 2 * And(x / 2, y)
  {
  }

  lemma {:induction false} Pow2Monotone(k: nat, n: nat)
    requires k <= n
    ensures Pow2(k) <= Pow2(n)
  {
    if k < n { Pow2Monotone(k, n - 1); }
  }

  lemma Pow2Values()
    ensures Pow2(3) == 8 && Pow2(4) == 16 && Pow2(12) == 4096
    ensures Pow2(32) == U32 && Pow2(64) == U64
  {
    Pow2Small();
    Pow2Add(8, 4);
    Pow2Add(8, 8);
    Pow2Add(16, 16);
    Pow2Add(32, 32);
  }

  lemma Pow2Small()
    ensures Pow2(3) == 8 && Pow2(4) == 16 && Pow2(8) == 256
  {
    assert Pow2(0) == 1;
    assert Pow2(1) == 2;
    assert Pow2(2) == 4;
    Pow2Add(4, 4);
  }

  lemma {:induction false} Pow2Add(a: nat, b: nat)
    ensures Pow2(a + b) == Pow2(a) * Pow2(b)
  {
    if a > 0 {
      Pow2Add(a - 1, b);
      assert 2 * (Pow2(a - 1) * Pow2(b)) == (2 * Pow2(a - 1)) * Pow2(b);
    }
  }

  /** A modulus that divides another can be taken first. */
  lemma ModMod(x: nat, n: nat, m: nat)
    requires n >= 1 && m >= 1
    ensures x % (n * m) % n == x % n
    ensures n * m >= 1
  {
    assert n * m >= 1;
    var q, r := x / (n * m), x % (n * m);
    var q', r' := r / n, r % n;
    assert x == n * (m * q + q') + r' by {
      assert x == (n * m) * q + r;
      assert (n * m) * q == n * (m * q);
      assert r == n * q' + r';
      assert n * (m * q + q') == n * (m * q) + n * q';
    }
    ModUnique(x, n, m * q + q', r');
  }

  lemma LowHalf(x: nat, p: nat)
    requires p >= 1
    ensures x % (2 * p) % 2 == x % 2 && x % (2 * p) / 2 == x / 2 % p
  {
    HalfMod(x, p);
    var r := x / 2 % p;
    assert (x % 2 + 2 * r) % 2 == x % 2 && (x % 2 + 2 * r) / 2 == r;
  }

  /** Cutting a word to its low `n` bits keeps those bits. */
  lemma {:induction false} LowBit(x: nat, n: nat, k: nat)
    requires k < n
    ensures Bit(x % Pow2(n), k) <==> Bit(x, k)
    decreases n
  {
    var p := Pow2(n - 1);
    assert Pow2(n) == 2 * p;
    hide Pow2;
    LowHalf(x, p);
    if k > 0 { LowBit(x / 2, n - 1, k - 1); }
  }

  /** `a.wrapping_sub(b)` and `a.wrapping_add(b)` on 32-bit words */
  function Sub32(a: int, b: int): nat {
    (a - b) % U32
  }

  function Add32(a: int, b: int): nat {
    (a + b) % U32
  }

  /** The wrapped difference of two counters is their true difference while that fits in 32 bits. */
  lemma Sub32Exact(a: nat, b: nat)
    requires b <= a < b + U32
    ensures Sub32(a % U32, b % U32) == a - b
  {
  }

  lemma Add32Add(a: nat, b: nat, c: nat)
    ensures Add32(Add32(a, b), c) == Add32(a, b + c)
  {
  }

  /** Words within one wrap of each other. */
  lemma Wrapped(a: nat, b: nat)
    requires a < U32 && b < U32
    ensures Sub32(a, b) == if a >= b then a - b else a - b + U32
    ensures Add32(a, b) == if a + b < U32 then a + b else a + b - U32
  {
  }

  lemma Sub32Advance(tail: nat, head: nat, k: nat)
    requires tail < U32 && head < U32 && k < U32
    ensures Sub32(tail, head) + k < U32 ==> Sub32(Add32(tail, k), head) == Sub32(tail, head) + k
    ensures k <= Sub32(tail, head) ==> Sub32(tail, Add32(head, k)) == Sub32(tail, head) - k
  {
    Wrapped(tail, head);
    Wrapped(tail, k);
    Wrapped(head, k);
    Wrapped(Add32(tail, k), head);
    Wrapped(tail, Add32(head, k));
    hide Sub32, Add32;
  }

}
