/** Bytes and little-endian words. */
module Bytes {
  import opened Bits

  type Byte = x: nat | x < 256

  function LE(v: nat, n: nat): (bytes: seq<Byte>)
    ensures |bytes| == n
  {
    if n == 0 then [] else [v % 256] + LE(v / 256, n - 1)
  }

  function FromLE(bytes: seq<Byte>): nat {
    if bytes == [] then 0 else bytes[0] + 256 * FromLE(bytes[1..])
  }

  lemma {:induction false} LERoundTrip(v: nat, n: nat)
    requires v < Pow2(8 * n)
    ensures FromLE(LE(v, n)) == v
    decreases n
  {
    if n > 0 {
      Pow2Small();
      Pow2Add(8, 8 * (n - 1));
      LERoundTrip(v / 256, n - 1);
      assert LE(v, n)[1..] == LE(v / 256, n - 1);
    }
  }

  lemma {:induction false} FromLEBound(bytes: seq<Byte>)
    ensures FromLE(bytes) < Pow2(8 * |bytes|)
  {
    if bytes != [] {
      FromLEBound(bytes[1..]);
      Pow2Small();
      Pow2Add(8, 8 * (|bytes| - 1));
    }
  }

  lemma Word64(v: nat)
    requires v < U64
    ensures FromLE(LE(v, 8)) == v
  {
    Pow2Values();
    hide Pow2, LE, FromLE;
    LERoundTrip(v, 8);
  }

}
