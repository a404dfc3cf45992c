/** Bytes, bits and binary numerals shared by both codes and by the predictor. */
module Bits {

  /** One element of a Python `bytes` object. */
  type Byte = b: int | 0 <= b < 256

  /** One element of a `bitarray`. */
  type Bit = b: int | 0 <= b < 2

  datatype Option<T> = None | Some(value: T)

  function Pow2(k: nat): (r: nat)
    ensures r >= 1
  {
    if k == 0 then 1 else 2 * Pow2(k - 1)
  }

  lemma {:induction false} Pow2Add(a: nat, b: nat)
    ensures Pow2(a + b) == Pow2(a) * Pow2(b)
  {
    if b > 0 {
      Pow2Add(a, b - 1);
      assert Pow2(a + b) == 2 * Pow2(a + b - 1);
    }
  }

  lemma Pow2Monotone(a: nat, b: nat)
    requires a <= b
    ensures Pow2(a) <= Pow2(b)
  {
    if a < b { Pow2Monotone(a, b - 1); }
  }

  /** The value of a bit sequence read most-significant bit first. */
  function FromBits(bs: seq<Bit>): (n: nat)
    ensures n < Pow2(|bs|)
  {
    if bs == [] then 0 else 2 * FromBits(bs[..|bs| - 1]) + bs[|bs| - 1]
  }

  /** `n` written with exactly `k` bits, most-significant bit first. */
  function ToBits(n: nat, k: nat): (bs: seq<Bit>)
    ensures |bs| == k
  {
    if k == 0 then [] else ToBits(n / 2, k - 1) + [n % 2]
  }

  lemma {:induction false} FromToBits(n: nat, k: nat)
    requires n < Pow2(k)
    ensures FromBits(ToBits(n, k)) == n
  {
    if k > 0 {
      var bs := ToBits(n, k);
      assert bs[..k - 1] == ToBits(n / 2, k - 1);
      assert bs[k - 1] == n % 2;
      assert Pow2(k) == 2 * Pow2(k - 1);
      assert n / 2 < Pow2(k - 1);
      FromToBits(n / 2, k - 1);
      assert FromBits(bs) == 2 * FromBits(bs[..k - 1]) + bs[k - 1];
    }
  }

  lemma {:induction false} ToFromBits(bs: seq<Bit>)
    ensures ToBits(FromBits(bs), |bs|) == bs
  {
    if bs != [] {
      var init := bs[..|bs| - 1];
      ToFromBits(init);
      assert FromBits(bs) / 2 == FromBits(init);
      assert bs == init + [bs[|bs| - 1]];
    }
  }

  /** Appending bits extends the numeral: the prefix is the high part. */
  lemma {:induction false} FromBitsAppend(a: seq<Bit>, b: seq<Bit>)
    ensures FromBits(a + b) == FromBits(a) * Pow2(|b|) + FromBits(b)
  {
    if b == [] {
      assert a + b == a;
    } else {
      var b' := b[..|b| - 1];
      var last := b[|b| - 1];
      assert (a + b)[..|a + b| - 1] == a + b';
      assert (a + b)[|a + b| - 1] == last;
      assert FromBits(a + b) == 2 * FromBits(a + b') + last;
      assert FromBits(b) == 2 * FromBits(b') + last;
      FromBitsAppend(a, b');
      MulDouble(FromBits(a), Pow2(|b'|));
    }
  }

  lemma MulDouble(x: int, p: int)
    ensures 2 * (x * p) == x * (2 * p)
  {
  }

  /** The digits of Python's `bin(m)` after the "0b" prefix; the first is always 1. */
  function Bin(m: nat): (ds: seq<Bit>)
    requires m >= 1
    ensures |ds| >= 1 && ds[0] == 1
  {
    if m == 1 then [1] else Bin(m / 2) + [m % 2]
  }

  /** For `2^k <= m < 2^(k+1)`, dropping the leading 1 of `bin(m)` leaves `m - 2^k` in `k` bits. */
  lemma {:induction false} BinDropLeading(m: nat, k: nat)
    requires Pow2(k) <= m < Pow2(k + 1)
    ensures Bin(m)[1..] == ToBits(m - Pow2(k), k)
  {
    if k == 0 {
    } else {
      assert Pow2(k) == 2 * Pow2(k - 1);
      assert Pow2(k + 1) == 2 * Pow2(k);
      BinDropLeading(m / 2, k - 1);
      assert (m - Pow2(k)) / 2 == m / 2 - Pow2(k - 1);
      assert (m - Pow2(k)) % 2 == m % 2;
      assert Bin(m)[1..] == Bin(m / 2)[1..] + [m % 2];
    }
  }

  /** Python's `math.ceil` on an exact real. */
  function Ceil(x: real): (c: int)
    ensures x <= c as real < x + 1.0
  {
    -((-x).Floor)
  }
}
