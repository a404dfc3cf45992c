/**
 * `ArithmeticCode.encode` and `ArithmeticCode.decode`. A symbol whose interval
 * is `[lo, hi)` is sent as the `K` bits of an integer `N` such that the dyadic
 * cell `[N/2^K, (N+1)/2^K]` lies inside the interval without reaching `hi`,
 * with `K` the first exponent (from `floor(-log2(hi - lo))` on) at which
 * `ceil(hi*2^K)` and `ceil(lo*2^K)` are two apart. The decoder reads bits one at a time and stops
 * as soon as the cell of the bits read so far falls inside one interval.
 *
 * Products `x * 2^k` are written `Scaled(x, k)`, a doubling recursion, so that
 * the proofs stay in linear arithmetic; small lemmas relate it to the
 * multiplications and divisions the code performs.
 */
module ArithmeticCoding {
  import opened Bits
  import opened Arithmetic

  // ---------------------------------------------------------------------------
  // Scales

  /** `2**k` as a real: the `scale` of the encoder's and the decoder's loops. */
  function Scale(k: nat): (p: real)
    ensures p >= 1.0
  {
    Pow2(k) as real
  }

  lemma ScaleDouble(k: nat)
    ensures Scale(k + 1) == 2.0 * Scale(k) && Pow2(k + 1) == 2 * Pow2(k)
  {
  }

  /** `x * 2**k`, by doubling. */
  function Scaled(x: real, k: nat): real
  {
    if k == 0 then x else 2.0 * Scaled(x, k - 1)
  }

  lemma {:induction false} ScaledIs(x: real, k: nat)
    ensures Scaled(x, k) == x * Scale(k)
  {
    if k > 0 {
      ScaledIs(x, k - 1);
      assert Scale(k) == 2.0 * Scale(k - 1);
    }
  }

  lemma {:induction false} ScaledLinear(x: real, y: real, k: nat)
    ensures Scaled(x, k) - Scaled(y, k) == Scaled(x - y, k)
  {
    if k > 0 {
      ScaledLinear(x, y, k - 1);
    }
  }

  lemma {:induction false} ScaledMonotone(x: real, y: real, k: nat)
    requires x <= y
    ensures Scaled(x, k) <= Scaled(y, k)
  {
    if k > 0 {
      ScaledMonotone(x, y, k - 1);
    }
  }

  lemma {:induction false} ScaledStrict(x: real, y: real, k: nat)
    requires x < y
    ensures Scaled(x, k) < Scaled(y, k)
  {
    if k > 0 {
      ScaledStrict(x, y, k - 1);
    }
  }

  /** Scaling by `2^k` and then by `2^j` is scaling by `2^(k+j)`. */
  lemma {:induction false} ScaledAdd(x: real, k: nat, j: nat)
    ensures Scaled(Scaled(x, k), j) == Scaled(x, k + j)
  {
    if j > 0 {
      ScaledAdd(x, k, j - 1);
    }
  }

  /** On integers, scaling is multiplication by `2^j`. */
  lemma {:induction false} ScaledNat(n: nat, j: nat)
    ensures Scaled(n as real, j) == (n * Pow2(j)) as real
  {
    if j > 0 {
      ScaledNat(n, j - 1);
      assert n * Pow2(j) == 2 * (n * Pow2(j - 1));
    }
  }

  /** A non-negative quantity only grows with the exponent. */
  lemma {:induction false} ScaledGrows(x: real, k: nat, j: nat)
    requires x >= 0.0 && k <= j
    ensures 0.0 <= Scaled(x, k) <= Scaled(x, j)
  {
    if k < j {
      ScaledGrows(x, k, j - 1);
    } else if k > 0 {
      ScaledGrows(x, 0, k);
    }
  }

  // ---------------------------------------------------------------------------
  // Encoding

  /** `floor(log2(m))`: the `r` with `2^r <= m < 2^(r+1)`. */
  function Log2Floor(m: nat): (r: nat)
    requires m >= 1
    ensures Pow2(r) <= m < Pow2(r + 1)
  {
    if m < 2 then 0 else Log2Floor(m / 2) + 1
  }

  lemma RecipAtLeastOne(size: real)
    requires 0.0 < size <= 1.0
    ensures 1.0 / size >= 1.0
  {
  }

  /**
   * The encoder's `floor(-log(interval_size, 2))` for `0 < size <= 1`: since
   * `2^r <= 1/size` holds exactly when `2^r <= floor(1/size)`, it is the
   * integer logarithm of `floor(1/size)`.
   */
  function StartExponent(size: real): (r: nat)
    requires 0.0 < size <= 1.0
  {
    RecipAtLeastOne(size);
    Log2Floor((1.0 / size).Floor)
  }

  lemma PositiveProduct(x: real, y: real)
    requires x > 0.0 && y > 0.0
    ensures x * y > 0.0
  {
  }

  lemma Distribute(a: real, b: real, c: real)
    ensures (a + b) * c == a * c + b * c
  {
  }

  lemma BelowRecip(p: real, size: real)
    requires size > 0.0 && p <= 1.0 / size
    ensures p * size <= 1.0
  {
    var q := 1.0 / size;
    assert q * size == 1.0;
    var d := q - p;
    if d > 0.0 {
      PositiveProduct(d, size);
    }
    Distribute(p, d, size);
    assert q == p + d;
  }

  /** At the start exponent the interval, scaled, is at most one unit wide. */
  lemma StartExponentScale(size: real)
    requires 0.0 < size <= 1.0
    ensures Scaled(size, StartExponent(size)) <= 1.0
  {
    RecipAtLeastOne(size);
    var m := (1.0 / size).Floor;
    var r := Log2Floor(m);
    assert Scale(r) <= m as real <= 1.0 / size;
    BelowRecip(Scale(r), size);
    ScaledIs(size, r);
  }

  /** The encoder's loop test `ceil(interval_end*scale) - ceil(interval_start*scale)` at `scale = 2^k`. */
  function Spread(lo: real, hi: real, k: nat): int
  {
    Ceil(Scaled(hi, k)) - Ceil(Scaled(lo, k))
  }

  lemma DivideBoth(d: real, p: real, c: real)
    requires d > 0.0 && d * p < c
    ensures p < c / d
  {
  }

  /** While the spread is below 2, `2^k` stays below `2/(hi - lo)`: the doubling loop ends. */
  lemma {:induction false} SpreadBound(lo: real, hi: real, k: nat)
    requires 0.0 <= lo < hi && Spread(lo, hi, k) < 2
    ensures Pow2(k) <= (2.0 / (hi - lo)).Floor
  {
    ScaledLinear(hi, lo, k);
    ScaledIs(hi - lo, k);
    DivideBoth(hi - lo, Scale(k), 2.0);
  }

  /** The exponent the doubling loop stops at when it starts from `k`. */
  function Exponent(lo: real, hi: real, k: nat): (r: nat)
    requires 0.0 <= lo < hi
    ensures k <= r && Spread(lo, hi, r) >= 2
    decreases (2.0 / (hi - lo)).Floor - Pow2(k)
  {
    if Spread(lo, hi, k) >= 2 then k
    else
      SpreadBound(lo, hi, k);
      assert Pow2(k + 1) == 2 * Pow2(k);
      Exponent(lo, hi, k + 1)
  }

  /** No exponent the loop passes on its way has a spread of 2. */
  lemma {:induction false} ExponentFirst(lo: real, hi: real, k: nat, j: nat)
    requires 0.0 <= lo < hi && k <= j < Exponent(lo, hi, k)
    ensures Spread(lo, hi, j) < 2
    decreases (2.0 / (hi - lo)).Floor - Pow2(k)
  {
    if j > k {
      SpreadBound(lo, hi, k);
      assert Pow2(k + 1) == 2 * Pow2(k);
      ExponentFirst(lo, hi, k + 1, j);
    }
  }

  /**
   * What `ArithmeticCode.encode` returns for the interval `[lo, hi)`: the
   * cell `[N, N+1]` named by its value `N` lies inside the interval scaled by
   * `2^|cw|`, and touches neither end from above.
   */
  function Codeword(lo: real, hi: real): seq<Bit>
    requires 0.0 <= lo < hi <= 1.0
  {
    var k := Exponent(lo, hi, StartExponent(hi - lo));
    CodewordCellAt(lo, hi, k);
    Bin(Ceil(Scaled(lo, k) + Scale(k)))[1..]
  }

  lemma CodewordCellAt(lo: real, hi: real, k: nat)
    requires 0.0 <= lo < hi <= 1.0 && Spread(lo, hi, k) >= 2
    ensures Ceil(Scaled(lo, k) + Scale(k)) >= 1
    ensures var cw := Bin(Ceil(Scaled(lo, k) + Scale(k)))[1..];
            |cw| == k >= 1 && Scaled(lo, k) <= FromBits(cw) as real && (FromBits(cw) + 1) as real < Scaled(hi, k)
  {
    var a, b := Scaled(lo, k), Scaled(hi, k);
    assert 0.0 <= a by {
      ScaledMonotone(0.0, lo, k);
      ScaledIs(0.0, k);
    }
    assert b <= Scale(k) by {
      ScaledMonotone(hi, 1.0, k);
      ScaledIs(1.0, k);
    }
    CodewordCell(a, b, k);
  }

  /**
   * The codeword's cell `[N, N+1]`, `N` its value and `K` its length, lies
   * inside the interval scaled by `2^K` and touches neither end from above;
   * `K` is where the encoder's doubling loop stops.
   */
  lemma CodewordInside(lo: real, hi: real)
    requires 0.0 <= lo < hi <= 1.0
    ensures var cw := Codeword(lo, hi);
            && |cw| == Exponent(lo, hi, StartExponent(hi - lo)) >= 1
            && Scaled(lo, |cw|) <= FromBits(cw) as real
            && (FromBits(cw) + 1) as real < Scaled(hi, |cw|)
  {
    CodewordCellAt(lo, hi, Exponent(lo, hi, StartExponent(hi - lo)));
  }

  lemma CeilShift(x: real, r: real, m: int)
    requires r == m as real
    ensures Ceil(x + r) == Ceil(x) + m
  {
  }

  /**
   * With `a = interval_start*scale` and `b = interval_end*scale` two integers
   * apart, `bin(ceil(a + scale))[3:]` names a cell `[n, n+1]` with `a <= n`
   * and `n + 1 < b`.
   */
  lemma CodewordCell(a: real, b: real, k: nat)
    requires 0.0 <= a && b <= Scale(k) && Ceil(b) - Ceil(a) >= 2
    ensures Ceil(a + Scale(k)) >= 1
    ensures var cw := Bin(Ceil(a + Scale(k)))[1..];
            |cw| == k >= 1 && a <= FromBits(cw) as real && (FromBits(cw) + 1) as real < b
  {
    CellInside(a, b, Pow2(k));
    CellBits(a, k);
  }

  /** With `n = ceil(a) < 2^k`, `bin(ceil(a + 2^k))[3:]` is `n` in `k` bits. */
  lemma {:induction false} CellBits(a: real, k: nat)
    requires 0.0 <= a && Ceil(a) < Pow2(k)
    ensures Ceil(a + Scale(k)) >= 1
    ensures var cw := Bin(Ceil(a + Scale(k)))[1..];
            |cw| == k && FromBits(cw) == Ceil(a)
  {
    var p := Pow2(k);
    CeilShift(a, Scale(k), p);
    assert Pow2(k + 1) == 2 * p;
    BinDropLeading(Ceil(a) + p, k);
    FromToBits(Ceil(a), k);
  }

  lemma CellInside(a: real, b: real, p: nat)
    requires 0.0 <= a && b <= p as real && Ceil(b) - Ceil(a) >= 2
    ensures 0 <= Ceil(a) && Ceil(a) + 2 <= p
    ensures a <= Ceil(a) as real && (Ceil(a) + 1) as real < b
  {
  }

  /** The loop test at `scale = 2^k` is the spread at `k`. */
  lemma SpreadAt(lo: real, hi: real, k: nat, scale: real)
    requires scale == Scale(k)
    ensures Ceil(hi * scale) - Ceil(lo * scale) == Spread(lo, hi, k)
  {
    ScaledIs(hi, k);
    ScaledIs(lo, k);
    assert hi * scale == Scaled(hi, k);
    assert lo * scale == Scaled(lo, k);
    assert Ceil(hi * scale) == Ceil(Scaled(hi, k));
    assert Ceil(lo * scale) == Ceil(Scaled(lo, k));
  }

  lemma ShiftAt(lo: real, k: nat, scale: real)
    requires scale == Scale(k)
    ensures lo * scale + scale == Scaled(lo, k) + Scale(k)
  {
    ScaledIs(lo, k);
  }

  /** The value the encoder returns once its loop has stopped is the codeword. */
  lemma CodewordAt(lo: real, hi: real, k: nat)
    requires 0.0 <= lo < hi <= 1.0
    requires k == Exponent(lo, hi, StartExponent(hi - lo))
    ensures Ceil(Scaled(lo, k) + Scale(k)) >= 1
    ensures Bin(Ceil(Scaled(lo, k) + Scale(k)))[1..] == Codeword(lo, hi)
  {
    ScaledIs(0.0, k);
    ScaledMonotone(0.0, lo, k);
  }

  /** `s` has an interval, and the interval is a non-empty part of [0, 1]. */
  ghost predicate Encodable(c: ArithmeticCode, s: Byte)
  {
    s in c.intervals && 0.0 <= c.intervals[s].0 < c.intervals[s].1 <= 1.0
  }

  /** Every symbol of the weights the code was built from can be encoded. */
  lemma {:induction false} OrderedEncodable(c: ArithmeticCode, w: map<Byte, nat>, s: Byte)
    requires Ordered(c, w) && s in w
    ensures Encodable(c, s)
  {
    var i := Position(c, w, s);
    assert c.steps[0].cum < c.steps[i - 1].cum || i - 1 == 0;
    assert c.steps[i].cum < c.steps[|c.steps| - 1].cum || i == |c.steps| - 1;
  }

  /** `ArithmeticCode.encode`: double `scale` until the interval spans two integers. */
  method Encode(c: ArithmeticCode, s: Byte) returns (cw: seq<Bit>)
    requires Encodable(c, s)
    ensures cw == Codeword(c.intervals[s].0, c.intervals[s].1)
  {
    var (lo, hi) := c.intervals[s];
    ghost var k := StartExponent(hi - lo);
    var scale: real := Scale(StartExponent(hi - lo));
    SpreadAt(lo, hi, k, scale);
    while Ceil(hi * scale) - Ceil(lo * scale) < 2
      invariant scale == Scale(k)
      invariant Ceil(hi * scale) - Ceil(lo * scale) == Spread(lo, hi, k)
      invariant Exponent(lo, hi, k) == Exponent(lo, hi, StartExponent(hi - lo))
      decreases (2.0 / (hi - lo)).Floor - Pow2(k)
    {
      SpreadBound(lo, hi, k);
      ScaleDouble(k);
      scale := scale * 2.0;
      k := k + 1;
      SpreadAt(lo, hi, k, scale);
    }
    ShiftAt(lo, k, scale);
    CodewordAt(lo, hi, k);
    cw := Bin(Ceil(lo * scale + scale))[1..];
  }

  /**
   * The codeword is the shortest the interval allows: at every shorter
   * length `m` the interval, scaled by `2^m`, does not span two integers.
   */
  lemma {:induction false} CodewordShortest(lo: real, hi: real, m: nat)
    requires 0.0 <= lo < hi <= 1.0 && m < |Codeword(lo, hi)|
    ensures Spread(lo, hi, m) < 2
  {
    CodewordInside(lo, hi);
    var start := StartExponent(hi - lo);
    if m >= start {
      ExponentFirst(lo, hi, start, m);
    } else {
      StartExponentScale(hi - lo);
      ScaledGrows(hi - lo, m, start);
      ScaledLinear(hi, lo, m);
    }
  }

  // ---------------------------------------------------------------------------
  // Decoding

  /** What the decoder relies on: a leading cut at 0, a last cut at or above 1, byte symbols after the first. */
  ghost predicate Decodable(steps: seq<Cut>)
  {
    |steps| >= 1 && steps[0].cum == 0.0 && steps[|steps| - 1].cum >= 1.0 && SymbolsAreBytes(steps)
  }

  lemma {:induction false} OrderedDecodable(c: ArithmeticCode, w: map<Byte, nat>)
    requires Ordered(c, w)
    ensures Decodable(c.steps)
  {
  }

  /** The cell of `n` at scale `2^m`, for `n < 2^m`, starts in [0, 1). */
  lemma CellBelowOne(n: nat, m: nat)
    requires n < Pow2(m)
    ensures 0.0 <= n as real / Scale(m) < 1.0
  {
    FractionBelowOne(n as real, Scale(m));
  }

  lemma FractionBelowOne(x: real, p: real)
    requires 0.0 <= x < p
    ensures 0.0 <= x / p < 1.0
  {
    var q := x / p;
    assert q * p == x;
    if q >= 1.0 {
      Distribute(1.0, q - 1.0, p);
      if q > 1.0 {
        PositiveProduct(q - 1.0, p);
      }
    }
  }

  lemma {:induction false} CountAtMostFirst(steps: seq<Cut>, x: real)
    requires |steps| >= 1 && steps[0].cum <= x
    ensures CountAtMost(steps, x) >= 1
  {
    if |steps| > 1 {
      CountAtMostFirst(steps[..|steps| - 1], x);
    }
  }

  /** A point of [0, 1) lies after the leading cut and before the last. */
  lemma CountAtMostRange(steps: seq<Cut>, x: real)
    requires Decodable(steps) && 0.0 <= x < 1.0
    ensures 1 <= CountAtMost(steps, x) < |steps|
  {
    CountAtMostFirst(steps, x);
  }

  /**
   * `ArithmeticCode.decode`'s loop, run from a state in which the `m` bits
   * read so far have value `n` and have not settled on a symbol. Each round
   * reads one bit and counts the cut points at or below both ends of the
   * new cell `[n/2^m, (n+1)/2^m]`; the symbol is settled once both counts
   * agree, that is once the cell lies in one interval with its upper end
   * strictly below the interval's end.
   */
  function Resolve(steps: seq<Cut>, bits: seq<Bit>, index: nat, n: nat, m: nat): (r: (Option<Byte>, nat))
    requires Decodable(steps) && index <= |bits| && n < Pow2(m)
    ensures index <= r.1 <= |bits|
    ensures r.0 == None ==> r.1 == |bits|
    ensures r.0 != None ==> index < r.1
    decreases |bits| - index
  {
    if index == |bits| then (None, index)
    else
      var n' := 2 * n + bits[index];
      CellBelowOne(n', m + 1);
      var st := CountAtMost(steps, n' as real / Scale(m + 1));
      var en := CountAtMost(steps, (n' + 1) as real / Scale(m + 1));
      if st == en then
        CountAtMostRange(steps, n' as real / Scale(m + 1));
        (Some(steps[en].sym as Byte), index + 1)
      else
        Resolve(steps, bits, index + 1, n', m + 1)
  }

  /** `ArithmeticCode.decode(bitarr, index)` with `bisect_right` at both ends of the cell. */
  method DecodeCorrected(c: ArithmeticCode, bits: seq<Bit>, index0: nat) returns (s: Option<Byte>, index: nat)
    requires Decodable(c.steps) && index0 <= |bits|
    ensures (s, index) == Resolve(c.steps, bits, index0, 0, 0)
  {
    var n: nat := 0;
    var scale: real := 1.0;
    var st: nat, en: nat := 0, 1;
    ghost var m: nat := 0;
    ghost var goal := Resolve(c.steps, bits, index0, 0, 0);
    index := index0;
    while st != en && index < |bits|
      invariant index0 <= index <= |bits|
      invariant scale == Scale(m) && n < Pow2(m)
      invariant st != en ==> Resolve(c.steps, bits, index, n, m) == goal
      invariant st == en ==> 1 <= en < |c.steps|
      invariant st == en ==> goal == (Some(c.steps[en].sym as Byte), index)
      decreases |bits| - index
    {
      ghost var (index', n', m') := (index, n, m);
      n := n * 2 + bits[index];
      index := index + 1;
      ScaleDouble(m);
      scale := scale * 2.0;
      m := m + 1;
      st := CountAtMost(c.steps, n as real / scale);
      en := CountAtMost(c.steps, (n + 1) as real / scale);
      assert Round(bits, index', n', m', n, m);
      if st == en {
        ResolveSettles(c.steps, bits, index', n', m', n, m, en);
      } else {
        ResolveContinues(c.steps, bits, index', n', m', n, m);
      }
    }
    if st != en {
      return None, index;
    }
    return Some(c.steps[en].sym as Byte), index;
  }

  /**
   * The decoder's loop exactly as `ArithmeticCode.decode` writes it: the
   * upper end of the cell is counted with `bisect_left` against `-inf`, so
   * the symbol is settled as soon as the cell's upper end reaches the
   * interval's end, one or more bits before the encoder's codeword ends.
   */
  function ResolveAsWritten(steps: seq<Cut>, bits: seq<Bit>, index: nat, n: nat, m: nat): (r: (Option<Byte>, nat))
    requires Decodable(steps) && index <= |bits| && n < Pow2(m)
    ensures index <= r.1 <= |bits|
    ensures r.0 == None ==> r.1 == |bits|
    ensures r.0 != None ==> index < r.1
    decreases |bits| - index
  {
    if index == |bits| then (None, index)
    else
      var n' := 2 * n + bits[index];
      CellBelowOne(n', m + 1);
      var st := CountAtMost(steps, n' as real / Scale(m + 1));
      var en := CountBelow(steps, (n' + 1) as real / Scale(m + 1));
      if st == en then
        CountAtMostRange(steps, n' as real / Scale(m + 1));
        (Some(steps[en].sym as Byte), index + 1)
      else
        ResolveAsWritten(steps, bits, index + 1, n', m + 1)
  }

  /** `ArithmeticCode.decode(bitarr, index)`, as written. */
  method Decode(c: ArithmeticCode, bits: seq<Bit>, index0: nat) returns (s: Option<Byte>, index: nat)
    requires Decodable(c.steps) && index0 <= |bits|
    ensures (s, index) == ResolveAsWritten(c.steps, bits, index0, 0, 0)
  {
    var n: nat := 0;
    var scale: real := 1.0;
    var st: nat, en: nat := 0, 1;
    ghost var m: nat := 0;
    ghost var goal := ResolveAsWritten(c.steps, bits, index0, 0, 0);
    index := index0;
    while st != en && index < |bits|
      invariant index0 <= index <= |bits|
      invariant scale == Scale(m) && n < Pow2(m)
      invariant st != en ==> ResolveAsWritten(c.steps, bits, index, n, m) == goal
      invariant st == en ==> 1 <= en < |c.steps|
      invariant st == en ==> goal == (Some(c.steps[en].sym as Byte), index)
      decreases |bits| - index
    {
      ghost var (index', n', m') := (index, n, m);
      n := n * 2 + bits[index];
      index := index + 1;
      ScaleDouble(m);
      scale := scale * 2.0;
      m := m + 1;
      st := CountAtMost(c.steps, n as real / scale);
      en := CountBelow(c.steps, (n + 1) as real / scale);
      assert Round(bits, index', n', m', n, m);
      if st == en {
        AsWrittenSettles(c.steps, bits, index', n', m', n, m, en);
      } else {
        AsWrittenContinues(c.steps, bits, index', n', m', n, m);
      }
    }
    if st != en {
      return None, index;
    }
    return Some(c.steps[en].sym as Byte), index;
  }

  // ---------------------------------------------------------------------------
  // The round trip of the corrected decoder

  lemma DivAtLeast(c: real, x: real, p: real)
    requires p > 0.0
    ensures c <= x / p <==> c * p <= x
  {
    var q := x / p;
    assert q * p == x;
    Distribute(c, q - c, p);
    if c < q {
      PositiveProduct(q - c, p);
    } else if c > q {
      PositiveProduct(c - q, p);
      Distribute(q, c - q, p);
    }
  }

  lemma DivAtMost(c: real, x: real, p: real)
    requires p > 0.0
    ensures x / p <= c <==> x <= c * p
  {
    var q := x / p;
    assert q * p == x;
    Distribute(q, c - q, p);
    if q < c {
      PositiveProduct(c - q, p);
    } else if q > c {
      PositiveProduct(q - c, p);
      Distribute(c, q - c, p);
    }
  }

  /** Comparing a cut point with `n/2^m` is comparing its scaled value with `n`. */
  lemma AtMostFraction(c: real, n: nat, m: nat)
    ensures c <= n as real / Scale(m) <==> Scaled(c, m) <= n as real
  {
    ScaledIs(c, m);
    DivAtLeast(c, n as real, Scale(m));
  }

  /**
   * On increasing cut points, `bisect_right(steps, (n/2^m, +inf))` is `j`
   * exactly when `n` lies in `[steps[j-1], steps[j])` scaled by `2^m`.
   */
  lemma CountAtMostScaled(steps: seq<Cut>, n: nat, m: nat, j: nat)
    requires Increasing(steps) && j <= |steps|
    ensures CountAtMost(steps, n as real / Scale(m)) == j <==>
            (j == 0 || Scaled(steps[j - 1].cum, m) <= n as real) &&
            (j == |steps| || n as real < Scaled(steps[j].cum, m))
  {
    CountAtMostIs(steps, n as real / Scale(m), j);
    if j > 0 {
      AtMostFraction(steps[j - 1].cum, n, m);
    }
    if j < |steps| {
      AtMostFraction(steps[j].cum, n, m);
    }
  }

  /** Comparing `n/2^m` with a cut point is comparing `n` with its scaled value. */
  lemma BelowFraction(c: real, n: nat, m: nat)
    ensures n as real / Scale(m) <= c <==> n as real <= Scaled(c, m)
  {
    ScaledIs(c, m);
    DivAtMost(c, n as real, Scale(m));
  }

  /**
   * On increasing cut points, `bisect_left(steps, (n/2^m, -inf))` is `j`
   * exactly when `n` lies in `(steps[j-1], steps[j]]` scaled by `2^m`.
   */
  lemma CountBelowScaled(steps: seq<Cut>, n: nat, m: nat, j: nat)
    requires Increasing(steps) && j <= |steps|
    ensures CountBelow(steps, n as real / Scale(m)) == j <==>
            (j == 0 || Scaled(steps[j - 1].cum, m) < n as real) &&
            (j == |steps| || n as real <= Scaled(steps[j].cum, m))
  {
    CountBelowIs(steps, n as real / Scale(m), j);
    if j > 0 {
      BelowFraction(steps[j - 1].cum, n, m);
    }
    if j < |steps| {
      BelowFraction(steps[j].cum, n, m);
    }
  }

  /** The first `m` bits of a codeword name a cell that holds the whole codeword's cell. */
  lemma {:induction false} Nested(cw: seq<Bit>, m: nat)
    requires m <= |cw|
    ensures Scaled(FromBits(cw[..m]) as real, |cw| - m) <= FromBits(cw) as real
    ensures FromBits(cw) as real < Scaled((FromBits(cw[..m]) + 1) as real, |cw| - m)
    decreases |cw| - m
  {
    if m == |cw| {
      assert cw[..m] == cw;
    } else {
      var n := FromBits(cw[..m]);
      var n' := FromBits(cw[..m + 1]);
      var j := |cw| - m;
      assert cw[..m + 1][..m] == cw[..m];
      assert n' == 2 * n + cw[m];
      Nested(cw, m + 1);
      ScaledAdd(n as real, 1, j - 1);
      ScaledAdd((n + 1) as real, 1, j - 1);
      ScaledMonotone((2 * n) as real, n' as real, j - 1);
      ScaledMonotone((n' + 1) as real, (2 * n + 2) as real, j - 1);
    }
  }

  /** A cell inside `[x, y)` at scale `2^m` keeps every finer cell it holds inside `[x, y)` at scale `2^k`. */
  lemma CellWithin(x: real, y: real, n: nat, m: nat, bigN: nat, k: nat)
    requires m <= k
    requires Scaled(n as real, k - m) <= bigN as real < Scaled((n + 1) as real, k - m)
    requires Scaled(x, m) <= n as real && (n + 1) as real <= Scaled(y, m)
    ensures Scaled(x, k) <= bigN as real < Scaled(y, k)
  {
    ScaledAdd(x, m, k - m);
    ScaledAdd(y, m, k - m);
    ScaledMonotone(Scaled(x, m), n as real, k - m);
    ScaledMonotone((n + 1) as real, Scaled(y, m), k - m);
  }

  lemma CeilBounds(a: real, b: real, n: int)
    requires a <= n as real && (n + 1) as real < b
    ensures Ceil(a) <= n && Ceil(b) >= n + 2
  {
  }

  /** A unit cell strictly inside the scaled interval makes the spread at least 2. */
  lemma WideCell(lo: real, hi: real, n: nat, m: nat)
    requires Scaled(lo, m) <= n as real && (n + 1) as real < Scaled(hi, m)
    ensures Spread(lo, hi, m) >= 2
  {
    CeilBounds(Scaled(lo, m), Scaled(hi, m), n);
  }

  /** Cut points rising strictly from 0 to 1, with byte symbols after the first. */
  ghost predicate UnitCuts(steps: seq<Cut>)
  {
    Decodable(steps) && Increasing(steps) && steps[|steps| - 1].cum == 1.0
  }

  lemma OrderedUnitCuts(c: ArithmeticCode, w: map<Byte, nat>)
    requires Ordered(c, w)
    ensures UnitCuts(c.steps)
  {
  }

  /**
   * What the decoder needs of the codeword of entry `i` of the cut points:
   * its cell lies inside the entry's interval, and at no shorter length does
   * the interval span two integers.
   */
  ghost predicate CodewordOf(steps: seq<Cut>, i: nat, cw: seq<Bit>)
  {
    && UnitCuts(steps) && 1 <= i < |steps|
    && |cw| >= 1
    && Scaled(steps[i - 1].cum, |cw|) <= FromBits(cw) as real
    && (FromBits(cw) + 1) as real < Scaled(steps[i].cum, |cw|)
    && Shortest(steps[i - 1].cum, steps[i].cum, |cw|)
  }

  /** At no length below `k` does `[lo, hi)`, scaled, span two integers. */
  ghost predicate Shortest(lo: real, hi: real, k: nat)
  {
    forall m: nat :: m < k ==> Spread(lo, hi, m) < 2
  }

  /** After all of the codeword's bits both counts are `i`: the decoder settles on entry `i`. */
  lemma {:induction false} Settled(steps: seq<Cut>, i: nat, cw: seq<Bit>)
    requires CodewordOf(steps, i, cw)
    ensures CountAtMost(steps, FromBits(cw) as real / Scale(|cw|)) == i
    ensures CountAtMost(steps, (FromBits(cw) + 1) as real / Scale(|cw|)) == i
  {
    CountAtMostScaled(steps, FromBits(cw), |cw|, i);
    CountAtMostScaled(steps, FromBits(cw) + 1, |cw|, i);
  }

  /**
   * After a proper prefix of the codeword the two counts differ: a prefix
   * whose cell settled would lie in the same interval and make it span two
   * integers at a shorter scale than the encoder stopped at.
   */
  lemma {:induction false} Unsettled(steps: seq<Cut>, i: nat, cw: seq<Bit>, m: nat)
    requires CodewordOf(steps, i, cw) && m < |cw|
    ensures CountAtMost(steps, FromBits(cw[..m]) as real / Scale(m)) !=
            CountAtMost(steps, (FromBits(cw[..m]) + 1) as real / Scale(m))
  {
    var n := FromBits(cw[..m]);
    var j := CountAtMost(steps, n as real / Scale(m));
    if j == CountAtMost(steps, (n + 1) as real / Scale(m)) {
      SameEntry(steps, i, cw, m, j);
      WideCell(steps[i - 1].cum, steps[i].cum, n, m);
    }
  }

  /** A prefix of the codeword whose cell lies in the interval of entry `j` has `j == i`. */
  lemma {:induction false} SameEntry(steps: seq<Cut>, i: nat, cw: seq<Bit>, m: nat, j: nat)
    requires CodewordOf(steps, i, cw) && m < |cw|
    requires CountAtMost(steps, FromBits(cw[..m]) as real / Scale(m)) == j
    requires CountAtMost(steps, (FromBits(cw[..m]) + 1) as real / Scale(m)) == j
    ensures j == i
    ensures Scaled(steps[i - 1].cum, m) <= FromBits(cw[..m]) as real
    ensures (FromBits(cw[..m]) + 1) as real < Scaled(steps[i].cum, m)
  {
    var n := FromBits(cw[..m]);
    CellBelowOne(n, m);
    CountAtMostRange(steps, n as real / Scale(m));
    CountAtMostScaled(steps, n, m, j);
    CountAtMostScaled(steps, n + 1, m, j);
    Nested(cw, m);
    CellWithin(steps[j - 1].cum, steps[j].cum, n, m, FromBits(cw), |cw|);
    CountAtMostScaled(steps, FromBits(cw), |cw|, j);
    Settled(steps, i, cw);
  }

  /**
   * One round of the decoder: from `index`, with the `m` bits read so far of
   * value `n`, it reads bit `index` and reaches value `n'` in `m' = m + 1` bits.
   */
  ghost predicate Round(bits: seq<Bit>, index: nat, n: nat, m: nat, n': nat, m': nat)
  {
    index < |bits| && n' == 2 * n + bits[index] && m' == m + 1
  }

  /** A round whose two counts agree on `j` settles on entry `j`. */
  lemma ResolveSettles(steps: seq<Cut>, bits: seq<Bit>, index: nat, n: nat, m: nat, n': nat, m': nat, j: nat)
    requires Decodable(steps) && Round(bits, index, n, m, n', m') && n < Pow2(m)
    requires CountAtMost(steps, n' as real / Scale(m')) == j
    requires CountAtMost(steps, (n' + 1) as real / Scale(m')) == j
    ensures 1 <= j < |steps|
    ensures Resolve(steps, bits, index, n, m) == (Some(steps[j].sym as Byte), index + 1)
  {
    CellBelowOne(n', m');
    CountAtMostRange(steps, n' as real / Scale(m'));
  }

  /** A round whose two counts differ reads on. */
  lemma ResolveContinues(steps: seq<Cut>, bits: seq<Bit>, index: nat, n: nat, m: nat, n': nat, m': nat)
    requires Decodable(steps) && Round(bits, index, n, m, n', m') && n < Pow2(m)
    requires CountAtMost(steps, n' as real / Scale(m')) != CountAtMost(steps, (n' + 1) as real / Scale(m'))
    ensures n' < Pow2(m')
    ensures Resolve(steps, bits, index, n, m) == Resolve(steps, bits, index + 1, n', m')
  {
  }

  /** The codeword's last bit settles the decoder on entry `i`. */
  lemma DecodeLastBit(steps: seq<Cut>, i: nat, cw: seq<Bit>, bits: seq<Bit>, base: nat, n: nat)
    requires CodewordOf(steps, i, cw) && n == FromBits(cw[..|cw| - 1])
    requires base + |cw| <= |bits| && bits[base..base + |cw|] == cw
    ensures Resolve(steps, bits, base + |cw| - 1, n, |cw| - 1) == (Some(steps[i].sym as Byte), base + |cw|)
  {
    var m := |cw| - 1;
    assert cw == cw[..m] + [cw[m]];
    assert bits[base + m] == cw[m];
    assert Round(bits, base + m, n, m, FromBits(cw), |cw|);
    Settled(steps, i, cw);
    ResolveSettles(steps, bits, base + m, n, m, FromBits(cw), |cw|, i);
  }

  /** A bit before the codeword's last leaves the decoder reading on. */
  lemma DecodeInnerBit(steps: seq<Cut>, i: nat, cw: seq<Bit>, bits: seq<Bit>, base: nat, m: nat, n: nat)
    requires CodewordOf(steps, i, cw) && m + 1 < |cw| && n == FromBits(cw[..m])
    requires base + |cw| <= |bits| && bits[base..base + |cw|] == cw
    ensures Resolve(steps, bits, base + m, n, m) == Resolve(steps, bits, base + m + 1, FromBits(cw[..m + 1]), m + 1)
  {
    var n' := FromBits(cw[..m + 1]);
    assert cw[..m + 1] == cw[..m] + [cw[m]];
    assert bits[base + m] == cw[m];
    assert Round(bits, base + m, n, m, n', m + 1);
    Unsettled(steps, i, cw, m + 1);
    ResolveContinues(steps, bits, base + m, n, m, n', m + 1);
  }

  /** From any proper prefix of the codeword, the decoder reads exactly the rest of it. */
  lemma {:induction false} DecodeWithin(steps: seq<Cut>, i: nat, cw: seq<Bit>, bits: seq<Bit>, base: nat, m: nat)
    requires CodewordOf(steps, i, cw) && m < |cw|
    requires base + |cw| <= |bits| && bits[base..base + |cw|] == cw
    ensures Resolve(steps, bits, base + m, FromBits(cw[..m]), m) == (Some(steps[i].sym as Byte), base + |cw|)
    decreases |cw| - m
  {
    if m + 1 == |cw| {
      DecodeLastBit(steps, i, cw, bits, base, FromBits(cw[..m]));
    } else {
      DecodeInnerBit(steps, i, cw, bits, base, m, FromBits(cw[..m]));
      DecodeWithin(steps, i, cw, bits, base, m + 1);
    }
  }

  /**
   * The round trip: after any bits, the codeword of a symbol of the weights,
   * followed by any bits, decodes to that symbol and consumes exactly the
   * codeword.
   */
  lemma {:induction false} DecodeEncoded(c: ArithmeticCode, w: map<Byte, nat>, s: Byte, pre: seq<Bit>, rest: seq<Bit>)
    requires Ordered(c, w) && s in w
    ensures Encodable(c, s) && Decodable(c.steps)
    ensures var cw := Codeword(c.intervals[s].0, c.intervals[s].1);
            Resolve(c.steps, pre + cw + rest, |pre|, 0, 0) == (Some(s), |pre| + |cw|)
  {
    OrderedEncodable(c, w, s);
    OrderedUnitCuts(c, w);
    var i := Position(c, w, s);
    ReadsInterval(c, s, i, pre, rest);
  }

  /** A sequence that starts with `cw` is `cw` followed by the rest. */
  lemma PrefixRest(cw: seq<Bit>, cw': seq<Bit>)
    requires |cw| <= |cw'| && cw == cw'[..|cw|]
    ensures [] + cw' + [] == [] + cw + cw'[|cw|..]
  {
    assert cw' == cw'[..|cw|] + cw'[|cw|..];
  }

  /** No codeword is a prefix of the codeword of another symbol: decoding would settle on both. */
  lemma {:induction false} PrefixFree(c: ArithmeticCode, w: map<Byte, nat>, s: Byte, s': Byte)
    requires Ordered(c, w) && s in w && s' in w && s != s'
    ensures Encodable(c, s) && Encodable(c, s')
    ensures var cw, cw' := Codeword(c.intervals[s].0, c.intervals[s].1), Codeword(c.intervals[s'].0, c.intervals[s'].1);
            !(|cw| <= |cw'| && cw == cw'[..|cw|])
  {
    OrderedEncodable(c, w, s);
    OrderedEncodable(c, w, s');
    var cw := Codeword(c.intervals[s].0, c.intervals[s].1);
    var cw' := Codeword(c.intervals[s'].0, c.intervals[s'].1);
    if |cw| <= |cw'| && cw == cw'[..|cw|] {
      DecodeEncoded(c, w, s', [], []);
      PrefixRest(cw, cw');
      DecodeEncoded(c, w, s, [], cw'[|cw|..]);
      assert false;
    }
  }

  /** The codeword of the interval of entry `i` decodes to the entry's symbol. */
  lemma ReadsInterval(c: ArithmeticCode, s: Byte, i: nat, pre: seq<Bit>, rest: seq<Bit>)
    requires UnitCuts(c.steps) && Encodable(c, s)
    requires 1 <= i < |c.steps| && c.steps[i].sym == s as int
    requires c.intervals[s] == (c.steps[i - 1].cum, c.steps[i].cum)
    ensures Decodable(c.steps)
    ensures var cw := Codeword(c.intervals[s].0, c.intervals[s].1);
            Resolve(c.steps, pre + cw + rest, |pre|, 0, 0) == (Some(s), |pre| + |cw|)
  {
    var (lo, hi) := c.intervals[s];
    CodewordInside(lo, hi);
    CodewordMinimal(lo, hi);
    ReadsWhole(c.steps, i, s, Codeword(lo, hi), pre, rest);
  }

  /** No length shorter than the codeword's lets the interval span two integers. */
  lemma CodewordMinimal(lo: real, hi: real)
    requires 0.0 <= lo < hi <= 1.0
    ensures Shortest(lo, hi, |Codeword(lo, hi)|)
  {
    forall m: nat | m < |Codeword(lo, hi)|
      ensures Spread(lo, hi, m) < 2
    {
      CodewordShortest(lo, hi, m);
    }
  }

  /** From the start of a codeword, whatever precedes and follows it, the decoder reads exactly the codeword. */
  lemma ReadsWhole(steps: seq<Cut>, i: nat, s: Byte, cw: seq<Bit>, pre: seq<Bit>, rest: seq<Bit>)
    requires CodewordOf(steps, i, cw) && steps[i].sym == s as int
    ensures Decodable(steps)
    ensures Resolve(steps, pre + cw + rest, |pre|, 0, 0) == (Some(s), |pre| + |cw|)
  {
    var bits := pre + cw + rest;
    assert bits[|pre|..|pre| + |cw|] == cw;
    assert cw[..0] == [];
    assert FromBits(cw[..0]) == 0;
    DecodeWithin(steps, i, cw, bits, |pre|, 0);
  }

  // ---------------------------------------------------------------------------
  // The decoder as written: the right symbol, read early or on time

  /** A round of the decoder as written whose two counts agree on `j` settles on entry `j`. */
  lemma AsWrittenSettles(steps: seq<Cut>, bits: seq<Bit>, index: nat, n: nat, m: nat, n': nat, m': nat, j: nat)
    requires Decodable(steps) && Round(bits, index, n, m, n', m') && n < Pow2(m)
    requires CountAtMost(steps, n' as real / Scale(m')) == j
    requires CountBelow(steps, (n' + 1) as real / Scale(m')) == j
    ensures 1 <= j < |steps|
    ensures ResolveAsWritten(steps, bits, index, n, m) == (Some(steps[j].sym as Byte), index + 1)
  {
    CellBelowOne(n', m');
    CountAtMostRange(steps, n' as real / Scale(m'));
  }

  /** A round of the decoder as written whose two counts differ reads on. */
  lemma AsWrittenContinues(steps: seq<Cut>, bits: seq<Bit>, index: nat, n: nat, m: nat, n': nat, m': nat)
    requires Decodable(steps) && Round(bits, index, n, m, n', m') && n < Pow2(m)
    requires CountAtMost(steps, n' as real / Scale(m')) != CountBelow(steps, (n' + 1) as real / Scale(m'))
    ensures n' < Pow2(m')
    ensures ResolveAsWritten(steps, bits, index, n, m) == ResolveAsWritten(steps, bits, index + 1, n', m')
  {
  }

  /**
   * A prefix of the codeword on which the decoder as written settles, on
   * entry `j`, has its cell inside the interval of entry `j`; so `j == i`.
   */
  lemma {:induction false} AsWrittenSameEntry(steps: seq<Cut>, i: nat, cw: seq<Bit>, m: nat, j: nat)
    requires CodewordOf(steps, i, cw) && m <= |cw|
    requires CountAtMost(steps, FromBits(cw[..m]) as real / Scale(m)) == j
    requires CountBelow(steps, (FromBits(cw[..m]) + 1) as real / Scale(m)) == j
    ensures j == i
  {
    var n := FromBits(cw[..m]);
    CellBelowOne(n, m);
    CountAtMostRange(steps, n as real / Scale(m));
    CountAtMostScaled(steps, n, m, j);
    CountBelowScaled(steps, n + 1, m, j);
    Nested(cw, m);
    CellWithin(steps[j - 1].cum, steps[j].cum, n, m, FromBits(cw), |cw|);
    CountAtMostScaled(steps, FromBits(cw), |cw|, j);
    Settled(steps, i, cw);
  }

  /** After all of the codeword's bits the decoder as written has settled too. */
  lemma {:induction false} AsWrittenSettled(steps: seq<Cut>, i: nat, cw: seq<Bit>)
    requires CodewordOf(steps, i, cw)
    ensures CountAtMost(steps, FromBits(cw) as real / Scale(|cw|)) == i
    ensures CountBelow(steps, (FromBits(cw) + 1) as real / Scale(|cw|)) == i
  {
    Settled(steps, i, cw);
    CountBelowScaled(steps, FromBits(cw) + 1, |cw|, i);
  }

  /** The codeword's last bit settles the decoder as written on entry `i`, if it had not settled before. */
  lemma AsWrittenLastBit(steps: seq<Cut>, i: nat, cw: seq<Bit>, bits: seq<Bit>, base: nat, n: nat)
    requires CodewordOf(steps, i, cw) && n == FromBits(cw[..|cw| - 1])
    requires base + |cw| <= |bits| && bits[base..base + |cw|] == cw
    ensures ResolveAsWritten(steps, bits, base + |cw| - 1, n, |cw| - 1) == (Some(steps[i].sym as Byte), base + |cw|)
  {
    var m := |cw| - 1;
    assert cw == cw[..m] + [cw[m]];
    assert bits[base + m] == cw[m];
    assert Round(bits, base + m, n, m, FromBits(cw), |cw|);
    AsWrittenSettled(steps, i, cw);
    AsWrittenSettles(steps, bits, base + m, n, m, FromBits(cw), |cw|, i);
  }

  /** A prefix of the codeword on which the decoder as written settles settles it on entry `i`. */
  lemma AsWrittenPrefix(steps: seq<Cut>, i: nat, cw: seq<Bit>, m: nat, n: nat)
    requires CodewordOf(steps, i, cw) && m <= |cw| && n == FromBits(cw[..m])
    ensures CountAtMost(steps, n as real / Scale(m)) == CountBelow(steps, (n + 1) as real / Scale(m)) ==>
              CountAtMost(steps, n as real / Scale(m)) == i
  {
    var st := CountAtMost(steps, n as real / Scale(m));
    if st == CountBelow(steps, (n + 1) as real / Scale(m)) {
      AsWrittenSameEntry(steps, i, cw, m, st);
    }
  }

  /** A round of the decoder as written that can settle only on entry `i` settles there or reads on. */
  lemma AsWrittenRound(steps: seq<Cut>, bits: seq<Bit>, index: nat, n: nat, m: nat, n': nat, i: nat)
    requires Decodable(steps) && Round(bits, index, n, m, n', m + 1) && n < Pow2(m)
    requires CountAtMost(steps, n' as real / Scale(m + 1)) == CountBelow(steps, (n' + 1) as real / Scale(m + 1)) ==>
               CountAtMost(steps, n' as real / Scale(m + 1)) == i
    ensures n' < Pow2(m + 1)
    ensures var r := ResolveAsWritten(steps, bits, index, n, m);
            || (1 <= i < |steps| && r == (Some(steps[i].sym as Byte), index + 1))
            || r == ResolveAsWritten(steps, bits, index + 1, n', m + 1)
  {
    if CountAtMost(steps, n' as real / Scale(m + 1)) == CountBelow(steps, (n' + 1) as real / Scale(m + 1)) {
      AsWrittenSettles(steps, bits, index, n, m, n', m + 1, i);
    } else {
      AsWrittenContinues(steps, bits, index, n, m, n', m + 1);
    }
  }

  /** A bit before the codeword's last either settles the decoder as written on entry `i` or leaves it reading on. */
  lemma AsWrittenInnerBit(steps: seq<Cut>, i: nat, cw: seq<Bit>, bits: seq<Bit>, base: nat, m: nat, n: nat, n': nat)
    requires CodewordOf(steps, i, cw) && m + 1 < |cw| && n == FromBits(cw[..m]) && n' == FromBits(cw[..m + 1])
    requires base + |cw| <= |bits| && bits[base..base + |cw|] == cw
    ensures n' < Pow2(m + 1)
    ensures var r := ResolveAsWritten(steps, bits, base + m, n, m);
            || r == (Some(steps[i].sym as Byte), base + m + 1)
            || r == ResolveAsWritten(steps, bits, base + m + 1, n', m + 1)
  {
    assert cw[..m + 1] == cw[..m] + [cw[m]];
    assert bits[base + m] == cw[m];
    assert Round(bits, base + m, n, m, n', m + 1);
    AsWrittenPrefix(steps, i, cw, m + 1, n');
    AsWrittenRound(steps, bits, base + m, n, m, n', i);
  }

  /**
   * From any proper prefix of the codeword, the decoder as written reads the
   * codeword's symbol, having read at least one more bit and none past the
   * codeword.
   */
  lemma {:induction false} AsWrittenWithin(steps: seq<Cut>, i: nat, cw: seq<Bit>, bits: seq<Bit>, base: nat, m: nat)
    requires CodewordOf(steps, i, cw) && m < |cw|
    requires base + |cw| <= |bits| && bits[base..base + |cw|] == cw
    ensures var r := ResolveAsWritten(steps, bits, base + m, FromBits(cw[..m]), m);
            r.0 == Some(steps[i].sym as Byte) && base + m < r.1 <= base + |cw|
    decreases |cw| - m
  {
    if m + 1 == |cw| {
      AsWrittenLastBit(steps, i, cw, bits, base, FromBits(cw[..m]));
    } else {
      AsWrittenInnerBit(steps, i, cw, bits, base, m, FromBits(cw[..m]), FromBits(cw[..m + 1]));
      AsWrittenWithin(steps, i, cw, bits, base, m + 1);
    }
  }

  /** From the start of a codeword, the decoder as written reads its symbol within the codeword's bits. */
  lemma AsWrittenWhole(steps: seq<Cut>, i: nat, s: Byte, cw: seq<Bit>, pre: seq<Bit>, rest: seq<Bit>)
    requires CodewordOf(steps, i, cw) && steps[i].sym == s as int
    ensures Decodable(steps)
    ensures var r := ResolveAsWritten(steps, pre + cw + rest, |pre|, 0, 0);
            r.0 == Some(s) && |pre| < r.1 <= |pre| + |cw|
  {
    var bits := pre + cw + rest;
    assert bits[|pre|..|pre| + |cw|] == cw;
    assert cw[..0] == [];
    assert FromBits(cw[..0]) == 0;
    AsWrittenWithin(steps, i, cw, bits, |pre|, 0);
  }

  /** The codeword of the interval of entry `i`, read by the decoder as written. */
  lemma AsWrittenInterval(c: ArithmeticCode, s: Byte, i: nat, pre: seq<Bit>, rest: seq<Bit>)
    requires UnitCuts(c.steps) && Encodable(c, s)
    requires 1 <= i < |c.steps| && c.steps[i].sym == s as int
    requires c.intervals[s] == (c.steps[i - 1].cum, c.steps[i].cum)
    ensures Decodable(c.steps)
    ensures var cw := Codeword(c.intervals[s].0, c.intervals[s].1);
            var r := ResolveAsWritten(c.steps, pre + cw + rest, |pre|, 0, 0);
            r.0 == Some(s) && |pre| < r.1 <= |pre| + |cw|
  {
    var (lo, hi) := c.intervals[s];
    CodewordInside(lo, hi);
    CodewordMinimal(lo, hi);
    AsWrittenWhole(c.steps, i, s, Codeword(lo, hi), pre, rest);
  }

  /**
   * `ArithmeticCode.decode` as written, on a stream in which the codeword of
   * a symbol stands, returns that symbol, having read at least one bit and
   * at most the codeword; it may stop early (see `AsWrittenStopsEarly`).
   */
  lemma {:induction false} AsWrittenDecodes(c: ArithmeticCode, w: map<Byte, nat>, s: Byte, pre: seq<Bit>, rest: seq<Bit>)
    requires Ordered(c, w) && s in w
    ensures Encodable(c, s) && Decodable(c.steps)
    ensures var cw := Codeword(c.intervals[s].0, c.intervals[s].1);
            var r := ResolveAsWritten(c.steps, pre + cw + rest, |pre|, 0, 0);
            r.0 == Some(s) && |pre| < r.1 <= |pre| + |cw|
  {
    OrderedEncodable(c, w, s);
    OrderedUnitCuts(c, w);
    var i := Position(c, w, s);
    AsWrittenInterval(c, s, i, pre, rest);
  }

  /** The code `ArithmeticCode({97: 1, 98: 1})` builds: 98 sorts first, on [0, 1/2). */
  function TwoSymbolCode(): ArithmeticCode
  {
    ArithmeticCode([Cut(0.0, 256), Cut(0.5, 98), Cut(1.0, 97)], map[98 := (0.0, 0.5), 97 := (0.5, 1.0)])
  }

  lemma TwoSymbolArranged()
    ensures Arranged(TwoSymbolCode(), map[97 := 1, 98 := 1])
  {
    var c := TwoSymbolCode();
    var w := map[97 := 1, 98 := 1];
    assert Order(c.steps) == [98, 97];
    assert Descending(w, [98, 97]);
    assert Intervals(c.steps[..1]) == map[];
    assert Intervals(c.steps[..2]) == map[98 := (0.0, 0.5)];
  }

  lemma TwoSymbolSpaced()
    ensures Spaced(TwoSymbolCode().steps, map[97 := 1, 98 := 1])
  {
    var c := TwoSymbolCode();
    var w := map[97 := 1, 98 := 1];
    assert Order(c.steps) == [98, 97];
    assert Weight(w, [98]) == 1;
    assert Weight(w, [98, 97]) == 2;
    TwoSymbolSums();
    assert Cums(c.steps) == [0.0, 0.5, 1.0];
  }

  lemma TwoSymbolSums()
    ensures RunningSums(map[97 := 1, 98 := 1], [98, 97], 2.0) == [0.0, 0.5, 1.0]
  {
    var w := map[97 := 1, 98 := 1];
    assert RunningSums(w, [], 2.0) == [0.0];
    assert RunningSums(w, [98], 2.0) == [0.0, 0.5];
  }

  /** `TwoSymbolCode` is the code built for two symbols of weight 1. */
  lemma TwoSymbolLaidOut()
    ensures LaidOut(TwoSymbolCode(), map[97 := 1, 98 := 1])
  {
    TwoSymbolArranged();
    TwoSymbolSpaced();
  }

  lemma HalfStart()
    ensures StartExponent(0.5) == 1
  {
    assert (1.0 / 0.5).Floor == 2;
  }

  lemma HalfExponent()
    ensures Exponent(0.0, 0.5, 1) == 2
  {
    assert Scaled(0.5, 1) == 1.0 && Scaled(0.5, 2) == 2.0;
    assert Scaled(0.0, 1) == 0.0 && Scaled(0.0, 2) == 0.0;
    assert Spread(0.0, 0.5, 1) == 1;
    assert Spread(0.0, 0.5, 2) == 2;
  }

  lemma BinFour()
    ensures Bin(4) == [1, 0, 0]
  {
    assert Bin(2) == [1, 0];
  }

  /** The encoder starts at scale 2, doubles once, and sends 98 as `00`. */
  lemma TwoSymbolCodeword()
    ensures Codeword(0.0, 0.5) == [0, 0]
  {
    HalfStart();
    HalfExponent();
    HalfCell();
    BinFour();
  }

  lemma HalfCell()
    ensures Ceil(Scaled(0.0, 2) + Scale(2)) == 4
  {
    assert Scaled(0.0, 2) == 0.0 && Pow2(2) == 4;
  }

  /**
   * For two equally likely symbols the encoder sends 98 as the two bits
   * `00`, but the decoder as written settles on 98 after the first bit and
   * leaves the second to be read as the start of the next symbol; the
   * corrected decoder reads both.
   */
  lemma AsWrittenStopsEarly()
    ensures ResolveAsWritten(TwoSymbolCode().steps, [0, 0], 0, 0, 0) == (Some(98), 1)
    ensures Resolve(TwoSymbolCode().steps, [0, 0], 0, 0, 0) == (Some(98), 2)
  {
    var steps := TwoSymbolCode().steps;
    assert Scale(1) == 2.0 && Scale(2) == 4.0;
    // after one bit the cell is [0, 1/2]
    assert CountAtMost(steps, 0.0) == 1;
    assert CountBelow(steps, 0.5) == 1;
    assert CountAtMost(steps, 0.5) == 2;
    // after two it is [0, 1/4]
    assert CountAtMost(steps, 0.25) == 1;
  }

  // ---------------------------------------------------------------------------
  // 256 equally likely symbols: the decoder as written reads 8 bits of 9

  /** Cut points rising from 0 to 1 in 256 equal steps: entry `k` at `k/256`. */
  ghost predicate Uniform(steps: seq<Cut>)
  {
    UnitCuts(steps) && |steps| == 257 && forall k :: 0 <= k < 257 ==> steps[k].cum == k as real / 256.0
  }

  lemma {:induction false} WeightOnes(w: map<Byte, nat>, s: seq<Byte>)
    requires forall i :: 0 <= i < |s| ==> s[i] in w && w[s[i]] == 1
    ensures Weight(w, s) == |s|
  {
    if s != [] {
      WeightOnes(w, s[..|s| - 1]);
    }
  }

  /** `ArithmeticCode` for 256 symbols of weight 1 cuts [0, 1) into 256 equal intervals. */
  lemma UniformLaidOut(c: ArithmeticCode, w: map<Byte, nat>)
    requires LaidOut(c, w) && |w| == 256 && forall s :: s in w ==> w[s] == 1
    ensures Uniform(c.steps)
  {
    CutsIncrease(c, w);
    forall k | 0 <= k < 257
      ensures c.steps[k].cum == k as real / 256.0
    {
      UniformCut(c.steps, w, k);
    }
  }

  lemma UniformCut(steps: seq<Cut>, w: map<Byte, nat>, k: nat)
    requires Spaced(steps, w) && |steps| == 257 && k < 257 && forall s :: s in w ==> w[s] == 1
    ensures steps[k].cum == k as real / 256.0
  {
    var order := Order(steps);
    CutIsPrefixSum(steps, w, k);
    WeightOnes(w, order);
    WeightOnes(w, order[..k]);
  }

  lemma MulOrder(x: real, y: real, d: real)
    requires d > 0.0
    ensures x <= y <==> x * d <= y * d
    ensures x < y <==> x * d < y * d
  {
    if x < y {
      PositiveProduct(y - x, d);
    } else if y < x {
      PositiveProduct(x - y, d);
    }
  }

  lemma ScalesMeet(m: nat)
    requires m <= 8
    ensures Scale(m) * Scale(8 - m) == 256.0
  {
    Pow2Add(m, 8 - m);
    assert Pow2(8) == 256;
  }

  lemma Cancel(q: real, p: real, d: real)
    requires p * d == 256.0
    ensures (q / 256.0 * p) * d == q
  {
    assert (q / 256.0 * p) * d == q / 256.0 * (p * d);
  }

  /** At scale `2^m`, `m <= 8`, cut point `k/256` sits at `k / 2^(8-m)`. */
  lemma UniformCell(k: nat, a: nat, m: nat)
    requires m <= 8
    ensures Scaled(k as real / 256.0, m) <= a as real <==> k <= a * Pow2(8 - m)
    ensures Scaled(k as real / 256.0, m) < a as real <==> k < a * Pow2(8 - m)
  {
    var x := Scaled(k as real / 256.0, m);
    CutTimes(k, m);
    NatTimes(a, 8 - m);
    MulOrder(x, a as real, Scale(8 - m));
    Compare(x, a as real, Scale(8 - m), k, a * Pow2(8 - m));
  }

  lemma CutTimes(k: nat, m: nat)
    requires m <= 8
    ensures Scaled(k as real / 256.0, m) * Scale(8 - m) == k as real
  {
    ScaledIs(k as real / 256.0, m);
    ScalesMeet(m);
    Cancel(k as real, Scale(m), Scale(8 - m));
  }

  lemma NatTimes(a: nat, j: nat)
    ensures a as real * Scale(j) == (a * Pow2(j)) as real
  {
    ScaledIs(a as real, j);
    ScaledNat(a, j);
  }

  lemma Compare(x: real, y: real, d: real, k: int, e: int)
    requires d > 0.0 && x * d == k as real && y * d == e as real
    requires x <= y <==> x * d <= y * d
    requires x < y <==> x * d < y * d
    ensures x <= y <==> k <= e
    ensures x < y <==> k < e
  {
  }

  lemma MulMonotone(a: nat, b: nat, d: nat)
    requires a <= b
    ensures a * d <= b * d
  {
  }

  lemma MulSucc(a: nat, d: nat)
    ensures (a + 1) * d == a * d + d
  {
  }

  lemma MulSplit(a: nat, b: nat, p: nat)
    ensures (2 * a + b) * p == 2 * (a * p) + b * p
  {
  }

  lemma Pow2Split(m: nat)
    requires m <= 8
    ensures Pow2(m) * Pow2(8 - m) == 256
  {
    Pow2Add(m, 8 - m);
    assert Pow2(8) == 256;
  }

  /** With equal intervals, the cell `[n/2^m, (n+1)/2^m]` starts in interval `n * 2^(8-m) + 1`. */
  lemma UniformStart(steps: seq<Cut>, n: nat, m: nat)
    requires Uniform(steps) && m <= 8 && n < Pow2(m)
    ensures CountAtMost(steps, n as real / Scale(m)) == n * Pow2(8 - m) + 1
  {
    var d := Pow2(8 - m);
    Pow2Split(m);
    MulMonotone(n + 1, Pow2(m), d);
    MulSucc(n, d);
    var j := n * d + 1;
    assert steps[j - 1].cum == (j - 1) as real / 256.0;
    assert steps[j].cum == j as real / 256.0;
    UniformCell(j - 1, n, m);
    UniformCell(j, n, m);
    CountAtMostScaled(steps, n, m, j);
  }

  /** With equal intervals, the cell `[n/2^m, (n+1)/2^m]` ends at the end of interval `(n+1) * 2^(8-m)`. */
  lemma UniformEnd(steps: seq<Cut>, n: nat, m: nat)
    requires Uniform(steps) && m <= 8 && n < Pow2(m)
    ensures CountBelow(steps, (n + 1) as real / Scale(m)) == (n + 1) * Pow2(8 - m)
  {
    var d := Pow2(8 - m);
    Pow2Split(m);
    MulMonotone(n + 1, Pow2(m), d);
    MulMonotone(1, n + 1, d);
    var j := (n + 1) * d;
    assert steps[j - 1].cum == (j - 1) as real / 256.0;
    assert steps[j].cum == j as real / 256.0;
    UniformCell(j - 1, n + 1, m);
    UniformCell(j, n + 1, m);
    CountBelowScaled(steps, n + 1, m, j);
  }

  /**
   * On equal intervals the decoder as written settles exactly when it has
   * read 8 bits in all, on the interval `v + 1` named by their value `v`.
   */
  lemma {:induction false} UniformReads(steps: seq<Cut>, bits: seq<Bit>, index: nat, n: nat, m: nat, v: nat)
    requires Uniform(steps) && m < 8 && n < Pow2(m) && index + (8 - m) <= |bits|
    requires v == n * Pow2(8 - m) + FromBits(bits[index..index + (8 - m)])
    ensures v < 256
    ensures ResolveAsWritten(steps, bits, index, n, m) == (Some(steps[v + 1].sym as Byte), index + (8 - m))
    decreases 8 - m
  {
    if m == 7 {
      LastValue(bits, index, n, v);
      UniformLastBit(steps, bits, index, n, v);
    } else {
      var n' := UniformInnerBit(steps, bits, index, n, m);
      UniformValue(bits, index, n, m, n');
      UniformReads(steps, bits, index + 1, n', m + 1, v);
    }
  }

  /** With fewer than 8 bits in all, the decoder as written on equal intervals runs out of bits. */
  lemma {:induction false} UniformRunsOut(steps: seq<Cut>, bits: seq<Bit>, index: nat, n: nat, m: nat)
    requires Uniform(steps) && m < 8 && n < Pow2(m) && index <= |bits| < index + (8 - m)
    ensures ResolveAsWritten(steps, bits, index, n, m) == (None, |bits|)
    decreases 8 - m
  {
    if index < |bits| {
      var n' := UniformInnerBit(steps, bits, index, n, m);
      UniformRunsOut(steps, bits, index + 1, n', m + 1);
    }
  }

  /** With 7 bits read, the eighth settles the decoder as written on the interval the 8 bits name. */
  lemma UniformLastBit(steps: seq<Cut>, bits: seq<Bit>, index: nat, n: nat, v: nat)
    requires Uniform(steps) && n < Pow2(7) && index < |bits| && v == 2 * n + bits[index]
    ensures v < 256
    ensures ResolveAsWritten(steps, bits, index, n, 7) == (Some(steps[v + 1].sym as Byte), index + 1)
  {
    assert Round(bits, index, n, 7, v, 8);
    assert Pow2(8) == 2 * Pow2(7) && Pow2(8 - 8) == 1;
    UniformStart(steps, v, 8);
    UniformEnd(steps, v, 8);
    AsWrittenSettles(steps, bits, index, n, 7, v, 8, v + 1);
  }

  lemma LastValue(bits: seq<Bit>, index: nat, n: nat, v: nat)
    requires index < |bits| && v == n * Pow2(1) + FromBits(bits[index..index + 1])
    ensures v == 2 * n + bits[index]
  {
    assert bits[index..index + 1][..0] == [];
  }

  /** With fewer than 7 bits read, the next bit leaves the cell across two intervals: the decoder reads on. */
  lemma UniformInnerBit(steps: seq<Cut>, bits: seq<Bit>, index: nat, n: nat, m: nat) returns (n': nat)
    requires Uniform(steps) && m < 7 && n < Pow2(m) && index < |bits|
    ensures n' == 2 * n + bits[index] && n' < Pow2(m + 1)
    ensures ResolveAsWritten(steps, bits, index, n, m) == ResolveAsWritten(steps, bits, index + 1, n', m + 1)
  {
    n' := 2 * n + bits[index];
    assert Round(bits, index, n, m, n', m + 1);
    assert Pow2(m + 1) == 2 * Pow2(m);
    assert Pow2(8 - m - 1) == 2 * Pow2(8 - m - 2);
    UniformStart(steps, n', m + 1);
    UniformEnd(steps, n', m + 1);
    MulSucc(n', Pow2(8 - m - 1));
    AsWrittenContinues(steps, bits, index, n, m, n', m + 1);
  }

  /** The value of the 8 bits, split after the first of the bits still to read. */
  lemma UniformValue(bits: seq<Bit>, index: nat, n: nat, m: nat, n': nat)
    requires m < 7 && index + (8 - m) <= |bits| && n' == 2 * n + bits[index]
    ensures n * Pow2(8 - m) + FromBits(bits[index..index + (8 - m)])
         == n' * Pow2(8 - (m + 1)) + FromBits(bits[index + 1..index + 1 + (8 - (m + 1))])
  {
    var b := bits[index];
    var tail := bits[index + 1..index + (8 - m)];
    var p := Pow2(7 - m);
    assert bits[index..index + (8 - m)] == [b] + tail;
    FromBitsAppend([b], tail);
    assert [b][..0] == [];
    assert FromBits([b]) == b;
    assert Pow2(8 - m) == 2 * p;
    MulDouble(n, p);
    MulSplit(n, b, p);
  }

  lemma Log2Floor256()
    ensures Log2Floor(256) == 8
  {
    var r := Log2Floor(256);
    assert Pow2(8) == 256 && Pow2(9) == 512;
    if r < 8 {
      Pow2Monotone(r + 1, 8);
    }
  }

  lemma LastStart()
    ensures StartExponent(1.0 - 255.0 / 256.0) == 8
  {
    assert 1.0 - 255.0 / 256.0 == 1.0 / 256.0;
    assert (1.0 / (1.0 / 256.0)).Floor == 256;
    Log2Floor256();
  }

  lemma LastScaled()
    ensures Scaled(255.0 / 256.0, 8) == 255.0 && Scaled(1.0, 8) == 256.0
    ensures Scaled(255.0 / 256.0, 9) == 510.0 && Scaled(1.0, 9) == 512.0
    ensures Scale(9) == 512.0
  {
    assert Pow2(8) == 256 && Pow2(9) == 512;
    ScaledIs(255.0 / 256.0, 8);
    ScaledIs(1.0, 8);
    ScaledIs(255.0 / 256.0, 9);
    ScaledIs(1.0, 9);
  }

  lemma LastExponent()
    ensures Exponent(255.0 / 256.0, 1.0, 8) == 9
  {
    LastScaled();
    assert Spread(255.0 / 256.0, 1.0, 8) == 1;
    assert Spread(255.0 / 256.0, 1.0, 9) == 2;
  }

  lemma EightOnes()
    ensures ToBits(510, 9) == [1, 1, 1, 1, 1, 1, 1, 1, 0]
  {
    assert ToBits(1, 1) == [1];
    assert ToBits(3, 2) == [1, 1];
    assert ToBits(7, 3) == [1, 1, 1];
    assert ToBits(15, 4) == [1, 1, 1, 1];
    assert ToBits(31, 5) == [1, 1, 1, 1, 1];
    assert ToBits(63, 6) == [1, 1, 1, 1, 1, 1];
    assert ToBits(127, 7) == [1, 1, 1, 1, 1, 1, 1];
    assert ToBits(255, 8) == [1, 1, 1, 1, 1, 1, 1, 1];
  }

  /** The last of 256 equal intervals, `[255/256, 1)`, is sent with 9 bits: `111111110`. */
  lemma LastCodeword()
    ensures Codeword(255.0 / 256.0, 1.0) == [1, 1, 1, 1, 1, 1, 1, 1, 0]
  {
    LastStart();
    LastExponent();
    LastScaled();
    assert Pow2(9) == 512 && Pow2(10) == 1024;
    assert Ceil(Scaled(255.0 / 256.0, 9) + Scale(9)) == 1022;
    BinDropLeading(1022, 9);
    EightOnes();
  }

  /**
   * For 256 symbols of weight 1, as for a byte table with no counts, the
   * symbol of the last interval is sent as the 9 bits `111111110`; the
   * decoder as written settles on it after 8 bits, the corrected decoder
   * after all 9.
   */
  lemma UniformStopsEarly(c: ArithmeticCode, w: map<Byte, nat>)
    requires LaidOut(c, w) && |w| == 256 && forall s :: s in w ==> w[s] == 1
    ensures var s := c.steps[256].sym as Byte;
            && s in c.intervals && c.intervals[s] == (255.0 / 256.0, 1.0)
            && Codeword(255.0 / 256.0, 1.0) == [1, 1, 1, 1, 1, 1, 1, 1, 0]
            && ResolveAsWritten(c.steps, [1, 1, 1, 1, 1, 1, 1, 1, 0], 0, 0, 0) == (Some(s), 8)
            && Resolve(c.steps, [1, 1, 1, 1, 1, 1, 1, 1, 0], 0, 0, 0) == (Some(s), 9)
  {
    var s := UniformLastInterval(c, w);
    LastCodeword();
    LastReadEarly(c.steps);
    LastReadWhole(c, w, s);
  }

  lemma UniformLastInterval(c: ArithmeticCode, w: map<Byte, nat>) returns (s: Byte)
    requires LaidOut(c, w) && |w| == 256 && forall s :: s in w ==> w[s] == 1
    ensures Ordered(c, w) && Uniform(c.steps) && s == c.steps[256].sym as Byte
    ensures s in w && s in c.intervals && c.intervals[s] == (255.0 / 256.0, 1.0)
  {
    UniformLaidOut(c, w);
    CutsIncrease(c, w);
    s := c.steps[256].sym as Byte;
    IntervalsAt(c.steps, 256);
    assert Order(c.steps)[255] == s;
  }

  lemma LastReadWhole(c: ArithmeticCode, w: map<Byte, nat>, s: Byte)
    requires Ordered(c, w) && s in w && s in c.intervals && c.intervals[s] == (255.0 / 256.0, 1.0)
    ensures Decodable(c.steps)
    ensures Resolve(c.steps, [1, 1, 1, 1, 1, 1, 1, 1, 0], 0, 0, 0) == (Some(s), 9)
  {
    DecodeEncoded(c, w, s, [], []);
    LastCodeword();
    Unpadded(Codeword(255.0 / 256.0, 1.0));
  }

  lemma Unpadded(cw: seq<Bit>)
    ensures [] + cw + [] == cw
  {
  }

  lemma LastReadEarly(steps: seq<Cut>)
    requires Uniform(steps)
    ensures ResolveAsWritten(steps, [1, 1, 1, 1, 1, 1, 1, 1, 0], 0, 0, 0) == (Some(steps[256].sym as Byte), 8)
  {
    EightOnesValue();
    UniformReads(steps, [1, 1, 1, 1, 1, 1, 1, 1, 0], 0, 0, 0, 255);
  }

  lemma EightOnesValue()
    ensures 0 * Pow2(8 - 0) + FromBits([1, 1, 1, 1, 1, 1, 1, 1, 0][0..0 + (8 - 0)]) == 255
  {
    var cw: seq<Bit> := [1, 1, 1, 1, 1, 1, 1, 1, 0];
    EightOnes();
    assert cw[0..8] == ToBits(255, 8);
    assert Pow2(8) == 256;
    FromToBits(255, 8);
  }

  /** The first 8 bits of two copies of `111111110` are worth 255. */
  lemma FirstEight(bits: seq<Bit>)
    requires bits == [1, 1, 1, 1, 1, 1, 1, 1, 0] + [1, 1, 1, 1, 1, 1, 1, 1, 0]
    ensures 0 * Pow2(8 - 0) + FromBits(bits[0..0 + (8 - 0)]) == 255
  {
    EightOnes();
    assert bits[0..8] == ToBits(255, 8);
    assert Pow2(8) == 256;
    FromToBits(255, 8);
  }

  /** The next 8 bits, `01111111`, are worth 127. */
  lemma SecondEight(bits: seq<Bit>)
    requires bits == [1, 1, 1, 1, 1, 1, 1, 1, 0] + [1, 1, 1, 1, 1, 1, 1, 1, 0]
    ensures 0 * Pow2(8 - 0) + FromBits(bits[8..8 + (8 - 0)]) == 127
  {
    EightOnes();
    assert bits[8..16] == [0] + ToBits(127, 7);
    assert Pow2(7) == 128;
    FromToBits(127, 7);
    FromBitsAppend([0], ToBits(127, 7));
    assert FromBits([0]) == 0;
  }

  /**
   * Two copies of the last byte's codeword, read as written: the last byte
   * comes out after 8 bits, the next 8 bits, `01111111`, give the byte of
   * entry 128, and the 2 bits left are too few for another.
   */
  lemma LastTwiceReads(steps: seq<Cut>, bits: seq<Bit>)
    requires Uniform(steps)
    requires bits == [1, 1, 1, 1, 1, 1, 1, 1, 0] + [1, 1, 1, 1, 1, 1, 1, 1, 0]
    ensures Decodable(steps)
    ensures ResolveAsWritten(steps, bits, 0, 0, 0) == (Some(steps[256].sym as Byte), 8)
    ensures ResolveAsWritten(steps, bits, 8, 0, 0) == (Some(steps[128].sym as Byte), 16)
    ensures ResolveAsWritten(steps, bits, 16, 0, 0) == (None, 18)
  {
    FirstEight(bits);
    UniformReads(steps, bits, 0, 0, 0, 255);
    SecondEight(bits);
    UniformReads(steps, bits, 8, 0, 0, 127);
    UniformRunsOut(steps, bits, 16, 0, 0);
  }
}
