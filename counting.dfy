/**
 * The byte statistics `Predictor.train` gathers with Python `Counter`s, and
 * the per-symbol figures `encoding_probabilities_ranks` reads off them.
 */
module Counting {
  import opened Bits

  /** A `Counter` keyed by bytes; a missing key counts zero. */
  type Counter = map<Byte, nat>

  /** `counter[s]`. */
  function Get(c: Counter, s: Byte): nat
  {
    if s in c then c[s] else 0
  }

  /** `counter.update([s])`. */
  function Bump(c: Counter, s: Byte): (r: Counter)
    ensures r.Keys == c.Keys + {s}
    ensures forall x :: Get(r, x) == Get(c, x) + if x == s then 1 else 0
  {
    c[s := Get(c, s) + 1]
  }

  /** Every byte is a key, with weight at least 1: the tables the predictor builds codes from. */
  ghost predicate Full(c: Counter)
  {
    forall s: Byte :: s in c && c[s] >= 1
  }

  // ---------------------------------------------------------------------------
  // Counting bytes and smoothing

  /** Each byte of the text with its number of occurrences. */
  function Occurrences(text: seq<Byte>): (c: Counter)
    ensures forall s :: Get(c, s) == multiset(text)[s]
  {
    map s: Byte | 0 <= s < 256 && s in multiset(text) :: multiset(text)[s]
  }

  /** `Counter(text)`: each byte of the text with its number of occurrences. */
  method CountBytes(text: seq<Byte>) returns (c: Counter)
    ensures forall s :: Get(c, s) == multiset(text)[s]
    ensures forall s :: s in c ==> c[s] >= 1
  {
    c := map[];
    for i := 0 to |text|
      invariant forall s :: Get(c, s) == multiset(text[..i])[s]
      invariant forall s :: s in c ==> c[s] >= 1
    {
      assert text[..i + 1] == text[..i] + [text[i]];
      c := Bump(c, text[i]);
    }
    assert text[..|text|] == text;
  }

  /** `for completion in counter: counter[completion] *= factor`. */
  method ScaleCounts(c: Counter, factor: nat) returns (r: Counter)
    ensures r.Keys == c.Keys
    ensures forall s :: Get(r, s) == factor * Get(c, s)
  {
    r := c;
    var pending := c.Keys;
    while pending != {}
      invariant pending <= c.Keys && r.Keys == c.Keys
      invariant forall s :: s in r ==> r[s] == if s in pending then c[s] else factor * c[s]
      decreases |pending|
    {
      var s :| s in pending;
      r := r[s := factor * r[s]];
      pending := pending - {s};
    }
  }

  /** `counter.update(bytes(range(256)))`: one more of every byte. */
  method AddEachByte(c: Counter) returns (r: Counter)
    ensures forall s :: Get(r, s) == Get(c, s) + 1
    ensures Full(r)
  {
    r := c;
    for b := 0 to 256
      invariant forall s: Byte :: Get(r, s) == Get(c, s) + if s < b then 1 else 0
      invariant forall s: Byte :: s < b ==> s in r
    {
      r := Bump(r, b);
    }
    forall s: Byte
      ensures s in r && r[s] >= 1
    {
      assert Get(r, s) == Get(c, s) + 1;
    }
  }

  /** The smoothed table: every byte, with weight `factor * count + 1`. */
  function Smoothed(c: Counter, factor: nat): (r: Counter)
  {
    map s: Byte | 0 <= s < 256 :: factor * Get(c, s) + 1
  }

  /** Scaling the counts and then adding one of every byte gives the smoothed table. */
  method Smooth(c: Counter, factor: nat) returns (r: Counter)
    ensures r == Smoothed(c, factor)
  {
    r := ScaleCounts(c, factor);
    r := AddEachByte(r);
    assert forall s :: s in r <==> s in Smoothed(c, factor);
  }

  /** Smoothing fills in every byte with weight at least 1 and keeps the order of the counts. */
  lemma SmoothedOrder(c: Counter, factor: nat, a: Byte, b: Byte)
    requires factor >= 1
    ensures Full(Smoothed(c, factor))
    ensures Get(c, a) < Get(c, b) <==> Smoothed(c, factor)[a] < Smoothed(c, factor)[b]
  {
    SmoothedFull(c, factor);
    var x, y := Get(c, a), Get(c, b);
    assert Smoothed(c, factor)[a] == factor * x + 1 && Smoothed(c, factor)[b] == factor * y + 1;
    if x < y {
      MulLess(factor, x, y);
    } else {
      MulAtMost(factor, y, x);
    }
  }

  lemma MulAdd(f: nat, x: nat, y: nat)
    ensures f * (x + y) == f * x + f * y
  {
  }

  lemma MulLess(f: nat, x: nat, y: nat)
    requires f >= 1 && x < y
    ensures f * x < f * y
  {
  }

  lemma MulAtMost(f: nat, x: nat, y: nat)
    requires x <= y
    ensures f * x <= f * y
  {
  }

  // ---------------------------------------------------------------------------
  // Totals

  /** The sum of the counts of the bytes below `k`. */
  function SumBelow(c: Counter, k: nat): nat
    requires k <= 256
  {
    if k == 0 then 0 else SumBelow(c, k - 1) + Get(c, k - 1)
  }

  /** `Counter.total()`. */
  function Total(c: Counter): nat
  {
    SumBelow(c, 256)
  }

  lemma {:induction false} SumBelowBump(c: Counter, s: Byte, k: nat)
    requires k <= 256
    ensures SumBelow(Bump(c, s), k) == SumBelow(c, k) + if s < k then 1 else 0
  {
    if k > 0 {
      SumBelowBump(c, s, k - 1);
    }
  }

  /** Each count is part of the total. */
  lemma {:induction false} SumBelowCovers(c: Counter, s: Byte, k: nat)
    requires s < k <= 256
    ensures Get(c, s) <= SumBelow(c, k)
  {
    if s < k - 1 {
      SumBelowCovers(c, s, k - 1);
    }
  }

  lemma {:induction false} SumBelowSmoothed(c: Counter, factor: nat, k: nat)
    requires k <= 256
    ensures SumBelow(Smoothed(c, factor), k) == factor * SumBelow(c, k) + k
  {
    if k > 0 {
      SumBelowSmoothed(c, factor, k - 1);
      var r := Smoothed(c, factor);
      assert SumBelow(r, k) == SumBelow(r, k - 1) + factor * Get(c, k - 1) + 1;
      MulAdd(factor, SumBelow(c, k - 1), Get(c, k - 1));
    }
  }

  /** The total of `Counter(text)` is the length of the text. */
  lemma {:induction false} TotalCounts(text: seq<Byte>, c: Counter)
    requires forall s :: Get(c, s) == multiset(text)[s]
    ensures Total(c) == |text|
  {
    if text == [] {
      ZeroTotal(c, 256);
    } else {
      var init := text[..|text| - 1];
      var last := text[|text| - 1];
      assert text == init + [last];
      var c' := Occurrences(init);
      TotalCounts(init, c');
      SumBelowBump(c', last, 256);
      SameCounts(c, Bump(c', last), 256);
    }
  }

  lemma {:induction false} ZeroTotal(c: Counter, k: nat)
    requires k <= 256 && forall s :: Get(c, s) == 0
    ensures SumBelow(c, k) == 0
  {
    if k > 0 {
      ZeroTotal(c, k - 1);
    }
  }

  lemma {:induction false} SameCounts(c: Counter, d: Counter, k: nat)
    requires k <= 256 && forall s :: Get(c, s) == Get(d, s)
    ensures SumBelow(c, k) == SumBelow(d, k)
  {
    if k > 0 {
      SameCounts(c, d, k - 1);
    }
  }

  /** The total of a smoothed table: the scaled total plus one for each of the 256 bytes. */
  lemma TotalSmoothed(c: Counter, factor: nat)
    ensures Total(Smoothed(c, factor)) == factor * Total(c) + 256
  {
    SumBelowSmoothed(c, factor, 256);
  }

  // ---------------------------------------------------------------------------
  // What `encoding_probabilities_ranks` reports for one symbol

  /** `counter[symbol] / counter.total()`, as an exact fraction. */
  function Probability(c: Counter, s: Byte): real
    requires Total(c) > 0
  {
    Get(c, s) as real / Total(c) as real
  }

  /** A symbol of a full table has probability in (0, 1]. */
  lemma ProbabilityBounds(c: Counter, s: Byte)
    requires Full(c)
    ensures Total(c) >= 256 && 0.0 < Probability(c, s) <= 1.0
  {
    SumBelowCovers(c, s, 256);
    AtLeastOneEach(c, 256);
  }

  lemma {:induction false} AtLeastOneEach(c: Counter, k: nat)
    requires Full(c) && k <= 256
    ensures SumBelow(c, k) >= k
  {
    if k > 0 {
      AtLeastOneEach(c, k - 1);
    }
  }

  /** The symbols strictly heavier than `f`. */
  function Heavier(c: Counter, f: nat): set<Byte>
  {
    set s | s in c && c[s] > f
  }

  /** `len([sym for sym, freq in counter.items() if freq > f]) + 1`. */
  function Rank(c: Counter, f: nat): nat
  {
    |Heavier(c, f)| + 1
  }

  /** The bytes below `n`. */
  function BytesBelow(n: nat): (bs: set<Byte>)
    requires n <= 256
    ensures forall s: Byte :: s in bs <==> s < n
    ensures |bs| == n
  {
    if n == 0 then {} else BytesBelow(n - 1) + {n - 1}
  }

  lemma SubsetSize<T>(a: set<T>, b: set<T>)
    requires a <= b
    ensures |a| <= |b|
  {
    assert b == a + (b - a);
  }

  /** The rank of a symbol of a table lies between 1 and 256. */
  lemma RankBounds(c: Counter, s: Byte)
    requires s in c
    ensures 1 <= Rank(c, c[s]) <= 256
  {
    SubsetSize(c.Keys, BytesBelow(256));
    SubsetSize(Heavier(c, c[s]), c.Keys - {s});
  }

  /** Rank 1 exactly when no symbol is heavier. */
  lemma RankOne(c: Counter, f: nat)
    ensures Rank(c, f) == 1 <==> forall s :: s in c ==> c[s] <= f
  {
    if s :| s in c && c[s] > f {
      assert s in Heavier(c, f);
    }
  }

  /** A heavier symbol never ranks behind a lighter one. */
  lemma RankMonotone(c: Counter, f: nat, g: nat)
    requires f <= g
    ensures Rank(c, g) <= Rank(c, f)
  {
    SubsetSize(Heavier(c, g), Heavier(c, f));
  }

  // ---------------------------------------------------------------------------
  // The observations of `train`: each stub of `window - 1` bytes and the byte after it

  /** How many observations the training loop makes: `len(range(len(text) - window + 1))`. */
  function Observations(text: seq<Byte>, window: nat): nat
  {
    if |text| + 1 >= window then |text| + 1 - window else 0
  }

  /** The `(stub, completion)` pairs `train` counts, in order: `(text[i:i+window-1], text[i+window-1])`. */
  function Pairs(text: seq<Byte>, window: nat): (ps: seq<(seq<Byte>, Byte)>)
    requires window >= 1
    ensures |ps| == Observations(text, window)
    ensures forall i :: 0 <= i < |ps| ==> |ps[i].0| == window - 1
  {
    seq(Observations(text, window), i requires 0 <= i < Observations(text, window) =>
      (text[i..i + window - 1], text[i + window - 1]))
  }

  /** The completions of `stub` among the observations, as a `Counter`. */
  function Completions(ps: seq<(seq<Byte>, Byte)>, stub: seq<Byte>): (c: Counter)
    ensures forall s :: Get(c, s) == multiset(ps)[(stub, s)]
  {
    map s: Byte | 0 <= s < 256 && multiset(ps)[(stub, s)] > 0 :: multiset(ps)[(stub, s)]
  }

  /** The stubs that occur among the observations. */
  function Stubs(ps: seq<(seq<Byte>, Byte)>): set<seq<Byte>>
  {
    set i | 0 <= i < |ps| :: ps[i].0
  }

  /** `c` counts, for every byte, the observations of `stub` followed by it. */
  ghost predicate Counts(c: Counter, ps: seq<(seq<Byte>, Byte)>, stub: seq<Byte>)
  {
    forall s :: Get(c, s) == multiset(ps)[(stub, s)]
  }

  lemma StubsAppend(ps: seq<(seq<Byte>, Byte)>, p: (seq<Byte>, Byte))
    ensures Stubs(ps + [p]) == Stubs(ps) + {p.0}
  {
    var qs := ps + [p];
    assert qs[|ps|].0 == p.0;
    forall x | x in Stubs(ps)
      ensures x in Stubs(qs)
    {
      var i :| 0 <= i < |ps| && ps[i].0 == x;
      assert qs[i] == ps[i];
    }
  }

  /** Every observation names an observed stub. */
  lemma SeenStub(ps: seq<(seq<Byte>, Byte)>, p: (seq<Byte>, Byte))
    requires p in multiset(ps)
    ensures p.0 in Stubs(ps)
  {
    var i :| 0 <= i < |ps| && ps[i] == p;
    assert ps[i].0 in Stubs(ps);
  }

  /** A stub never observed has no completions. */
  lemma UnseenStub(ps: seq<(seq<Byte>, Byte)>, stub: seq<Byte>, s: Byte)
    requires stub !in Stubs(ps)
    ensures multiset(ps)[(stub, s)] == 0
  {
    if (stub, s) in multiset(ps) {
      SeenStub(ps, (stub, s));
    }
  }

  /** Every stub `train` observes has `window - 1` bytes. */
  lemma StubLength(text: seq<Byte>, window: nat, stub: seq<Byte>)
    requires window >= 1 && stub in Stubs(Pairs(text, window))
    ensures |stub| == window - 1
  {
    var ps := Pairs(text, window);
    var i :| 0 <= i < |ps| && ps[i].0 == stub;
  }

  /** Smoothing only looks at the counts. */
  lemma SameSmoothed(c: Counter, d: Counter, factor: nat)
    requires forall s :: Get(c, s) == Get(d, s)
    ensures Smoothed(c, factor) == Smoothed(d, factor)
  {
  }

  lemma SmoothedFull(c: Counter, factor: nat)
    ensures Full(Smoothed(c, factor))
  {
  }

  /** The per-stub table after `train`: every byte, weighted `1000000 * count + 1`. */
  function StubTable(text: seq<Byte>, window: nat, stub: seq<Byte>): (c: Counter)
    requires window >= 1
  {
    Smoothed(Completions(Pairs(text, window), stub), 1000000)
  }

  /**
   * The first loop of `train`: for each observation, add one to the count of
   * its completion in its stub's `Counter`, creating the `Counter` the first
   * time the stub is seen.
   */
  method CountCompletions(text: seq<Byte>, window: nat) returns (raw: map<seq<Byte>, Counter>)
    requires window >= 1
    ensures raw.Keys == Stubs(Pairs(text, window))
    ensures forall stub :: stub in raw ==> Counts(raw[stub], Pairs(text, window), stub)
  {
    ghost var ps := Pairs(text, window);
    raw := map[];
    var n := Observations(text, window);
    for i := 0 to n
      invariant raw.Keys == Stubs(ps[..i])
      invariant forall stub :: stub in raw ==> Counts(raw[stub], ps[..i], stub)
    {
      var stub := text[i..i + window - 1];
      var next := text[i + window - 1];
      assert ps[i] == (stub, next);
      assert ps[..i + 1] == ps[..i] + [(stub, next)];
      CountOne(raw, ps[..i], (stub, next));
      if stub in raw {
        raw := raw[stub := Bump(raw[stub], next)];
      } else {
        raw := raw[stub := Bump(map[], next)];
      }
    }
    assert ps[..n] == ps;
  }

  /** Counting one more observation: its stub's `Counter`, new or not, counts one more of its completion. */
  lemma CountOne(raw: map<seq<Byte>, Counter>, ps: seq<(seq<Byte>, Byte)>, p: (seq<Byte>, Byte))
    requires raw.Keys == Stubs(ps)
    requires forall stub :: stub in raw ==> Counts(raw[stub], ps, stub)
    ensures var raw' := raw[p.0 := Bump(if p.0 in raw then raw[p.0] else map[], p.1)];
            && raw'.Keys == Stubs(ps + [p])
            && forall stub :: stub in raw' ==> Counts(raw'[stub], ps + [p], stub)
  {
    StubsAppend(ps, p);
    if p.0 !in raw {
      forall s ensures multiset(ps)[(p.0, s)] == 0 {
        UnseenStub(ps, p.0, s);
      }
    }
  }

  /** The second loop of `train`: every stub's `Counter` scaled by `factor`, then one more of every byte. */
  method SmoothEach(raw: map<seq<Byte>, Counter>, factor: nat) returns (tables: map<seq<Byte>, Counter>)
    ensures tables.Keys == raw.Keys
    ensures forall stub :: stub in tables ==> tables[stub] == Smoothed(raw[stub], factor)
  {
    tables := raw;
    var pending := raw.Keys;
    while pending != {}
      invariant pending <= tables.Keys && tables.Keys == raw.Keys
      invariant forall stub :: stub in tables ==>
                  tables[stub] == if stub in pending then raw[stub] else Smoothed(raw[stub], factor)
      decreases |pending|
    {
      var stub :| stub in pending;
      var table := Smooth(tables[stub], factor);
      tables := tables[stub := table];
      pending := pending - {stub};
    }
  }

  /** The global table after `train`: every byte, weighted `count + 1` (no scaling). */
  function ByteTable(text: seq<Byte>): (c: Counter)
  {
    Smoothed(Occurrences(text), 1)
  }

  /**
   * The per-stub table counts, for every byte, the observations of that
   * stub followed by that byte, a million times over plus one; its total is
   * a million per observation of the stub plus 256.
   */
  lemma StubTableCounts(text: seq<Byte>, window: nat, stub: seq<Byte>, s: Byte)
    requires window >= 1
    ensures var c := StubTable(text, window, stub);
            && Full(c)
            && c[s] == 1000000 * multiset(Pairs(text, window))[(stub, s)] + 1
            && Total(c) == 1000000 * StubOccurrences(Pairs(text, window), stub) + 256
  {
    var ps := Pairs(text, window);
    SmoothedFull(Completions(ps, stub), 1000000);
    TotalSmoothed(Completions(ps, stub), 1000000);
    CompletionsTotal(ps, stub);
  }

  /** How many observations have stub `stub`. */
  function StubOccurrences(ps: seq<(seq<Byte>, Byte)>, stub: seq<Byte>): nat
  {
    if ps == [] then 0
    else StubOccurrences(ps[..|ps| - 1], stub) + if ps[|ps| - 1].0 == stub then 1 else 0
  }

  /** The completions of a stub add up to its number of observations. */
  lemma {:induction false} CompletionsTotal(ps: seq<(seq<Byte>, Byte)>, stub: seq<Byte>)
    ensures Total(Completions(ps, stub)) == StubOccurrences(ps, stub)
  {
    if ps == [] {
      ZeroTotal(Completions(ps, stub), 256);
    } else {
      var init := ps[..|ps| - 1];
      var last := ps[|ps| - 1];
      assert ps == init + [last];
      CompletionsTotal(init, stub);
      if last.0 == stub {
        SumBelowBump(Completions(init, stub), last.1, 256);
        SameCounts(Completions(ps, stub), Bump(Completions(init, stub), last.1), 256);
      } else {
        SameCounts(Completions(ps, stub), Completions(init, stub), 256);
      }
    }
  }

  /** The global table counts each byte of the text once plus one; its total is the length plus 256. */
  lemma ByteTableCounts(text: seq<Byte>, s: Byte)
    ensures var c := ByteTable(text);
            && Full(c)
            && c[s] == multiset(text)[s] + 1
            && Total(c) == |text| + 256
  {
    var counts := Occurrences(text);
    SmoothedFull(counts, 1);
    TotalCounts(text, counts);
    TotalSmoothed(counts, 1);
  }
}
