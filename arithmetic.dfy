/**
 * The arithmetic (range) code over a weighted byte alphabet. Probabilities are
 * exact reals: the cut points are cumulative sums of `weight / total` in
 * descending (probability, symbol) order; a symbol is encoded as the numerator
 * of the coarsest closed dyadic cell that lies inside its interval without
 * reaching the interval's end;
 * decoding grows a binary fraction until one interval holds its whole cell.
 */
module Arithmetic {
  import opened Bits

  /** One entry of `steps`: a cut point and the symbol whose interval ends there (256 for the leading entry). */
  datatype Cut = Cut(cum: real, sym: int)

  /** A built code: the cut points and the table `intervals` from symbol to `[start, end)`. */
  datatype ArithmeticCode = ArithmeticCode(steps: seq<Cut>, intervals: map<Byte, (real, real)>)

  /** At least one symbol and every weight positive (the tables the predictor builds). */
  predicate Usable(w: map<Byte, nat>)
  {
    |w| > 0 && forall s :: s in w ==> w[s] > 0
  }

  // ---------------------------------------------------------------------------
  // Sorting the (probability, symbol) pairs, `intervals.sort(reverse=True)`

  /**
   * `a` comes before `b` in the descending sort of `(weight / total, symbol)`
   * pairs. Dividing by the same positive total keeps the order of the weights,
   * so the weights are compared directly.
   */
  predicate Before(w: map<Byte, nat>, a: Byte, b: Byte)
    requires a in w && b in w
  {
    w[a] > w[b] || (w[a] == w[b] && a > b)
  }

  predicate Descending(w: map<Byte, nat>, s: seq<Byte>)
  {
    && (forall i :: 0 <= i < |s| ==> s[i] in w)
    && (forall i, j :: 0 <= i < j < |s| ==> Before(w, s[i], s[j]))
  }

  /** The sum of the weights of the symbols in `s`. */
  function Weight(w: map<Byte, nat>, s: seq<Byte>): nat
    requires forall i :: 0 <= i < |s| ==> s[i] in w
  {
    if s == [] then 0 else Weight(w, s[..|s| - 1]) + w[s[|s| - 1]]
  }

  lemma {:induction false} WeightPrepend(w: map<Byte, nat>, x: Byte, s: seq<Byte>)
    requires x in w && forall i :: 0 <= i < |s| ==> s[i] in w
    ensures Weight(w, [x] + s) == w[x] + Weight(w, s)
  {
    if s != [] {
      assert ([x] + s)[..|s|] == [x] + s[..|s| - 1];
      WeightPrepend(w, x, s[..|s| - 1]);
    }
  }

  lemma DescendingPrepend(w: map<Byte, nat>, x: Byte, s: seq<Byte>)
    requires x in w && Descending(w, s)
    requires forall j :: 0 <= j < |s| ==> Before(w, x, s[j])
    ensures Descending(w, [x] + s)
  {
    forall i, j | 0 <= i < j < |[x] + s| ensures Before(w, ([x] + s)[i], ([x] + s)[j]) {
      if i > 0 {
        assert ([x] + s)[i] == s[i - 1];
      }
      assert ([x] + s)[j] == s[j - 1];
    }
  }

  function Insert(w: map<Byte, nat>, x: Byte, s: seq<Byte>): (r: seq<Byte>)
    requires x in w && Descending(w, s) && x !in s
    ensures Descending(w, r) && |r| == |s| + 1
    ensures forall y :: y in r <==> y == x || y in s
    ensures Weight(w, r) == w[x] + Weight(w, s)
  {
    if s == [] || Before(w, x, s[0]) then
      WeightPrepend(w, x, s);
      DescendingPrepend(w, x, s);
      [x] + s
    else
      assert Descending(w, s[1..]) && x !in s[1..];
      var r' := Insert(w, x, s[1..]);
      assert s == [s[0]] + s[1..];
      assert forall j :: 0 <= j < |r'| ==> Before(w, s[0], r'[j]) by {
        forall j | 0 <= j < |r'| ensures Before(w, s[0], r'[j]) {
          assert r'[j] in r';
        }
      }
      WeightPrepend(w, s[0], s[1..]);
      WeightPrepend(w, s[0], r');
      DescendingPrepend(w, s[0], r');
      [s[0]] + r'
  }

  /** `list.sort(reverse=True)` on distinct symbols, by insertion. */
  function SortDescending(w: map<Byte, nat>, s: seq<Byte>): (r: seq<Byte>)
    requires forall i :: 0 <= i < |s| ==> s[i] in w
    requires forall i, j :: 0 <= i < j < |s| ==> s[i] != s[j]
    ensures Descending(w, r) && |r| == |s|
    ensures forall y :: y in r <==> y in s
    ensures Weight(w, r) == Weight(w, s)
  {
    if s == [] then []
    else
      var r' := SortDescending(w, s[1..]);
      assert s == [s[0]] + s[1..];
      WeightPrepend(w, s[0], s[1..]);
      Insert(w, s[0], r')
  }

  // ---------------------------------------------------------------------------
  // The cut points

  ghost predicate SymbolsAreBytes(steps: seq<Cut>)
  {
    forall i :: 1 <= i < |steps| ==> 0 <= steps[i].sym < 256
  }

  /** The symbols of `steps` after the leading entry, in order. */
  function Order(steps: seq<Cut>): (order: seq<Byte>)
    requires |steps| >= 1 && SymbolsAreBytes(steps)
    ensures |order| == |steps| - 1
    ensures forall i :: 0 <= i < |order| ==> order[i] as int == steps[i + 1].sym
  {
    seq(|steps| - 1, i requires 0 <= i < |steps| - 1 => steps[i + 1].sym as Byte)
  }

  /** The comprehension building `self.intervals`: the symbol of entry `i` owns `[steps[i-1], steps[i])`. */
  function Intervals(steps: seq<Cut>): map<Byte, (real, real)>
    requires SymbolsAreBytes(steps)
  {
    if |steps| <= 1 then map[]
    else
      var last := |steps| - 1;
      Intervals(steps[..last])[steps[last].sym as Byte := (steps[last - 1].cum, steps[last].cum)]
  }

  /** With distinct symbols, entry `i`'s symbol keeps the interval that entry `i` gives it. */
  lemma {:induction false} IntervalsAt(steps: seq<Cut>, i: nat)
    requires SymbolsAreBytes(steps) && 1 <= i < |steps|
    requires forall i, j :: 1 <= i < j < |steps| ==> steps[i].sym != steps[j].sym
    ensures steps[i].sym as Byte in Intervals(steps)
    ensures Intervals(steps)[steps[i].sym as Byte] == (steps[i - 1].cum, steps[i].cum)
  {
    if i < |steps| - 1 {
      IntervalsAt(steps[..|steps| - 1], i);
    }
  }

  /** The interval table has exactly the symbols of the entries after the leading one. */
  lemma {:induction false} IntervalsKeys(steps: seq<Cut>, s: Byte)
    requires SymbolsAreBytes(steps)
    ensures s in Intervals(steps) <==> exists i :: 1 <= i < |steps| && steps[i].sym == s as int
  {
    if |steps| > 1 {
      var init := steps[..|steps| - 1];
      IntervalsKeys(init, s);
      if s in Intervals(init) {
        var i :| 1 <= i < |init| && init[i].sym == s as int;
        assert steps[i].sym == s as int;
      }
    }
  }

  /**
   * The shape `ArithmeticCode.__init__` gives the code for `w`: a leading
   * `(0, 256)`, then one entry per symbol in descending (weight, symbol)
   * order, and the interval table read off the entries.
   */
  ghost predicate Arranged(c: ArithmeticCode, w: map<Byte, nat>)
  {
    && Usable(w)
    && |c.steps| == |w| + 1
    && c.steps[0] == Cut(0.0, 256)
    && SymbolsAreBytes(c.steps)
    && Descending(w, Order(c.steps))
    && (forall s :: s in w <==> s in Order(c.steps))
    && (forall i, j :: 1 <= i < j < |c.steps| ==> c.steps[i].sym != c.steps[j].sym)
    && c.intervals == Intervals(c.steps)
  }

  /** The values of the cut points. */
  function Cums(steps: seq<Cut>): (r: seq<real>)
    ensures |r| == |steps| && forall i :: 0 <= i < |steps| ==> r[i] == steps[i].cum
  {
    seq(|steps|, i requires 0 <= i < |steps| => steps[i].cum)
  }

  /** The loop of `ArithmeticCode.__init__`: start at 0 and add `w[s] / total` for each symbol in turn. */
  function RunningSums(w: map<Byte, nat>, order: seq<Byte>, total: real): (r: seq<real>)
    requires forall i :: 0 <= i < |order| ==> order[i] in w
    requires total > 0.0
    ensures |r| == |order| + 1
  {
    if order == [] then [0.0]
    else
      var r := RunningSums(w, order[..|order| - 1], total);
      r + [r[|r| - 1] + w[order[|order| - 1]] as real / total]
  }

  /** Each cut point sits at the running sum of the probabilities of the symbols up to it. */
  ghost predicate Spaced(steps: seq<Cut>, w: map<Byte, nat>)
  {
    && Usable(w)
    && |steps| >= 1
    && SymbolsAreBytes(steps)
    && (forall i :: 0 <= i < |Order(steps)| ==> Order(steps)[i] in w)
    && Weight(w, Order(steps)) > 0
    && Cums(steps) == RunningSums(w, Order(steps), Weight(w, Order(steps)) as real)
  }

  /** The code `ArithmeticCode.__init__` builds for `w`: arranged, each cut at the running sum of probabilities. */
  ghost predicate LaidOut(c: ArithmeticCode, w: map<Byte, nat>)
  {
    Arranged(c, w) && Spaced(c.steps, w)
  }

  ghost predicate Increasing(steps: seq<Cut>)
  {
    forall i, j :: 0 <= i < j < |steps| ==> steps[i].cum < steps[j].cum
  }

  /** What encoding and decoding rely on: arranged, with cut points rising strictly to 1. */
  ghost predicate Ordered(c: ArithmeticCode, w: map<Byte, nat>)
  {
    && Arranged(c, w)
    && Increasing(c.steps)
    && c.steps[|c.steps| - 1].cum == 1.0
  }

  lemma DivAdd(a: real, b: real, t: real)
    requires t > 0.0
    ensures a / t + b / t == (a + b) / t
  {
  }

  /** The symbols of `probability_dict.items()`, in whatever order the dictionary yields them. */
  method Items(w: map<Byte, nat>) returns (items: seq<Byte>)
    ensures forall s :: s in items <==> s in w
    ensures forall i, j :: 0 <= i < j < |items| ==> items[i] != items[j]
    ensures |items| == |w|
  {
    items := [];
    var rest := w.Keys;
    while rest != {}
      invariant rest <= w.Keys
      invariant forall s :: s in items <==> s in w && s !in rest
      invariant forall i, j :: 0 <= i < j < |items| ==> items[i] != items[j]
      invariant |items| + |rest| == |w|
    {
      var s :| s in rest;
      items := items + [s];
      rest := rest - {s};
    }
  }

  /** The symbols of `intervals` after `intervals.sort(reverse=True)`. */
  method SortedSymbols(w: map<Byte, nat>) returns (order: seq<Byte>)
    ensures Descending(w, order) && |order| == |w|
    ensures forall s :: s in order <==> s in w
  {
    var items := Items(w);
    order := SortDescending(w, items);
  }

  lemma WeightPositive(w: map<Byte, nat>, s: seq<Byte>)
    requires Usable(w) && s != [] && forall i :: 0 <= i < |s| ==> s[i] in w
    ensures Weight(w, s) > 0
  {
  }

  /** `ArithmeticCode.__init__`. */
  method NewArithmeticCode(w: map<Byte, nat>) returns (c: ArithmeticCode)
    requires Usable(w)
    ensures LaidOut(c, w)
  {
    var order := SortedSymbols(w);
    var total := Weight(w, order);
    WeightPositive(w, order);
    var steps := CutPoints(w, order, total);
    assert SymbolsAreBytes(steps);
    c := ArithmeticCode(steps, Intervals(steps));
    CutPointsLaidOut(w, order, c);
  }

  lemma CutPointsLaidOut(w: map<Byte, nat>, order: seq<Byte>, c: ArithmeticCode)
    requires Usable(w) && Descending(w, order) && |order| == |w|
    requires forall s :: s in order <==> s in w
    requires Weight(w, order) > 0
    requires |c.steps| == |order| + 1 && c.steps[0] == Cut(0.0, 256)
    requires forall j :: 1 <= j < |c.steps| ==> c.steps[j].sym == order[j - 1] as int
    requires Cums(c.steps) == RunningSums(w, order, Weight(w, order) as real)
    requires SymbolsAreBytes(c.steps) && c.intervals == Intervals(c.steps)
    ensures LaidOut(c, w)
  {
    var steps := c.steps;
    assert Order(steps) == order;
    assert forall i, j :: 1 <= i < j < |steps| ==> steps[i].sym != steps[j].sym by {
      forall i, j | 1 <= i < j < |steps| ensures steps[i].sym != steps[j].sym {
        assert Before(w, order[i - 1], order[j - 1]);
      }
    }
  }

  /** The loop of `ArithmeticCode.__init__` appending one cut point per symbol of the sorted order. */
  method CutPoints(w: map<Byte, nat>, order: seq<Byte>, total: nat) returns (steps: seq<Cut>)
    requires forall j :: 0 <= j < |order| ==> order[j] in w
    requires total > 0
    ensures |steps| == |order| + 1 && steps[0] == Cut(0.0, 256)
    ensures forall j :: 1 <= j < |steps| ==> steps[j].sym == order[j - 1] as int
    ensures Cums(steps) == RunningSums(w, order, total as real)
  {
    steps := [Cut(0.0, 256)];
    var i := 0;
    while i < |order|
      invariant 0 <= i <= |order|
      invariant |steps| == i + 1 && steps[0] == Cut(0.0, 256)
      invariant forall j :: 1 <= j <= i ==> steps[j].sym == order[j - 1] as int
      invariant Cums(steps) == RunningSums(w, order[..i], total as real)
    {
      var probability := w[order[i]] as real / total as real;
      var cut := Cut(steps[i].cum + probability, order[i] as int);
      RunningSumsExtend(w, order, total as real, i);
      assert Cums(steps + [cut]) == Cums(steps) + [cut.cum];
      steps := steps + [cut];
      i := i + 1;
    }
    assert order[..i] == order;
  }

  lemma RunningSumsExtend(w: map<Byte, nat>, order: seq<Byte>, total: real, i: nat)
    requires forall j :: 0 <= j < |order| ==> order[j] in w
    requires total > 0.0 && i < |order|
    ensures RunningSums(w, order[..i + 1], total) ==
            RunningSums(w, order[..i], total) + [RunningSums(w, order[..i], total)[i] + w[order[i]] as real / total]
  {
    assert order[..i + 1][..i] == order[..i];
  }

  // ---------------------------------------------------------------------------
  // Properties of the cut points

  lemma RunningSum(cur: real, prev: real, a: nat, b: nat, t: real)
    requires t > 0.0 && prev == a as real / t && cur == prev + b as real / t
    ensures cur == (a + b) as real / t
  {
    DivAdd(a as real, b as real, t);
  }

  lemma DivLess(a: real, b: real, t: real)
    requires t > 0.0 && a < b
    ensures a / t < b / t
  {
  }

  lemma {:induction false} WeightPrefixIncreasing(w: map<Byte, nat>, s: seq<Byte>, i: nat, j: nat)
    requires Usable(w) && forall k :: 0 <= k < |s| ==> s[k] in w
    requires i < j <= |s|
    ensures Weight(w, s[..i]) < Weight(w, s[..j])
  {
    assert s[..j][..j - 1] == s[..j - 1];
    if i < j - 1 {
      WeightPrefixIncreasing(w, s, i, j - 1);
    }
  }

  /** Entry `i` of the running sums is the weight of the first `i` symbols over the total. */
  lemma {:induction false} RunningSumsArePrefixSums(w: map<Byte, nat>, order: seq<Byte>, total: nat, i: nat)
    requires forall j :: 0 <= j < |order| ==> order[j] in w
    requires total > 0 && i <= |order|
    ensures RunningSums(w, order, total as real)[i] == Weight(w, order[..i]) as real / total as real
  {
    if order == [] {
      assert order[..0] == [];
    } else {
      var init := order[..|order| - 1];
      if i == |order| {
        RunningSumsArePrefixSums(w, init, total, i - 1);
        assert init[..i - 1] == init;
        assert order[..i] == order;
        RunningSum(RunningSums(w, order, total as real)[i], RunningSums(w, init, total as real)[i - 1],
                   Weight(w, init), w[order[i - 1]], total as real);
      } else {
        RunningSumsArePrefixSums(w, init, total, i);
        assert init[..i] == order[..i];
      }
    }
  }

  /** Each running sum adds the next symbol's probability to the one before. */
  lemma {:induction false} RunningSumsStep(w: map<Byte, nat>, order: seq<Byte>, total: real, i: nat)
    requires forall j :: 0 <= j < |order| ==> order[j] in w
    requires total > 0.0 && 1 <= i <= |order|
    ensures RunningSums(w, order, total)[i] == RunningSums(w, order, total)[i - 1] + w[order[i - 1]] as real / total
  {
    if i < |order| {
      var init := order[..|order| - 1];
      RunningSumsStep(w, init, total, i);
    }
  }

  /** Cut point `i` is the total probability of the `i` heaviest symbols. */
  lemma {:induction false} CutIsPrefixSum(steps: seq<Cut>, w: map<Byte, nat>, i: nat)
    requires Spaced(steps, w) && i < |steps|
    ensures steps[i].cum == Weight(w, Order(steps)[..i]) as real / Weight(w, Order(steps)) as real
  {
    assert steps[i].cum == Cums(steps)[i];
    RunningSumsArePrefixSums(w, Order(steps), Weight(w, Order(steps)), i);
  }

  /** The cut points strictly increase from 0 to exactly 1. */
  lemma {:induction false} CutsIncrease(c: ArithmeticCode, w: map<Byte, nat>)
    requires LaidOut(c, w)
    ensures Ordered(c, w)
  {
    LastCutIsOne(c.steps, w);
    forall i, j | 0 <= i < j < |c.steps| ensures c.steps[i].cum < c.steps[j].cum {
      CutBelow(c.steps, w, i, j);
    }
  }

  lemma {:induction false} LastCutIsOne(steps: seq<Cut>, w: map<Byte, nat>)
    requires Spaced(steps, w)
    ensures steps[|steps| - 1].cum == 1.0
  {
    var order := Order(steps);
    assert order[..|order|] == order;
    CutIsPrefixSum(steps, w, |order|);
    FractionOne(steps[|order|].cum, Weight(w, order));
  }

  lemma {:induction false} CutBelow(steps: seq<Cut>, w: map<Byte, nat>, i: nat, j: nat)
    requires Spaced(steps, w) && i < j < |steps|
    ensures steps[i].cum < steps[j].cum
  {
    var order := Order(steps);
    WeightPrefixIncreasing(w, order, i, j);
    CutIsPrefixSum(steps, w, i);
    CutIsPrefixSum(steps, w, j);
    FractionLess(steps[i].cum, steps[j].cum, Weight(w, order[..i]), Weight(w, order[..j]), Weight(w, order));
  }

  lemma FractionOne(x: real, t: nat)
    requires t > 0 && x == t as real / t as real
    ensures x == 1.0
  {
  }

  lemma FractionLess(x: real, y: real, a: nat, b: nat, t: nat)
    requires t > 0 && a < b && x == a as real / t as real && y == b as real / t as real
    ensures x < y
  {
    DivLess(a as real, b as real, t as real);
  }

  /** Where each symbol sits: entry `i` carries `s`, and `s`'s interval is `[steps[i-1], steps[i])`. */
  lemma {:induction false} Position(c: ArithmeticCode, w: map<Byte, nat>, s: Byte) returns (i: nat)
    requires Arranged(c, w) && s in w
    ensures 1 <= i < |c.steps| && c.steps[i].sym == s as int
    ensures s in c.intervals && c.intervals[s] == (c.steps[i - 1].cum, c.steps[i].cum)
  {
    var order := Order(c.steps);
    var k :| 0 <= k < |order| && order[k] == s;
    i := k + 1;
    assert c.steps[i].sym as Byte == s;
    IntervalsAt(c.steps, i);
  }

  /** Each symbol's interval is as wide as its probability `w[s] / total`. */
  lemma {:induction false} IntervalWidth(c: ArithmeticCode, w: map<Byte, nat>, s: Byte)
    requires LaidOut(c, w) && s in w
    ensures s in c.intervals
    ensures c.intervals[s].1 - c.intervals[s].0 == w[s] as real / Weight(w, Order(c.steps)) as real
  {
    var i := Position(c, w, s);
    assert Order(c.steps)[i - 1] == s;
    assert c.steps[i].cum == Cums(c.steps)[i] && c.steps[i - 1].cum == Cums(c.steps)[i - 1];
    RunningSumsStep(w, Order(c.steps), Weight(w, Order(c.steps)) as real, i);
  }

  /** `bisect_right(steps, (x, +inf))`: the number of cut points at or below `x`. */
  function CountAtMost(steps: seq<Cut>, x: real): (n: nat)
    ensures n <= |steps|
  {
    if steps == [] then 0
    else CountAtMost(steps[..|steps| - 1], x) + if steps[|steps| - 1].cum <= x then 1 else 0
  }

  /** `bisect_left(steps, (y, -inf))`: the number of cut points strictly below `y`. */
  function CountBelow(steps: seq<Cut>, y: real): (n: nat)
    ensures n <= |steps|
  {
    if steps == [] then 0
    else CountBelow(steps[..|steps| - 1], y) + if steps[|steps| - 1].cum < y then 1 else 0
  }

  /** On increasing cut points, `CountAtMost` is `k` exactly when `x` lies in `[steps[k-1], steps[k])`. */
  lemma {:induction false} CountAtMostIs(steps: seq<Cut>, x: real, k: nat)
    requires Increasing(steps) && k <= |steps|
    ensures CountAtMost(steps, x) == k <==>
            (k == 0 || steps[k - 1].cum <= x) && (k == |steps| || x < steps[k].cum)
  {
    if steps != [] {
      var init := steps[..|steps| - 1];
      var last := steps[|steps| - 1];
      if last.cum <= x {
        if k > 0 { CountAtMostIs(init, x, k - 1); }
        CountAtMostAll(steps, x);
      } else {
        if k < |steps| { CountAtMostIs(init, x, k); }
      }
    }
  }

  lemma {:induction false} CountAtMostAll(steps: seq<Cut>, x: real)
    requires Increasing(steps) && steps != [] && steps[|steps| - 1].cum <= x
    ensures CountAtMost(steps, x) == |steps|
  {
    var init := steps[..|steps| - 1];
    if init != [] {
      CountAtMostAll(init, x);
    }
  }

  /** On increasing cut points, `CountBelow` is `k` exactly when `y` lies in `(steps[k-1], steps[k]]`. */
  lemma {:induction false} CountBelowIs(steps: seq<Cut>, y: real, k: nat)
    requires Increasing(steps) && k <= |steps|
    ensures CountBelow(steps, y) == k <==>
            (k == 0 || steps[k - 1].cum < y) && (k == |steps| || y <= steps[k].cum)
  {
    if steps != [] {
      var init := steps[..|steps| - 1];
      var last := steps[|steps| - 1];
      if last.cum < y {
        if k > 0 { CountBelowIs(init, y, k - 1); }
        CountBelowAll(steps, y);
      } else {
        if k < |steps| { CountBelowIs(init, y, k); }
      }
    }
  }

  lemma {:induction false} CountBelowAll(steps: seq<Cut>, y: real)
    requires Increasing(steps) && steps != [] && steps[|steps| - 1].cum < y
    ensures CountBelow(steps, y) == |steps|
  {
    var init := steps[..|steps| - 1];
    if init != [] {
      CountBelowAll(init, y);
    }
  }

  /** The intervals partition [0, 1): every point lies in the interval of exactly one entry. */
  lemma {:induction false} Partition(c: ArithmeticCode, w: map<Byte, nat>, x: real)
    requires Ordered(c, w) && 0.0 <= x < 1.0
    ensures var i := CountAtMost(c.steps, x);
            1 <= i < |c.steps| && c.steps[i - 1].cum <= x < c.steps[i].cum
    ensures forall j :: 1 <= j < |c.steps| && c.steps[j - 1].cum <= x < c.steps[j].cum ==>
              j == CountAtMost(c.steps, x)
  {
    var i := CountAtMost(c.steps, x);
    CountAtMostIs(c.steps, x, i);
    forall j | 1 <= j < |c.steps| && c.steps[j - 1].cum <= x < c.steps[j].cum
      ensures j == i
    {
      CountAtMostIs(c.steps, x, j);
    }
  }
}
