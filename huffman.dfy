/**
 * The Huffman prefix code over a weighted byte alphabet: a full binary tree
 * built by repeatedly merging the two lightest entries, a symbol-to-path
 * table read off the tree, and bit-by-bit decoding by walking the tree.
 */
module Huffman {
  import opened Bits

  /** A merged node is `{0: first popped, 1: second popped}`; a leaf is a bare symbol. */
  datatype Tree = Leaf(sym: Byte) | Node(zero: Tree, one: Tree)

  /** An element of the heap: the accumulated weight and the subtree it stands for. */
  datatype Entry = Entry(weight: nat, tree: Tree)

  /** A built code: its tree and the table `symbol_encoding` derived from it. */
  datatype HuffmanCode = HuffmanCode(tree: Tree, table: map<Byte, seq<Bit>>)

  function Child(t: Tree, b: Bit): Tree
    requires t.Node?
  {
    if b == 0 then t.zero else t.one
  }

  /** The leaves of a tree, counted with multiplicity. */
  function Leaves(t: Tree): multiset<Byte>
  {
    match t
    case Leaf(s) => multiset{s}
    case Node(z, o) => Leaves(z) + Leaves(o)
  }

  /** The symbols on the leaves of a tree. */
  function Symbols(t: Tree): set<Byte>
  {
    match t
    case Leaf(s) => {s}
    case Node(z, o) => Symbols(z) + Symbols(o)
  }

  lemma {:induction false} SymbolsAreLeaves(t: Tree)
    ensures forall s :: s in Leaves(t) <==> s in Symbols(t)
  {
    if t.Node? {
      SymbolsAreLeaves(t.zero);
      SymbolsAreLeaves(t.one);
    }
  }

  /** No symbol labels two leaves. */
  ghost predicate Distinct(t: Tree)
  {
    match t
    case Leaf(_) => true
    case Node(z, o) => Distinct(z) && Distinct(o) && Symbols(z) !! Symbols(o)
  }

  lemma {:induction false} DistinctFromCounts(t: Tree)
    requires forall s :: Leaves(t)[s] <= 1
    ensures Distinct(t)
  {
    match t
    case Leaf(_) =>
    case Node(z, o) =>
      forall s ensures Leaves(z)[s] <= 1 && Leaves(o)[s] <= 1 {
        assert Leaves(t)[s] == Leaves(z)[s] + Leaves(o)[s];
      }
      DistinctFromCounts(z);
      DistinctFromCounts(o);
      SymbolsAreLeaves(z);
      SymbolsAreLeaves(o);
      forall s | s in Symbols(z) ensures s !in Symbols(o) {
        assert Leaves(t)[s] == Leaves(z)[s] + Leaves(o)[s];
      }
  }

  /** All leaves of the heap entries together. */
  function Forest(es: seq<Entry>): multiset<Byte>
  {
    if es == [] then multiset{} else Forest(es[..|es| - 1]) + Leaves(es[|es| - 1].tree)
  }

  lemma {:induction false} ForestAppend(a: seq<Entry>, b: seq<Entry>)
    ensures Forest(a + b) == Forest(a) + Forest(b)
  {
    if b != [] {
      assert (a + b)[..|a + b| - 1] == a + b[..|b| - 1];
      ForestAppend(a, b[..|b| - 1]);
    } else {
      assert a + b == a;
    }
  }

  /** Removing entry `i` removes exactly its leaves from the forest. */
  lemma {:induction false} ForestRemove(es: seq<Entry>, i: nat)
    requires i < |es|
    ensures Forest(es) == Forest(es[..i] + es[i + 1..]) + Leaves(es[i].tree)
  {
    var a, x, b := es[..i], [es[i]], es[i + 1..];
    assert es == (a + x) + b;
    ForestAppend(a + x, b);
    ForestAppend(a, x);
    ForestAppend(a, b);
    assert Forest(x) == Leaves(es[i].tree) by {
      assert x[..0] == [];
    }
    calc {
      Forest(es);
      Forest(a) + Forest(x) + Forest(b);
      (Forest(a) + Forest(b)) + Forest(x);
    }
  }

  predicate IsLightest(es: seq<Entry>, i: int)
  {
    0 <= i < |es| && forall j :: 0 <= j < |es| ==> es[i].weight <= es[j].weight
  }

  lemma {:induction false} LightestExists(es: seq<Entry>)
    requires |es| > 0
    ensures exists i :: IsLightest(es, i)
  {
    if |es| == 1 {
      assert IsLightest(es, 0);
    } else {
      var init := es[..|es| - 1];
      LightestExists(init);
      var i :| IsLightest(init, i);
      if es[i].weight <= es[|es| - 1].weight {
        assert IsLightest(es, i);
      } else {
        assert IsLightest(es, |es| - 1);
      }
    }
  }

  /**
   * `heappop`: removes an entry of least weight. Which of several equally light
   * entries goes first is decided in the source by a random tie-break; here it
   * is left open.
   */
  method PopLightest(es: seq<Entry>) returns (e: Entry, rest: seq<Entry>)
    requires |es| > 0
    ensures forall j :: 0 <= j < |es| ==> e.weight <= es[j].weight
    ensures e in es && |rest| == |es| - 1
    ensures forall f :: f in rest ==> f in es
    ensures Forest(es) == Forest(rest) + Leaves(e.tree)
  {
    LightestExists(es);
    var i :| IsLightest(es, i);
    e, rest := es[i], es[..i] + es[i + 1..];
    ForestRemove(es, i);
  }

  /** The list of one weighted leaf per symbol that `HuffmanCode.__init__` heapifies. */
  method LeafEntries(weights: map<Byte, nat>) returns (pairs: seq<Entry>)
    ensures |pairs| == |weights|
    ensures Forest(pairs) == multiset(weights.Keys)
    ensures forall e :: e in pairs ==> e.tree.Leaf? && e.tree.sym in weights && e.weight == weights[e.tree.sym]
  {
    pairs := [];
    var rest := weights.Keys;
    while rest != {}
      invariant rest <= weights.Keys
      invariant |pairs| + |rest| == |weights|
      invariant Forest(pairs) + multiset(rest) == multiset(weights.Keys)
      invariant forall e :: e in pairs ==> e.tree.Leaf? && e.tree.sym in weights && e.weight == weights[e.tree.sym]
    {
      var s :| s in rest;
      var e := Entry(weights[s], Leaf(s));
      assert Forest(pairs + [e]) == Forest(pairs) + multiset{s} by {
        assert (pairs + [e])[..|pairs|] == pairs;
      }
      assert multiset(rest - {s}) + multiset{s} == multiset(rest) by {
        assert rest == (rest - {s}) + {s};
      }
      pairs := pairs + [e];
      rest := rest - {s};
    }
  }

  /**
   * The tree-building loop of `HuffmanCode.__init__`: one leaf entry per
   * symbol, then merge the two lightest entries until one is left.
   */
  method BuildTree(weights: map<Byte, nat>) returns (t: Tree)
    requires |weights| >= 2
    ensures t.Node?
    ensures Symbols(t) == weights.Keys
    ensures Distinct(t)
  {
    var pairs := LeafEntries(weights);
    while |pairs| > 1
      invariant |pairs| >= 1
      invariant Forest(pairs) == multiset(weights.Keys)
      invariant |pairs| >= 2 || pairs[|pairs| - 1].tree.Node?
      decreases |pairs|
    {
      var first, second;
      first, pairs := PopLightest(pairs);
      second, pairs := PopLightest(pairs);
      var merged := Entry(first.weight + second.weight, Node(first.tree, second.tree));
      assert Forest(pairs + [merged]) == Forest(pairs) + Leaves(merged.tree) by {
        assert (pairs + [merged])[..|pairs|] == pairs;
      }
      pairs := pairs + [merged];
    }
    t := pairs[0].tree;
    assert Forest(pairs) == Leaves(t) by {
      assert pairs[..0] == [];
    }
    LeavesOfKeys(t, weights);
  }

  /** A tree whose leaves are the keys of the weights, once each, holds each key once. */
  lemma LeavesOfKeys(t: Tree, weights: map<Byte, nat>)
    requires Leaves(t) == multiset(weights.Keys)
    ensures Symbols(t) == weights.Keys && Distinct(t)
  {
    forall s ensures Leaves(t)[s] <= 1 {
      assert multiset(weights.Keys)[s] <= 1;
    }
    DistinctFromCounts(t);
    SymbolsAreLeaves(t);
    assert forall s :: s in weights.Keys <==> s in multiset(weights.Keys);
  }

  /**
   * `_reverse_lookup`: every leaf's symbol mapped to `prefix` followed by the
   * branch labels on the way to it.
   */
  function ReverseLookup(t: Tree, prefix: seq<Bit>): map<Byte, seq<Bit>>
    requires t.Node?
    decreases t, 0
  {
    Branch(t.zero, prefix + [0]) + Branch(t.one, prefix + [1])
  }

  /** One iteration of the loop in `_reverse_lookup`: recurse into a subtree, or record a leaf. */
  function Branch(child: Tree, path: seq<Bit>): map<Byte, seq<Bit>>
    decreases child, 1
  {
    if child.Node? then ReverseLookup(child, path) else map[child.sym := path]
  }

  /** The branch labels from the root of a tree without repeated symbols to the leaf of `s`. */
  ghost function Path(t: Tree, s: Byte): seq<Bit>
    requires s in Symbols(t)
  {
    match t
    case Leaf(_) => []
    case Node(z, o) => if s in Symbols(z) then [0] + Path(z, s) else [1] + Path(o, s)
  }

  /** The table has one entry per leaf. */
  lemma {:induction false} BranchKeys(child: Tree, path: seq<Bit>)
    ensures forall s :: s in Branch(child, path) <==> s in Symbols(child)
  {
    if child.Node? {
      BranchKeys(child.zero, path + [0]);
      BranchKeys(child.one, path + [1]);
    }
  }

  /** Each table entry is the prefix followed by the path to that leaf. */
  lemma {:induction false} BranchPaths(child: Tree, path: seq<Bit>, s: Byte)
    requires Distinct(child) && s in Symbols(child)
    ensures s in Branch(child, path) && Branch(child, path)[s] == path + Path(child, s)
  {
    if child.Node? {
      var z, o := child.zero, child.one;
      if s in Symbols(z) {
        BranchKeys(o, path + [1]);
        BranchPaths(z, path + [0], s);
        assert path + [0] + Path(z, s) == path + ([0] + Path(z, s));
      } else {
        BranchPaths(o, path + [1], s);
        assert path + [1] + Path(o, s) == path + ([1] + Path(o, s));
      }
    }
  }

  /**
   * The tree walk of `HuffmanCode.decode` as a function: from `index`, follow
   * one bit per internal node; the symbol if a leaf is reached, nothing if the
   * bits run out first.
   */
  function Walk(t: Tree, bits: seq<Bit>, index: nat): (r: (Option<Byte>, nat))
    ensures r.0.Some? ==> r.0.value in Symbols(t) && index <= r.1 <= index + |bits|
    ensures t.Node? && r.0.Some? ==> index < r.1 <= |bits|
    ensures r.0.None? ==> r.1 == if index < |bits| then |bits| else index
    decreases t
  {
    if t.Leaf? then (Some(t.sym), index)
    else if index < |bits| then Walk(Child(t, bits[index]), bits, index + 1)
    else (None, index)
  }

  /** Walking the bits of a leaf's path ends on that leaf, right after the path. */
  lemma {:induction false} WalkPath(t: Tree, s: Byte, pre: seq<Bit>, rest: seq<Bit>)
    requires s in Symbols(t)
    ensures Walk(t, pre + Path(t, s) + rest, |pre|) == (Some(s), |pre| + |Path(t, s)|)
  {
    if t.Node? {
      var b: Bit := if s in Symbols(t.zero) then 0 else 1;
      var child := Child(t, b);
      assert pre + Path(t, s) + rest == (pre + [b]) + Path(child, s) + rest;
      WalkPath(child, s, pre + [b], rest);
    }
  }

  /** A code built for `weights`: a tree whose leaves are the keys, each once, and the table read off it. */
  ghost predicate Valid(c: HuffmanCode, weights: map<Byte, nat>)
  {
    && c.tree.Node?
    && Symbols(c.tree) == weights.Keys
    && Distinct(c.tree)
    && c.table == ReverseLookup(c.tree, [])
    && (forall s :: s in c.table <==> s in weights)
  }

  /** `HuffmanCode.__init__`. With fewer than two symbols the source fails (`pairs[0]` or `_reverse_lookup` on a bare leaf). */
  method NewHuffmanCode(weights: map<Byte, nat>) returns (c: HuffmanCode)
    requires |weights| >= 2
    ensures Valid(c, weights)
  {
    var t := BuildTree(weights);
    c := HuffmanCode(t, ReverseLookup(t, []));
    BranchKeys(t, []);
  }

  /** Every symbol of the weight table has a codeword, and it is the path to the symbol's leaf. */
  lemma {:induction false} CodewordIsPath(c: HuffmanCode, weights: map<Byte, nat>, s: Byte)
    requires Valid(c, weights)
    ensures s in c.table <==> s in weights
    ensures s in weights ==> c.table[s] == Path(c.tree, s) && |c.table[s]| >= 1
  {
    if s in weights {
      BranchPaths(c.tree, [], s);
      assert [] + Path(c.tree, s) == Path(c.tree, s);
    }
  }

  /** `HuffmanCode.encode`: the table entry (the source raises `KeyError` for a symbol outside it). */
  function Encode(c: HuffmanCode, s: Byte): seq<Bit>
    requires s in c.table
  {
    c.table[s]
  }

  /** `HuffmanCode.decode`: walks the tree one bit at a time from `index`. */
  method Decode(c: HuffmanCode, bits: seq<Bit>, index: nat) returns (sym: Option<Byte>, next: nat)
    ensures (sym, next) == Walk(c.tree, bits, index)
  {
    var entry := c.tree;
    next := index;
    while entry.Node? && next < |bits|
      invariant Walk(entry, bits, next) == Walk(c.tree, bits, index)
      decreases entry
    {
      entry := Child(entry, bits[next]);
      next := next + 1;
    }
    sym := if entry.Node? then None else Some(entry.sym);
  }

  /** Decoding a stream that starts with the codeword of `s` yields `s` and consumes exactly that codeword. */
  lemma {:induction false} DecodeEncoded(c: HuffmanCode, weights: map<Byte, nat>, s: Byte, pre: seq<Bit>, rest: seq<Bit>)
    requires Valid(c, weights) && s in weights
    ensures Walk(c.tree, pre + Encode(c, s) + rest, |pre|) == (Some(s), |pre| + |Encode(c, s)|)
  {
    CodewordIsPath(c, weights, s);
    WalkPath(c.tree, s, pre, rest);
  }

  /** No codeword is a prefix of the codeword of another symbol. */
  lemma {:induction false} PrefixFree(c: HuffmanCode, weights: map<Byte, nat>, s: Byte, s': Byte)
    requires Valid(c, weights) && s in weights && s' in weights && s != s'
    ensures !(|Encode(c, s)| <= |Encode(c, s')| && Encode(c, s) == Encode(c, s')[..|Encode(c, s)|])
  {
    var w := Encode(c, s);
    var w' := Encode(c, s');
    if |w| <= |w'| && w == w'[..|w|] {
      DecodeEncoded(c, weights, s', [], []);
      assert [] + w' + [] == [] + w + w'[|w|..];
      DecodeEncoded(c, weights, s, [], w'[|w|..]);
      assert false;
    }
  }
}
