/**
 * `Predictor`: a context model that codes each byte of a text with a code
 * chosen by the `window - 1` bytes before it (its stub). Training counts,
 * for every stub, the bytes that follow it; a stub's code is built from
 * those counts the first time it is needed and kept in a cache; a stub that
 * was never seen gets the code built from the whole text's byte counts.
 */
module Prediction {
  import opened Bits
  import opened Counting
  import opened Framing
  import Huffman
  import Arithmetic
  import ArithmeticCoding

  /**
   * How an arithmetic code decodes: `AsWritten` is `ArithmeticCode.decode`
   * with `bisect_left` at the end of the cell, which may settle before the
   * codeword ends; `Corrected` uses `bisect_right` at both ends.
   */
  datatype Decoder = AsWritten | Corrected

  /** The class passed as `Code` to `Predictor.__init__`, with the arithmetic code's decoder. */
  datatype CodeKind = HuffmanKind | ArithmeticKind(decoder: Decoder)

  /** A built code of either class. */
  datatype Code =
    | HuffmanTable(huffman: Huffman.HuffmanCode)
    | ArithmeticTable(arithmetic: Arithmetic.ArithmeticCode, decoder: Decoder)

  /** The class a code was built by. */
  function KindOf(code: Code): (kind: CodeKind)
    ensures kind.HuffmanKind? <==> code.HuffmanTable?
  {
    match code
    case HuffmanTable(_) => HuffmanKind
    case ArithmeticTable(_, d) => ArithmeticKind(d)
  }

  /** The codes of this kind decode what they encode: Huffman codes, and arithmetic codes with the corrected decoder. */
  predicate RoundTrips(kind: CodeKind)
  {
    kind.HuffmanKind? || kind.decoder == Corrected
  }

  // ---------------------------------------------------------------------------
  // Codes of either class

  /** `code` is what its class's constructor builds from the full table `w`. */
  ghost predicate Sound(code: Code, w: Counter)
  {
    && Full(w)
    && match code
       case HuffmanTable(h) => Huffman.Valid(h, w)
       case ArithmeticTable(a, _) => Arithmetic.LaidOut(a, w)
  }

  /** `code.encode(s)` is defined. */
  ghost predicate Covers(code: Code, s: Byte)
  {
    match code
    case HuffmanTable(h) => s in h.table
    case ArithmeticTable(a, _) => ArithmeticCoding.Encodable(a, s)
  }

  /** `code.decode` is defined, and reads at least one bit whenever it returns a symbol. */
  ghost predicate Readable(code: Code)
  {
    match code
    case HuffmanTable(h) => h.tree.Node?
    case ArithmeticTable(a, _) => ArithmeticCoding.Decodable(a.steps)
  }

  /** `code` can encode every byte and can decode. */
  ghost predicate Ready(code: Code)
  {
    Readable(code) && forall s: Byte :: Covers(code, s)
  }

  /** The codeword of `s`: `code.encode(s)`. */
  function Emit(code: Code, s: Byte): seq<Bit>
    requires Covers(code, s)
  {
    match code
    case HuffmanTable(h) => Huffman.Encode(h, s)
    case ArithmeticTable(a, _) => ArithmeticCoding.Codeword(a.intervals[s].0, a.intervals[s].1)
  }

  /**
   * What `code.decode(bits, index)` returns. The arithmetic code's decoder
   * settles when the cell's two counts agree: as written, the count at the
   * cell's end is taken strictly below it; corrected, at most it.
   */
  function Read(code: Code, bits: seq<Bit>, index: nat): (r: (Option<Byte>, nat))
    requires Readable(code) && index <= |bits|
    ensures r.0.Some? ==> index < r.1 <= |bits|
    ensures r.0.None? ==> r.1 == |bits|
  {
    match code
    case HuffmanTable(h) => Huffman.Walk(h.tree, bits, index)
    case ArithmeticTable(a, AsWritten) => ArithmeticCoding.ResolveAsWritten(a.steps, bits, index, 0, 0)
    case ArithmeticTable(a, Corrected) => ArithmeticCoding.Resolve(a.steps, bits, index, 0, 0)
  }

  /** `cw` stands in `bits` at `index`. */
  ghost predicate At(bits: seq<Bit>, index: nat, cw: seq<Bit>)
  {
    index + |cw| <= |bits| && bits[index..index + |cw|] == cw
  }

  /**
   * `code` decodes what it encodes: wherever the codeword of a byte stands in
   * a bit sequence, decoding from its start yields the byte and moves past
   * the codeword, which is never empty.
   */
  ghost predicate Decodes(code: Code)
  {
    && Ready(code)
    && (forall s: Byte :: |Emit(code, s)| >= 1)
    && (forall s: Byte, bits: seq<Bit>, index: nat {:trigger Read(code, bits, index), Emit(code, s)} ::
          At(bits, index, Emit(code, s)) ==>
          Read(code, bits, index) == (Some(s), index + |Emit(code, s)|))
  }

  lemma SplitAt(bits: seq<Bit>, index: nat, cw: seq<Bit>)
    requires At(bits, index, cw)
    ensures bits == bits[..index] + cw + bits[index + |cw|..]
  {
    assert bits == bits[..index] + bits[index..index + |cw|] + bits[index + |cw|..];
  }

  /** One codeword of a Huffman code, wherever it stands, decodes to its byte. */
  lemma HuffmanReads(h: Huffman.HuffmanCode, w: Counter, s: Byte, bits: seq<Bit>, index: nat)
    requires Full(w) && Huffman.Valid(h, w)
    ensures var code := HuffmanTable(h);
            && Readable(code) && Covers(code, s) && |Emit(code, s)| >= 1
            && (At(bits, index, Emit(code, s)) ==> Read(code, bits, index) == (Some(s), index + |Emit(code, s)|))
  {
    Huffman.CodewordIsPath(h, w, s);
    var cw := Huffman.Encode(h, s);
    if At(bits, index, cw) {
      SplitAt(bits, index, cw);
      Huffman.DecodeEncoded(h, w, s, bits[..index], bits[index + |cw|..]);
    }
  }

  lemma HuffmanDecodes(h: Huffman.HuffmanCode, w: Counter)
    requires Full(w) && Huffman.Valid(h, w)
    ensures Decodes(HuffmanTable(h))
  {
    var code := HuffmanTable(h);
    forall s: Byte
      ensures Covers(code, s) && |Emit(code, s)| >= 1
    {
      HuffmanReads(h, w, s, [], 0);
    }
    forall s: Byte, bits: seq<Bit>, index: nat {:trigger Read(code, bits, index), Emit(code, s)} | At(bits, index, Emit(code, s))
      ensures Read(code, bits, index) == (Some(s), index + |Emit(code, s)|)
    {
      HuffmanReads(h, w, s, bits, index);
    }
    HuffmanReads(h, w, 0, [], 0);
  }

  /** Wherever an arithmetic codeword stands, the corrected decoder reads its byte and moves past it. */
  lemma ResolveAt(a: Arithmetic.ArithmeticCode, w: Counter, s: Byte, bits: seq<Bit>, index: nat, cw: seq<Bit>)
    requires Full(w) && Arithmetic.Ordered(a, w) && ArithmeticCoding.Encodable(a, s)
    requires cw == ArithmeticCoding.Codeword(a.intervals[s].0, a.intervals[s].1) && At(bits, index, cw)
    ensures ArithmeticCoding.Decodable(a.steps)
    ensures ArithmeticCoding.Resolve(a.steps, bits, index, 0, 0) == (Some(s), index + |cw|)
  {
    SplitAt(bits, index, cw);
    ArithmeticCoding.DecodeEncoded(a, w, s, bits[..index], bits[index + |cw|..]);
  }

  /** One codeword of an arithmetic code, wherever it stands, decodes to its byte with the corrected decoder. */
  lemma ArithmeticReads(a: Arithmetic.ArithmeticCode, w: Counter, s: Byte, bits: seq<Bit>, index: nat)
    requires Full(w) && Arithmetic.Ordered(a, w)
    ensures var code := ArithmeticTable(a, Corrected);
            && Readable(code) && Covers(code, s) && |Emit(code, s)| >= 1
            && (At(bits, index, Emit(code, s)) ==> Read(code, bits, index) == (Some(s), index + |Emit(code, s)|))
  {
    ArithmeticCoding.OrderedEncodable(a, w, s);
    ArithmeticCoding.OrderedDecodable(a, w);
    var cw := ArithmeticCoding.Codeword(a.intervals[s].0, a.intervals[s].1);
    ArithmeticCoding.CodewordInside(a.intervals[s].0, a.intervals[s].1);
    var code := ArithmeticTable(a, Corrected);
    assert Emit(code, s) == cw;
    if At(bits, index, cw) {
      ResolveAt(a, w, s, bits, index, cw);
      assert Read(code, bits, index) == ArithmeticCoding.Resolve(a.steps, bits, index, 0, 0);
    }
  }

  /** Every byte has a nonempty codeword, and either decoder is defined. */
  lemma ArithmeticReady(a: Arithmetic.ArithmeticCode, d: Decoder, w: Counter)
    requires Full(w) && Arithmetic.Ordered(a, w)
    ensures Ready(ArithmeticTable(a, d))
    ensures forall s: Byte :: |Emit(ArithmeticTable(a, d), s)| >= 1
  {
    var code := ArithmeticTable(a, d);
    forall s: Byte
      ensures Covers(code, s) && |Emit(code, s)| >= 1
    {
      ArithmeticReads(a, w, s, [], 0);
    }
    ArithmeticReads(a, w, 0, [], 0);
  }

  /** Wherever the codeword of a byte stands, the corrected arithmetic decoder reads that byte. */
  lemma OrderedReads(a: Arithmetic.ArithmeticCode, w: Counter)
    requires Full(w) && Arithmetic.Ordered(a, w)
    ensures forall s: Byte, bits: seq<Bit>, index: nat {:trigger Read(ArithmeticTable(a, Corrected), bits, index), Emit(ArithmeticTable(a, Corrected), s)} ::
              Covers(ArithmeticTable(a, Corrected), s) && Readable(ArithmeticTable(a, Corrected)) && At(bits, index, Emit(ArithmeticTable(a, Corrected), s)) ==>
                Read(ArithmeticTable(a, Corrected), bits, index) == (Some(s), index + |Emit(ArithmeticTable(a, Corrected), s)|)
  {
    forall s: Byte, bits: seq<Bit>, index: nat {:trigger Read(ArithmeticTable(a, Corrected), bits, index), Emit(ArithmeticTable(a, Corrected), s)}
      | Covers(ArithmeticTable(a, Corrected), s) && Readable(ArithmeticTable(a, Corrected)) && At(bits, index, Emit(ArithmeticTable(a, Corrected), s))
      ensures Read(ArithmeticTable(a, Corrected), bits, index) == (Some(s), index + |Emit(ArithmeticTable(a, Corrected), s)|)
    {
      ArithmeticReads(a, w, s, bits, index);
    }
  }

  lemma OrderedDecodes(a: Arithmetic.ArithmeticCode, w: Counter)
    requires Full(w) && Arithmetic.Ordered(a, w)
    ensures Decodes(ArithmeticTable(a, Corrected))
  {
    ArithmeticReady(a, Corrected, w);
    OrderedReads(a, w);
  }

  lemma ArithmeticDecodes(a: Arithmetic.ArithmeticCode, w: Counter)
    requires Full(w) && Arithmetic.LaidOut(a, w)
    ensures Decodes(ArithmeticTable(a, Corrected))
  {
    Arithmetic.CutsIncrease(a, w);
    OrderedDecodes(a, w);
  }

  /** A code built from a full table can encode every byte and can decode, whichever its class and decoder. */
  lemma SoundReady(code: Code, w: Counter)
    requires Sound(code, w)
    ensures Ready(code)
  {
    match code
    case HuffmanTable(h) => HuffmanDecodes(h, w);
    case ArithmeticTable(a, d) =>
      Arithmetic.CutsIncrease(a, w);
      ArithmeticReady(a, d, w);
  }

  /**
   * A code built from a full table decodes what it encodes, when it is a
   * Huffman code or an arithmetic code with the corrected decoder.
   */
  lemma SoundDecodes(code: Code, w: Counter)
    requires Sound(code, w) && RoundTrips(KindOf(code))
    ensures Decodes(code)
  {
    match code
    case HuffmanTable(h) => HuffmanDecodes(h, w);
    case ArithmeticTable(a, _) => ArithmeticDecodes(a, w);
  }

  /** `self.Code(w)`. */
  method Build(kind: CodeKind, w: Counter) returns (code: Code)
    requires Full(w)
    ensures Sound(code, w) && KindOf(code) == kind
  {
    if kind == HuffmanKind {
      assert 0 in w && 1 in w;
      SubsetSize({0, 1}, w.Keys);
      var h := Huffman.NewHuffmanCode(w);
      code := HuffmanTable(h);
    } else {
      assert 0 in w;
      var a := Arithmetic.NewArithmeticCode(w);
      code := ArithmeticTable(a, kind.decoder);
    }
  }

  /** `code.encode(s)`. */
  method EmitSymbol(code: Code, s: Byte) returns (cw: seq<Bit>)
    requires Covers(code, s)
    ensures cw == Emit(code, s)
  {
    match code
    case HuffmanTable(h) =>
      cw := Huffman.Encode(h, s);
    case ArithmeticTable(a, _) =>
      cw := ArithmeticCoding.Encode(a, s);
  }

  /** `code.decode(bits, index)`. */
  method ReadSymbol(code: Code, bits: seq<Bit>, index: nat) returns (sym: Option<Byte>, next: nat)
    requires Readable(code) && index <= |bits|
    ensures (sym, next) == Read(code, bits, index)
  {
    match code
    case HuffmanTable(h) =>
      sym, next := Huffman.Decode(h, bits, index);
    case ArithmeticTable(a, AsWritten) =>
      sym, next := ArithmeticCoding.Decode(a, bits, index);
    case ArithmeticTable(a, Corrected) =>
      sym, next := ArithmeticCoding.DecodeCorrected(a, bits, index);
  }

  // ---------------------------------------------------------------------------
  // Stubs

  /** Python's treatment of a slice bound: a negative bound counts from the end, then it is clamped to `[0, n]`. */
  function SliceBound(i: int, n: nat): (b: nat)
    ensures b <= n
  {
    if i < 0 then (if i + n < 0 then 0 else i + n) else if i > n then n else i
  }

  /** `s[start:stop]`. */
  function Slice(s: seq<Byte>, start: int, stop: int): seq<Byte>
  {
    var a := SliceBound(start, |s|);
    var b := SliceBound(stop, |s|);
    if a < b then s[a..b] else []
  }

  /** The encoder's stub for position `i`: `text[i-window+1:i]`. */
  function EncoderStub(text: seq<Byte>, i: nat, window: nat): seq<Byte>
  {
    Slice(text, i - window + 1, i)
  }

  /** The decoder's stub after `out`: its last `window - 1` bytes, or `b''` while it is shorter. */
  function DecoderStub(out: seq<Byte>, window: nat): seq<Byte>
    requires window >= 1
  {
    if |out| >= window - 1 then out[|out| - window + 1..] else []
  }

  /**
   * From position `window - 1` on, encoder and decoder take the same stub.
   * Before it the encoder's slice starts at a negative index and is shorter
   * than `window - 1`, so it names no trained table, just as the decoder's
   * empty stub does not.
   */
  lemma StubsAgree(text: seq<Byte>, i: nat, window: nat)
    requires window >= 1 && i <= |text|
    ensures i >= window - 1 ==> EncoderStub(text, i, window) == DecoderStub(text[..i], window)
    ensures i < window - 1 ==> |EncoderStub(text, i, window)| < window - 1 && DecoderStub(text[..i], window) == []
  {
  }

  /** On a text shorter than the window the encoder's early stubs are not empty: `b'abc'[-3:2] == b'ab'`. */
  lemma ShortTextStub()
    ensures EncoderStub([97, 98, 99], 2, 6) == [97, 98]
    ensures DecoderStub([97, 98], 6) == []
  {
    assert Slice([97, 98, 99], -3, 2) == [97, 98, 99][0..2];
  }

  // ---------------------------------------------------------------------------
  // The predictor's tables, as a value

  /** The fields of a `Predictor` at one moment. */
  datatype Tables = Tables(
    window: nat,
    kind: CodeKind,
    completions: map<seq<Byte>, Counter>,
    byteCounts: Counter,
    defaultCode: Code,
    cache: map<seq<Byte>, Code>)

  /** Every trained stub has `window - 1` bytes and a table that weights every byte. */
  ghost predicate TablesFull(window: nat, completions: map<seq<Byte>, Counter>)
  {
    forall stub {:trigger stub in completions} :: stub in completions ==> |stub| == window - 1 && Full(completions[stub])
  }

  /** Every cached stub has `window - 1` bytes and a code that can encode every byte and decode. */
  ghost predicate CodesReady(window: nat, cache: map<seq<Byte>, Code>)
  {
    forall stub {:trigger cache[stub]} :: stub in cache ==> |stub| == window - 1 && Ready(cache[stub])
  }

  /** Every cached stub has `window - 1` bytes and a code that decodes what it encodes. */
  ghost predicate CodesDecode(window: nat, cache: map<seq<Byte>, Code>)
  {
    forall stub {:trigger cache[stub]} :: stub in cache ==> |stub| == window - 1 && Decodes(cache[stub])
  }

  /**
   * Every table is full, every stub has `window - 1` bytes, and every code
   * (the default one and the cached ones) can encode every byte and decode.
   */
  ghost predicate Good(t: Tables)
  {
    && t.window >= 1
    && Full(t.byteCounts)
    && TablesFull(t.window, t.completions)
    && Ready(t.defaultCode)
    && CodesReady(t.window, t.cache)
  }

  /** Every code of the tables decodes what it encodes. */
  ghost predicate Built(t: Tables)
  {
    Decodes(t.defaultCode) && CodesDecode(t.window, t.cache)
  }

  /** The code `huffman_for_stub(stub)` returns when the stub is cached or untrained. */
  function CodeAt(t: Tables, stub: seq<Byte>): Code
  {
    if stub in t.cache then t.cache[stub] else t.defaultCode
  }

  lemma CodeAtReady(t: Tables, stub: seq<Byte>)
    requires Good(t)
    ensures Ready(CodeAt(t, stub))
  {
  }

  lemma CodeAtDecodes(t: Tables, stub: seq<Byte>)
    requires Built(t)
    ensures Decodes(CodeAt(t, stub))
  {
  }

  /** The code for `stub` can no longer change: it is cached, or there is no trained table to build one from. */
  ghost predicate Fixed(t: Tables, stub: seq<Byte>)
  {
    stub in t.completions ==> stub in t.cache
  }

  /** `t'` is `t` with more codes cached: the same tables and class, old entries kept, new entries only for trained stubs. */
  ghost predicate Keeps(t: Tables, t': Tables)
  {
    && t'.window == t.window
    && t'.kind == t.kind
    && t'.completions == t.completions
    && t'.byteCounts == t.byteCounts
    && t'.defaultCode == t.defaultCode
    && (forall stub :: stub in t.cache ==> stub in t'.cache && t'.cache[stub] == t.cache[stub])
    && (forall stub :: stub in t'.cache ==> stub in t.cache || stub in t.completions)
  }

  /**
   * `t'` is `t` with more codes cached, each new entry for a trained stub
   * and built by the class from that stub's table.
   */
  ghost predicate Grows(t: Tables, t': Tables)
  {
    && Keeps(t, t')
    && (forall stub :: stub in t'.cache && stub !in t.cache ==>
          Sound(t'.cache[stub], t.completions[stub]) && KindOf(t'.cache[stub]) == t.kind)
  }

  /** Caching more codes changes no code that was already fixed. */
  lemma GrowsKeepsFixed(t: Tables, t': Tables, stub: seq<Byte>)
    requires Keeps(t, t') && Fixed(t, stub)
    ensures Fixed(t', stub) && CodeAt(t', stub) == CodeAt(t, stub)
  {
  }

  /** Caching a ready code for a stub of `window - 1` bytes keeps every cached code ready. */
  lemma ReadyCached(window: nat, cache: map<seq<Byte>, Code>, stub: seq<Byte>, code: Code)
    requires CodesReady(window, cache) && |stub| == window - 1 && Ready(code)
    ensures CodesReady(window, cache[stub := code])
  {
  }

  /** Caching a code that decodes what it encodes, for a stub of `window - 1` bytes, keeps every cached code decoding. */
  lemma DecodesCached(window: nat, cache: map<seq<Byte>, Code>, stub: seq<Byte>, code: Code)
    requires CodesDecode(window, cache) && |stub| == window - 1 && Decodes(code)
    ensures CodesDecode(window, cache[stub := code])
  {
  }

  /**
   * Caching, for a trained stub not yet cached, the code the class builds
   * from its table keeps the tables good (and decoding, for a class that
   * round-trips) and fixes the stub's code.
   */
  lemma CacheCode(t: Tables, stub: seq<Byte>, code: Code)
    requires Good(t) && (RoundTrips(t.kind) ==> Built(t))
    requires stub !in t.cache && stub in t.completions
    requires Sound(code, t.completions[stub]) && KindOf(code) == t.kind
    ensures var t' := t.(cache := t.cache[stub := code]);
            && Good(t') && (RoundTrips(t.kind) ==> Built(t')) && Grows(t, t')
            && Fixed(t', stub) && CodeAt(t', stub) == code
  {
    SoundReady(code, t.completions[stub]);
    ReadyCached(t.window, t.cache, stub, code);
    if RoundTrips(t.kind) {
      SoundDecodes(code, t.completions[stub]);
      DecodesCached(t.window, t.cache, stub, code);
    }
  }

  /** Nothing cached is growth too. */
  lemma GrowsSame(t: Tables)
    ensures Grows(t, t)
  {
  }

  // ---------------------------------------------------------------------------
  // Encoding and decoding over the tables

  /** The codewords in order. */
  function Join(pieces: seq<seq<Bit>>): (bits: seq<Bit>)
  {
    if pieces == [] then [] else Join(pieces[..|pieces| - 1]) + pieces[|pieces| - 1]
  }

  /** The bits of fewer codewords are a prefix of the bits of more. */
  lemma {:induction false} JoinPrefix(pieces: seq<seq<Bit>>, i: nat, j: nat)
    requires i <= j <= |pieces|
    ensures Join(pieces[..i]) <= Join(pieces[..j])
    decreases j
  {
    if i < j {
      JoinPrefix(pieces, i, j - 1);
      assert pieces[..j][..j - 1] == pieces[..j - 1];
    }
  }

  /** One more codeword is appended at the end. */
  lemma JoinNext(pieces: seq<seq<Bit>>, i: nat)
    requires i < |pieces|
    ensures Join(pieces[..i + 1]) == Join(pieces[..i]) + pieces[i]
  {
    assert pieces[..i + 1][..i] == pieces[..i];
  }

  /** A sequence that starts with `a + c` is `a`, `c` and the rest. */
  lemma PrefixSplit(a: seq<Bit>, c: seq<Bit>, b: seq<Bit>)
    requires a + c <= b
    ensures |a| + |c| <= |b| && b == a + c + b[|a| + |c|..]
  {
    assert b == b[..|a| + |c|] + b[|a| + |c|..];
  }

  /** The codeword `Predictor.encode` emits for each byte of `text`: the byte under the code of its stub. */
  function Codewords(t: Tables, text: seq<Byte>): (cws: seq<seq<Bit>>)
    requires Good(t)
    ensures |cws| == |text|
  {
    seq(|text|, j requires 0 <= j < |text| =>
      CodeAtReady(t, EncoderStub(text, j, t.window));
      Emit(CodeAt(t, EncoderStub(text, j, t.window)), text[j]))
  }

  /** The bits `Predictor.encode` emits for the first `i` bytes of `text`, before framing. */
  function EncodeUpTo(t: Tables, text: seq<Byte>, i: nat): seq<Bit>
    requires Good(t) && i <= |text|
  {
    Join(Codewords(t, text)[..i])
  }

  /** One more byte appends its codeword. */
  lemma EncodeNext(t: Tables, text: seq<Byte>, i: nat)
    requires Good(t) && i < |text|
    ensures var code := CodeAt(t, EncoderStub(text, i, t.window));
            && Covers(code, text[i])
            && EncodeUpTo(t, text, i + 1) == EncodeUpTo(t, text, i) + Emit(code, text[i])
  {
    CodeAtReady(t, EncoderStub(text, i, t.window));
    JoinNext(Codewords(t, text), i);
  }

  /** The bits of a shorter part of the text are a prefix of the bits of a longer one. */
  lemma EncodePrefix(t: Tables, text: seq<Byte>, i: nat, j: nat)
    requires Good(t) && i <= j <= |text|
    ensures EncodeUpTo(t, text, i) <= EncodeUpTo(t, text, j)
  {
    JoinPrefix(Codewords(t, text), i, j);
  }

  /** Caching the codes of other stubs leaves the encoding of positions whose stubs were fixed as it was. */
  lemma EncodeUpToStable(t: Tables, t': Tables, text: seq<Byte>, i: nat)
    requires Good(t) && Good(t') && Keeps(t, t') && i <= |text|
    requires forall j :: 0 <= j < i ==> Fixed(t, EncoderStub(text, j, t.window))
    ensures EncodeUpTo(t', text, i) == EncodeUpTo(t, text, i)
  {
    forall j | 0 <= j < i
      ensures Codewords(t', text)[j] == Codewords(t, text)[j]
    {
      GrowsKeepsFixed(t, t', EncoderStub(text, j, t.window));
    }
    assert Codewords(t', text)[..i] == Codewords(t, text)[..i];
  }

  /** One round of the loop of `Predictor.decode`: the next state, or nothing when the loop ends. */
  function Step(t: Tables, bits: seq<Bit>, index: nat, out: seq<Byte>): (r: Option<(nat, seq<Byte>)>)
    requires Good(t)
    ensures r.Some? ==> index < r.value.0 <= |bits| && |r.value.1| == |out| + 1 && r.value.1[..|out|] == out
    ensures index >= |bits| ==> r.None?
  {
    if index >= |bits| then None
    else
      var code := CodeAt(t, DecoderStub(out, t.window));
      CodeAtReady(t, DecoderStub(out, t.window));
      var (sym, next) := Read(code, bits, index);
      if sym.None? then None else Some((next, out + [sym.value]))
  }

  /** What `Predictor.decode` returns when its loop is at `index` with output `out`. */
  function DecodeFrom(t: Tables, bits: seq<Bit>, index: nat, out: seq<Byte>): seq<Byte>
    requires Good(t)
    decreases |bits| - index
  {
    match Step(t, bits, index, out)
    case None => out
    case Some((next, out')) => DecodeFrom(t, bits, next, out')
  }

  /** The decoded text always starts with what was already output (the `prefix`), and it grows by at most one byte per bit. */
  lemma {:induction false} DecodeKeepsPrefix(t: Tables, bits: seq<Bit>, index: nat, out: seq<Byte>)
    requires Good(t)
    ensures var r := DecodeFrom(t, bits, index, out);
            out <= r && |r| <= |out| + (if index <= |bits| then |bits| - index else 0)
    decreases |bits| - index
  {
    match Step(t, bits, index, out)
    case None =>
    case Some((next, out')) =>
      DecodeKeepsPrefix(t, bits, next, out');
  }

  /** The whole encoding is the first `i` codewords, the `i`-th codeword, and the rest. */
  lemma EncodeSplit(t: Tables, text: seq<Byte>, i: nat)
    requires Good(t) && i < |text|
    ensures var pre := EncodeUpTo(t, text, i);
            var cw := Codewords(t, text)[i];
            var bits := EncodeUpTo(t, text, |text|);
            && |pre| + |cw| <= |bits|
            && bits == pre + cw + bits[|pre| + |cw|..]
            && |EncodeUpTo(t, text, i + 1)| == |pre| + |cw|
  {
    var pieces := Codewords(t, text);
    JoinNext(pieces, i);
    JoinPrefix(pieces, i + 1, |text|);
    assert pieces[..|text|] == pieces;
    PrefixSplit(Join(pieces[..i]), pieces[i], Join(pieces));
  }

  /** The `i`-th codeword is the `i`-th byte under the code of its stub. */
  lemma CodewordAt(t: Tables, text: seq<Byte>, i: nat)
    requires Good(t) && i < |text|
    ensures var code := CodeAt(t, EncoderStub(text, i, t.window));
            Covers(code, text[i]) && Codewords(t, text)[i] == Emit(code, text[i])
  {
    CodeAtReady(t, EncoderStub(text, i, t.window));
  }

  /** A code that decodes what it encodes reads a codeword back wherever it stands. */
  lemma ReadCodeword(code: Code, s: Byte, bits: seq<Bit>, index: nat)
    requires Decodes(code) && At(bits, index, Emit(code, s))
    ensures Readable(code) && Read(code, bits, index) == (Some(s), index + |Emit(code, s)|)
  {
  }

  /** A symbol read with the code of the current stub is one step of the loop. */
  lemma StepReads(t: Tables, bits: seq<Bit>, index: nat, out: seq<Byte>, s: Byte, next: nat)
    requires Good(t) && index < |bits|
    requires var code := CodeAt(t, DecoderStub(out, t.window));
             Readable(code) && Read(code, bits, index) == (Some(s), next)
    ensures Step(t, bits, index, out) == Some((next, out + [s]))
  {
  }

  /** Encoder and decoder use the same code at every position. */
  lemma SameCode(t: Tables, text: seq<Byte>, i: nat)
    requires Good(t) && i <= |text|
    ensures CodeAt(t, EncoderStub(text, i, t.window)) == CodeAt(t, DecoderStub(text[..i], t.window))
  {
    StubsAgree(text, i, t.window);
  }

  lemma Snoc(text: seq<Byte>, i: nat)
    requires i < |text|
    ensures text[..i] + [text[i]] == text[..i + 1]
  {
  }

  /** The `i`-th codeword stands in the whole encoding where the first `i` codewords end. */
  lemma CodewordStands(t: Tables, text: seq<Byte>, i: nat)
    requires Good(t) && i < |text|
    ensures var code := CodeAt(t, EncoderStub(text, i, t.window));
            var pre := EncodeUpTo(t, text, i);
            && Covers(code, text[i])
            && At(EncodeUpTo(t, text, |text|), |pre|, Emit(code, text[i]))
            && |EncodeUpTo(t, text, i + 1)| == |pre| + |Emit(code, text[i])|
  {
    EncodeSplit(t, text, i);
    CodewordAt(t, text, i);
  }

  /** Where the codeword of `s` under the code of the decoder's stub stands, the loop reads `s` and moves past it. */
  lemma StepAt(t: Tables, out: seq<Byte>, s: Byte, bits: seq<Bit>, index: nat, next: nat)
    requires Good(t) && Built(t)
    requires var code := CodeAt(t, DecoderStub(out, t.window));
             Covers(code, s) && At(bits, index, Emit(code, s)) && next == index + |Emit(code, s)|
    ensures Step(t, bits, index, out) == Some((next, out + [s]))
  {
    var code := CodeAt(t, DecoderStub(out, t.window));
    CodeAtDecodes(t, DecoderStub(out, t.window));
    ReadCodeword(code, s, bits, index);
    StepReads(t, bits, index, out, s, next);
  }

  /** Where the `i`-th codeword starts, with the first `i` bytes output, the decoder reads the `i`-th byte and moves past its codeword. */
  lemma DecodeNext(t: Tables, text: seq<Byte>, i: nat)
    requires Good(t) && Built(t) && i < |text|
    ensures Step(t, EncodeUpTo(t, text, |text|), |EncodeUpTo(t, text, i)|, text[..i])
         == Some((|EncodeUpTo(t, text, i + 1)|, text[..i + 1]))
  {
    CodewordStands(t, text, i);
    SameCode(t, text, i);
    Snoc(text, i);
    StepAt(t, text[..i], text[i], EncodeUpTo(t, text, |text|), |EncodeUpTo(t, text, i)|, |EncodeUpTo(t, text, i + 1)|);
  }

  /** From the start of the `i`-th codeword, with the first `i` bytes output, decoding yields the whole text. */
  lemma {:induction false} DecodeRest(t: Tables, text: seq<Byte>, i: nat)
    requires Good(t) && Built(t) && i <= |text|
    ensures DecodeFrom(t, EncodeUpTo(t, text, |text|), |EncodeUpTo(t, text, i)|, text[..i]) == text
    decreases |text| - i
  {
    if i == |text| {
      assert text[..i] == text;
    } else {
      DecodeNext(t, text, i);
      DecodeRest(t, text, i + 1);
    }
  }

  /** When every code decodes what it encodes, decoding the bits the tables encode a text to gives back the text. */
  lemma RoundTrip(t: Tables, text: seq<Byte>)
    requires Good(t) && Built(t)
    ensures DecodeFrom(t, Unframe(Frame(EncodeUpTo(t, text, |text|))), 0, []) == text
  {
    UnframeFrame(EncodeUpTo(t, text, |text|));
    DecodeRest(t, text, 0);
  }

  /** A run of decoder states, each the step of the one before, each taken with a fixed code. */
  ghost predicate Trail(t: Tables, bits: seq<Bit>, trail: seq<(nat, seq<Byte>)>)
    requires Good(t)
  {
    && |trail| >= 1
    && forall j :: 0 <= j < |trail| - 1 ==>
         && Fixed(t, DecoderStub(trail[j].1, t.window))
         && Step(t, bits, trail[j].0, trail[j].1) == Some(trail[j + 1])
  }

  /** Caching more codes keeps every step of a trail. */
  lemma TrailGrows(t: Tables, t': Tables, bits: seq<Bit>, trail: seq<(nat, seq<Byte>)>)
    requires Good(t) && Good(t') && Keeps(t, t') && Trail(t, bits, trail)
    ensures Trail(t', bits, trail)
  {
    forall j | 0 <= j < |trail| - 1
      ensures Fixed(t', DecoderStub(trail[j].1, t'.window))
      ensures Step(t', bits, trail[j].0, trail[j].1) == Some(trail[j + 1])
    {
      GrowsKeepsFixed(t, t', DecoderStub(trail[j].1, t.window));
    }
  }

  /**
   * One round of the loop of `Predictor.decode`: once the code of the current
   * stub is fixed, the trail survives the caching, and what that code reads
   * either ends the loop or extends the trail by one step.
   */
  lemma DecodeStep(t: Tables, t': Tables, bits: seq<Bit>, trail: seq<(nat, seq<Byte>)>, sym: Option<Byte>, next: nat)
    requires Good(t) && Good(t') && Keeps(t, t') && Trail(t, bits, trail)
    requires var (index, out) := trail[|trail| - 1];
             var code := CodeAt(t', DecoderStub(out, t.window));
             && Fixed(t', DecoderStub(out, t.window)) && index < |bits|
             && Readable(code) && (sym, next) == Read(code, bits, index)
    ensures Trail(t', bits, trail)
    ensures var (index, out) := trail[|trail| - 1];
            && (sym.None? ==> Step(t', bits, index, out).None?)
            && (sym.Some? ==> Trail(t', bits, trail + [(next, out + [sym.value])]))
  {
    TrailGrows(t, t', bits, trail);
    var (index, out) := trail[|trail| - 1];
    if sym.Some? {
      var longer := trail + [(next, out + [sym.value])];
      forall j | 0 <= j < |longer| - 1
        ensures Fixed(t', DecoderStub(longer[j].1, t'.window))
        ensures Step(t', bits, longer[j].0, longer[j].1) == Some(longer[j + 1])
      {
        if j < |trail| - 1 {
          assert longer[j] == trail[j] && longer[j + 1] == trail[j + 1];
        }
      }
    }
  }

  /** A trail that ends where the loop stops decodes, from its first state, to its last output. */
  lemma {:induction false} TrailDecodes(t: Tables, bits: seq<Bit>, trail: seq<(nat, seq<Byte>)>)
    requires Good(t) && Trail(t, bits, trail)
    requires Step(t, bits, trail[|trail| - 1].0, trail[|trail| - 1].1).None?
    ensures DecodeFrom(t, bits, trail[0].0, trail[0].1) == trail[|trail| - 1].1
    decreases |trail|
  {
    if |trail| > 1 {
      TrailDecodes(t, bits, trail[1..]);
    }
  }

  /** The stub a decoder state looks up, when the loop runs a round there and the stub is trained. */
  ghost function LookedUpAt(window: nat, completions: map<seq<Byte>, Counter>, bits: seq<Bit>, state: (nat, seq<Byte>)): set<seq<Byte>>
    requires window >= 1
  {
    var stub := DecoderStub(state.1, window);
    if state.0 < |bits| && stub in completions then {stub} else {}
  }

  /** The trained stubs the first `n` states of a trail look up. */
  ghost function LookedUp(window: nat, completions: map<seq<Byte>, Counter>, bits: seq<Bit>, trail: seq<(nat, seq<Byte>)>, n: nat): set<seq<Byte>>
    requires window >= 1 && n <= |trail|
  {
    if n == 0 then {}
    else LookedUp(window, completions, bits, trail, n - 1) + LookedUpAt(window, completions, bits, trail[n - 1])
  }

  /**
   * The trained stubs `Predictor.decode` looks up from `index` with output
   * `out`: the current stub at every round the loop runs, including the last
   * one, whose code finds no symbol.
   */
  ghost function DecodeStubs(t: Tables, bits: seq<Bit>, index: nat, out: seq<Byte>): set<seq<Byte>>
    requires Good(t)
    decreases |bits| - index
  {
    LookedUpAt(t.window, t.completions, bits, (index, out)) +
    match Step(t, bits, index, out)
    case None => {}
    case Some((next, out')) => DecodeStubs(t, bits, next, out')
  }

  /** What the first `n` states of a trail look up depends on those states only. */
  lemma {:induction false} LookedUpPrefix(window: nat, completions: map<seq<Byte>, Counter>, bits: seq<Bit>, trail: seq<(nat, seq<Byte>)>, trail': seq<(nat, seq<Byte>)>, n: nat)
    requires window >= 1 && n <= |trail| <= |trail'| && trail == trail'[..|trail|]
    ensures LookedUp(window, completions, bits, trail, n) == LookedUp(window, completions, bits, trail', n)
  {
    if n > 0 {
      LookedUpPrefix(window, completions, bits, trail, trail', n - 1);
      assert trail[n - 1] == trail'[n - 1];
    }
  }

  /** Along a trail, the stubs decoding looks up from its first state are those of its first `j` states and those from state `j` on. */
  lemma {:induction false} TrailStubsFrom(t: Tables, bits: seq<Bit>, trail: seq<(nat, seq<Byte>)>, j: nat)
    requires Good(t) && Trail(t, bits, trail) && j < |trail|
    ensures DecodeStubs(t, bits, trail[0].0, trail[0].1) ==
            LookedUp(t.window, t.completions, bits, trail, j) + DecodeStubs(t, bits, trail[j].0, trail[j].1)
  {
    if j > 0 {
      TrailStubsFrom(t, bits, trail, j - 1);
      assert Step(t, bits, trail[j - 1].0, trail[j - 1].1) == Some(trail[j]);
    }
  }

  /** A trail that ends where the loop stops looks up, from its first state, exactly the trained stubs of all its states. */
  lemma TrailStubs(t: Tables, bits: seq<Bit>, trail: seq<(nat, seq<Byte>)>)
    requires Good(t) && Trail(t, bits, trail)
    requires Step(t, bits, trail[|trail| - 1].0, trail[|trail| - 1].1).None?
    ensures DecodeStubs(t, bits, trail[0].0, trail[0].1) == LookedUp(t.window, t.completions, bits, trail, |trail|)
  {
    TrailStubsFrom(t, bits, trail, |trail| - 1);
  }

  /** Looking up the stub of a trail's last state, where the loop runs a round, adds what that state looks up to the keys. */
  lemma KeysLookUp(keys0: set<seq<Byte>>, keys: set<seq<Byte>>, keys': set<seq<Byte>>, window: nat, completions: map<seq<Byte>, Counter>, bits: seq<Bit>, trail: seq<(nat, seq<Byte>)>)
    requires window >= 1 && |trail| >= 1
    requires keys == keys0 + LookedUp(window, completions, bits, trail, |trail| - 1)
    requires var (index, out) := trail[|trail| - 1];
             var stub := DecoderStub(out, window);
             index < |bits| && keys' == keys + (if stub in completions then {stub} else {})
    ensures keys' == keys0 + LookedUp(window, completions, bits, trail, |trail|)
  {
  }

  /** A state appended to a trail has not been looked up yet. */
  lemma KeysExtend(keys0: set<seq<Byte>>, keys: set<seq<Byte>>, window: nat, completions: map<seq<Byte>, Counter>, bits: seq<Bit>, trail: seq<(nat, seq<Byte>)>, state: (nat, seq<Byte>))
    requires window >= 1 && keys == keys0 + LookedUp(window, completions, bits, trail, |trail|)
    ensures keys == keys0 + LookedUp(window, completions, bits, trail + [state], |trail + [state]| - 1)
  {
    LookedUpPrefix(window, completions, bits, trail, trail + [state], |trail|);
  }

  /**
   * The state of the loop of `Predictor.decode` started on the tables `t0`:
   * a trail of states under `t`, and the keys of `t0` together with the
   * trained stubs that every state but the last has looked up.
   */
  ghost predicate DecodedTo(keys0: set<seq<Byte>>, t: Tables, bits: seq<Bit>, trail: seq<(nat, seq<Byte>)>)
    requires Good(t)
  {
    && Trail(t, bits, trail)
    && t.cache.Keys == keys0 + LookedUp(t.window, t.completions, bits, trail, |trail| - 1)
  }

  /**
   * The keys after one round of the loop of `Predictor.decode`: the current
   * stub has been looked up; when the round ends the loop, every state of
   * the trail has looked its stub up, and otherwise the new state has not yet.
   */
  lemma RoundKeys(keys0: set<seq<Byte>>, keys: set<seq<Byte>>, keys': set<seq<Byte>>, window: nat, completions: map<seq<Byte>, Counter>,
                  bits: seq<Bit>, trail: seq<(nat, seq<Byte>)>, index: nat, out: seq<Byte>, sym: Option<Byte>, next: nat)
    requires window >= 1 && |trail| >= 1 && trail[|trail| - 1] == (index, out) && index < |bits|
    requires keys == keys0 + LookedUp(window, completions, bits, trail, |trail| - 1)
    requires var stub := DecoderStub(out, window);
             keys' == keys + (if stub in completions then {stub} else {})
    ensures sym.None? ==> keys' == keys0 + LookedUp(window, completions, bits, trail, |trail|)
    ensures sym.Some? ==>
              var longer := trail + [(next, out + [sym.value])];
              keys' == keys0 + LookedUp(window, completions, bits, longer, |longer| - 1)
  {
    KeysLookUp(keys0, keys, keys', window, completions, bits, trail);
    if sym.Some? {
      KeysExtend(keys0, keys', window, completions, bits, trail, (next, out + [sym.value]));
    }
  }

  /** A trail and the keys its states looked up make a state of the loop of `Predictor.decode`. */
  lemma DecodedToIntro(keys0: set<seq<Byte>>, t: Tables, bits: seq<Bit>, trail: seq<(nat, seq<Byte>)>)
    requires Good(t) && Trail(t, bits, trail)
    requires t.cache.Keys == keys0 + LookedUp(t.window, t.completions, bits, trail, |trail| - 1)
    ensures DecodedTo(keys0, t, bits, trail)
  {
  }

  /** Where the loop of `Predictor.decode` stops, it has output `DecodeFrom` and cached exactly the stubs `DecodeStubs` names. */
  lemma DecodeDone(keys0: set<seq<Byte>>, t: Tables, bits: seq<Bit>, trail: seq<(nat, seq<Byte>)>)
    requires Good(t) && Trail(t, bits, trail)
    requires Step(t, bits, trail[|trail| - 1].0, trail[|trail| - 1].1).None?
    requires t.cache.Keys == keys0 + LookedUp(t.window, t.completions, bits, trail, |trail|)
    ensures trail[|trail| - 1].1 == DecodeFrom(t, bits, trail[0].0, trail[0].1)
    ensures t.cache.Keys == keys0 + DecodeStubs(t, bits, trail[0].0, trail[0].1)
  {
    TrailDecodes(t, bits, trail);
    TrailStubs(t, bits, trail);
  }

  /** When the bits run out, the last state looks nothing up and the loop has stopped. */
  lemma DecodeEnd(keys0: set<seq<Byte>>, t: Tables, bits: seq<Bit>, trail: seq<(nat, seq<Byte>)>)
    requires Good(t) && DecodedTo(keys0, t, bits, trail) && trail[|trail| - 1].0 >= |bits|
    ensures trail[|trail| - 1].1 == DecodeFrom(t, bits, trail[0].0, trail[0].1)
    ensures t.cache.Keys == keys0 + DecodeStubs(t, bits, trail[0].0, trail[0].1)
  {
    DecodeDone(keys0, t, bits, trail);
  }

  /** The table `encoding_probabilities_ranks` consults for position `i`. */
  function Expectations(t: Tables, text: seq<Byte>, i: nat): (c: Counter)
    requires Good(t)
    ensures Full(c) && Total(c) >= 256
  {
    var stub := EncoderStub(text, i, t.window);
    var c := if stub in t.completions then t.completions[stub] else t.byteCounts;
    ProbabilityBounds(c, 0);
    c
  }

  /**
   * The tables `train(text)` leaves: one table per stub seen, each weighting
   * a byte `1000000 * count + 1`, the global table weighting it `count + 1`,
   * and a default code of the chosen kind built from the global table.
   */
  ghost predicate Trained(t: Tables, text: seq<Byte>)
  {
    && t.window >= 1
    && t.completions.Keys == Stubs(Pairs(text, t.window))
    && (forall stub {:trigger stub in t.completions} :: stub in t.completions ==> t.completions[stub] == StubTable(text, t.window, stub))
    && t.byteCounts == ByteTable(text)
    && Sound(t.defaultCode, t.byteCounts) && KindOf(t.defaultCode) == t.kind
  }

  /**
   * The tables `train` builds from `text`: for every stub of `window - 1`
   * bytes, the bytes that follow it weighted `1000000 * count + 1`; every
   * byte weighted `count + 1` over the whole text; and the default code built
   * from the latter.
   */
  method TrainTables(text: seq<Byte>, window: nat, kind: CodeKind)
    returns (completions: map<seq<Byte>, Counter>, byteCounts: Counter, defaultCode: Code)
    requires window >= 1
    ensures completions.Keys == Stubs(Pairs(text, window))
    ensures forall stub {:trigger stub in completions} :: stub in completions ==> completions[stub] == StubTable(text, window, stub)
    ensures TablesFull(window, completions)
    ensures byteCounts == ByteTable(text) && Full(byteCounts)
    ensures Sound(defaultCode, byteCounts) && KindOf(defaultCode) == kind && Ready(defaultCode)
    ensures RoundTrips(kind) ==> Decodes(defaultCode)
  {
    var raw := CountCompletions(text, window);
    completions := SmoothEach(raw, 1000000);
    forall stub {:trigger stub in completions} | stub in completions
      ensures completions[stub] == StubTable(text, window, stub)
      ensures |stub| == window - 1 && Full(completions[stub])
    {
      SameSmoothed(raw[stub], Completions(Pairs(text, window), stub), 1000000);
      SmoothedFull(raw[stub], 1000000);
      StubLength(text, window, stub);
    }
    var counts := CountBytes(text);
    byteCounts := AddEachByte(counts);
    SameSmoothed(counts, Occurrences(text), 1);
    assert byteCounts == Smoothed(counts, 1);
    defaultCode := Build(kind, byteCounts);
    SoundReady(defaultCode, byteCounts);
    if RoundTrips(kind) {
      SoundDecodes(defaultCode, byteCounts);
    }
  }

  /** `train` on the tables as a value: new counts and default code, the window and the cache kept. */
  method Retrain(t: Tables, text: seq<Byte>) returns (t': Tables)
    requires t.window >= 1 && CodesReady(t.window, t.cache)
    requires RoundTrips(t.kind) ==> CodesDecode(t.window, t.cache)
    ensures t'.window == t.window && t'.kind == t.kind && t'.cache == t.cache
    ensures Good(t') && (RoundTrips(t.kind) ==> Built(t')) && Trained(t', text)
  {
    var completions, byteCounts, defaultCode := TrainTables(text, t.window, t.kind);
    t' := t.(completions := completions, byteCounts := byteCounts, defaultCode := defaultCode);
  }

  /** Caching a code for a stub adds the stub to the keys, and nothing if it was one. */
  lemma CachedKeys(cache: map<seq<Byte>, Code>, stub: seq<Byte>, code: Code)
    ensures cache[stub := code].Keys == cache.Keys + {stub}
    ensures stub in cache ==> cache.Keys + {stub} == cache.Keys
  {
  }

  /**
   * `huffman_for_stub` on the tables as a value: the cached code; else, for
   * a trained stub, a new code built from its table and cached; else the
   * default code. Returns the code and the tables afterwards.
   */
  method Lookup(t: Tables, stub: seq<Byte>) returns (code: Code, after: Tables)
    requires Good(t) && (RoundTrips(t.kind) ==> Built(t))
    ensures Good(after) && (RoundTrips(t.kind) ==> Built(after)) && Grows(t, after)
    ensures stub in t.cache ==> code == t.cache[stub] && after == t
    ensures stub !in t.cache && stub in t.completions ==>
              && after == t.(cache := t.cache[stub := code])
              && Sound(code, t.completions[stub])
              && KindOf(code) == t.kind
    ensures stub !in t.cache && stub !in t.completions ==> code == t.defaultCode && after == t
    ensures after.cache.Keys == t.cache.Keys + (if stub in t.completions then {stub} else {})
    ensures code == CodeAt(after, stub) && Fixed(after, stub)
  {
    if stub in t.cache {
      code, after := t.cache[stub], t;
      CachedKeys(t.cache, stub, code);
    } else if stub in t.completions {
      code := Build(t.kind, t.completions[stub]);
      CacheCode(t, stub, code);
      after := t.(cache := t.cache[stub := code]);
      CachedKeys(t.cache, stub, code);
    } else {
      code, after := t.defaultCode, t;
      assert t.cache.Keys + {} == t.cache.Keys;
    }
    GrowsSame(t);
  }

  /** Growth is transitive. */
  lemma GrowsTrans(t: Tables, t': Tables, t'': Tables)
    requires Grows(t, t') && Grows(t', t'')
    ensures Grows(t, t'')
  {
  }

  /** The state of the loop of `Predictor.encode` after `i` bytes: their stubs' codes are fixed and `out` holds their codewords. */
  ghost predicate EncodedTo(t: Tables, text: seq<Byte>, i: nat, out: seq<Bit>)
  {
    && Good(t) && i <= |text|
    && (forall j {:trigger EncoderStub(text, j, t.window)} :: 0 <= j < i ==> Fixed(t, EncoderStub(text, j, t.window)))
    && out == EncodeUpTo(t, text, i)
  }

  /** The trained stubs among the encoder's stubs of the first `n` positions of `text`. */
  ghost function TrainedStubs(t: Tables, text: seq<Byte>, n: nat): set<seq<Byte>>
  {
    set i | 0 <= i < n && EncoderStub(text, i, t.window) in t.completions :: EncoderStub(text, i, t.window)
  }

  /** One more position adds its stub when it is trained. */
  lemma TrainedStubsNext(t: Tables, text: seq<Byte>, n: nat)
    ensures var stub := EncoderStub(text, n, t.window);
            TrainedStubs(t, text, n + 1) == TrainedStubs(t, text, n) + (if stub in t.completions then {stub} else {})
  {
  }

  /** After `i` rounds of the loop of `Predictor.encode` from `t`, the cache keys are the old ones and the trained stubs so far. */
  ghost predicate KeysTo(t: Tables, text: seq<Byte>, i: nat, keys: set<seq<Byte>>)
  {
    keys == t.cache.Keys + TrainedStubs(t, text, i)
  }

  /** The cache keys after one more round of the loop of `Predictor.encode`: the stub it caches joins the trained stubs so far. */
  lemma KeysNext(t: Tables, text: seq<Byte>, i: nat, keys: set<seq<Byte>>, keys': set<seq<Byte>>)
    requires KeysTo(t, text, i, keys)
    requires var stub := EncoderStub(text, i, t.window);
             keys' == keys + (if stub in t.completions then {stub} else {})
    ensures KeysTo(t, text, i + 1, keys')
  {
    TrainedStubsNext(t, text, i);
  }

  /** One round of the loop of `Predictor.encode`: with the `i`-th stub's code fixed, appending its codeword keeps the loop state. */
  lemma EncodeStep(t: Tables, t': Tables, text: seq<Byte>, i: nat, out: seq<Bit>, cw: seq<Bit>)
    requires EncodedTo(t, text, i, out) && Good(t') && Keeps(t, t') && i < |text|
    requires var code := CodeAt(t', EncoderStub(text, i, t.window));
             Fixed(t', EncoderStub(text, i, t.window)) && Covers(code, text[i]) && cw == Emit(code, text[i])
    ensures EncodedTo(t', text, i + 1, out + cw)
  {
    forall j | 0 <= j < i
      ensures Fixed(t', EncoderStub(text, j, t.window))
    {
      GrowsKeepsFixed(t, t', EncoderStub(text, j, t.window));
    }
    EncodeUpToStable(t, t', text, i);
    EncodeNext(t', text, i);
  }

  // ---------------------------------------------------------------------------
  // An arithmetic predictor trained on an empty text, decoding as written

  /** Trained on an empty text, the global table weights each byte 1. */
  lemma EmptyByteWeights()
    ensures Full(ByteTable([])) && forall s :: s in ByteTable([]) ==> ByteTable([])[s] == 1
  {
    SmoothedFull(Occurrences([]), 1);
  }

  /** Trained on an empty text, the global table has all 256 bytes. */
  lemma EmptyByteCount()
    ensures |ByteTable([])| == 256
  {
    EmptyByteWeights();
    assert ByteTable([]).Keys == BytesBelow(256);
  }

  /**
   * Trained on an empty text, an arithmetic predictor that decodes as
   * written has no stub tables and a default code laid out over 256 bytes
   * of weight 1.
   */
  lemma EmptyTraining(t: Tables) returns (a: Arithmetic.ArithmeticCode)
    requires Trained(t, []) && t.kind == ArithmeticKind(AsWritten)
    ensures t.window >= 1 && t.completions == map[]
    ensures t.defaultCode == ArithmeticTable(a, AsWritten) && Arithmetic.LaidOut(a, t.byteCounts)
    ensures Full(t.byteCounts) && |t.byteCounts| == 256 && forall s :: s in t.byteCounts ==> t.byteCounts[s] == 1
  {
    EmptyByteWeights();
    EmptyByteCount();
    assert Pairs([], t.window) == [];
    a := t.defaultCode.arithmetic;
  }

  /** A code that reads some byte's codeword back with a different count of bits does not decode what it encodes. */
  lemma MisreadNotDecodes(code: Code, s: Byte)
    requires Covers(code, s) && Readable(code) && Read(code, Emit(code, s), 0) != (Some(s), |Emit(code, s)|)
    ensures !Decodes(code)
  {
    assert At(Emit(code, s), 0, Emit(code, s));
  }

  /**
   * The default code of 256 bytes of weight 1, decoding as written: the
   * bytes get equal intervals, the last byte's codeword has 9 bits, and the
   * decoder returns that byte after 8 of them.
   */
  lemma UniformCodeStopsEarly(a: Arithmetic.ArithmeticCode, w: Counter) returns (s: Byte)
    requires Full(w) && Arithmetic.LaidOut(a, w) && |w| == 256 && forall s :: s in w ==> w[s] == 1
    ensures ArithmeticCoding.Uniform(a.steps) && s == a.steps[256].sym as Byte
    ensures var code := ArithmeticTable(a, AsWritten);
            && Covers(code, s) && Emit(code, s) == [1, 1, 1, 1, 1, 1, 1, 1, 0]
            && Readable(code) && Read(code, Emit(code, s), 0) == (Some(s), 8)
  {
    s := ArithmeticCoding.UniformLastInterval(a, w);
    ArithmeticCoding.UniformStopsEarly(a, w);
    ArithmeticReady(a, AsWritten, w);
  }

  /**
   * Trained on an empty text, an arithmetic predictor's default code gives
   * the 256 bytes equal intervals. The last byte's codeword has 9 bits, and
   * the decoder as written returns that byte after 8 of them, so the code
   * does not decode what it encodes.
   */
  lemma EmptyTrainingStopsEarly(t: Tables) returns (s: Byte)
    requires Trained(t, []) && t.kind == ArithmeticKind(AsWritten)
    ensures t.defaultCode.ArithmeticTable? && ArithmeticCoding.Uniform(t.defaultCode.arithmetic.steps)
    ensures s == t.defaultCode.arithmetic.steps[256].sym as Byte
    ensures Covers(t.defaultCode, s) && Emit(t.defaultCode, s) == [1, 1, 1, 1, 1, 1, 1, 1, 0]
    ensures Readable(t.defaultCode) && Read(t.defaultCode, Emit(t.defaultCode, s), 0) == (Some(s), 8)
    ensures !Decodes(t.defaultCode)
  {
    var a := EmptyTraining(t);
    s := UniformCodeStopsEarly(a, t.byteCounts);
    MisreadNotDecodes(t.defaultCode, s);
  }

  /** No byte encodes to no bits. */
  lemma EncodeNone(t: Tables, text: seq<Byte>)
    requires Good(t)
    ensures EncodeUpTo(t, text, 0) == []
  {
    assert Codewords(t, text)[..0] == [];
  }

  /** With nothing cached, each byte is encoded with the default code. */
  lemma EncodeNextDefault(t: Tables, text: seq<Byte>, i: nat)
    requires Good(t) && t.cache == map[] && i < |text|
    ensures Covers(t.defaultCode, text[i])
    ensures EncodeUpTo(t, text, i + 1) == EncodeUpTo(t, text, i) + Emit(t.defaultCode, text[i])
  {
    EncodeNext(t, text, i);
  }

  /** Encoding two copies of a byte with nothing cached gives the default code's codeword twice. */
  lemma EncodeTwice(t: Tables, s: Byte)
    requires Good(t) && t.cache == map[]
    ensures EncodeUpTo(t, [s, s], 2) == Emit(t.defaultCode, s) + Emit(t.defaultCode, s)
  {
    var text: seq<Byte> := [s, s];
    var e := Emit(t.defaultCode, s);
    EncodeNone(t, text);
    EncodeNextDefault(t, text, 0);
    assert EncodeUpTo(t, text, 1) == e;
    EncodeNextDefault(t, text, 1);
  }

  /** With nothing cached, one round of the loop of `Predictor.decode` reads with the default code. */
  lemma DefaultStep(t: Tables, bits: seq<Bit>, index: nat, out: seq<Byte>, sym: Option<Byte>, next: nat)
    requires Good(t) && t.cache == map[] && index < |bits|
    requires Read(t.defaultCode, bits, index) == (sym, next)
    ensures DecodeFrom(t, bits, index, out) == if sym.None? then out else DecodeFrom(t, bits, next, out + [sym.value])
  {
  }

  /** With nothing cached, a default code of 256 equal intervals decoding as written reads two copies of the last codeword as two different bytes. */
  lemma DefaultMisreads(t: Tables, a: Arithmetic.ArithmeticCode, bits: seq<Bit>)
    requires Good(t) && t.cache == map[] && t.defaultCode == ArithmeticTable(a, AsWritten)
    requires ArithmeticCoding.Uniform(a.steps)
    requires bits == [1, 1, 1, 1, 1, 1, 1, 1, 0] + [1, 1, 1, 1, 1, 1, 1, 1, 0]
    ensures DecodeFrom(t, bits, 0, []) == [a.steps[256].sym as Byte, a.steps[128].sym as Byte]
  {
    var s, r := a.steps[256].sym as Byte, a.steps[128].sym as Byte;
    ArithmeticCoding.LastTwiceReads(a.steps, bits);
    DefaultStep(t, bits, 16, [s, r], None, 18);
    DefaultStep(t, bits, 8, [s], Some(r), 16);
    DefaultStep(t, bits, 0, [], Some(s), 8);
  }

  /**
   * The round trip fails on an arithmetic predictor trained on an empty text
   * that decodes as written, whatever its window: with nothing cached, the
   * text `s s`, for the byte `s` of the last interval, decodes to `s r` with
   * `r` another byte. The second read starts at the last bit of the first
   * codeword.
   */
  lemma EmptyTrainingRoundTripFails(t: Tables) returns (s: Byte, r: Byte)
    requires Trained(t, []) && t.kind == ArithmeticKind(AsWritten) && t.cache == map[]
    ensures Good(t) && r != s
    ensures DecodeFrom(t, Unframe(Frame(EncodeUpTo(t, [s, s], 2))), 0, []) == [s, r]
  {
    var a := EmptyTraining(t);
    s := UniformCodeStopsEarly(a, t.byteCounts);
    SoundReady(t.defaultCode, t.byteCounts);
    r := a.steps[128].sym as Byte;
    var bits := Emit(t.defaultCode, s) + Emit(t.defaultCode, s);
    EncodeTwice(t, s);
    UnframeFrame(bits);
    assert Unframe(Frame(EncodeUpTo(t, [s, s], 2))) == bits;
    DefaultMisreads(t, a, bits);
  }

  // ---------------------------------------------------------------------------
  // The predictor object

  class Predictor {
    var window: nat
    var kind: CodeKind
    var completions: map<seq<Byte>, Counter>
    var byteCounts: Counter
    var defaultCode: Code
    var cache: map<seq<Byte>, Code>

    function Snapshot(): Tables
      reads this
    {
      Tables(window, kind, completions, byteCounts, defaultCode, cache)
    }

    /** Every cached code is for a stub of `window - 1` bytes and is ready, and decodes what it encodes when the class round-trips. */
    ghost predicate CacheGood()
      reads this
    {
      CodesReady(window, cache) && (RoundTrips(kind) ==> CodesDecode(window, cache))
    }

    /** The tables are full, every code is ready, and every code decodes what it encodes when the class round-trips. */
    ghost predicate Valid()
      reads this
    {
      Good(Snapshot()) && (RoundTrips(kind) ==> Built(Snapshot()))
    }

    /** `Predictor(text, window=6, Code=ArithmeticCode)`. */
    constructor (text: seq<Byte>, window: nat := 6, kind: CodeKind := ArithmeticKind(AsWritten))
      requires window >= 1
      ensures Valid()
      ensures this.window == window && this.kind == kind && cache == map[]
      ensures Trained(Snapshot(), text)
    {
      this.window := window;
      this.kind := kind;
      cache := map[];
      new;
      Train(text);
    }

    /**
     * `train`: count, for every stub of `window - 1` bytes, the bytes that
     * follow it; weight every byte `1000000 * count + 1` in each stub's table
     * and `count + 1` in the global table; build the default code from the
     * global table. The cache is left as it was.
     */
    method Train(text: seq<Byte>)
      requires window >= 1 && CacheGood()
      modifies this
      ensures Valid()
      ensures window == old(window) && kind == old(kind) && cache == old(cache)
      ensures Trained(Snapshot(), text)
    {
      var t := Retrain(Snapshot(), text);
      completions, byteCounts, defaultCode := t.completions, t.byteCounts, t.defaultCode;
      assert Snapshot() == t;
    }

    /** `huffman_for_stub`: the cached code; else, for a trained stub, a new code, cached; else the default code. */
    method CodeFor(stub: seq<Byte>) returns (code: Code)
      requires Valid()
      modifies this
      ensures Valid() && Grows(old(Snapshot()), Snapshot()) && kind == old(kind)
      ensures stub in old(cache) ==> code == old(cache)[stub] && cache == old(cache)
      ensures stub !in old(cache) && stub in completions ==>
                && cache == old(cache)[stub := code]
                && Sound(code, completions[stub])
                && KindOf(code) == kind
      ensures stub !in old(cache) && stub !in completions ==> code == defaultCode && cache == old(cache)
      ensures cache.Keys == old(cache).Keys + (if stub in completions then {stub} else {})
      ensures code == CodeAt(Snapshot(), stub) && Fixed(Snapshot(), stub)
    {
      var after;
      code, after := Lookup(Snapshot(), stub);
      cache := after.cache;
      assert Snapshot() == after;
    }

    /**
     * `encode`: the codeword of each byte under its stub's code, framed.
     * Afterwards every trained stub of the text has its code cached.
     */
    method Encode(text: seq<Byte>) returns (encoded: seq<Byte>)
      requires Valid()
      modifies this
      ensures Valid() && Grows(old(Snapshot()), Snapshot()) && kind == old(kind)
      ensures forall i :: 0 <= i < |text| ==> Fixed(Snapshot(), EncoderStub(text, i, window))
      ensures cache.Keys == old(cache).Keys + TrainedStubs(old(Snapshot()), text, |text|)
      ensures encoded == Frame(EncodeUpTo(Snapshot(), text, |text|))
    {
      var out: seq<Bit> := [];
      GrowsSame(Snapshot());
      for i := 0 to |text|
        invariant Valid() && Grows(old(Snapshot()), Snapshot()) && kind == old(kind)
        invariant KeysTo(old(Snapshot()), text, i, cache.Keys)
        invariant EncodedTo(Snapshot(), text, i, out)
      {
        ghost var before := Snapshot();
        var code := CodeFor(EncoderStub(text, i, window));
        KeysNext(old(Snapshot()), text, i, before.cache.Keys, cache.Keys);
        GrowsTrans(old(Snapshot()), before, Snapshot());
        CodeAtReady(Snapshot(), EncoderStub(text, i, window));
        var cw := EmitSymbol(code, text[i]);
        EncodeStep(before, Snapshot(), text, i, out, cw);
        out := out + cw;
      }
      encoded := Frame(out);
    }

    /**
     * `decode(encoded, prefix)`: recover the bits, then decode one byte at a
     * time with the code of the stub of the output so far, until the bits
     * run out or a code cannot finish a symbol. Every trained stub the loop
     * looks up is cached, the one of its last round included.
     */
    method Decode(encoded: seq<Byte>, prefix: seq<Byte> := []) returns (text: seq<Byte>)
      requires Valid() && |encoded| >= 1
      modifies this
      ensures Valid() && Grows(old(Snapshot()), Snapshot()) && kind == old(kind)
      ensures text == DecodeFrom(Snapshot(), Unframe(encoded), 0, prefix)
      ensures cache.Keys == old(cache).Keys + DecodeStubs(Snapshot(), Unframe(encoded), 0, prefix)
    {
      var bits := Unframe(encoded);
      var out := prefix;
      var index: nat := 0;
      ghost var trail: seq<(nat, seq<Byte>)> := [(0, prefix)];
      ghost var keys0 := cache.Keys;
      GrowsSame(Snapshot());
      while index < |bits|
        invariant Valid() && Grows(old(Snapshot()), Snapshot()) && kind == old(kind)
        invariant DecodedTo(keys0, Snapshot(), bits, trail)
        invariant trail[0] == (0, prefix) && trail[|trail| - 1] == (index, out)
        decreases |bits| - index
      {
        ghost var before := Snapshot();
        var code := CodeFor(DecoderStub(out, window));
        GrowsTrans(old(Snapshot()), before, Snapshot());
        CodeAtReady(Snapshot(), DecoderStub(out, window));
        var sym, next := ReadSymbol(code, bits, index);
        DecodeStep(before, Snapshot(), bits, trail, sym, next);
        RoundKeys(keys0, before.cache.Keys, Snapshot().cache.Keys, Snapshot().window, Snapshot().completions,
                  bits, trail, index, out, sym, next);
        if sym.None? {
          DecodeDone(keys0, Snapshot(), bits, trail);
          break;
        }
        DecodedToIntro(keys0, Snapshot(), bits, trail + [(next, out + [sym.value])]);
        out := out + [sym.value];
        index := next;
        trail := trail + [(index, out)];
      }
      if index >= |bits| {
        DecodeEnd(keys0, Snapshot(), bits, trail);
      }
      text := out;
    }

    /** `encoding_probabilities_ranks`: each byte with its probability and rank in the table for its stub. */
    method ProbabilitiesRanks(text: seq<Byte>) returns (symbols: seq<Byte>, probabilities: seq<real>, ranks: seq<nat>)
      requires Valid()
      ensures symbols == text && |probabilities| == |text| && |ranks| == |text|
      ensures forall i :: 0 <= i < |text| ==>
                var c := Expectations(Snapshot(), text, i);
                && probabilities[i] == Probability(c, text[i])
                && ranks[i] == Rank(c, c[text[i]])
                && 0.0 < probabilities[i] <= 1.0
                && 1 <= ranks[i] <= 256
    {
      symbols, probabilities, ranks := [], [], [];
      for i := 0 to |text|
        invariant symbols == text[..i] && |probabilities| == i && |ranks| == i
        invariant forall j :: 0 <= j < i ==>
                    var c := Expectations(Snapshot(), text, j);
                    && probabilities[j] == Probability(c, text[j])
                    && ranks[j] == Rank(c, c[text[j]])
                    && 0.0 < probabilities[j] <= 1.0
                    && 1 <= ranks[j] <= 256
      {
        var stub := EncoderStub(text, i, window);
        var expectations := if stub in completions then completions[stub] else byteCounts;
        assert expectations == Expectations(Snapshot(), text, i);
        var frequency := Get(expectations, text[i]);
        var probability := frequency as real / Total(expectations) as real;
        var rank := Rank(expectations, frequency);
        ProbabilityBounds(expectations, text[i]);
        RankBounds(expectations, text[i]);
        assert text[..i + 1] == text[..i] + [text[i]];
        symbols := symbols + [text[i]];
        probabilities := probabilities + [probability];
        ranks := ranks + [rank];
      }
      assert text[..|text|] == text;
    }

    /**
     * Decoding, on the same instance, what `encode` produced gives back the
     * text, for a Huffman predictor and for an arithmetic one with the
     * corrected arithmetic decoder.
     */
    method EncodeDecode(text: seq<Byte>) returns (encoded: seq<Byte>, decoded: seq<Byte>)
      requires Valid() && RoundTrips(kind)
      modifies this
      ensures Valid() && decoded == text
    {
      encoded := Encode(text);
      ghost var encoding := Snapshot();
      decoded := Decode(encoded, []);
      EncodeUpToStable(encoding, Snapshot(), text, |text|);
      RoundTrip(Snapshot(), text);
    }
  }
}
