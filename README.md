# Shannon predictor: a verified Dafny model

This project models `shannon_predictor.py`, a context-conditioned entropy
coder for byte texts. A `Predictor` is trained on a text. For every *stub*
(the `window - 1` bytes before a position) it counts the bytes that follow
that stub. To encode a byte, it builds a code from the counts of the byte's
stub and emits the byte's codeword under that code.

There are two classes of code:

- `HuffmanCode` merges the two lightest entries of a heap into a binary
  tree, reads the symbol-to-path table off the tree, and decodes by walking
  the tree one bit at a time.
- `ArithmeticCode` lays out cumulative cut points over [0, 1).
  - Symbols are taken in descending order of probability.
  - A symbol is encoded as the coarsest closed dyadic cell that lies
    inside its interval without reaching the interval's end.
  - Decoding reads bits until the cell of the bits read falls inside one
    interval.

Codes are built lazily per stub and cached. A stub never seen in training
gets the default code, built from the counts over the whole text, and is
not cached (`shannon_predictor.py:135-136`). The encoder
packs the bits eight to a byte, most significant bit first, and appends
one byte holding the bit count modulo 8.

The model has seven modules, one per file:

| file | module | what it holds |
|---|---|---|
| `bits.dfy` | `Bits` | bytes, bits, binary numerals, `bin()` and `ceil` |
| `huffman.dfy` | `Huffman` | the tree datatype, the heap-merge loop, `_reverse_lookup`, encode, and the decode loop |
| `arithmetic.dfy` | `Arithmetic` | the descending sort, the cut-point loop, the interval table, and both `bisect` calls as counting functions |
| `arithmetic_coding.dfy` | `ArithmeticCoding` | the scale-doubling encoder and the bit-reading decoder, over exact reals |
| `counting.dfy` | `Counting` | `Counter`s: the training loops, smoothing, totals, and rank and probability |
| `framing.dfy` | `Framing` | `tobytes`/`frombytes` and the trailing mod-8 byte |
| `predictor.dfy` | `Prediction` | the `Predictor` class; its tables as a value, and the encode/decode loop states |

How each part is modelled:

- **Values.** `HuffmanCode` and `ArithmeticCode` never change after they
  are built, so they are datatypes, built by methods that hold the
  source's loops.
- **The `Predictor`.** It updates its fields in place, so it is a `class`.
  - Its methods have `modifies this` clauses.
  - Each method is proved against a value-level counterpart on the
    `Tables` datatype (`Retrain`, `Lookup`, `EncodeStep`, `DecodeStep`).
- **Exact arithmetic.** Probabilities are exact reals, and
  `x * 2**k` is written `Scaled(x, k)`.
- **Two arithmetic decoders.** An arithmetic code carries the decoder it
  reads with: `AsWritten`, the loop of lines 80-94 as it stands, or
  `Corrected`, the same loop with the fix described under "## Findings".
  The class a predictor is built with names the decoder too.

Main results:

- Both code classes decode what they encode, wherever the codeword stands
  in a bit stream.
- Both are prefix-free.
- The arithmetic intervals partition [0, 1).
- The predictor's `decode(encode(text)) == text` holds on the same
  instance, including the byte framing, for `HuffmanCode` and for
  `ArithmeticCode` with the corrected arithmetic decoder.
- With the arithmetic decoder as written it fails: an `ArithmeticCode`
  predictor trained on an empty text decodes the text `s s`, for the byte
  `s` of the last interval, to `s r` with `r` another byte.

## Model

| member | source | states |
|---|---|---|
| Huffman.LeafEntries | Code/experiments/Gutenberg/shannon_predictor.py:24-25 | one leaf entry per key of the weights, carrying that key's weight; the forest's leaves are exactly the keys |
| Huffman.PopLightest | Code/experiments/Gutenberg/shannon_predictor.py:27-28 | `heappop` returns an entry no heavier than any other, and the remaining entries keep every other leaf |
| Huffman.BuildTree | Code/experiments/Gutenberg/shannon_predictor.py:24-31 | for at least two symbols the merge loop ends in an internal node whose leaves are exactly the keys of the weights, each once, whatever the tie-breaks |
| Huffman.LeavesOfKeys | Code/experiments/Gutenberg/shannon_predictor.py:31 | a tree whose leaf multiset is the set of keys has those keys as its symbols, each at one leaf |
| Huffman.SymbolsAreLeaves | Code/experiments/Gutenberg/shannon_predictor.py:24-31 | a symbol occurs in the tree exactly when it is a leaf |
| Huffman.BranchKeys | Code/experiments/Gutenberg/shannon_predictor.py:35-44 | `_reverse_lookup` has an entry for a symbol exactly when that symbol is a leaf of the subtree |
| Huffman.BranchPaths | Code/experiments/Gutenberg/shannon_predictor.py:35-44 | in a tree with distinct leaves, `_reverse_lookup` maps each symbol to the prefix followed by the branch bits leading to its leaf |
| Huffman.NewHuffmanCode | Code/experiments/Gutenberg/shannon_predictor.py:19-32 | for at least two symbols, the built code has a full tree with one leaf per symbol, and its table holds exactly the symbols of the weights |
| Huffman.CodewordIsPath | Code/experiments/Gutenberg/shannon_predictor.py:46-47 | `encode(s)` is defined exactly for the symbols of the weights, and it is the non-empty path to the leaf of `s` |
| Huffman.Walk | Code/experiments/Gutenberg/shannon_predictor.py:49-54 | a symbol is returned only if it is a leaf; from a node it is returned only after reading at least one bit, within the stream; if the bits run out, the result is `(None, len(bitarr))` |
| Huffman.Decode | Code/experiments/Gutenberg/shannon_predictor.py:49-54 | the bit-walking loop returns what `Walk` specifies |
| Huffman.WalkPath | Code/experiments/Gutenberg/shannon_predictor.py:49-54 | walking the path of a leaf, whatever precedes and follows it, reaches that leaf exactly at the path's end |
| Huffman.DecodeEncoded | Code/experiments/Gutenberg/shannon_predictor.py:46-54 | if `bitarr[index:]` starts with `encode(s)`, then `decode` returns `(s, index + len(encode(s)))` |
| Huffman.PrefixFree | Code/experiments/Gutenberg/shannon_predictor.py:35-47 | no symbol's codeword is a prefix of another symbol's codeword |
| Arithmetic.Insert | Code/experiments/Gutenberg/shannon_predictor.py:64 | inserting a symbol keeps the list in descending (weight, symbol) order, adds exactly that symbol, and adds its weight to the total |
| Arithmetic.SortDescending | Code/experiments/Gutenberg/shannon_predictor.py:63-64 | the sorted list is in descending (probability, symbol) order and holds exactly the same symbols with the same total weight |
| Arithmetic.Items | Code/experiments/Gutenberg/shannon_predictor.py:63 | `items()` lists every key of the weights exactly once |
| Arithmetic.SortedSymbols | Code/experiments/Gutenberg/shannon_predictor.py:63-64 | the symbols of the weights, each once, in descending (weight, symbol) order |
| Arithmetic.CutPoints | Code/experiments/Gutenberg/shannon_predictor.py:65-69 | `steps` starts with `(0, 256)`, then holds one entry per symbol in sort order, each at the running sum of `frequency/total` |
| Arithmetic.NewArithmeticCode | Code/experiments/Gutenberg/shannon_predictor.py:61-70 | for positive weights, the code holds the cut points in descending order, each at the running sum of probabilities, and the interval table read off them |
| Arithmetic.IntervalsAt | Code/experiments/Gutenberg/shannon_predictor.py:70 | the symbol of entry `i` has the interval `(steps[i-1][0], steps[i][0])` |
| Arithmetic.IntervalsKeys | Code/experiments/Gutenberg/shannon_predictor.py:70 | a byte has an interval exactly when it is the symbol of some entry after the first |
| Arithmetic.RunningSumsArePrefixSums | Code/experiments/Gutenberg/shannon_predictor.py:66-68 | the `i`-th running sum is the weight of the first `i` symbols divided by the total |
| Arithmetic.CutIsPrefixSum | Code/experiments/Gutenberg/shannon_predictor.py:65-69 | each cut point is the weight of the symbols before it over the total weight |
| Arithmetic.WeightPrefixIncreasing | Code/experiments/Gutenberg/shannon_predictor.py:66-68 | with positive weights, a longer prefix of the sorted symbols weighs strictly more |
| Arithmetic.CutBelow | Code/experiments/Gutenberg/shannon_predictor.py:65-69 | the cut points strictly increase |
| Arithmetic.LastCutIsOne | Code/experiments/Gutenberg/shannon_predictor.py:65-69 | in exact arithmetic the last cut point is 1 |
| Arithmetic.CutsIncrease | Code/experiments/Gutenberg/shannon_predictor.py:61-70 | a built code's cut points rise strictly from 0 to 1 |
| Arithmetic.Position | Code/experiments/Gutenberg/shannon_predictor.py:70 | every symbol of the weights is the symbol of exactly one entry `i >= 1`, and its interval is `[steps[i-1], steps[i])` |
| Arithmetic.IntervalWidth | Code/experiments/Gutenberg/shannon_predictor.py:61-70 | each symbol's interval has width `frequency/total` |
| Arithmetic.CountAtMostIs | Code/experiments/Gutenberg/shannon_predictor.py:91 | `bisect_right(steps, (x, +inf))` is `k` exactly when `steps[k-1] <= x < steps[k]` |
| Arithmetic.CountBelowIs | Code/experiments/Gutenberg/shannon_predictor.py:92 | `bisect_left(steps, (y, -inf))` is `k` exactly when `steps[k-1] < y <= steps[k]` |
| Arithmetic.Partition | Code/experiments/Gutenberg/shannon_predictor.py:61-70 | every point of [0, 1) lies in the interval of exactly one entry |
| ArithmeticCoding.StartExponentScale | Code/experiments/Gutenberg/shannon_predictor.py:74-75 | at the start scale `2**floor(-log2(size))`, the interval is at most one unit wide |
| ArithmeticCoding.SpreadBound | Code/experiments/Gutenberg/shannon_predictor.py:76-77 | while the loop test holds, `scale <= 2/size`, so the doubling loop ends for any interval of positive width |
| ArithmeticCoding.Exponent | Code/experiments/Gutenberg/shannon_predictor.py:76-77 | the loop stops at an exponent no smaller than its start, where `ceil(hi*scale) - ceil(lo*scale) >= 2` |
| ArithmeticCoding.ExponentFirst | Code/experiments/Gutenberg/shannon_predictor.py:76-77 | no exponent the loop passes has a spread of 2 |
| ArithmeticCoding.Encode | Code/experiments/Gutenberg/shannon_predictor.py:72-78 | the doubling loop and `bin(ceil(lo*scale + scale))[3:]` yield the codeword of the symbol's interval |
| ArithmeticCoding.CodewordCellAt | Code/experiments/Gutenberg/shannon_predictor.py:78 | dropping the leading `1` of `bin(ceil(lo*2**k) + 2**k)` leaves `k` bits whose value `N` satisfies `lo*2**k <= N` and `N+1 < hi*2**k` |
| ArithmeticCoding.CodewordInside | Code/experiments/Gutenberg/shannon_predictor.py:72-78 | the codeword is non-empty, its length is where the loop stops, and its dyadic cell lies inside the symbol's interval without touching the interval's end |
| ArithmeticCoding.CodewordShortest | Code/experiments/Gutenberg/shannon_predictor.py:75-77 | at every shorter length, the interval does not span two integers |
| ArithmeticCoding.Resolve | Code/experiments/Gutenberg/shannon_predictor.py:84-94 | the corrected decoder reads at least one bit when it returns a symbol, never reads past the stream, and returns `(None, len(bitarr))` when the bits run out |
| ArithmeticCoding.Decode | Code/experiments/Gutenberg/shannon_predictor.py:80-94 | the loop of `decode` as written, with `bisect_left` at the upper end of the cell, returns what `ResolveAsWritten` specifies |
| ArithmeticCoding.DecodeCorrected | Code/experiments/Gutenberg/shannon_predictor.py:80-94 | the same loop with `bisect_right` at both ends of the cell returns what `Resolve` specifies |
| ArithmeticCoding.CountAtMostRange | Code/experiments/Gutenberg/shannon_predictor.py:91-94 | for a point of [0, 1) the resolved index is at least 1 and below `len(steps)`, so the sentinel 256 is never returned |
| ArithmeticCoding.CountAtMostScaled | Code/experiments/Gutenberg/shannon_predictor.py:89-91 | `bisect_right` at `n/2**m` is `j` exactly when `n` lies between the scaled cut points `j-1` and `j` |
| ArithmeticCoding.CountBelowScaled | Code/experiments/Gutenberg/shannon_predictor.py:90-92 | `bisect_left` at `n/2**m` is `j` exactly when `n` lies strictly above scaled cut point `j-1` and at or below cut point `j` |
| ArithmeticCoding.Nested | Code/experiments/Gutenberg/shannon_predictor.py:84-88 | the cell of the first `m` bits of a codeword contains the cell of the whole codeword |
| ArithmeticCoding.Settled | Code/experiments/Gutenberg/shannon_predictor.py:89-93 | after all the bits of the codeword of entry `i`, both counts are `i` |
| ArithmeticCoding.Unsettled | Code/experiments/Gutenberg/shannon_predictor.py:84-92 | after a proper prefix of the codeword the two counts differ, so the corrected decoder reads on |
| ArithmeticCoding.DecodeWithin | Code/experiments/Gutenberg/shannon_predictor.py:84-94 | from any proper prefix of the codeword, the corrected decoder reads exactly the rest of it and returns its symbol |
| ArithmeticCoding.DecodeEncoded | Code/experiments/Gutenberg/shannon_predictor.py:72-94 | on a stream where `encode(s)` starts at `index`, the corrected decoder returns `(s, index + len(encode(s)))` |
| ArithmeticCoding.PrefixFree | Code/experiments/Gutenberg/shannon_predictor.py:72-78 | no symbol's codeword is a prefix of another symbol's codeword |
| ArithmeticCoding.ResolveAsWritten | Code/experiments/Gutenberg/shannon_predictor.py:80-94 | the decoder as written reads at least one bit when it returns a symbol, never reads past the stream, and returns `(None, len(bitarr))` when the bits run out |
| ArithmeticCoding.AsWrittenSameEntry | Code/experiments/Gutenberg/shannon_predictor.py:89-92 | when the decoder as written settles on a prefix of a codeword, it settles on the codeword's own entry |
| ArithmeticCoding.AsWrittenWithin | Code/experiments/Gutenberg/shannon_predictor.py:84-94 | from any proper prefix of a codeword, the decoder as written returns the codeword's symbol, having read at least one more bit and none past the codeword |
| ArithmeticCoding.AsWrittenDecodes | Code/experiments/Gutenberg/shannon_predictor.py:72-94 | on a stream where `encode(s)` starts at `index`, the decoder as written returns `s`, having consumed at least 1 and at most `len(encode(s))` bits |
| ArithmeticCoding.AsWrittenStopsEarly | Code/experiments/Gutenberg/shannon_predictor.py:90-92 | for weights `{97: 1, 98: 1}`, `encode(98)` is `00`; the decoder as written stops after one bit, and the corrected decoder after two |
| ArithmeticCoding.TwoSymbolLaidOut | Code/experiments/Gutenberg/shannon_predictor.py:61-70 | `ArithmeticCode({97: 1, 98: 1})` has steps `(0, 256), (0.5, 98), (1, 97)` |
| ArithmeticCoding.TwoSymbolCodeword | Code/experiments/Gutenberg/shannon_predictor.py:72-78 | the codeword of the interval `[0, 0.5)` is `00` |
| ArithmeticCoding.UniformLaidOut | Code/experiments/Gutenberg/shannon_predictor.py:61-70 | a code built from 256 bytes of weight 1 has its cut points at `k/256`, for `k` from 0 to 256 |
| ArithmeticCoding.UniformStart | Code/experiments/Gutenberg/shannon_predictor.py:89-91 | for 256 equal intervals and `m <= 8`, `bisect_right` at `n/2**m` is `n * 2**(8-m) + 1` |
| ArithmeticCoding.UniformEnd | Code/experiments/Gutenberg/shannon_predictor.py:90-92 | for 256 equal intervals and `m <= 8`, `bisect_left` at `(n+1)/2**m` is `(n+1) * 2**(8-m)` |
| ArithmeticCoding.UniformReads | Code/experiments/Gutenberg/shannon_predictor.py:80-94 | for 256 equal intervals, the decoder as written settles exactly when 8 bits have been read, on the entry after their value |
| ArithmeticCoding.UniformRunsOut | Code/experiments/Gutenberg/shannon_predictor.py:80-94 | for 256 equal intervals, with fewer than 8 bits left, the decoder as written returns `(None, len(bitarr))` |
| ArithmeticCoding.LastCodeword | Code/experiments/Gutenberg/shannon_predictor.py:72-78 | the last of 256 equal intervals, `[255/256, 1)`, is encoded as the 9 bits `111111110` |
| ArithmeticCoding.UniformStopsEarly | Code/experiments/Gutenberg/shannon_predictor.py:72-94 | for 256 bytes of weight 1, the last byte has the interval `[255/256, 1)` and the codeword `111111110`; the decoder as written returns it after 8 bits, the corrected decoder after 9 |
| ArithmeticCoding.LastTwiceReads | Code/experiments/Gutenberg/shannon_predictor.py:80-94 | on two copies of `111111110` the decoder as written returns the last byte after 8 bits, then the byte of entry 128 from bits 9 to 16, then runs out |
| Counting.Bump | Code/experiments/Gutenberg/shannon_predictor.py:116 | `update([s])` adds one to the count of `s` and to no other count |
| Counting.CountBytes | Code/experiments/Gutenberg/shannon_predictor.py:124 | `Counter(text)` counts each byte's occurrences in the text |
| Counting.ScaleCounts | Code/experiments/Gutenberg/shannon_predictor.py:120-121 | every count is multiplied by the factor, and the keys are kept |
| Counting.AddEachByte | Code/experiments/Gutenberg/shannon_predictor.py:122 | `update(bytes(range(256)))` adds one to every byte's count, so every byte has weight at least 1 |
| Counting.Smooth | Code/experiments/Gutenberg/shannon_predictor.py:120-122 | scaling and then adding each byte gives the smoothed table `factor * count + 1` |
| Counting.SmoothedOrder | Code/experiments/Gutenberg/shannon_predictor.py:120-122 | smoothing gives every byte weight at least 1, and one byte's count is below another's exactly when its smoothed weight is |
| Counting.Pairs | Code/experiments/Gutenberg/shannon_predictor.py:113-114 | exactly `max(0, len(text) - window + 1)` observations are made, and every stub has `window - 1` bytes |
| Counting.StubLength | Code/experiments/Gutenberg/shannon_predictor.py:113-114 | every stub that `train` observes has `window - 1` bytes |
| Counting.CountOne | Code/experiments/Gutenberg/shannon_predictor.py:115-117 | counting one more observation, whether its stub's `Counter` is new or not, keeps every stub's counts exact |
| Counting.CountCompletions | Code/experiments/Gutenberg/shannon_predictor.py:111-117 | the first loop of `train` has one `Counter` per observed stub, counting, for each byte, the observations of that stub followed by that byte |
| Counting.SmoothEach | Code/experiments/Gutenberg/shannon_predictor.py:119-122 | the second loop of `train` replaces every stub's `Counter` by its smoothed table and keeps the stubs |
| Counting.StubTableCounts | Code/experiments/Gutenberg/shannon_predictor.py:111-122 | a trained stub's table weights every byte `1000000 * count + 1`, and its total is 1000000 per observation of the stub, plus 256 |
| Counting.ByteTableCounts | Code/experiments/Gutenberg/shannon_predictor.py:124-125 | the global table weights every byte `count + 1`, unscaled, and its total is `len(text) + 256` |
| Counting.CompletionsTotal | Code/experiments/Gutenberg/shannon_predictor.py:113-117 | the counts of a stub's completions add up to its number of observations |
| Counting.TotalCounts | Code/experiments/Gutenberg/shannon_predictor.py:124 | the counts of `Counter(text)` add up to `len(text)` |
| Counting.ProbabilityBounds | Code/experiments/Gutenberg/shannon_predictor.py:172 | for a full table, `total()` is at least 256 and each probability lies in (0, 1] |
| Counting.RankBounds | Code/experiments/Gutenberg/shannon_predictor.py:173 | a symbol's rank lies between 1 and 256 |
| Counting.RankOne | Code/experiments/Gutenberg/shannon_predictor.py:173 | the rank is 1 exactly when no symbol is heavier |
| Counting.RankMonotone | Code/experiments/Gutenberg/shannon_predictor.py:173 | a heavier frequency never ranks behind a lighter one |
| Framing.Pack | Code/experiments/Gutenberg/shannon_predictor.py:145 | `tobytes` on whole bytes gives one byte per eight bits |
| Framing.UnpackPack | Code/experiments/Gutenberg/shannon_predictor.py:145-150 | `frombytes(tobytes(bits))` gives the bits back when their number is a multiple of 8 |
| Framing.PackUnpack | Code/experiments/Gutenberg/shannon_predictor.py:145-150 | `tobytes(frombytes(bytes))` gives the bytes back |
| Framing.Padding | Code/experiments/Gutenberg/shannon_predictor.py:145 | fewer than 8 zero bits complete the last byte |
| Framing.FrameLayout | Code/experiments/Gutenberg/shannon_predictor.py:145 | the output of `encode` is the zero-padded bits, most significant bit first, in `ceil(len/8)` bytes, followed by one byte holding `len(bits) % 8` |
| Framing.UnframePrefix | Code/experiments/Gutenberg/shannon_predictor.py:148-151 | for any input, the bits `decode` keeps are a prefix of the bits of all bytes but the last |
| Framing.UnframeFrame | Code/experiments/Gutenberg/shannon_predictor.py:145-151 | the slice at line 151 recovers exactly the bits that `encode` framed |
| Prediction.Build | Code/experiments/Gutenberg/shannon_predictor.py:127 | `self.Code(table)` on a table weighting every byte builds a code of the chosen class, with the chosen arithmetic decoder, that is sound for that table |
| Prediction.SoundReady | Code/experiments/Gutenberg/shannon_predictor.py:19-94 | a code of either class, with either arithmetic decoder, built from a full table can encode every byte and can decode |
| Prediction.SoundDecodes | Code/experiments/Gutenberg/shannon_predictor.py:46-94 | a Huffman code, or an arithmetic code with the corrected decoder, built from a full table encodes every byte with a non-empty codeword and decodes every codeword wherever it stands |
| Prediction.Read | Code/experiments/Gutenberg/shannon_predictor.py:157 | `huffman_code.decode(bits, index)`: the Huffman walk, the arithmetic decoder as written, or for a `Corrected` code the corrected arithmetic decoder; it returns a symbol only after reading at least one bit and none past the stream, otherwise `len(bits)` |
| Prediction.EmitSymbol | Code/experiments/Gutenberg/shannon_predictor.py:144 | `huffman_code.encode(s)` for either class |
| Prediction.ReadSymbol | Code/experiments/Gutenberg/shannon_predictor.py:157 | `huffman_code.decode(bits, index)`: the Huffman loop, the arithmetic loop as written, or for a `Corrected` code the loop with the corrected arithmetic decoder |
| Prediction.SliceBound | Code/experiments/Gutenberg/shannon_predictor.py:142 | Python's slice bound: negative bounds count from the end and are then clamped into the sequence |
| Prediction.StubsAgree | Code/experiments/Gutenberg/shannon_predictor.py:142-155 | from position `window - 1` on, the encoder's stub equals the decoder's stub; before that, the encoder's stub is too short to name a trained table and the decoder's is `b''` |
| Prediction.ShortTextStub | Code/experiments/Gutenberg/shannon_predictor.py:142-155 | on a short text the encoder's early stub is not empty: `b'abc'[-3:2] == b'ab'` while the decoder's stub is `b''` |
| Prediction.TrainTables | Code/experiments/Gutenberg/shannon_predictor.py:109-127 | `train` gives one table per observed stub of `window - 1` bytes, weighting each byte `1000000 * count + 1`; a global table weighting each byte `count + 1`; and a default code of the chosen class, sound for the global table |
| Prediction.Retrain | Code/experiments/Gutenberg/shannon_predictor.py:109-127 | `train` on the tables as a value replaces the counts and the default code and keeps the window, the class and the cache |
| Prediction.Lookup | Code/experiments/Gutenberg/shannon_predictor.py:129-137 | a cached stub returns its cached code and nothing changes; a trained, uncached stub gets a code the class builds from its table, cached, and nothing else changes; any other stub returns the default code and nothing changes; the cache keys gain the stub exactly when it is trained |
| Prediction.GrowsKeepsFixed | Code/experiments/Gutenberg/shannon_predictor.py:129-137 | caching more codes never changes the code of a stub that is already cached, or that has no trained table |
| Prediction.CacheCode | Code/experiments/Gutenberg/shannon_predictor.py:133-134 | caching the code the class builds from a trained stub's table keeps every code ready (and decoding, for a class that round-trips) and fixes that stub's code |
| Prediction.EncodePrefix | Code/experiments/Gutenberg/shannon_predictor.py:139-144 | the bits for a shorter part of the text are a prefix of the bits for a longer part |
| Prediction.EncodeStep | Code/experiments/Gutenberg/shannon_predictor.py:141-144 | each round of the encode loop appends the byte's codeword under the code of its stub, and keeps the codes of earlier stubs fixed |
| Prediction.Step | Code/experiments/Gutenberg/shannon_predictor.py:154-160 | one round of the decode loop reads at least one bit, never reads past the stream, and appends one byte |
| Prediction.DecodeStep | Code/experiments/Gutenberg/shannon_predictor.py:154-160 | one round of the decode loop either ends the loop or extends the run of loop states by one step; earlier steps survive the caching |
| Prediction.TrailDecodes | Code/experiments/Gutenberg/shannon_predictor.py:153-161 | a run of loop states that ends where the loop stops gives the decoder's output |
| Prediction.TrailStubs | Code/experiments/Gutenberg/shannon_predictor.py:153-160 | a run of loop states that ends where the loop stops looks up, from its first state, exactly the trained stubs of the states where a round runs |
| Prediction.RoundKeys | Code/experiments/Gutenberg/shannon_predictor.py:155-160 | a round of the decode loop adds its stub to the cache keys when it is trained; the loop then stops with every state looked up, or goes on to a state not yet looked up |
| Prediction.DecodeDone | Code/experiments/Gutenberg/shannon_predictor.py:153-161 | where the loop stops, its output is `DecodeFrom` and the cache keys are the old ones with exactly the stubs `DecodeStubs` names |
| Prediction.DecodeKeepsPrefix | Code/experiments/Gutenberg/shannon_predictor.py:152-161 | `decode`'s output always starts with `prefix`, and adds at most one byte per bit |
| Prediction.DecodeNext | Code/experiments/Gutenberg/shannon_predictor.py:154-160 | at the start of the `i`-th codeword, with the first `i` bytes output, the decoder reads the `i`-th byte and moves past its codeword |
| Prediction.DecodeRest | Code/experiments/Gutenberg/shannon_predictor.py:152-161 | from the start of the `i`-th codeword, decoding yields the whole text |
| Prediction.RoundTrip | Code/experiments/Gutenberg/shannon_predictor.py:139-161 | when every code of the tables decodes what it encodes, decoding the framed bits that the tables encode a text to gives back the text |
| Prediction.Expectations | Code/experiments/Gutenberg/shannon_predictor.py:168-170 | the table consulted for a position weights every byte, with a total of at least 256 |
| Prediction.EmptyByteWeights | Code/experiments/Gutenberg/shannon_predictor.py:124-125 | trained on an empty text, the global table weights every byte 1 |
| Prediction.EmptyByteCount | Code/experiments/Gutenberg/shannon_predictor.py:124-125 | trained on an empty text, the global table holds all 256 bytes |
| Prediction.EmptyTraining | Code/experiments/Gutenberg/shannon_predictor.py:109-127 | trained on an empty text, an arithmetic predictor has no stub tables and a default code laid out over 256 bytes of weight 1 |
| Prediction.UniformCodeStopsEarly | Code/experiments/Gutenberg/shannon_predictor.py:72-94 | an arithmetic code over 256 bytes of weight 1, decoding as written, encodes the last byte in 9 bits and reads it back after 8 |
| Prediction.EmptyTrainingStopsEarly | Code/experiments/Gutenberg/shannon_predictor.py:72-94 | trained on an empty text, an arithmetic predictor decoding as written has a default code of 256 equal intervals that reads the 9-bit codeword of the last byte back after 8 bits, so it does not decode what it encodes |
| Prediction.EncodeTwice | Code/experiments/Gutenberg/shannon_predictor.py:139-145 | with nothing cached, encoding `s s` emits the default code's codeword twice |
| Prediction.DefaultMisreads | Code/experiments/Gutenberg/shannon_predictor.py:152-161 | with nothing cached, a default code of 256 equal intervals decoding as written decodes two copies of the last codeword to two different bytes |
| Prediction.EmptyTrainingRoundTripFails | Code/experiments/Gutenberg/shannon_predictor.py:139-161 | trained on an empty text, an arithmetic predictor decoding as written, with any window and nothing cached, decodes the encoding of `s s` to `s r` with `r != s` |
| Prediction.Predictor.constructor | Code/experiments/Gutenberg/shannon_predictor.py:103-107 | a new predictor has the given window and code class (by default 6 and `ArithmeticCode` with the decoder as written), an empty cache, and the tables that `train(text)` builds |
| Prediction.Predictor.Train | Code/experiments/Gutenberg/shannon_predictor.py:109-127 | `train` leaves the tables it builds from `text`, and keeps the window, the class and the cache |
| Prediction.Predictor.CodeFor | Code/experiments/Gutenberg/shannon_predictor.py:129-137 | `huffman_for_stub`, with the three cases of `Lookup` stated on the object's fields, including the growth of the cache keys |
| Prediction.Predictor.Encode | Code/experiments/Gutenberg/shannon_predictor.py:139-145 | the output is the framed concatenation of each byte's codeword under the code of its stub; every code cached meanwhile is the class's code for its stub's table, and the new cache keys are exactly the text's trained stubs not cached before |
| Prediction.Predictor.Decode | Code/experiments/Gutenberg/shannon_predictor.py:147-161 | the output is what the decode loop yields from `prefix` (empty by default) on the unframed bits; the cache gains exactly the trained stubs the loop looks up, including the round whose code finds no symbol, each new code the class's code for its stub's table |
| Prediction.Predictor.ProbabilitiesRanks | Code/experiments/Gutenberg/shannon_predictor.py:163-178 | each byte is returned with its probability (in (0, 1]) and its rank (1 to 256) in the table of its stub, or in the global table for an untrained stub |
| Prediction.Predictor.EncodeDecode | Code/experiments/Gutenberg/shannon_predictor.py:139-161 | on the same instance, `decode(encode(text)) == text` for `HuffmanCode`, and for `ArithmeticCode` with the corrected arithmetic decoder |

## Left out

- The `__main__` driver (lines 184-246) is not part of this model. It
  reads files, prints, calls `randbytes` and builds a pandas table.
- The unused imports `time` and `functools.cache` are not part of this
  model.
- `random()` tie-breaks in `HuffmanCode.__init__`:
  - `PopLightest` picks any lightest entry, so every property holds for
    every tie-break order;
  - optimal code length is not claimed.
- Floating point:
  - Probabilities, cut points and scales are exact reals.
  - The `1e400` sentinels of lines 89-90 become the strict and non-strict
    comparisons of `CountAtMost` and `CountBelow`.
  - `floor(-log(size, 2))` is computed exactly, as the integer logarithm
    of `floor(1/size)`.
  - Float rounding error is not modelled.
- `bitarray` internals:
  - a bit array is a `seq<Bit>`, packed most significant bit first;
  - `.to_bytes()` of a value below 8 is one byte.
- Huffman.NewHuffmanCode: requires at least two symbols. With one symbol
  the source stores a bare leaf and `_reverse_lookup` fails on it, and
  with none `pairs[0]` fails. The predictor always passes 256 symbols.
- Arithmetic.NewArithmeticCode: requires a non-empty table of positive
  weights. With a zero total the source divides by zero. The predictor
  always passes positive weights.
- The `KeyError` of `encode` on a symbol that has no codeword
  (`symbol_encoding` and `intervals` are plain dicts) is not modelled.
  Every code the predictor builds holds all 256 bytes, so the predictor
  never reaches it.
- Prediction.Predictor.Train: requires `window >= 1` and that every cached
  code is ready, and decodes what it encodes when the class round-trips.
  `train` does not clear the cache, so retraining an object that already
  cached codes keeps the old codes.
  With `window == 0` the stub slices of the source take a different form,
  which the model does not cover.
- Prediction.Predictor.constructor: requires `window >= 1`, for the same
  reason.
- Prediction.Predictor.Decode: requires a non-empty input, because the
  source reads `encoded_text[-1]`.
- Prediction.Read: for an arithmetic code built with the `Corrected`
  decoder it reads with the corrected arithmetic decoder
  `ArithmeticCoding.Resolve`, not with lines 80-94 as written; the
  `AsWritten` branch reads as the source does.
- Prediction.ReadSymbol: for a `Corrected` arithmetic code it calls
  `ArithmeticCoding.DecodeCorrected`, not the loop of lines 80-94 as
  written; the `AsWritten` branch calls that loop.
- Prediction.SoundDecodes: holds for Huffman codes and for arithmetic codes
  with the corrected decoder only. An arithmetic code decoding as written
  may stop before the end of a codeword (`EmptyTrainingStopsEarly`).
- Prediction.Predictor.EncodeDecode: requires a class that round-trips,
  `HuffmanCode` or `ArithmeticCode` with the corrected decoder. With the
  decoder as written the round trip can fail
  (`EmptyTrainingRoundTripFails`).
- Prediction.Predictor.ProbabilitiesRanks: the probability is stated as an
  exact fraction, not a float.

## Findings

| source | as written | input that shows it | evidently intended | confidence | as-written member | corrected member |
|---|---|---|---|---|---|---|
| Code/experiments/Gutenberg/shannon_predictor.py:90-92 | the upper end of the cell is counted with `bisect_left` against `(y, -1e400)`, so the decoder settles as soon as the cell's upper end reaches the end of an interval, before the encoder's codeword has been read | `ArithmeticCode({97: 1, 98: 1})`: `encode(98)` is `00`, but `decode([0, 0], 0)` returns `(98, 1)`, leaving the second bit to be read as the start of the next symbol | count both ends with `bisect_right`, so that the decoder consumes exactly the codeword (`decode` returns `(98, 2)`) and the predictor's `decode(encode(text)) == text` holds for `ArithmeticCode` too | not executed | ArithmeticCoding.AsWrittenStopsEarly | ArithmeticCoding.DecodeEncoded |
| Code/experiments/Gutenberg/shannon_predictor.py:147-161 | with `ArithmeticCode`, the class the driver at line 188 uses, `decode` reads each symbol with the decoder of lines 80-94, whose early stop leaves bits of one codeword to be read as the start of the next | `Predictor(b'', Code=ArithmeticCode)` weights the 256 bytes equally; the last byte `s` is encoded as `111111110`, and `decode(encode(bytes([s, s])))` returns `s` followed by the byte of entry 128 | `decode(encode(text)) == text` on the same instance | not executed | Prediction.EmptyTrainingRoundTripFails | Prediction.Predictor.EncodeDecode |
