/**
 * The byte framing of `Predictor.encode` and `Predictor.decode`: the bit
 * stream is packed eight bits to a byte, most significant bit first, the
 * last byte padded with zero bits, and one more byte records the number of
 * bits modulo 8 so that the decoder can drop the padding again.
 */
module Framing {
  import opened Bits

  lemma Pow2Eight()
    ensures Pow2(8) == 256
  {
    assert Pow2(1) == 2;
    assert Pow2(4) == 16;
  }

  /** `bitarray.tobytes()` on a whole number of bytes: each group of eight bits becomes one byte. */
  function Pack(bits: seq<Bit>): (bytes: seq<Byte>)
    requires |bits| % 8 == 0
    ensures |bytes| == |bits| / 8
  {
    if bits == [] then []
    else
      Pow2Eight();
      [FromBits(bits[..8]) as Byte] + Pack(bits[8..])
  }

  /** `bitarray.frombytes`: eight bits per byte, most significant bit first. */
  function Unpack(bytes: seq<Byte>): (bits: seq<Bit>)
    ensures |bits| == 8 * |bytes|
  {
    if bytes == [] then [] else ToBits(bytes[0], 8) + Unpack(bytes[1..])
  }

  lemma {:induction false} UnpackPack(bits: seq<Bit>)
    requires |bits| % 8 == 0
    ensures Unpack(Pack(bits)) == bits
  {
    if bits != [] {
      ToFromBits(bits[..8]);
      UnpackPack(bits[8..]);
      assert bits == bits[..8] + bits[8..];
    }
  }

  lemma {:induction false} PackUnpack(bytes: seq<Byte>)
    ensures Pack(Unpack(bytes)) == bytes
  {
    if bytes != [] {
      var bits := Unpack(bytes);
      assert bits[..8] == ToBits(bytes[0], 8);
      assert bits[8..] == Unpack(bytes[1..]);
      Pow2Eight();
      FromToBits(bytes[0], 8);
      PackUnpack(bytes[1..]);
    }
  }

  lemma {:induction false} UnpackAppend(a: seq<Byte>, b: seq<Byte>)
    ensures Unpack(a + b) == Unpack(a) + Unpack(b)
  {
    if a != [] {
      assert (a + b)[1..] == a[1..] + b;
      UnpackAppend(a[1..], b);
    } else {
      assert a + b == b;
    }
  }

  /** The number of zero bits `tobytes` adds to complete the last byte. */
  function Padding(n: nat): (p: nat)
    ensures p < 8 && (n + p) % 8 == 0
  {
    (8 - n % 8) % 8
  }

  function Zeros(k: nat): (z: seq<Bit>)
    ensures |z| == k && forall i :: 0 <= i < k ==> z[i] == 0
  {
    seq(k, i => 0)
  }

  /** `out.tobytes() + (len(out) % 8).to_bytes()`. */
  function Frame(bits: seq<Bit>): (bytes: seq<Byte>)
  {
    Pack(bits + Zeros(Padding(|bits|))) + [|bits| % 8]
  }

  /**
   * The framed bytes: the bits padded with zeros to whole bytes, most
   * significant first, then one byte holding the bit count modulo 8.
   */
  lemma FrameLayout(bits: seq<Bit>)
    ensures var bytes := Frame(bits);
            && |bytes| == (|bits| + 7) / 8 + 1
            && bytes[|bytes| - 1] == |bits| % 8
            && Unpack(bytes[..|bytes| - 1]) == bits + Zeros(Padding(|bits|))
  {
    var padded := bits + Zeros(Padding(|bits|));
    var bytes := Frame(bits);
    assert bytes[..|bytes| - 1] == Pack(padded);
    UnpackPack(padded);
  }

  /**
   * The bits `Predictor.decode` recovers from its input (the source reads the
   * last byte, so it needs at least one): all bits, less the last byte and
   * the `(8 - last) % 8` padding bits before it; Python's slice `[:-k]`
   * leaves nothing when `k` exceeds the length.
   */
  function Unframe(bytes: seq<Byte>): (bits: seq<Bit>)
    requires |bytes| >= 1
  {
    var all := Unpack(bytes);
    var drop: int := 8 + (8 - bytes[|bytes| - 1] as int) % 8;
    all[..if drop <= |all| then |all| - drop else 0]
  }

  /** Whatever the input, the recovered bits are the leading bits of the bytes before the last one. */
  lemma UnframePrefix(bytes: seq<Byte>)
    requires |bytes| >= 1
    ensures var bits := Unframe(bytes);
            && |bits| <= 8 * (|bytes| - 1)
            && bits == Unpack(bytes[..|bytes| - 1])[..|bits|]
  {
    assert bytes == bytes[..|bytes| - 1] + [bytes[|bytes| - 1]];
    UnpackAppend(bytes[..|bytes| - 1], [bytes[|bytes| - 1]]);
  }

  /** The slice of `Predictor.decode` recovers exactly the bits `Predictor.encode` framed. */
  lemma UnframeFrame(bits: seq<Bit>)
    ensures Unframe(Frame(bits)) == bits
  {
    var padded := bits + Zeros(Padding(|bits|));
    var last: Byte := |bits| % 8;
    UnpackAppend(Pack(padded), [last]);
    UnpackPack(padded);
    assert Unpack(Frame(bits)) == padded + ToBits(last, 8);
    assert (8 - last as int) % 8 == Padding(|bits|);
  }
}
