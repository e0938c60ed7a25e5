/** The little-endian codec as a specification, stated once for every chunk
    width w (2, 4 and 8 bytes for uint16, uint32 and uint64): decoding splits a
    byte sequence into consecutive w-byte chunks and reads each as a
    little-endian integer; encoding concatenates the w little-endian bytes of
    each value, in order. */
module Codec {

  import opened Arithmetic
  import opened Binary

  /** The values of the consecutive w-byte chunks of b, in chunk order.
      Defined only when b is made of whole chunks. Every value fits in w
      bytes. */
  function Decode(w: nat, b: seq<byte>): (r: seq<nat>)
    requires w > 0 && |b| % w == 0
    ensures forall k :: 0 <= k < |r| ==> r[k] < Pow256(w)
    decreases |b|
  {
    if |b| == 0 then []
    else
      ChunkTail(|b|, w);
      [Uint(b[..w])] + Decode(w, b[w..])
  }

  /** The w little-endian bytes of each value of a, in order: w bytes per
      value. */
  function Encode(w: nat, a: seq<nat>): (r: seq<byte>)
    ensures |r| == w * |a|
  {
    if a == [] then []
    else
      assert w * |a| == w + w * (|a| - 1);
      LeBytes(w, a[0]) + Encode(w, a[1..])
  }

  /** Decoding yields one value per chunk. */
  lemma {:induction false} DecodeLength(w: nat, b: seq<byte>)
    requires w > 0 && |b| % w == 0
    ensures |Decode(w, b)| == |b| / w
    decreases |b|
  {
    if |b| > 0 {
      ChunkTail(|b|, w);
      DecodeLength(w, b[w..]);
    }
  }

  /** Value k of the decoding is chunk k of the input, read with place values
      256^j: a value that fits in w bytes. */
  lemma {:induction false} DecodeAt(w: nat, b: seq<byte>, k: nat)
    requires w > 0 && |b| % w == 0 && k < |b| / w
    ensures w * k + w <= |b| && k < |Decode(w, b)|
    ensures Decode(w, b)[k] == Uint(b[w * k..w * k + w]) < Pow256(w)
    decreases k
  {
    DecodeLength(w, b);
    ChunkTail(|b|, w);
    if k > 0 {
      DecodeAt(w, b[w..], k - 1);
      assert w * (k - 1) + w == w * k;
      assert b[w..][w * (k - 1)..w * (k - 1) + w] == b[w * k..w * k + w];
    }
  }

  /** Decoding two runs of whole chunks one after the other is decoding each. */
  lemma {:induction false} DecodeAppend(w: nat, x: seq<byte>, y: seq<byte>)
    requires w > 0 && |x| % w == 0 && |y| % w == 0
    ensures |x + y| % w == 0 && Decode(w, x + y) == Decode(w, x) + Decode(w, y)
    decreases |x|
  {
    ModAdd(|x|, |y|, w);
    if |x| > 0 {
      ChunkTail(|x|, w);
      assert (x + y)[..w] == x[..w];
      assert (x + y)[w..] == x[w..] + y;
      DecodeAppend(w, x[w..], y);
    } else {
      assert x + y == y;
    }
  }

  /** Bytes w * i up to w * i + w of the encoding are the little-endian bytes
      of a[i]: each value keeps its position. */
  lemma {:induction false} EncodeAt(w: nat, a: seq<nat>, i: nat)
    requires i < |a|
    ensures w * i + w <= |Encode(w, a)|
    ensures Encode(w, a)[w * i..w * i + w] == LeBytes(w, a[i])
  {
    MulStep(i, |a|, w);
    assert w * i + w <= w * |a|;
    if i > 0 {
      EncodeAt(w, a[1..], i - 1);
      assert w * (i - 1) + w == w * i;
      var rest := Encode(w, a[1..]);
      assert Encode(w, a)[w * i..w * i + w] == rest[w * (i - 1)..w * (i - 1) + w];
    }
  }

  /** Byte w * i + j of the encoding, for j < w, is digit j of a[i] in base 256. */
  lemma EncodeByteAt(w: nat, a: seq<nat>, i: nat, j: nat)
    requires i < |a| && j < w
    ensures w * i + j < |Encode(w, a)|
    ensures Encode(w, a)[w * i + j] == (a[i] / Pow256(j)) % 0x100
  {
    EncodeAt(w, a, i);
    LeBytesAt(w, a[i], j);
    var e := Encode(w, a);
    assert e[w * i + j] == e[w * i..w * i + w][j];
  }

  /** Encoding a concatenation is concatenating the encodings. */
  lemma {:induction false} EncodeAppend(w: nat, a: seq<nat>, c: seq<nat>)
    ensures Encode(w, a + c) == Encode(w, a) + Encode(w, c)
  {
    if a == [] {
      assert a + c == c;
    } else {
      assert (a + c)[1..] == a[1..] + c;
      EncodeAppend(w, a[1..], c);
    }
  }

  /** Round trip from integers: decoding the encoding of values that fit in
      w bytes gives the values back. */
  lemma {:induction false} DecodeEncode(w: nat, a: seq<nat>)
    requires w > 0
    requires forall i :: 0 <= i < |a| ==> a[i] < Pow256(w)
    ensures |Encode(w, a)| % w == 0 && Decode(w, Encode(w, a)) == a
  {
    var e := Encode(w, a);
    MulMod(|a|, w);
    assert |e| == |a| * w;
    if a != [] {
      var rest := Encode(w, a[1..]);
      assert e == LeBytes(w, a[0]) + rest;
      assert e[..w] == LeBytes(w, a[0]) && e[w..] == rest;
      UintOfLeBytes(w, a[0]);
      DecodeEncode(w, a[1..]);
    }
  }

  /** Round trip from bytes: encoding the decoding of whole chunks gives the
      bytes back. */
  lemma {:induction false} EncodeDecode(w: nat, b: seq<byte>)
    requires w > 0 && |b| % w == 0
    ensures Encode(w, Decode(w, b)) == b
    decreases |b|
  {
    if |b| > 0 {
      ChunkTail(|b|, w);
      var d := Decode(w, b);
      assert d[0] == Uint(b[..w]) && d[1..] == Decode(w, b[w..]);
      LeBytesOfUint(b[..w]);
      EncodeDecode(w, b[w..]);
      assert b == b[..w] + b[w..];
    }
  }

  /** A run of exactly one chunk decodes to its value alone. */
  lemma DecodeOne(w: nat, c: seq<byte>)
    requires w > 0 && |c| == w
    ensures |c| % w == 0 && Decode(w, c) == [Uint(c)]
  {
    MulMod(1, w);
    assert c[..w] == c && c[w..] == [];
  }

  /** The two bytes "AB" (0x41, 0x42) decode to the single uint16 0x4241. */
  lemma DecodeAB()
    ensures Decode(2, ['A' as int, 'B' as int]) == [0x4241]
  {
    var ab: seq<byte> := ['A' as int, 'B' as int];
    DecodeOne(2, ab);
    Uint16Value(ab);
  }
}
