/** The `littleEndian` receiver of the endianness package: conversions between
    byte slices (and strings, taken as their raw bytes) and slices of uint16,
    uint32 and uint64 in little-endian byte order.

    The receiver is an empty struct, so its methods are plain methods here.
    Every conversion builds a fresh slice with a loop, as the Go code does; the
    three widths share one decoding loop (BytesToUints) and one encoding loop
    (UintsToBytes), parameterised by the chunk width w in bytes. Each loop is
    proved against the specification functions Decode and Encode of module
    Codec, whose properties are proved there. */
module LittleEndian {

  import opened Arithmetic
  import opened Binary
  import opened Codec

  type uint16 = x: int | 0 <= x < 0x1_0000
  type uint32 = x: int | 0 <= x < 0x1_0000_0000
  type uint64 = x: int | 0 <= x < 0x1_0000_0000_0000_0000

  /** A Go string: an immutable run of raw bytes with no encoding implied.
      `[]byte(s)` and the zero-copy view of a byte slice as a string both keep
      exactly these bytes. */
  datatype Text = Text(raw: seq<byte>)

  /** The loop of bytesToUint16/32/64 for chunk width w: walk b in steps of w,
      decode each chunk b[i..i + w] and append it. The Go loop slices b[i:i+w]
      without checking that the chunk is complete, so b must consist of whole
      chunks. */
  method BytesToUints(w: nat, b: seq<byte>) returns (arr: seq<nat>)
    requires w > 0 && |b| % w == 0
    ensures arr == Decode(w, b)
  {
    var length := |b|;
    if length == 0 {
      return [];
    }
    arr := [];
    var i := 0;
    while i < length
      invariant 0 <= i <= length && i % w == 0
      invariant arr == Decode(w, b[..i])
    {
      ChunkStep(i, length, w);
      var tmp := Uint(b[i..i + w]);
      DecodeOne(w, b[i..i + w]);
      DecodeAppend(w, b[..i], b[i..i + w]);
      assert b[..i + w] == b[..i] + b[i..i + w];
      arr := arr + [tmp];
      i := i + w;
    }
    assert b[..i] == b;
  }

  /** The loop of Uint16/32/64SliceToBytes (and of the ...ToString variants)
      for value width w: append the w little-endian bytes of each a[i], in
      order. */
  method UintsToBytes(w: nat, a: seq<nat>) returns (bArr: seq<byte>)
    ensures bArr == Encode(w, a)
  {
    var length := |a|;
    if length == 0 {
      return [];
    }
    bArr := [];
    for i := 0 to length
      invariant bArr == Encode(w, a[..i])
    {
      EncodeAppend(w, a[..i], [a[i]]);
      assert a[..i + 1] == a[..i] + [a[i]];
      bArr := bArr + LeBytes(w, a[i]);
    }
    assert a[..length] == a;
  }

  /** bytesToUint16: one uint16 per 2-byte chunk, byte 2k least significant. */
  method BytesToUint16(b: seq<byte>) returns (arr: seq<uint16>)
    requires |b| % 2 == 0
    ensures arr == Decode(2, b)
    ensures |arr| == |b| / 2
    ensures forall k :: 0 <= k < |arr| ==> arr[k] == b[2 * k] as int + 0x100 * b[2 * k + 1] as int
  {
    var values := BytesToUints(2, b);
    DecodeLength(2, b);
    forall k | 0 <= k < |values|
      ensures values[k] < 0x1_0000
      ensures values[k] == b[2 * k] as int + 0x100 * b[2 * k + 1] as int
    {
      DecodeAt(2, b, k);
      Uint16Value(b[2 * k..2 * k + 2]);
    }
    arr := values;
  }

  /** bytesToUint32: one uint32 per 4-byte chunk, byte 4k least significant. */
  method BytesToUint32(b: seq<byte>) returns (arr: seq<uint32>)
    requires |b| % 4 == 0
    ensures arr == Decode(4, b)
    ensures |arr| == |b| / 4
    ensures forall k :: 0 <= k < |arr| ==>
      arr[k] == b[4 * k] as int + 0x100 * b[4 * k + 1] as int
                + 0x1_0000 * b[4 * k + 2] as int + 0x100_0000 * b[4 * k + 3] as int
  {
    var values := BytesToUints(4, b);
    DecodeLength(4, b);
    forall k | 0 <= k < |values|
      ensures values[k] < 0x1_0000_0000
      ensures values[k] == b[4 * k] as int + 0x100 * b[4 * k + 1] as int
                           + 0x1_0000 * b[4 * k + 2] as int + 0x100_0000 * b[4 * k + 3] as int
    {
      DecodeAt(4, b, k);
      Uint32Value(b[4 * k..4 * k + 4]);
    }
    arr := values;
  }

  /** bytesToUint64: one uint64 per 8-byte chunk, byte 8k least significant. */
  method BytesToUint64(b: seq<byte>) returns (arr: seq<uint64>)
    requires |b| % 8 == 0
    ensures arr == Decode(8, b)
    ensures |arr| == |b| / 8
    ensures forall k :: 0 <= k < |arr| ==>
      arr[k] == b[8 * k] as int + 0x100 * b[8 * k + 1] as int
                + 0x1_0000 * b[8 * k + 2] as int + 0x100_0000 * b[8 * k + 3] as int
                + 0x1_0000_0000 * b[8 * k + 4] as int + 0x100_0000_0000 * b[8 * k + 5] as int
                + 0x1_0000_0000_0000 * b[8 * k + 6] as int + 0x100_0000_0000_0000 * b[8 * k + 7] as int
  {
    var values := BytesToUints(8, b);
    DecodeLength(8, b);
    forall k | 0 <= k < |values|
      ensures values[k] < 0x1_0000_0000_0000_0000
      ensures values[k] == b[8 * k] as int + 0x100 * b[8 * k + 1] as int
                           + 0x1_0000 * b[8 * k + 2] as int + 0x100_0000 * b[8 * k + 3] as int
                           + 0x1_0000_0000 * b[8 * k + 4] as int + 0x100_0000_0000 * b[8 * k + 5] as int
                           + 0x1_0000_0000_0000 * b[8 * k + 6] as int + 0x100_0000_0000_0000 * b[8 * k + 7] as int
    {
      DecodeAt(8, b, k);
      Uint64Value(b[8 * k..8 * k + 8]);
    }
    arr := values;
  }

  /** StringToUint16Slice: decode the raw bytes of s as bytesToUint16 does. */
  method StringToUint16Slice(s: Text) returns (arr: seq<uint16>)
    requires |s.raw| % 2 == 0
    ensures arr == Decode(2, s.raw) && |arr| == |s.raw| / 2
  {
    if |s.raw| == 0 {
      return [];
    }
    var bArr := s.raw;
    arr := BytesToUint16(bArr);
  }

  /** StringToUint32Slice: decode the raw bytes of s as bytesToUint32 does. */
  method StringToUint32Slice(s: Text) returns (arr: seq<uint32>)
    requires |s.raw| % 4 == 0
    ensures arr == Decode(4, s.raw) && |arr| == |s.raw| / 4
  {
    if |s.raw| == 0 {
      return [];
    }
    var bArr := s.raw;
    arr := BytesToUint32(bArr);
  }

  /** StringToUint64Slice: decode the raw bytes of s as bytesToUint64 does. */
  method StringToUint64Slice(s: Text) returns (arr: seq<uint64>)
    requires |s.raw| % 8 == 0
    ensures arr == Decode(8, s.raw) && |arr| == |s.raw| / 8
  {
    if |s.raw| == 0 {
      return [];
    }
    var bArr := s.raw;
    arr := BytesToUint64(bArr);
  }

  /** Uint16SliceToBytes: 2 bytes per value, least significant first, in order. */
  method Uint16SliceToBytes(a: seq<uint16>) returns (bArr: seq<byte>)
    ensures bArr == Encode(2, a)
    ensures |bArr| == 2 * |a|
    ensures forall i, j :: 0 <= i < |a| && 0 <= j < 2 ==> bArr[2 * i + j] == (a[i] / Pow256(j)) % 0x100
  {
    bArr := UintsToBytes(2, a);
    forall i, j | 0 <= i < |a| && 0 <= j < 2
      ensures bArr[2 * i + j] == (a[i] / Pow256(j)) % 0x100
    {
      EncodeByteAt(2, a, i, j);
    }
  }

  /** Uint32SliceToBytes: 4 bytes per value, least significant first, in order. */
  method Uint32SliceToBytes(a: seq<uint32>) returns (bArr: seq<byte>)
    ensures bArr == Encode(4, a)
    ensures |bArr| == 4 * |a|
    ensures forall i, j :: 0 <= i < |a| && 0 <= j < 4 ==> bArr[4 * i + j] == (a[i] / Pow256(j)) % 0x100
  {
    bArr := UintsToBytes(4, a);
    forall i, j | 0 <= i < |a| && 0 <= j < 4
      ensures bArr[4 * i + j] == (a[i] / Pow256(j)) % 0x100
    {
      EncodeByteAt(4, a, i, j);
    }
  }

  /** Uint64SliceToBytes: 8 bytes per value, least significant first, in order. */
  method Uint64SliceToBytes(a: seq<uint64>) returns (bArr: seq<byte>)
    ensures bArr == Encode(8, a)
    ensures |bArr| == 8 * |a|
    ensures forall i, j :: 0 <= i < |a| && 0 <= j < 8 ==> bArr[8 * i + j] == (a[i] / Pow256(j)) % 0x100
  {
    bArr := UintsToBytes(8, a);
    forall i, j | 0 <= i < |a| && 0 <= j < 8
      ensures bArr[8 * i + j] == (a[i] / Pow256(j)) % 0x100
    {
      EncodeByteAt(8, a, i, j);
    }
  }

  /** Uint16SliceToString: the bytes Uint16SliceToBytes produces, viewed as a string. */
  method Uint16SliceToString(a: seq<uint16>) returns (s: Text)
    ensures s.raw == Encode(2, a) && |s.raw| == 2 * |a|
  {
    var length := |a|;
    if length == 0 {
      return Text([]);
    }
    var bArr := UintsToBytes(2, a);
    s := Text(bArr);
  }

  /** Uint32SliceToString: the bytes Uint32SliceToBytes produces, viewed as a string. */
  method Uint32SliceToString(a: seq<uint32>) returns (s: Text)
    ensures s.raw == Encode(4, a) && |s.raw| == 4 * |a|
  {
    var length := |a|;
    if length == 0 {
      return Text([]);
    }
    var bArr := UintsToBytes(4, a);
    s := Text(bArr);
  }

  /** Uint64SliceToString: the bytes Uint64SliceToBytes produces, viewed as a string. */
  method Uint64SliceToString(a: seq<uint64>) returns (s: Text)
    ensures s.raw == Encode(8, a) && |s.raw| == 8 * |a|
  {
    var length := |a|;
    if length == 0 {
      return Text([]);
    }
    var bArr := UintsToBytes(8, a);
    s := Text(bArr);
  }

  /** The string "AB" (bytes 0x41, 0x42) decodes to the single uint16 0x4241. */
  method StringABToUint16Slice() returns (arr: seq<uint16>)
    ensures arr == [0x4241]
  {
    arr := StringToUint16Slice(Text(['A' as int, 'B' as int]));
    DecodeAB();
  }
}
