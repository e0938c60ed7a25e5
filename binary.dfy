/** Little-endian place values of one fixed-width unsigned integer.

    This is the part of Go's encoding/binary package that the codec calls:
    binary.LittleEndian.Uint16/32/64 (decode one chunk of 2/4/8 bytes) and
    binary.LittleEndian.AppendUint16/32/64 (append the 2/4/8 bytes of one value).
    Both are stated once, for any chunk width. */
module Binary {

  import opened Arithmetic

  /** An 8-bit unsigned value: Go's `byte`. */
  type byte = x: int | 0 <= x < 0x100

  /** 256^n, the place value of the byte at offset n of a little-endian chunk. */
  function Pow256(n: nat): (r: nat)
    ensures r >= 1
  {
    if n == 0 then 1 else 0x100 * Pow256(n - 1)
  }

  /** The unsigned integer whose little-endian bytes are `c` (least significant
      byte first): what binary.LittleEndian.UintN returns for a chunk of exactly
      N/8 bytes. The result always fits in |c| bytes. */
  function Uint(c: seq<byte>): (r: nat)
    ensures r < Pow256(|c|)
  {
    if c == [] then 0 else c[0] + 0x100 * Uint(c[1..])
  }

  /** The w little-endian bytes of x, least significant first: what
      binary.LittleEndian.AppendUintN appends for a value of N = 8 * w bits. */
  function LeBytes(w: nat, x: nat): (r: seq<byte>)
    ensures |r| == w
  {
    if w == 0 then [] else [x % 0x100] + LeBytes(w - 1, x / 0x100)
  }

  /** The textbook place-value sum: the sum of c[j] * 256^j over j < n. */
  ghost function PlaceSum(c: seq<byte>, n: nat): nat
    requires n <= |c|
  {
    if n == 0 then 0 else PlaceSum(c, n - 1) + c[n - 1] * Pow256(n - 1)
  }

  /** Dropping the first byte divides the place values of the rest by 256. */
  lemma {:induction false} PlaceSumFront(c: seq<byte>, n: nat)
    requires 1 <= n <= |c|
    ensures PlaceSum(c, n) == c[0] as int + 0x100 * PlaceSum(c[1..], n - 1)
  {
    if n > 1 {
      PlaceSumFront(c, n - 1);
      var v, p := c[n - 1], Pow256(n - 2);
      assert c[1..][n - 2] == v;
      assert Pow256(n - 1) == 0x100 * p;
      assert v * (0x100 * p) == 0x100 * (v * p);
    }
  }

  /** Uint gives byte j the place value 256^j. */
  lemma {:induction false} UintIsPlaceSum(c: seq<byte>)
    ensures Uint(c) == PlaceSum(c, |c|)
  {
    if c != [] {
      UintIsPlaceSum(c[1..]);
      PlaceSumFront(c, |c|);
    }
  }

  /** Byte j of the encoding of x is digit j of x in base 256. */
  lemma {:induction false} LeBytesAt(w: nat, x: nat, j: nat)
    requires j < w
    ensures LeBytes(w, x)[j] == (x / Pow256(j)) % 0x100
  {
    if j > 0 {
      LeBytesAt(w - 1, x / 0x100, j - 1);
      DivDiv(x, 0x100, Pow256(j - 1));
    }
  }

  /** Decoding the w bytes of a value that fits in w bytes gives the value back. */
  lemma {:induction false} UintOfLeBytes(w: nat, x: nat)
    requires x < Pow256(w)
    ensures Uint(LeBytes(w, x)) == x
  {
    if w > 0 {
      var rest := LeBytes(w - 1, x / 0x100);
      assert (LeBytes(w, x))[1..] == rest;
      UintOfLeBytes(w - 1, x / 0x100);
    }
  }

  /** Encoding the value of a chunk in as many bytes as the chunk has gives the
      chunk back. */
  lemma {:induction false} LeBytesOfUint(c: seq<byte>)
    ensures LeBytes(|c|, Uint(c)) == c
  {
    if c != [] {
      var u := Uint(c[1..]);
      assert Uint(c) % 0x100 == c[0] && Uint(c) / 0x100 == u;
      LeBytesOfUint(c[1..]);
    }
  }

  /** binary.LittleEndian.Uint16 on a 2-byte chunk, place value by place value. */
  lemma Uint16Value(c: seq<byte>)
    requires |c| == 2
    ensures Uint(c) == c[0] as int + 0x100 * c[1] as int
  {
    UintIsPlaceSum(c);
    assert PlaceSum(c, 1) == c[0];
  }

  /** binary.LittleEndian.Uint32 on a 4-byte chunk, place value by place value. */
  lemma Uint32Value(c: seq<byte>)
    requires |c| == 4
    ensures Uint(c) == c[0] as int + 0x100 * c[1] as int + 0x1_0000 * c[2] as int + 0x100_0000 * c[3] as int
  {
    UintIsPlaceSum(c);
    assert PlaceSum(c, 1) == c[0];
    assert PlaceSum(c, 2) == c[0] as int + 0x100 * c[1] as int;
    assert PlaceSum(c, 3) == c[0] as int + 0x100 * c[1] as int + 0x1_0000 * c[2] as int;
  }

  /** binary.LittleEndian.Uint64 on an 8-byte chunk, place value by place value. */
  lemma Uint64Value(c: seq<byte>)
    requires |c| == 8
    ensures Uint(c) == c[0] as int + 0x100 * c[1] as int + 0x1_0000 * c[2] as int + 0x100_0000 * c[3] as int
                     + 0x1_0000_0000 * c[4] as int + 0x100_0000_0000 * c[5] as int
                     + 0x1_0000_0000_0000 * c[6] as int + 0x100_0000_0000_0000 * c[7] as int
  {
    UintIsPlaceSum(c);
    assert PlaceSum(c, 1) == c[0];
    assert PlaceSum(c, 2) == c[0] as int + 0x100 * c[1] as int;
    assert PlaceSum(c, 3) == c[0] as int + 0x100 * c[1] as int + 0x1_0000 * c[2] as int;
    assert PlaceSum(c, 4) == c[0] as int + 0x100 * c[1] as int + 0x1_0000 * c[2] as int + 0x100_0000 * c[3] as int;
    assert PlaceSum(c, 5) == c[0] as int + 0x100 * c[1] as int + 0x1_0000 * c[2] as int + 0x100_0000 * c[3] as int
                           + 0x1_0000_0000 * c[4] as int;
    assert PlaceSum(c, 6) == c[0] as int + 0x100 * c[1] as int + 0x1_0000 * c[2] as int + 0x100_0000 * c[3] as int
                           + 0x1_0000_0000 * c[4] as int + 0x100_0000_0000 * c[5] as int;
    assert PlaceSum(c, 7) == c[0] as int + 0x100 * c[1] as int + 0x1_0000 * c[2] as int + 0x100_0000 * c[3] as int
                           + 0x1_0000_0000 * c[4] as int + 0x100_0000_0000 * c[5] as int
                           + 0x1_0000_0000_0000 * c[6] as int;
  }
}
