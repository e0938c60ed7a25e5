/** The decoding loop of bytesToUint16/32/64 exactly as written, on a Go byte
    slice that may have spare capacity.

    The loop runs `for i := 0; i < len(b); i = i + w` and decodes b[i:i+w].
    Go checks a reslice against the capacity of b, not its length, so when
    len(b) is not a multiple of w the last chunk runs past len(b): it reads
    bytes of the backing array that are not part of the slice, or, when the
    capacity has no room for them, the program panics. The lemmas below show
    that the loop never truncates a partial chunk, and that on whole chunks it
    agrees with Codec.Decode, the definition the rest of the model uses. */
module SliceOverread {

  import opened Arithmetic
  import opened Binary
  import opened Codec

  datatype Option<T> = None | Some(value: T)

  /** A Go byte slice: the first `len` bytes of `backing`; |backing| is its
      capacity. */
  datatype Slice = Slice(backing: seq<byte>, len: nat)

  predicate Valid(s: Slice)
  {
    s.len <= |s.backing|
  }

  /** Every value of xs fits in w bytes. */
  predicate FitIn(w: nat, xs: seq<nat>)
  {
    forall k :: 0 <= k < |xs| ==> xs[k] < Pow256(w)
  }

  /** The loop from index i on. None is the run-time panic "slice bounds out
      of range", raised when b[i:i+w] does not fit in the capacity. A run that
      does not panic yields values that each fit in w bytes. */
  function LoopAsWritten(w: nat, s: Slice, i: nat): (r: Option<seq<nat>>)
    requires w > 0 && Valid(s)
    ensures r.Some? ==> FitIn(w, r.value)
    decreases if i <= s.len then s.len - i else 0
  {
    if i >= s.len then Some([])
    else if i + w > |s.backing| then None
    else
      match LoopAsWritten(w, s, i + w)
      case None => None
      case Some(rest) => Some([Uint(s.backing[i..i + w])] + rest)
  }

  /** bytesToUintN as written: the empty slice first, then the loop from 0.
      A run that does not panic yields values that each fit in w bytes. */
  function BytesToUintsAsWritten(w: nat, s: Slice): (r: Option<seq<nat>>)
    requires w > 0 && Valid(s)
    ensures r.Some? ==> FitIn(w, r.value)
  {
    if s.len == 0 then Some([]) else LoopAsWritten(w, s, 0)
  }

  /** xs in front of the values of a run that did not panic. */
  function Prepend(xs: seq<nat>, r: Option<seq<nat>>): Option<seq<nat>>
  {
    match r
    case None => None
    case Some(ys) => Some(xs + ys)
  }

  /** The number of bytes of s in whole chunks of w. */
  function Whole(w: nat, s: Slice): (n: nat)
    requires w > 0
    ensures n <= s.len < n + w && n % w == 0
  {
    MulMod(s.len / w, w);
    s.len - s.len % w
  }

  /** One step of the loop: a chunk that fits in the capacity is decoded and
      put in front of what the rest of the loop yields. */
  lemma LoopStep(w: nat, s: Slice, i: nat)
    requires w > 0 && Valid(s) && i < s.len && i + w <= |s.backing|
    ensures LoopAsWritten(w, s, i) == Prepend([Uint(s.backing[i..i + w])], LoopAsWritten(w, s, i + w))
  {
  }

  /** Putting xs and then ys in front is putting xs + ys in front. */
  lemma PrependTwice(xs: seq<nat>, ys: seq<nat>, r: Option<seq<nat>>)
    ensures Prepend(xs, Prepend(ys, r)) == Prepend(xs + ys, r)
  {
    match r
    case None =>
    case Some(zs) => assert xs + (ys + zs) == (xs + ys) + zs;
  }

  /** Between two whole-chunk indices i <= n <= len(b), the loop decodes the
      chunks of b[i..n] exactly as Decode does. */
  lemma {:induction false} LoopOverWholeChunks(w: nat, s: Slice, i: nat, n: nat)
    requires w > 0 && Valid(s) && i <= n <= s.len && i % w == 0 && n % w == 0
    ensures (n - i) % w == 0
    ensures LoopAsWritten(w, s, i) == Prepend(Decode(w, s.backing[i..n]), LoopAsWritten(w, s, n))
    decreases n - i
  {
    ModSub(i, n, w);
    if i == n {
      assert s.backing[i..n] == [];
      match LoopAsWritten(w, s, n)
      case None =>
      case Some(ys) => assert [] + ys == ys;
    } else {
      ChunkStep(i, n, w);
      ModSub(i + w, n, w);
      LoopOverWholeChunks(w, s, i + w, n);
      LoopStep(w, s, i);
      var run := s.backing[i..n];
      assert run[..w] == s.backing[i..i + w] && run[w..] == s.backing[i + w..n];
      var u, d := Uint(s.backing[i..i + w]), Decode(w, s.backing[i + w..n]);
      assert Decode(w, run) == [u] + d;
      PrependTwice([u], d, LoopAsWritten(w, s, n));
    }
  }

  /** On whole chunks the loop as written is Decode over the slice's own bytes. */
  lemma AsWrittenOnWholeChunks(w: nat, s: Slice)
    requires w > 0 && Valid(s) && s.len % w == 0
    ensures BytesToUintsAsWritten(w, s) == Some(Decode(w, s.backing[..s.len]))
  {
    var n := Whole(w, s);
    assert n == s.len;
    LoopOverWholeChunks(w, s, 0, n);
    var d := Decode(w, s.backing[0..n]);
    assert LoopAsWritten(w, s, n) == Some([]);
    assert d + [] == d;
    assert s.backing[0..n] == s.backing[..s.len];
  }

  /** With a partial chunk at the end the loop does not drop it: it decodes one
      more chunk, which takes w - len % w bytes from beyond the end of the
      slice, or panics when the capacity has no room for them. */
  lemma AsWrittenOnPartialChunk(w: nat, s: Slice)
    requires w > 0 && Valid(s) && s.len % w != 0
    ensures var n := Whole(w, s);
      BytesToUintsAsWritten(w, s)
        == if n + w <= |s.backing|
           then Some(Decode(w, s.backing[..n]) + [Uint(s.backing[n..n + w])])
           else None
  {
    var n := Whole(w, s);
    LoopOverWholeChunks(w, s, 0, n);
    assert s.backing[0..n] == s.backing[..n];
    var d := Decode(w, s.backing[..n]);
    if n + w <= |s.backing| {
      assert LoopAsWritten(w, s, n + w) == Some([]);
      var v := Uint(s.backing[n..n + w]);
      assert LoopAsWritten(w, s, n) == Some([v] + []);
      assert [v] + [] == [v];
    } else {
      assert LoopAsWritten(w, s, n) == None;
    }
  }

  /** The 3-byte slice "ABC" with one spare byte 0x7F in its capacity decodes
      to two uint16 values, the second made from 'C' and the byte past the end. */
  lemma ThreeBytesWithSpareCapacity()
    ensures BytesToUintsAsWritten(2, Slice(['A' as int, 'B' as int, 'C' as int, 0x7F], 3))
         == Some([0x4241, 0x7F43])
  {
    var s := Slice(['A' as int, 'B' as int, 'C' as int, 0x7F], 3);
    AsWrittenOnPartialChunk(2, s);
    assert Whole(2, s) == 2;
    assert s.backing[..2] == ['A' as int, 'B' as int];
    DecodeAB();
    Uint16Value(s.backing[2..4]);
    assert Uint(s.backing[2..4]) == 0x7F43;
    assert [0x4241] + [0x7F43] == [0x4241, 0x7F43];
  }

  /** The same 3 bytes with no spare capacity make the loop panic. */
  lemma ThreeBytesWithoutSpareCapacity()
    ensures BytesToUintsAsWritten(2, Slice(['A' as int, 'B' as int, 'C' as int], 3)) == None
  {
    AsWrittenOnPartialChunk(2, Slice(['A' as int, 'B' as int, 'C' as int], 3));
  }

  /** A 154-byte slice, the length of the string the package's benchmark
      decodes, with capacity for the overrun: the 4-byte loop returns 39
      values and the 8-byte loop 20, one more than the whole chunks hold
      (38 and 19). */
  lemma OddLengthDecodesOneMore(s: Slice)
    requires Valid(s) && s.len == 154 && |s.backing| >= 160
    ensures BytesToUintsAsWritten(4, s).Some? && |BytesToUintsAsWritten(4, s).value| == 39
    ensures BytesToUintsAsWritten(8, s).Some? && |BytesToUintsAsWritten(8, s).value| == 20
  {
    AsWrittenOnPartialChunk(4, s);
    assert Whole(4, s) == 152;
    DecodeLength(4, s.backing[..152]);
    AsWrittenOnPartialChunk(8, s);
    assert Whole(8, s) == 152;
    DecodeLength(8, s.backing[..152]);
  }
}
