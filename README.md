# Little-endian codec of the `endianness` Go package, in Dafny

The package converts between byte slices (and strings, taken as their raw
bytes) and slices of `uint16`, `uint32` and `uint64`, in little-endian byte
order. Its `littleEndian` receiver has three layers:

- decoders `bytesToUint16/32/64`, which walk the input in steps of 2, 4 or 8
  bytes and append the value of each chunk;
- encoders `Uint16/32/64SliceToBytes` and `Uint16/32/64SliceToString`, which
  append the 2, 4 or 8 little-endian bytes of each value;
- entry points `StringToUint16/32/64Slice`, which hand a string's bytes to
  the decoders.

The model has five modules:

- `Binary` (binary.dfy) states what the two `encoding/binary` calls do for one
  value: `Uint` is `binary.LittleEndian.UintN` on a chunk, and `LeBytes` gives
  the bytes that `binary.LittleEndian.AppendUintN` appends. Both are written
  for any chunk width and proved against the place-value sum of c[j] * 256^j.
- `Codec` (codec.dfy) is the specification. `Decode(w, b)` gives the values of
  the consecutive w-byte chunks of `b`, and `Encode(w, a)` concatenates the
  w bytes of each value. Its lemmas give lengths, positions, concatenation and
  both round trips.
- `LittleEndian` (little_endian.dfy) holds the receiver's methods. The three
  widths share one decoding loop, `BytesToUints`, and one encoding loop,
  `UintsToBytes`, each proved against `Decode` or `Encode`. The typed methods
  for `uint16`, `uint32` and `uint64` state the exact place values of every
  element and byte.
- `SliceOverread` (slice_overread.dfy) models the decoding loop as written,
  on a Go slice whose capacity can exceed its length (see Findings).
- `Arithmetic` (arith.dfy) holds quotient and remainder facts for a variable
  width.

A Go string is the datatype `Text(raw)`, holding its raw bytes. `[]byte(s)`
and the zero-copy conversion `nocopy.ByteSliceToString` both keep exactly
these bytes.

One might expect a decoder to drop a trailing partial chunk. The code does
not drop it: it slices `b[i:i+w]` past `len(b)`. The model follows the
code. The decoders require the input to be whole chunks, and
`SliceOverread` shows what the loop does otherwise.

## Model

| member | source | states |
|---|---|---|
| `Binary.Uint` | endianness.go:50 | the value of a chunk of n bytes is below 256^n, so a 2/4/8-byte chunk always fits a uint16/32/64 |
| `Binary.LeBytes` | endianness.go:101 | the value appended for width w is exactly w bytes long |
| `Binary.UintIsPlaceSum` | endianness.go:50 | the decoded chunk value is the sum of c[j] * 256^j: byte j has place value 256^j, least significant first |
| `Binary.LeBytesAt` | endianness.go:140 | byte j appended for x is digit j of x in base 256, (x / 256^j) % 256 |
| `Binary.UintOfLeBytes` | endianness.go:140 | decoding the w bytes appended for a value below 256^w gives the value back |
| `Binary.LeBytesOfUint` | endianness.go:50 | appending the bytes of a decoded chunk reproduces the chunk |
| `Binary.Uint16Value` | endianness.go:50 | a 2-byte chunk decodes to c[0] + 0x100 * c[1] |
| `Binary.Uint32Value` | endianness.go:67 | a 4-byte chunk decodes to c[0] + 0x100 * c[1] + 0x1_0000 * c[2] + 0x100_0000 * c[3] |
| `Binary.Uint64Value` | endianness.go:84 | an 8-byte chunk decodes to the sum of c[j] * 256^j for j < 8 |
| `Codec.Decode` | endianness.go:43-56 | the reference decoding, defined on whole chunks only: every decoded value fits in w bytes (a uint16/32/64 for w = 2/4/8); the lemmas below give its length, positions and round trips |
| `Codec.Encode` | endianness.go:133-142 | the reference encoding: exactly w * len(a) bytes, so the empty slice gives no bytes; the lemmas below give positions, concatenation and round trips |
| `Codec.DecodeLength` | endianness.go:43-56 | decoding whole chunks gives exactly len(b)/w values; the empty input gives the empty slice |
| `Codec.DecodeAt` | endianness.go:49-52 | value k is the decoding of chunk k, bytes w*k up to w*k+w, so chunk order is kept and every value fits w bytes |
| `Codec.DecodeAppend` | endianness.go:49-52 | decoding two runs of whole chunks one after the other is decoding each run and concatenating |
| `Codec.DecodeOne` | endianness.go:50-51 | one chunk decodes to the single value of that chunk |
| `Codec.EncodeAt` | endianness.go:139-141 | bytes w*i up to w*i+w are the bytes appended for a[i], so input order is kept |
| `Codec.EncodeByteAt` | endianness.go:139-141 | byte w*i+j of the encoding is digit j of a[i] in base 256 |
| `Codec.EncodeAppend` | endianness.go:139-141 | encoding a concatenation is concatenating the encodings |
| `Codec.DecodeEncode` | endianness.go:43-56 | round trip from integers: decoding the encoding (lines 133-142) of values below 256^w gives the values back |
| `Codec.EncodeDecode` | endianness.go:133-142 | round trip from bytes: encoding the decoding (lines 43-56) of whole chunks gives the bytes back |
| `Codec.DecodeAB` | endianness.go:16-22 | the bytes of "AB" (0x41, 0x42) decode to the single uint16 0x4241 |
| `LittleEndian.BytesToUints` | endianness.go:43-56 | the decoding loop (step w, append one value per chunk) returns Decode(w, b); input must be whole chunks |
| `LittleEndian.UintsToBytes` | endianness.go:133-142 | the encoding loop (append the bytes of each a[i]) returns Encode(w, a) |
| `LittleEndian.BytesToUint16` | endianness.go:43-56 | len(b)/2 values; value k is b[2k] + 0x100 * b[2k+1] |
| `LittleEndian.BytesToUint32` | endianness.go:60-73 | len(b)/4 values; value k is the sum of b[4k+j] * 256^j for j < 4 |
| `LittleEndian.BytesToUint64` | endianness.go:77-90 | len(b)/8 values; value k is the sum of b[8k+j] * 256^j for j < 8 |
| `LittleEndian.StringToUint16Slice` | endianness.go:16-22 | equals the 2-byte decoding of the string's raw bytes; the empty string gives the empty slice |
| `LittleEndian.StringToUint32Slice` | endianness.go:25-31 | equals the 4-byte decoding of the string's raw bytes; the empty string gives the empty slice |
| `LittleEndian.StringToUint64Slice` | endianness.go:34-40 | equals the 8-byte decoding of the string's raw bytes; the empty string gives the empty slice |
| `LittleEndian.Uint16SliceToBytes` | endianness.go:133-143 | 2 * len(a) bytes; byte 2i+j is (a[i] / 256^j) % 256, least significant first |
| `LittleEndian.Uint32SliceToBytes` | endianness.go:146-156 | 4 * len(a) bytes; byte 4i+j is (a[i] / 256^j) % 256, least significant first |
| `LittleEndian.Uint64SliceToBytes` | endianness.go:159-169 | 8 * len(a) bytes; byte 8i+j is (a[i] / 256^j) % 256, least significant first |
| `LittleEndian.Uint16SliceToString` | endianness.go:94-104 | the string's bytes are exactly the bytes Uint16SliceToBytes gives (Encode(2, a)); the empty slice gives "" |
| `LittleEndian.Uint32SliceToString` | endianness.go:107-117 | the string's bytes are exactly the bytes Uint32SliceToBytes gives (Encode(4, a)); the empty slice gives "" |
| `LittleEndian.Uint64SliceToString` | endianness.go:120-130 | the string's bytes are exactly the bytes Uint64SliceToBytes gives (Encode(8, a)); the empty slice gives "" |
| `LittleEndian.StringABToUint16Slice` | endianness.go:16-22 | StringToUint16Slice("AB") returns [0x4241] |
| `SliceOverread.LoopAsWritten` | endianness.go:49-52 | the loop as written from index i, decoding b[i:i+w] while i < len(b) and panicking (None) when i+w exceeds the capacity: a run that does not panic yields values that each fit in w bytes, even those read past len(b) |
| `SliceOverread.BytesToUintsAsWritten` | endianness.go:43-52 | bytesToUintN as written (the empty slice, then the loop from 0): a run that does not panic yields values that each fit in w bytes |
| `SliceOverread.LoopOverWholeChunks` | endianness.go:49-52 | between two whole-chunk indices the loop as written decodes exactly what Decode does |
| `SliceOverread.AsWrittenOnWholeChunks` | endianness.go:43-56 | on whole chunks the loop as written equals Decode of the slice's own bytes |
| `SliceOverread.AsWrittenOnPartialChunk` | endianness.go:49-50 | with a partial last chunk the loop decodes one extra chunk from bytes past len(b), or panics when the capacity is too small |
| `SliceOverread.ThreeBytesWithSpareCapacity` | endianness.go:49-50 | "ABC" with one spare byte 0x7F decodes to [0x4241, 0x7F43] |
| `SliceOverread.ThreeBytesWithoutSpareCapacity` | endianness.go:49-50 | "ABC" with no spare capacity panics |
| `SliceOverread.OddLengthDecodesOneMore` | endianness_test.go:19-20 | a 154-byte slice, the length of the benchmark's string, decodes to 39 uint32 and 20 uint64 values when its capacity allows the overrun, one more than its whole chunks hold |

## Left out

- The big-endian codec and the float variants are not part of this model. endianness.go defines only the `littleEndian` receiver and its integer methods.
- The capacity trim `unsafe.Slice(unsafe.SliceData(arr), len(arr))` (endianness.go:53-55, 70-72, 87-89) is left out. It changes only the capacity of the result, never its contents.
- The capacity hints of `make(..., 0, length)` are left out. They size allocations and do not change results.
- `nocopy.ByteSliceToString` (endianness.go:103, 116, 129) is an unsafe foreign cast. It is modelled as a `Text` holding the same bytes. Sharing memory with the byte slice is not modelled, because that slice is never exposed.
- Go's fixed-width integers are subset types of `int`. Nothing in the codec can overflow: each decoded value is below 256^w, which is proved.
- `binary.LittleEndian.UintN` combines bytes with shifts and bitwise OR. The model adds place values instead. The two agree because the shifted bytes never overlap.
- Decoding input whose length is not a multiple of the width is excluded by a precondition on `BytesToUints`, the typed decoders and the string entry points. Its actual effect depends on memory beyond the slice; `SliceOverread` models it.
- endianness_test.go holds parallel benchmarks with no assertions; their timing and `GOMAXPROCS` settings are outside the model. Its package-level initialisers (endianness_test.go:18-20) decode the 154-byte `TEST_STRING` with the three little-endian decoders; lines 14-16 call a `BigEndian` receiver that endianness.go does not define. 154 % 4 == 154 % 8 == 2, so the 4- and 8-byte decoders (lines 19-20) take the partial-chunk path that the model's decoders exclude by precondition; `SliceOverread.OddLengthDecodesOneMore` states what the loop as written does there.

## Findings

| source | as written | input that shows it | evidently intended | confidence | as-written member | corrected member |
|---|---|---|---|---|---|---|
| endianness.go:49-50 (likewise 66-67 and 83-84) | the loop runs while `i < len(b)` in steps of w and slices `b[i:i+w]`; Go checks that slice against cap(b), not len(b) | the 3-byte slice "ABC" with one spare byte 0x7F decodes to [0x4241, 0x7F43], two values, the second using a byte past the slice; with no spare capacity the call panics. Inside the repository, endianness_test.go:19-20 decode the 154-byte `TEST_STRING` (154 % 4 == 154 % 8 == 2) with the 4- and 8-byte decoders and reach this path | decode only the whole chunks of the slice's own bytes, never reading past len(b). The model imposes this as the precondition that the input length is a multiple of w; no caller of the package guarantees it | high, not executed | `SliceOverread.AsWrittenOnPartialChunk` | `LittleEndian.BytesToUints` |
