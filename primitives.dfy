/** Byte-level helpers of the FLAC metadata editor: big- and little-endian
    integer reads, fixed-width big-endian writes, byte <-> hex-string
    conversion, ASCII upper-casing and the block-type table. */
module Primitives {

  type Byte = x: int | 0 <= x < 0x100
  type Bytes = seq<Byte>

  /** The exceptions the editor throws. */
  datatype Error =
    | TooManyBlocks        // RangeError: a 44th METADATA_BLOCK without a last flag
    | CommentWithoutValue  // TypeError: `undefined.toString()` on a comment with no '='
    | NoVorbisComment      // TypeError: the editor has no VORBIS_COMMENT block
    | DataNotAByteBuffer   // Error: a picture whose `data` is not a byte buffer
    | NoBlocks             // TypeError: `bl[bl.length - 1]` of an empty block list

  datatype Result<T> = Ok(value: T) | Err(error: Error)

  datatype Option<T> = None | Some(value: T)

  function Pow256(n: nat): (p: nat)
    ensures p >= 1
  {
    if n == 0 then 1 else 256 * Pow256(n - 1)
  }

  function Min(a: int, b: int): int { if a <= b then a else b }

  /** A typed-array `subarray(start, start + count)`: both ends are clamped
      to the length of `s`, so reading past the end yields fewer bytes. */
  function View(s: Bytes, start: nat, count: nat): (r: Bytes)
    ensures |r| == Min(count, |s| - Min(start, |s|))
    ensures start + count <= |s| ==> r == s[start..start + count]
  {
    s[Min(start, |s|)..Min(start + count, |s|)]
  }

  /** `blockData[i]` as a bitwise operand: an index past the end reads
      `undefined`, which the bitwise operators turn into 0. */
  function At(s: Bytes, i: nat): Byte
  {
    if i < |s| then s[i] else 0
  }

  /** `_getBytesAsNumber`: a left fold `256 * acc + b` over the bytes. */
  function BigEndian(s: Bytes): (n: nat)
    ensures n < Pow256(|s|)
  {
    if s == [] then 0 else 256 * BigEndian(s[..|s| - 1]) + s[|s| - 1]
  }

  /** `_getBytesAsNumberLittleEndian`: the same fold taken from the right. */
  function LittleEndian(s: Bytes): (n: nat)
    ensures n < Pow256(|s|)
  {
    if s == [] then 0 else 256 * LittleEndian(s[1..]) + s[0]
  }

  function Reverse(s: Bytes): (r: Bytes)
    ensures |r| == |s|
    ensures forall i :: 0 <= i < |s| ==> r[i] == s[|s| - 1 - i]
  {
    if s == [] then [] else Reverse(s[1..]) + [s[0]]
  }

  /** Reading little-endian is reading the reversed bytes big-endian. */
  lemma {:induction false} LittleEndianIsReversedBigEndian(s: Bytes)
    ensures LittleEndian(s) == BigEndian(Reverse(s))
  {
    if s != [] {
      var r := Reverse(s);
      assert r[..|r| - 1] == Reverse(s[1..]);
      LittleEndianIsReversedBigEndian(s[1..]);
    }
  }

  /** `_uint32ToUint8Array`: `(x >>> 24) & 0xff, ..., x & 0xff`. On a
      non-negative integer `>>>` and `& 0xff` are division and remainder. */
  function Uint32Bytes(x: nat): (r: Bytes)
    ensures |r| == 4
  {
    [(x / 0x100_0000) % 0x100, (x / 0x1_0000) % 0x100, (x / 0x100) % 0x100, x % 0x100]
  }

  /** `_uint24ToUint8Array`. */
  function Uint24Bytes(x: nat): (r: Bytes)
    ensures |r| == 3
  {
    [(x / 0x1_0000) % 0x100, (x / 0x100) % 0x100, x % 0x100]
  }

  /** `_uint16ToUint8Array`. */
  function Uint16Bytes(x: nat): (r: Bytes)
    ensures |r| == 2
  {
    [(x / 0x100) % 0x100, x % 0x100]
  }

  lemma BigEndianOfTwo(a: Byte, b: Byte)
    ensures BigEndian([a, b]) == 256 * a + b
  {
    assert [a, b][..1] == [a];
    assert [a][..0] == [];
  }

  lemma BigEndianOfThree(a: Byte, b: Byte, c: Byte)
    ensures BigEndian([a, b, c]) == 0x1_0000 * a + 256 * b + c
  {
    assert [a, b, c][..2] == [a, b];
    BigEndianOfTwo(a, b);
  }

  lemma BigEndianOfFour(a: Byte, b: Byte, c: Byte, d: Byte)
    ensures BigEndian([a, b, c, d]) == 0x100_0000 * a + 0x1_0000 * b + 256 * c + d
  {
    assert [a, b, c, d][..3] == [a, b, c];
    BigEndianOfThree(a, b, c);
  }

  /** The 16-bit writer and the big-endian reader invert each other on
      16-bit values; wider values lose their high bits. */
  lemma Uint16RoundTrip(x: nat)
    ensures BigEndian(Uint16Bytes(x)) == x % 0x1_0000
    ensures x < 0x1_0000 ==> BigEndian(Uint16Bytes(x)) == x
  {
    BigEndianOfTwo((x / 0x100) % 0x100, x % 0x100);
  }

  /** The three low bytes of `x`, each shift taken one byte at a time. */
  lemma Uint24Parts(x: nat)
    ensures x / 0x1_0000 == (x / 0x100) / 0x100
    ensures x % 0x100_0000 == 0x1_0000 * ((x / 0x1_0000) % 0x100) + 0x100 * ((x / 0x100) % 0x100) + x % 0x100
  {
    var q, d := x / 0x100, x % 0x100;
    var p, b := q / 0x100, q % 0x100;
    var t, a := p / 0x100, p % 0x100;
    assert x == 0x1_0000 * p + (0x100 * b + d);
    assert x == 0x100_0000 * t + (0x1_0000 * a + 0x100 * b + d);
  }

  lemma Uint24RoundTrip(x: nat)
    ensures BigEndian(Uint24Bytes(x)) == x % 0x100_0000
    ensures x < 0x100_0000 ==> BigEndian(Uint24Bytes(x)) == x
  {
    Uint24Parts(x);
    BigEndianOfThree((x / 0x1_0000) % 0x100, (x / 0x100) % 0x100, x % 0x100);
  }

  /** Dividing by 256 twice is dividing by 65536, and the remainders nest. */
  lemma ShiftTwice(x: nat)
    ensures x / 0x1_0000 == (x / 0x100) / 0x100
    ensures x / 0x100_0000 == (x / 0x100) / 0x1_0000
    ensures x % 0x1_0000_0000 == 0x100 * ((x / 0x100) % 0x100_0000) + x % 0x100
  {
    var q, d := x / 0x100, x % 0x100;
    var a, b := q / 0x100, q % 0x100;
    assert x == 0x1_0000 * a + (0x100 * b + d);
    var c, e := q / 0x1_0000, q % 0x1_0000;
    assert x == 0x100_0000 * c + (0x100 * e + d);
    var f, g := q / 0x100_0000, q % 0x100_0000;
    assert x == 0x1_0000_0000 * f + (0x100 * g + d);
  }

  lemma Uint32RoundTrip(x: nat)
    ensures BigEndian(Uint32Bytes(x)) == x % 0x1_0000_0000
    ensures x < 0x1_0000_0000 ==> BigEndian(Uint32Bytes(x)) == x
  {
    var q := x / 0x100;
    var a, b, c, d: Byte := (q / 0x1_0000) % 0x100, (q / 0x100) % 0x100, q % 0x100, x % 0x100;
    ShiftTwice(x);
    assert Uint32Bytes(x) == [a, b, c, d];
    Uint24RoundTrip(q);
    assert Uint24Bytes(q) == [a, b, c];
    BigEndianOfThree(a, b, c);
    BigEndianOfFour(a, b, c, d);
  }

  /** Writing back a number read from two, three or four bytes gives the
      same bytes. */
  lemma Uint16OfBigEndian(s: Bytes)
    requires |s| == 2
    ensures Uint16Bytes(BigEndian(s)) == s
  {
    assert s == [s[0], s[1]];
    BigEndianOfTwo(s[0], s[1]);
  }

  lemma Uint24OfBigEndian(s: Bytes)
    requires |s| == 3
    ensures Uint24Bytes(BigEndian(s)) == s
  {
    var a: int, b: int, c: int := s[0], s[1], s[2];
    assert s == [a, b, c];
    BigEndianOfThree(a, b, c);
    var x := BigEndian(s);
    assert x / 0x100 == 0x100 * a + b;
    assert x / 0x1_0000 == a;
  }

  lemma Uint32OfBigEndian(s: Bytes)
    requires |s| == 4
    ensures Uint32Bytes(BigEndian(s)) == s
  {
    var x, q := BigEndian(s), BigEndian(s[..3]);
    assert x == 256 * q + s[3];
    assert x / 0x100 == q && x % 0x100 == s[3];
    ShiftTwice(x);
    Uint24OfBigEndian(s[..3]);
    assert Uint32Bytes(x) == Uint24Bytes(q) + [s[3]];
  }

  /** The 32-bit writer keeps only the low 32 bits. */
  lemma Uint32BytesLow(x: nat)
    ensures Uint32Bytes(x) == Uint32Bytes(x % 0x1_0000_0000)
  {
    Uint32RoundTrip(x);
    Uint32OfBigEndian(Uint32Bytes(x));
  }

  /** Vorbis comment lengths are written as `_uint32ToUint8Array(n).reverse()`
      and read back little-endian. */
  lemma Uint32LittleEndianRoundTrip(x: nat)
    ensures LittleEndian(Reverse(Uint32Bytes(x))) == x % 0x1_0000_0000
  {
    var r := Reverse(Uint32Bytes(x));
    LittleEndianIsReversedBigEndian(r);
    assert Reverse(r) == Uint32Bytes(x);
    Uint32RoundTrip(x);
  }

  // ---------------------------------------------------------------- hex text

  predicate IsHexDigit(c: char)
  {
    '0' <= c <= '9' || 'a' <= c <= 'f' || 'A' <= c <= 'F'
  }

  predicate IsHex(s: seq<char>)
  {
    forall i :: 0 <= i < |s| ==> IsHexDigit(s[i])
  }

  /** `Number.prototype.toString(16)` of a value below 16: a lower-case digit. */
  function HexDigit(n: nat): (c: char)
    requires n < 16
    ensures IsHexDigit(c) && !('A' <= c <= 'F')
  {
    if n < 10 then '0' + n as char else 'a' + (n - 10) as char
  }

  /** `parseInt(c, 16)` of a single hex digit, either case. */
  function HexValue(c: char): (n: nat)
    requires IsHexDigit(c)
    ensures n < 16
  {
    if '0' <= c <= '9' then (c - '0') as nat
    else if 'a' <= c <= 'f' then (c - 'a') as nat + 10
    else (c - 'A') as nat + 10
  }

  lemma HexValueOfDigit(n: nat)
    requires n < 16
    ensures HexValue(HexDigit(n)) == n
  {
  }

  /** `_getBytesAsHexString` on a whole view: each byte becomes
      `(n >> 4).toString(16) + (n & 0xF).toString(16)`. */
  function HexString(s: Bytes): (h: seq<char>)
    ensures |h| == 2 * |s|
    ensures IsHex(h)
  {
    if s == [] then [] else [HexDigit(s[0] / 16), HexDigit(s[0] % 16)] + HexString(s[1..])
  }

  /** `parseInt(pair, 16)` on two hex digits. */
  function PairValue(hi: char, lo: char): Byte
    requires IsHexDigit(hi) && IsHexDigit(lo)
  {
    16 * HexValue(hi) + HexValue(lo)
  }

  /** The pairs of `_hexStringToUint8Array`: each two digits make a byte; a
      lone trailing digit pairs with `undefined`, giving NaN, which a
      `Uint8Array` stores as 0. */
  function HexPairs(h: seq<char>): (r: Bytes)
    requires IsHex(h)
    ensures |r| == (|h| + 1) / 2
  {
    if |h| == 0 then []
    else if |h| == 1 then [0]
    else [PairValue(h[0], h[1])] + HexPairs(h[2..])
  }

  /** `_hexStringToUint8Array`. The empty string splits into one empty
      piece, whose NaN is stored as a single 0 byte. */
  function HexToBytes(h: seq<char>): (r: Bytes)
    requires IsHex(h)
    ensures |r| == if h == [] then 1 else (|h| + 1) / 2
  {
    if h == [] then [0] else HexPairs(h)
  }

  function UpperChar(c: char): char
  {
    if 'a' <= c <= 'z' then c - 'a' + 'A' else c
  }

  /** `String.prototype.toUpperCase` on an ASCII hex string. */
  function UpperHex(h: seq<char>): (u: seq<char>)
    requires IsHex(h)
    ensures |u| == |h| && IsHex(u)
    ensures forall i :: 0 <= i < |h| ==> HexValue(u[i]) == HexValue(h[i])
  {
    if h == [] then [] else [UpperChar(h[0])] + UpperHex(h[1..])
  }

  lemma {:induction false} HexPairsRoundTrip(s: Bytes)
    ensures HexPairs(HexString(s)) == s
  {
    if s != [] {
      var h := HexString(s);
      assert h[2..] == HexString(s[1..]);
      HexValueOfDigit(s[0] / 16);
      HexValueOfDigit(s[0] % 16);
      HexPairsRoundTrip(s[1..]);
    }
  }

  /** `_hexStringToUint8Array` undoes `_getBytesAsHexString` on every
      non-empty byte string, whose hex form is twice as long. */
  lemma HexRoundTrip(s: Bytes)
    requires s != []
    ensures |HexString(s)| == 2 * |s|
    ensures HexToBytes(HexString(s)) == s
  {
    HexPairsRoundTrip(s);
  }

  /** A digit as `toString(16)` writes it: lower case. */
  predicate IsLowerHexDigit(c: char)
  {
    '0' <= c <= '9' || 'a' <= c <= 'f'
  }

  predicate IsLowerHex(h: seq<char>)
  {
    forall i :: 0 <= i < |h| ==> IsLowerHexDigit(h[i])
  }

  lemma LowerDigitRoundTrip(c: char)
    requires IsLowerHexDigit(c)
    ensures IsHexDigit(c) && HexDigit(HexValue(c)) == c
  {
  }

  /** Text read back as bytes and written again as hex: an even number of
      lower-case digits comes back unchanged. */
  lemma {:induction false} LowerHexRoundTrip(h: seq<char>)
    requires IsLowerHex(h) && |h| % 2 == 0
    ensures IsHex(h) && HexString(HexPairs(h)) == h
  {
    if h != [] {
      assert IsLowerHex(h[2..]);
      LowerHexRoundTrip(h[2..]);
      LowerDigitRoundTrip(h[0]);
      LowerDigitRoundTrip(h[1]);
      var v := PairValue(h[0], h[1]);
      var t := HexPairs(h[2..]);
      assert HexPairs(h) == [v] + t;
      assert v / 16 == HexValue(h[0]) && v % 16 == HexValue(h[1]);
      assert ([v] + t)[0] == v && ([v] + t)[1..] == t;
      assert HexString([v] + t) == [h[0], h[1]] + h[2..];
    }
  }

  lemma {:induction false} HexPairsIgnoreCase(h: seq<char>)
    requires IsHex(h)
    ensures HexPairs(UpperHex(h)) == HexPairs(h)
  {
    if |h| >= 2 {
      assert UpperHex(h)[2..] == UpperHex(h[2..]);
      HexPairsIgnoreCase(h[2..]);
    }
  }

  /** The MD5 signature is stored upper-cased; the conversion back to bytes
      does not see the case. */
  lemma UpperHexRoundTrip(s: Bytes)
    requires s != []
    ensures HexToBytes(UpperHex(HexString(s))) == s
  {
    HexPairsIgnoreCase(HexString(s));
    HexPairsRoundTrip(s);
  }

  // ------------------------------------------------------------ field names

  const EQUALS: Byte := 0x3D

  function UpperByte(b: Byte): Byte
  {
    if 0x61 <= b <= 0x7A then b - 0x20 else b
  }

  /** `toUpperCase` on an (ASCII) field name. */
  function Upper(s: Bytes): (u: Bytes)
    ensures |u| == |s|
    ensures forall i :: 0 <= i < |s| ==> u[i] == UpperByte(s[i])
  {
    if s == [] then [] else [UpperByte(s[0])] + Upper(s[1..])
  }

  /** Upper-casing leaves no lower-case letter behind. */
  lemma UpperHasNoLowerCase(s: Bytes, i: nat)
    requires i < |s|
    ensures !(0x61 <= Upper(s)[i] <= 0x7A)
  {
  }

  lemma {:induction false} UpperIdempotent(s: Bytes)
    ensures Upper(Upper(s)) == Upper(s)
  {
    if s != [] {
      assert Upper(s)[1..] == Upper(s[1..]);
      UpperIdempotent(s[1..]);
    }
  }

  // ------------------------------------------------------------- block types

  datatype BlockType =
    | StreamInfoType
    | PaddingType
    | ApplicationType
    | SeekTableType
    | VorbisCommentType
    | CueSheetType
    | PictureType
    | InvalidType   // 127, reserved to avoid confusion with a frame sync code
    | ReservedType

  /** `_getBlockType`. */
  function BlockTypeOf(n: int): (t: BlockType)
    ensures t == ReservedType <==> !(0 <= n <= 6 || n == 127)
  {
    match n
    case 0 => StreamInfoType
    case 1 => PaddingType
    case 2 => ApplicationType
    case 3 => SeekTableType
    case 4 => VorbisCommentType
    case 5 => CueSheetType
    case 6 => PictureType
    case 127 => InvalidType
    case _ => ReservedType
  }

  /** The number that names a known block type in a block header. */
  function TypeNumberOf(t: BlockType): (n: int)
    requires t != ReservedType
    ensures BlockTypeOf(n) == t
  {
    match t
    case StreamInfoType => 0
    case PaddingType => 1
    case ApplicationType => 2
    case SeekTableType => 3
    case VorbisCommentType => 4
    case CueSheetType => 5
    case PictureType => 6
    case InvalidType => 127
  }

  /** Distinct known numbers name distinct block types. */
  lemma BlockTypeOfInjective(m: int, n: int)
    requires BlockTypeOf(m) == BlockTypeOf(n) != ReservedType
    ensures m == n
  {
  }
}
