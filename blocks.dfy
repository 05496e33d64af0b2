/** METADATA_BLOCK payloads (section 8 of RFC 9639): the decoded forms the
    editor keeps, the byte layout it writes for each, and the size it
    announces in the block header. */
module Blocks {
  import opened Primitives
  import opened VorbisComments

  type U16 = x: int | 0 <= x < 0x1_0000
  type U20 = x: int | 0 <= x < 0x10_0000
  type U24 = x: int | 0 <= x < 0x100_0000
  type U36 = x: int | 0 <= x < 0x10_0000_0000
  type Channels = x: int | 1 <= x <= 8 witness 1
  type SampleBits = x: int | 1 <= x <= 32 witness 1
  type TypeNumber = x: int | 0 <= x < 0x80

  /** A seek point, each field kept as the hex text of its bytes. */
  datatype SeekPoint = SeekPoint(sampleNumber: seq<char>, offset: seq<char>, numberOfSamples: seq<char>)

  datatype BlockData =
    | StreamInfo(minBlockSize: U16, maxBlockSize: U16, minFrameSize: U24, maxFrameSize: U24,
                 sampleRate: U20, numberOfChannels: Channels, bitsPerSample: SampleBits,
                 totalSamples: U36, md5: seq<char>)
    | Padding
    | Application(applicationId: Bytes, applicationData: Bytes)
    | SeekTable(points: seq<SeekPoint>)
    | VorbisComment(vendor: Bytes, comments: CommentMap)
    | CueSheet
    | Picture(apicType: nat, mimeType: Bytes, description: Bytes, width: nat, height: nat,
              colorDepth: nat, colorNumber: nat, data: Bytes)
    | Undecoded   // reserved and invalid (127) types: an empty data object

  /** A block: its type number, the size read from its header (`blockSize`),
      where its header started in the source buffer and its payload. */
  datatype Block = Block(typeNumber: TypeNumber, blockSize: nat, offset: nat, data: BlockData)
  {
    function Type(): BlockType { BlockTypeOf(typeNumber) }
  }

  /** The parsed file: the 4-byte signature as read, the blocks in order,
      and the offset where the audio frames begin. */
  datatype Metadata = Metadata(signature: Bytes, blocks: seq<Block>, framesOffset: nat)

  /** The payload has the shape its type number calls for. */
  predicate WellTyped(b: Block)
  {
    match b.Type()
    case StreamInfoType => b.data.StreamInfo?
    case PaddingType => b.data.Padding?
    case ApplicationType => b.data.Application?
    case SeekTableType => b.data.SeekTable?
    case VorbisCommentType => b.data.VorbisComment?
    case CueSheetType => b.data.CueSheet?
    case PictureType => b.data.Picture?
    case InvalidType => b.data.Undecoded?
    case ReservedType => b.data.Undecoded?
  }

  predicate HexOfAtMost(h: seq<char>, n: nat)
  {
    IsHex(h) && |h| <= 2 * n
  }

  predicate SeekPointFits(p: SeekPoint)
  {
    HexOfAtMost(p.sampleNumber, 8) && HexOfAtMost(p.offset, 8) && HexOfAtMost(p.numberOfSamples, 2)
  }

  /** A block the writer can lay out: its payload has a size rule (the
      source switches on `blockType`, which always names the payload's
      kind, see `WellTyped`), and every hex or text field fits the slot it
      is written to (otherwise the source writes past the slot, into the
      field after it, or the typed-array `set` throws at the end of the
      array). Blocks of the seven known types read by the parser have this
      form. */
  predicate Writable(b: Block)
  {
    && Sized(b)
    && match b.data
       case StreamInfo(_, _, _, _, _, _, _, _, md5) => HexOfAtMost(md5, 16)
       case Application(id, _) => |id| <= 4
       case SeekTable(points) => forall i :: 0 <= i < |points| ==> SeekPointFits(points[i])
       case _ => true
  }

  /** Every block of the list is one the writer can lay out. */
  predicate AllWritable(bs: seq<Block>)
  {
    forall i :: 0 <= i < |bs| ==> Writable(bs[i])
  }

  /** What the writer needs of the model: a signature of at most four
      bytes and blocks it can lay out. Parsed files whose blocks all have
      known types are of this form. */
  predicate MetadataWritable(m: Metadata)
  {
    |m.signature| <= 4 && AllWritable(m.blocks)
  }

  // ------------------------------------------------------------------ sizes

  /** `reduce((sum, str) => sum + 4 + str.length, 0)` over the comments. */
  function CommentsSize(cs: seq<Bytes>): nat
  {
    if cs == [] then 0 else 4 + |cs[0]| + CommentsSize(cs[1..])
  }

  /** The `serializedSize` getter has a case for every decoded type; on
      the others it returns `undefined`. */
  predicate Sized(b: Block)
  {
    !b.data.Undecoded?
  }

  /** The `serializedSize` getter, with the vendor string counted in bytes. */
  function SerializedSize(b: Block): nat
    requires Sized(b)
  {
    match b.data
    case StreamInfo(_, _, _, _, _, _, _, _, _) => 34
    case Padding => b.blockSize
    case Application(_, data) => 4 + |data|
    case SeekTable(points) => |points| * 18
    case VorbisComment(vendor, comments) => 4 + |vendor| + 4 + CommentsSize(ToStringArray(comments))
    case CueSheet => 0
    case Picture(_, mime, desc, _, _, _, _, data) => 4 + 4 + |mime| + 4 + |desc| + 4 + 4 + 4 + 4 + 4 + |data|
  }

  /** The `.length` of the JavaScript string a UTF-8 byte string decodes
      to: one code unit per character, two for a four-byte sequence. */
  function Utf16Length(s: Bytes): nat
  {
    if s == [] then 0
    else (if 0x80 <= s[0] < 0xC0 then 0 else if s[0] >= 0xF0 then 2 else 1) + Utf16Length(s[1..])
  }

  /** The `serializedSize` getter as written: the vendor string is counted
      by `vendorString.length`, in UTF-16 code units, while the payload
      writes its UTF-8 bytes. */
  function SerializedSizeAsWritten(b: Block): nat
    requires Sized(b)
  {
    match b.data
    case VorbisComment(vendor, comments) => 4 + Utf16Length(vendor) + 4 + CommentsSize(ToStringArray(comments))
    case _ => SerializedSize(b)
  }

  /** On an ASCII vendor string the two counts agree. */
  lemma {:induction false} Utf16LengthOfAscii(s: Bytes)
    requires forall i :: 0 <= i < |s| ==> s[i] < 0x80
    ensures Utf16Length(s) == |s|
  {
    if s != [] {
      Utf16LengthOfAscii(s[1..]);
    }
  }

  lemma SizeAsWrittenOfAsciiVendor(b: Block)
    requires Writable(b) && b.data.VorbisComment?
    requires forall i :: 0 <= i < |b.data.vendor| ==> b.data.vendor[i] < 0x80
    ensures SerializedSizeAsWritten(b) == SerializedSize(b)
  {
    Utf16LengthOfAscii(b.data.vendor);
  }

  // ----------------------------------------------------------------- layout

  function Zeros(n: nat): (z: Bytes)
    ensures |z| == n && forall i :: 0 <= i < n ==> z[i] == 0
  {
    seq(n, _ => 0)
  }

  /** Bytes written at the start of an `n`-byte slot of a zero-filled array. */
  function InSlot(s: Bytes, n: nat): (r: Bytes)
    requires |s| <= n
    ensures |r| == n && r[..|s|] == s
  {
    s + Zeros(n - |s|)
  }

  /** The 24-bit word holding the sample rate, the channel count less one
      and the top bit of the sample size less one:
      `(sampleRate << 4) + (numberOfChannels - 1 << 1) + (bitsPerSample - 1 >> 4)`. */
  function PackedRate(sampleRate: U20, channels: Channels, bits: SampleBits): (w: nat)
    ensures w < 0x100_0000
  {
    sampleRate * 16 + (channels - 1) * 2 + (bits - 1) / 16
  }

  /** Byte 13: the low four bits of the sample size less one, then the top
      four bits of the 36-bit sample count. */
  function SizeAndCountByte(bits: SampleBits, totalSamples: U36): Byte
  {
    ((bits - 1) % 16) * 16 + (totalSamples / 0x1_0000_0000) % 16
  }

  function EncodeSeekPoint(p: SeekPoint): (r: Bytes)
    requires SeekPointFits(p)
    ensures |r| == 18
  {
    InSlot(HexToBytes(p.sampleNumber), 8) + InSlot(HexToBytes(p.offset), 8)
      + InSlot(HexToBytes(p.numberOfSamples), 2)
  }

  function EncodeSeekPoints(points: seq<SeekPoint>): (r: Bytes)
    requires forall i :: 0 <= i < |points| ==> SeekPointFits(points[i])
  {
    if points == [] then [] else EncodeSeekPoint(points[0]) + EncodeSeekPoints(points[1..])
  }

  /** A Vorbis length field: `_uint32ToUint8Array(n).reverse()`. */
  function LengthLE(n: nat): (r: Bytes)
    ensures |r| == 4
  {
    Reverse(Uint32Bytes(n))
  }

  function EncodeComments(cs: seq<Bytes>): Bytes
  {
    if cs == [] then [] else LengthLE(|cs[0]|) + cs[0] + EncodeComments(cs[1..])
  }

  /** The bytes `_serializeMetadataBlock` leaves in its array. */
  function EncodePayload(b: Block): Bytes
    requires Writable(b)
  {
    match b.data
    case StreamInfo(minB, maxB, minF, maxF, rate, ch, bits, total, md5) =>
      Uint16Bytes(minB) + Uint16Bytes(maxB) + Uint24Bytes(minF) + Uint24Bytes(maxF)
        + Uint24Bytes(PackedRate(rate, ch, bits)) + [SizeAndCountByte(bits, total)]
        + Uint32Bytes(total) + InSlot(HexToBytes(md5), 16)
    case Padding => Zeros(b.blockSize)
    case Application(id, data) => InSlot(id, 4) + data
    case SeekTable(points) => EncodeSeekPoints(points)
    case VorbisComment(vendor, comments) =>
      var cs := ToStringArray(comments);
      LengthLE(|vendor|) + vendor + LengthLE(|cs|) + EncodeComments(cs)
    case CueSheet => []
    case Picture(apic, mime, desc, width, height, depth, colors, data) =>
      Uint32Bytes(apic) + Uint32Bytes(|mime|) + mime + Uint32Bytes(|desc|) + desc
        + Uint32Bytes(width) + Uint32Bytes(height) + Uint32Bytes(depth) + Uint32Bytes(colors)
        + Uint32Bytes(|data|) + data
  }

  lemma {:induction false} SeekPointsSize(points: seq<SeekPoint>)
    requires forall i :: 0 <= i < |points| ==> SeekPointFits(points[i])
    ensures |EncodeSeekPoints(points)| == 18 * |points|
  {
    if points != [] {
      SeekPointsSize(points[1..]);
    }
  }

  lemma {:induction false} CommentsSizeIsLength(cs: seq<Bytes>)
    ensures |EncodeComments(cs)| == CommentsSize(cs)
  {
    if cs != [] {
      CommentsSizeIsLength(cs[1..]);
    }
  }

  /** `serializedSize` is exactly the number of bytes the payload takes, so
      the array it sizes is filled with nothing left over or cut off. */
  lemma PayloadSize(b: Block)
    requires Writable(b)
    ensures |EncodePayload(b)| == SerializedSize(b)
  {
    match b.data
    case SeekTable(points) => SeekPointsSize(points);
    case VorbisComment(vendor, comments) => CommentsSizeIsLength(ToStringArray(comments));
    case _ =>
  }

  /** As written, a vendor string with a two-byte UTF-8 character ("é")
      makes `serializedSize` one byte short of the payload. */
  lemma SizeAsWrittenTooSmall()
    ensures var b := Block(4, 0, 0, VorbisComment([0xC3, 0xA9], map[]));
            Writable(b) && SerializedSizeAsWritten(b) + 1 == |EncodePayload(b)|
  {
    var b := Block(4, 0, 0, VorbisComment([0xC3, 0xA9], map[]));
    PayloadSize(b);
    assert ToStringArray(map[]) == [];
    assert Utf16Length([0xC3, 0xA9]) == 1 by {
      assert [0xC3, 0xA9][1..] == [0xA9];
      assert [0xA9][1..] == [];
    }
  }

  // --------------------------------------------------------------- decoding

  function DecodeStreamInfo(bd: Bytes): (d: BlockData)
    ensures d.StreamInfo?
  {
    var packed := BigEndian(View(bd, 10, 3));
    StreamInfo(BigEndian(View(bd, 0, 2)), BigEndian(View(bd, 2, 2)),
               BigEndian(View(bd, 4, 3)), BigEndian(View(bd, 7, 3)),
               packed / 16,
               1 + (At(bd, 12) / 2) % 8,
               1 + (At(bd, 12) % 2) * 16 + At(bd, 13) / 16,
               (At(bd, 13) % 16) * 0x1_0000_0000 + BigEndian(View(bd, 14, 4)),
               UpperHex(HexString(View(bd, 18, 16))))
  }

  function DecodeSeekPoint(bd: Bytes, at: nat): (p: SeekPoint)
    ensures SeekPointFits(p)
  {
    SeekPoint(HexString(View(bd, at, 8)), HexString(View(bd, at + 8, 8)), HexString(View(bd, at + 16, 2)))
  }

  /** `size / 18` is a float, and `i < pointCount` runs for every point that
      begins inside the block: a trailing partial point is read too. */
  function SeekPointCount(size: nat): nat
  {
    (size + 17) / 18
  }

  function DecodeSeekPoints(bd: Bytes, count: nat): (ps: seq<SeekPoint>)
    ensures |ps| == count
    ensures forall i :: 0 <= i < count ==> ps[i] == DecodeSeekPoint(bd, 18 * i)
  {
    seq(count, i requires 0 <= i < count => DecodeSeekPoint(bd, 18 * i))
  }

  /** How the text of one comment is added to the map; the parser uses
      `AddRawComment`, which is `_addComment`. */
  type CommentAdder = (CommentMap, Bytes) -> Result<CommentMap>

  /** The comment loop from `at` with `remaining` comments still to read:
      each is a little-endian length and that many bytes of text. */
  function DecodeComments(add: CommentAdder, bd: Bytes, at: nat, remaining: nat, m: CommentMap): Result<CommentMap>
    decreases remaining
  {
    if remaining == 0 then Ok(m)
    else
      var length := LittleEndian(View(bd, at, 4));
      match add(m, View(bd, at + 4, length))
      case Err(e) => Err(e)
      case Ok(m') => DecodeComments(add, bd, at + 4 + length, remaining - 1, m')
  }

  /** What every step of the comment loop keeps, the whole loop keeps. */
  lemma {:induction false} DecodeCommentsKeep(add: CommentAdder, keep: CommentMap -> bool, bd: Bytes, at: nat,
                                              remaining: nat, m: CommentMap)
    requires forall m0, text :: keep(m0) && add(m0, text).Ok? ==> keep(add(m0, text).value)
    requires keep(m)
    ensures DecodeComments(add, bd, at, remaining, m).Ok? ==> keep(DecodeComments(add, bd, at, remaining, m).value)
    decreases remaining
  {
    if remaining > 0 {
      var length := LittleEndian(View(bd, at, 4));
      var added := add(m, View(bd, at + 4, length));
      if added.Ok? {
        DecodeCommentsKeep(add, keep, bd, at + 4 + length, remaining - 1, added.value);
      }
    }
  }

  lemma AddRawCommentKeepsCanonicalAll()
    ensures forall m, text :: Canonical(m) && AddRawComment(m, text).Ok? ==> Canonical(AddRawComment(m, text).value)
  {
    forall m, text | Canonical(m) && AddRawComment(m, text).Ok?
      ensures Canonical(AddRawComment(m, text).value)
    {
      AddRawCommentKeepsCanonical(m, text);
    }
  }

  /** The comments the parser reads form a canonical map. */
  lemma CommentLoopCanonical(bd: Bytes, at: nat, count: nat)
    ensures var all := DecodeComments(AddRawComment, bd, at, count, map[]);
            all.Ok? ==> Canonical(all.value)
  {
    AddRawCommentKeepsCanonicalAll();
    DecodeCommentsKeep(AddRawComment, Canonical, bd, at, count, map[]);
  }

  /** Whatever payload carries comments, its map is canonical. */
  lemma DecodedPayloadCanonical(t: BlockType, size: nat, bd: Bytes)
    requires DecodePayload(t, size, bd).Ok?
    ensures var d := DecodePayload(t, size, bd).value;
            d.VorbisComment? ==> Canonical(d.comments)
  {
  }

  /** The VORBIS_COMMENT payload is the vendor string and what the comment
      loop reads, or the loop's error. */
  lemma VorbisCommentParts(bd: Bytes)
    ensures var vendorLength := LittleEndian(View(bd, 0, 4));
            var count := LittleEndian(View(bd, 4 + vendorLength, 4));
            var all := DecodeComments(AddRawComment, bd, 4 + vendorLength + 4, count, map[]);
            DecodeVorbisComment(bd)
              == if all.Err? then Err(all.error) else Ok(VorbisComment(View(bd, 4, vendorLength), all.value))
  {
  }

  function DecodeVorbisComment(bd: Bytes): (r: Result<BlockData>)
    ensures r.Ok? ==> r.value.VorbisComment? && r.value.vendor == View(bd, 4, LittleEndian(View(bd, 0, 4)))
    ensures r.Ok? ==> Canonical(r.value.comments)
  {
    var vendorLength := LittleEndian(View(bd, 0, 4));
    var vendor := View(bd, 4, vendorLength);
    var count := LittleEndian(View(bd, 4 + vendorLength, 4));
    CommentLoopCanonical(bd, 4 + vendorLength + 4, count);
    match DecodeComments(AddRawComment, bd, 4 + vendorLength + 4, count, map[])
    case Err(e) => Err(e)
    case Ok(m) => Ok(VorbisComment(vendor, m))
  }

  function DecodePicture(bd: Bytes): (d: BlockData)
    ensures d.Picture?
  {
    var mimeLength := BigEndian(View(bd, 4, 4));
    var at := 8 + mimeLength;
    var descLength := BigEndian(View(bd, at, 4));
    var at' := at + 4 + descLength;
    Picture(BigEndian(View(bd, 0, 4)), View(bd, 8, mimeLength), View(bd, at + 4, descLength),
            BigEndian(View(bd, at', 4)), BigEndian(View(bd, at' + 4, 4)),
            BigEndian(View(bd, at' + 8, 4)), BigEndian(View(bd, at' + 12, 4)),
            View(bd, at' + 20, BigEndian(View(bd, at' + 16, 4))))
  }

  /** `_parseMetadataBlock` on the block's bytes `bd` (already cut to the
      declared `size`, or shorter at the end of the buffer). */
  function DecodePayload(t: BlockType, size: nat, bd: Bytes): Result<BlockData>
  {
    match t
    case StreamInfoType => Ok(DecodeStreamInfo(bd))
    case PaddingType => Ok(Padding)
    case ApplicationType => Ok(Application(View(bd, 0, 4), bd[Min(4, |bd|)..]))
    case SeekTableType => Ok(SeekTable(DecodeSeekPoints(bd, SeekPointCount(size))))
    case VorbisCommentType => DecodeVorbisComment(bd)
    case CueSheetType => Ok(CueSheet)
    case PictureType => Ok(DecodePicture(bd))
    case InvalidType => Ok(Undecoded)
    case ReservedType => Ok(Undecoded)
  }

  /** Every payload the parser builds matches its type and fits its slots;
      only the reserved and invalid types are left without a size rule. */
  lemma DecodedIsWritable(n: TypeNumber, size: nat, offset: nat, bd: Bytes)
    requires DecodePayload(BlockTypeOf(n), size, bd).Ok?
    ensures var b := Block(n, size, offset, DecodePayload(BlockTypeOf(n), size, bd).value);
            WellTyped(b) && (Writable(b) <==> n <= 6)
  {
    var t := BlockTypeOf(n);
    var d := DecodePayload(t, size, bd).value;
    match t
    case StreamInfoType => assert d == DecodeStreamInfo(bd);
    case SeekTableType => assert d == SeekTable(DecodeSeekPoints(bd, SeekPointCount(size)));
    case VorbisCommentType => assert d.VorbisComment?;
    case PictureType => assert d.Picture?;
    case InvalidType => assert d.Undecoded?;
    case ReservedType => assert d.Undecoded?;
    case _ =>
  }

  // ---------------------------------------------------- STREAMINFO round trip

  predicate IsUpperHexDigit(c: char)
  {
    '0' <= c <= '9' || 'A' <= c <= 'F'
  }

  predicate IsUpperHex(h: seq<char>)
  {
    forall i :: 0 <= i < |h| ==> IsUpperHexDigit(h[i])
  }

  lemma {:induction false} HexStringAppend(a: Bytes, b: Bytes)
    ensures HexString(a + b) == HexString(a) + HexString(b)
  {
    if a != [] {
      assert (a + b)[1..] == a[1..] + b;
      HexStringAppend(a[1..], b);
    } else {
      assert a + b == b;
    }
  }

  lemma {:induction false} UpperHexAppend(a: seq<char>, b: seq<char>)
    requires IsHex(a) && IsHex(b)
    ensures IsHex(a + b) && UpperHex(a + b) == UpperHex(a) + UpperHex(b)
  {
    if a != [] {
      assert (a + b)[1..] == a[1..] + b;
      UpperHexAppend(a[1..], b);
    } else {
      assert a + b == b;
    }
  }

  lemma UpperDigitRoundTrip(c: char)
    requires IsUpperHexDigit(c)
    ensures UpperChar(HexDigit(HexValue(c))) == c
  {
    if '0' <= c <= '9' {
      assert HexDigit(HexValue(c)) == c;
    } else {
      var n := HexValue(c);
      assert n == (c - 'A') as nat + 10;
      assert HexDigit(n) == 'a' + (c - 'A');
    }
  }

  /** One byte written from two upper-case digits reads back as them. */
  lemma UpperHexOfPair(c0: char, c1: char)
    requires IsUpperHexDigit(c0) && IsUpperHexDigit(c1)
    ensures UpperHex(HexString([PairValue(c0, c1)])) == [c0, c1]
  {
    var v := PairValue(c0, c1);
    assert v / 16 == HexValue(c0) && v % 16 == HexValue(c1);
    var d0, d1 := HexDigit(v / 16), HexDigit(v % 16);
    UpperDigitRoundTrip(c0);
    UpperDigitRoundTrip(c1);
    var s := HexString([v]);
    assert s == [d0, d1];
    assert UpperHex(s) == [UpperChar(d0)] + UpperHex([d1]);
    assert UpperHex([d1]) == [UpperChar(d1)] + UpperHex([]);
  }

  lemma HexPairsCons(h: seq<char>)
    requires IsHex(h) && |h| >= 2
    ensures HexPairs(h) == [PairValue(h[0], h[1])] + HexPairs(h[2..])
  {
  }

  lemma UpperHexStringCons(v: Byte, tail: Bytes)
    ensures UpperHex(HexString([v] + tail)) == UpperHex(HexString([v])) + UpperHex(HexString(tail))
  {
    HexStringAppend([v], tail);
    UpperHexAppend(HexString([v]), HexString(tail));
  }

  lemma FirstTwo(h: seq<char>)
    requires |h| >= 2
    ensures [h[0], h[1]] + h[2..] == h
  {
  }

  lemma {:induction false} UpperHexOfPairs(h: seq<char>)
    requires IsUpperHex(h) && |h| % 2 == 0
    ensures IsHex(h)
    ensures UpperHex(HexString(HexPairs(h))) == h
  {
    if h != [] {
      var rest := h[2..];
      assert IsUpperHex(rest) && IsUpperHexDigit(h[0]) && IsUpperHexDigit(h[1]);
      UpperHexOfPairs(rest);
      UpperHexOfPair(h[0], h[1]);
      var v := PairValue(h[0], h[1]);
      var tail := HexPairs(rest);
      HexPairsCons(h);
      UpperHexStringCons(v, tail);
      FirstTwo(h);
      var whole := HexString(HexPairs(h));
      assert HexPairs(h) == [v] + tail;
      assert UpperHex(whole) == UpperHex(HexString([v])) + UpperHex(HexString(tail));
      assert UpperHex(whole) == [h[0], h[1]] + rest;
    }
  }

  /** Where each STREAMINFO field sits in the 34 bytes. */
  lemma StreamInfoLayout(b: Block)
    requires Writable(b) && b.data.StreamInfo?
    requires |b.data.md5| == 32
    ensures var bd := EncodePayload(b);
      && |bd| == 34
      && View(bd, 0, 2) == Uint16Bytes(b.data.minBlockSize)
      && View(bd, 2, 2) == Uint16Bytes(b.data.maxBlockSize)
      && View(bd, 4, 3) == Uint24Bytes(b.data.minFrameSize)
      && View(bd, 7, 3) == Uint24Bytes(b.data.maxFrameSize)
      && View(bd, 10, 3) == Uint24Bytes(PackedRate(b.data.sampleRate, b.data.numberOfChannels, b.data.bitsPerSample))
      && At(bd, 13) == SizeAndCountByte(b.data.bitsPerSample, b.data.totalSamples)
      && View(bd, 14, 4) == Uint32Bytes(b.data.totalSamples)
      && View(bd, 18, 16) == HexToBytes(b.data.md5)
  {
    var StreamInfo(minB, maxB, minF, maxF, rate, ch, bits, total, md5) := b.data;
    var p1 := Uint16Bytes(minB) + Uint16Bytes(maxB);
    var p2 := p1 + Uint24Bytes(minF) + Uint24Bytes(maxF);
    var p3 := p2 + Uint24Bytes(PackedRate(rate, ch, bits));
    var p4 := p3 + [SizeAndCountByte(bits, total)];
    var p5 := p4 + Uint32Bytes(total);
    var bd := p5 + InSlot(HexToBytes(md5), 16);
    assert EncodePayload(b) == bd;
    assert bd[..18] == p5;
    assert p5[..14] == p4 && p4[..13] == p3 && p3[..10] == p2 && p2[..4] == p1;
    assert bd[18..34] == HexToBytes(md5);
  }

  /** A STREAMINFO payload read back gives the values written, for every
      field in its range and an MD5 written as 32 upper-case hex digits. */
  lemma StreamInfoRoundTrip(b: Block)
    requires Writable(b) && b.data.StreamInfo?
    requires IsUpperHex(b.data.md5) && |b.data.md5| == 32
    ensures |EncodePayload(b)| == 34
    ensures DecodePayload(StreamInfoType, 34, EncodePayload(b)) == Ok(b.data)
  {
    var StreamInfo(minB, maxB, minF, maxF, rate, ch, bits, total, md5) := b.data;
    var bd := EncodePayload(b);
    StreamInfoLayout(b);
    var packed := PackedRate(rate, ch, bits);
    Uint16RoundTrip(minB);
    Uint16RoundTrip(maxB);
    Uint24RoundTrip(minF);
    Uint24RoundTrip(maxF);
    Uint24RoundTrip(packed);
    Uint32RoundTrip(total);
    UpperHexOfPairs(md5);
    StreamInfoPackedFields(rate, ch, bits, total);
    assert At(bd, 12) == View(bd, 10, 3)[2] == packed % 0x100;
    var d := DecodeStreamInfo(bd);
    assert d.minBlockSize == minB && d.maxBlockSize == maxB;
    assert d.minFrameSize == minF && d.maxFrameSize == maxF;
    assert d.sampleRate == rate && d.numberOfChannels == ch && d.bitsPerSample == bits;
    assert d.totalSamples == total && d.md5 == md5;
  }

  /** The low byte of the packed word: four rate bits, three channel bits
      and the top sample-size bit. */
  lemma PackedRateLowByte(rate: U20, ch: Channels, bits: SampleBits)
    ensures PackedRate(rate, ch, bits) / 16 == rate
    ensures PackedRate(rate, ch, bits) % 0x100 == (rate % 16) * 16 + (ch - 1) * 2 + (bits - 1) / 16
  {
    var low := (ch - 1) * 2 + (bits - 1) / 16;
    var hi, lo := rate / 16, rate % 16;
    assert PackedRate(rate, ch, bits) == 0x100 * hi + (16 * lo + low);
  }

  lemma LowByteFields(lo: nat, ch: Channels, topBit: nat)
    requires lo < 16 && topBit < 2
    ensures ((lo * 16 + (ch - 1) * 2 + topBit) / 2) % 8 == ch - 1
    ensures (lo * 16 + (ch - 1) * 2 + topBit) % 2 == topBit
  {
    var r := lo * 16 + (ch - 1) * 2 + topBit;
    assert r == 2 * (8 * lo + (ch - 1)) + topBit;
    assert 8 * lo + (ch - 1) == 8 * lo + (ch - 1);
  }

  lemma SizeAndCountFields(bits: SampleBits, total: U36)
    ensures SizeAndCountByte(bits, total) / 16 == (bits - 1) % 16
    ensures SizeAndCountByte(bits, total) % 16 == total / 0x1_0000_0000
  {
    var top := total / 0x1_0000_0000;
    assert top < 16;
    assert SizeAndCountByte(bits, total) == 16 * ((bits - 1) % 16) + top;
  }

  lemma StreamInfoPackedFields(rate: U20, ch: Channels, bits: SampleBits, total: U36)
    ensures PackedRate(rate, ch, bits) / 16 == rate
    ensures 1 + ((PackedRate(rate, ch, bits) % 0x100) / 2) % 8 == ch
    ensures 1 + ((PackedRate(rate, ch, bits) % 0x100) % 2) * 16 + SizeAndCountByte(bits, total) / 16 == bits
    ensures (SizeAndCountByte(bits, total) % 16) * 0x1_0000_0000 + total % 0x1_0000_0000 == total
  {
    PackedRateLowByte(rate, ch, bits);
    LowByteFields(rate % 16, ch, (bits - 1) / 16);
    SizeAndCountFields(bits, total);
  }

}
