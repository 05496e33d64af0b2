/** Reading back what the writer lays out and writing back what was read:
    the payload of each block type decoded from its own encoding, a whole
    file written back byte for byte, and the inputs the editor changes on
    the way through. */
module RoundTrip {
  import opened Primitives
  import opened VorbisComments
  import opened Blocks
  import opened Parser
  import opened Serializer

  // ------------------------------------------------------- reading a field

  /** The bytes at `at` are `x` and then `rest`. */
  lemma ReadBytes(bd: Bytes, at: nat, x: Bytes, rest: Bytes)
    requires at <= |bd| && bd[at..] == x + rest
    ensures at + |x| <= |bd| && View(bd, at, |x|) == x && bd[at + |x|..] == rest
  {
    assert bd[at..][..|x|] == bd[at..at + |x|];
    assert bd[at..][|x|..] == bd[at + |x|..];
  }

  /** A 32-bit field written big-endian reads back as its value. */
  lemma ReadUint32(bd: Bytes, at: nat, x: nat, rest: Bytes)
    requires x < 0x1_0000_0000
    requires at <= |bd| && bd[at..] == Uint32Bytes(x) + rest
    ensures at + 4 <= |bd| && BigEndian(View(bd, at, 4)) == x && bd[at + 4..] == rest
  {
    ReadBytes(bd, at, Uint32Bytes(x), rest);
    Uint32RoundTrip(x);
  }

  /** A Vorbis length written little-endian reads back as its value. */
  lemma ReadLength(bd: Bytes, at: nat, n: nat, rest: Bytes)
    requires n < 0x1_0000_0000
    requires at <= |bd| && bd[at..] == LengthLE(n) + rest
    ensures at + 4 <= |bd| && LittleEndian(View(bd, at, 4)) == n && bd[at + 4..] == rest
  {
    ReadBytes(bd, at, LengthLE(n), rest);
    Uint32LittleEndianRoundTrip(n);
  }

  // ------------------------------------------------ the conditions per type

  /** A seek point as the parser builds one: 8, 8 and 2 bytes written as
      lower-case hex. */
  predicate ExactSeekPoint(p: SeekPoint)
  {
    && IsLowerHex(p.sampleNumber) && |p.sampleNumber| == 16
    && IsLowerHex(p.offset) && |p.offset| == 16
    && IsLowerHex(p.numberOfSamples) && |p.numberOfSamples| == 4
  }

  /** Every `KEY=value` string and the count of them fit a 32-bit length. */
  predicate CommentStringsFit(cs: seq<Bytes>)
  {
    |cs| < 0x1_0000_0000 && forall i :: 0 <= i < |cs| ==> |cs[i]| < 0x1_0000_0000
  }

  /** What a payload needs to be read back as itself: every field in the
      range of the bytes it is written to, text fields in the form the
      parser produces them, and a comment map without '=' in its keys and
      values, with upper-case keys, distinct values and no empty list. */
  predicate RoundTrips(d: BlockData)
  {
    match d
    case StreamInfo(_, _, _, _, _, _, _, _, md5) => IsUpperHex(md5) && |md5| == 32
    case Application(id, _) => |id| == 4
    case SeekTable(points) => forall i :: 0 <= i < |points| ==> ExactSeekPoint(points[i])
    case VorbisComment(vendor, comments) =>
      |vendor| < 0x1_0000_0000 && Restorable(comments) && CommentStringsFit(ToStringArray(comments))
    case Picture(apic, mime, desc, width, height, depth, colors, data) =>
      && apic < 0x1_0000_0000 && |mime| < 0x1_0000_0000 && |desc| < 0x1_0000_0000
      && width < 0x1_0000_0000 && height < 0x1_0000_0000 && depth < 0x1_0000_0000
      && colors < 0x1_0000_0000 && |data| < 0x1_0000_0000
    case Undecoded => false
    case _ => true
  }

  // ------------------------------------------------------ payload round trips

  /** An APPLICATION payload with a 4-byte id reads back as written. */
  lemma ApplicationRoundTrip(b: Block)
    requires Writable(b) && b.data.Application? && |b.data.applicationId| == 4
    ensures DecodePayload(ApplicationType, |EncodePayload(b)|, EncodePayload(b)) == Ok(b.data)
  {
    var bd := EncodePayload(b);
    assert bd == b.data.applicationId + b.data.applicationData;
    ReadBytes(bd, 0, b.data.applicationId, b.data.applicationData);
  }

  /** The 18 bytes of point `i` sit at `18 * i`. */
  lemma {:induction false} SeekPointAt(points: seq<SeekPoint>, i: nat)
    requires i < |points| && forall k :: 0 <= k < |points| ==> SeekPointFits(points[k])
    ensures 18 * i <= |EncodeSeekPoints(points)|
    ensures EncodeSeekPoints(points)[18 * i..] == EncodeSeekPoint(points[i]) + EncodeSeekPoints(points[i + 1..])
  {
    var first, rest := EncodeSeekPoint(points[0]), EncodeSeekPoints(points[1..]);
    assert EncodeSeekPoints(points) == first + rest;
    if i == 0 {
      assert points[1..] == points[i + 1..];
    } else {
      SeekPointAt(points[1..], i - 1);
      assert points[1..][i - 1] == points[i] && points[1..][i..] == points[i + 1..];
      SkipPoint(first, rest, i - 1);
    }
  }

  lemma SkipPoint(first: Bytes, rest: Bytes, j: nat)
    requires |first| == 18 && 18 * j <= |rest|
    ensures (first + rest)[18 * (j + 1)..] == rest[18 * j..]
  {
  }

  /** A hex field of exactly `2 * n` lower-case digits fills its `n`-byte
      slot and reads back as itself. */
  lemma HexFieldRoundTrip(h: seq<char>, n: nat, bd: Bytes, at: nat, rest: Bytes)
    requires IsLowerHex(h) && |h| == 2 * n && n > 0
    requires at <= |bd|
    requires IsHex(h) && bd[at..] == InSlot(HexToBytes(h), n) + rest
    ensures at + n <= |bd| && HexString(View(bd, at, n)) == h && bd[at + n..] == rest
  {
    LowerHexRoundTrip(h);
    assert InSlot(HexToBytes(h), n) == HexPairs(h);
    ReadBytes(bd, at, HexPairs(h), rest);
  }

  /** A point read from three hex fields that are its own. */
  lemma SeekPointOfFields(bd: Bytes, at: nat, p: SeekPoint)
    requires HexString(View(bd, at, 8)) == p.sampleNumber
    requires HexString(View(bd, at + 8, 8)) == p.offset
    requires HexString(View(bd, at + 16, 2)) == p.numberOfSamples
    ensures DecodeSeekPoint(bd, at) == p
  {
  }

  /** A point written at `at` reads back as itself. */
  lemma SeekPointFields(bd: Bytes, at: nat, p: SeekPoint, after: Bytes)
    requires ExactSeekPoint(p) && SeekPointFits(p)
    requires at <= |bd| && bd[at..] == EncodeSeekPoint(p) + after
    ensures DecodeSeekPoint(bd, at) == p
  {
    var s, o, n := InSlot(HexToBytes(p.sampleNumber), 8), InSlot(HexToBytes(p.offset), 8),
                   InSlot(HexToBytes(p.numberOfSamples), 2);
    assert bd[at..] == s + (o + (n + after));
    HexFieldRoundTrip(p.sampleNumber, 8, bd, at, o + (n + after));
    HexFieldRoundTrip(p.offset, 8, bd, at + 8, n + after);
    HexFieldRoundTrip(p.numberOfSamples, 2, bd, at + 16, after);
    SeekPointOfFields(bd, at, p);
  }

  lemma SeekPointRoundTrip(points: seq<SeekPoint>, i: nat)
    requires i < |points| && forall k :: 0 <= k < |points| ==> SeekPointFits(points[k])
    requires ExactSeekPoint(points[i])
    ensures DecodeSeekPoint(EncodeSeekPoints(points), 18 * i) == points[i]
  {
    SeekPointAt(points, i);
    SeekPointFields(EncodeSeekPoints(points), 18 * i, points[i], EncodeSeekPoints(points[i + 1..]));
  }

  /** A SEEKTABLE of points in the parser's own form reads back as
      written: the 18-byte size gives back the count, and each point its
      three hex fields. */
  lemma SeekTableRoundTrip(b: Block)
    requires Writable(b) && b.data.SeekTable?
    requires forall i :: 0 <= i < |b.data.points| ==> ExactSeekPoint(b.data.points[i])
    ensures DecodePayload(SeekTableType, |EncodePayload(b)|, EncodePayload(b)) == Ok(b.data)
  {
    var points := b.data.points;
    var bd := EncodePayload(b);
    SeekPointsSize(points);
    assert SeekPointCount(|bd|) == |points|;
    assert bd == EncodeSeekPoints(points);
    var read := DecodeSeekPoints(bd, |points|);
    forall i | 0 <= i < |points| ensures read[i] == points[i] {
      SeekPointRoundTrip(points, i);
    }
    assert read == points;
  }

  /** `key=value` for each pair. */
  function Joined(ps: seq<(Bytes, Bytes)>): (cs: seq<Bytes>)
    ensures |cs| == |ps|
    decreases |ps|
  {
    if ps == [] then [] else [ps[0].0 + [EQUALS] + ps[0].1] + Joined(ps[1..])
  }

  /** Pairs that the comment loop reads back: no '=' in a key or a value,
      and each string short enough for its 32-bit length. */
  predicate Separable(ps: seq<(Bytes, Bytes)>)
    decreases |ps|
  {
    ps != [] ==>
      && NoSeparator(ps[0].0) && NoSeparator(ps[0].1) && |ps[0].0| + 1 + |ps[0].1| < 0x1_0000_0000
      && Separable(ps[1..])
  }

  /** One turn of the comment loop over a `key=value` string written
      behind its length. */
  lemma CommentStep(bd: Bytes, at: nat, c: Bytes, rest: Bytes, k: Bytes, v: Bytes, remaining: nat, left: nat,
                    m: CommentMap, m': CommentMap, next: nat)
    requires |c| < 0x1_0000_0000 && c == k + [EQUALS] + v && NoSeparator(k) && NoSeparator(v)
    requires at <= |bd| && bd[at..] == LengthLE(|c|) + c + rest
    requires remaining == left + 1 && m' == Insert(m, k, v) && next == at + 4 + |c|
    ensures next <= |bd| && bd[next..] == rest
    ensures DecodeComments(AddRawComment, bd, at, remaining, m) == DecodeComments(AddRawComment, bd, next, left, m')
  {
    assert LittleEndian(View(bd, at, 4)) == |c| && View(bd, at + 4, |c|) == c
           && next <= |bd| && bd[next..] == rest by {
      assert bd[at..] == LengthLE(|c|) + (c + rest);
      ReadLength(bd, at, |c|, c + rest);
      ReadBytes(bd, at + 4, c, rest);
    }
    assert AddRawComment(m, c) == Ok(m') by {
      AddRawCommentOfPair(m, k, v);
    }
    AddRawCommentApplied(m, c);
    CommentAdded(AddRawComment, bd, at, remaining, m, |c|, m', next, left);
  }

  /** The comment loop over the strings of separable pairs adds the pairs
      in order. */
  lemma {:induction false} CommentLoopRoundTrip(bd: Bytes, at: nat, count: nat, ps: seq<(Bytes, Bytes)>,
                                                m: CommentMap)
    requires Separable(ps) && count == |ps|
    requires at <= |bd| && bd[at..] == EncodeComments(Joined(ps))
    ensures DecodeComments(AddRawComment, bd, at, count, m) == Ok(InsertPairs(m, ps))
    decreases |ps|
  {
    if ps != [] {
      var (k, v) := ps[0];
      var cs := Joined(ps);
      var m' := Insert(m, k, v);
      var next := at + 4 + |cs[0]|;
      assert cs[1..] == Joined(ps[1..]);
      CommentStep(bd, at, cs[0], EncodeComments(cs[1..]), k, v, count, |ps[1..]|, m, m', next);
      CommentLoopRoundTrip(bd, next, |ps[1..]|, ps[1..], m');
      InsertPairsCons(m, ps);
    } else {
      CommentsDone(AddRawComment, bd, at, m);
    }
  }

  /** `toStringArray` joins the pairs it emits. */
  lemma {:induction false} JoinedAt(ps: seq<(Bytes, Bytes)>, i: nat)
    requires i < |ps|
    ensures Joined(ps)[i] == ps[i].0 + [EQUALS] + ps[i].1
    decreases |ps|
  {
    if i > 0 {
      JoinedAt(ps[1..], i - 1);
    }
  }

  lemma StringsAreJoinedPairs(c: CommentMap)
    ensures ToStringArray(c) == Joined(Pairs(c))
  {
    forall i | 0 <= i < |Pairs(c)| ensures ToStringArray(c)[i] == Joined(Pairs(c))[i] {
      JoinedAt(Pairs(c), i);
    }
  }

  /** Pairs each free of '=' and short enough are separable. */
  lemma {:induction false} SeparableOfEach(ps: seq<(Bytes, Bytes)>)
    requires forall i :: 0 <= i < |ps| ==> NoSeparator(ps[i].0) && NoSeparator(ps[i].1)
    requires forall i :: 0 <= i < |ps| ==> |ps[i].0| + 1 + |ps[i].1| < 0x1_0000_0000
    ensures Separable(ps)
    decreases |ps|
  {
    if ps != [] {
      var tail := ps[1..];
      forall i | 0 <= i < |tail| ensures NoSeparator(tail[i].0) && NoSeparator(tail[i].1) {
        assert tail[i] == ps[i + 1];
      }
      forall i | 0 <= i < |tail| ensures |tail[i].0| + 1 + |tail[i].1| < 0x1_0000_0000 {
        assert tail[i] == ps[i + 1];
      }
      SeparableOfEach(tail);
    }
  }

  /** The pairs `toStringArray` emits for a restorable map, written as
      strings that fit their lengths, are separable. */
  lemma PairsAreSeparable(c: CommentMap)
    requires Restorable(c) && CommentStringsFit(ToStringArray(c))
    ensures Separable(Pairs(c))
  {
    var p := Pairs(c);
    ToStringArrayComplete(c, [], []);
    forall i | 0 <= i < |p| ensures NoSeparator(p[i].0) && NoSeparator(p[i].1) {
      var (f, x) := p[i];
      assert f in c && x in c[f];
      var j :| 0 <= j < |c[f]| && c[f][j] == x;
    }
    forall i | 0 <= i < |p| ensures |p[i].0| + 1 + |p[i].1| < 0x1_0000_0000 {
      assert |ToStringArray(c)[i]| == |p[i].0| + 1 + |p[i].1|;
    }
    SeparableOfEach(p);
  }

  /** The VORBIS_COMMENT layout over separable pairs reads back as the
      vendor string and the pairs inserted in order. */
  lemma VorbisLayoutReads(bd: Bytes, vendor: Bytes, ps: seq<(Bytes, Bytes)>)
    requires |vendor| < 0x1_0000_0000 && |ps| < 0x1_0000_0000 && Separable(ps)
    requires bd == LengthLE(|vendor|) + vendor + LengthLE(|Joined(ps)|) + EncodeComments(Joined(ps))
    ensures DecodeVorbisComment(bd) == Ok(VorbisComment(vendor, InsertPairs(map[], ps)))
  {
    var at := 4 + |vendor| + 4;
    VorbisFieldsRead(bd, vendor, |ps|, EncodeComments(Joined(ps)));
    CommentLoopRoundTrip(bd, at, |ps|, ps, map[]);
    VorbisDecodedFrom(bd, vendor, |ps|, InsertPairs(map[], ps));
  }

  /** The vendor string, the comment count and the comment strings sit
      where `DecodeVorbisComment` reads them. */
  lemma VorbisFieldsRead(bd: Bytes, vendor: Bytes, count: nat, tail: Bytes)
    requires |vendor| < 0x1_0000_0000 && count < 0x1_0000_0000
    requires bd == LengthLE(|vendor|) + vendor + LengthLE(count) + tail
    ensures LittleEndian(View(bd, 0, 4)) == |vendor| && View(bd, 4, |vendor|) == vendor
    ensures LittleEndian(View(bd, 4 + |vendor|, 4)) == count
    ensures 4 + |vendor| + 4 <= |bd| && bd[4 + |vendor| + 4..] == tail
  {
    var counted := LengthLE(count) + tail;
    assert bd == LengthLE(|vendor|) + vendor + counted;
    VendorRead(bd, vendor, counted);
    ReadLength(bd, 4 + |vendor|, count, tail);
  }

  /** Where the vendor string and the count read as given and the comment
      loop succeeds, the block decodes to them. */
  lemma VorbisDecodedFrom(bd: Bytes, vendor: Bytes, count: nat, c: CommentMap)
    requires LittleEndian(View(bd, 0, 4)) == |vendor| && View(bd, 4, |vendor|) == vendor
    requires LittleEndian(View(bd, 4 + |vendor|, 4)) == count
    requires DecodeComments(AddRawComment, bd, 4 + |vendor| + 4, count, map[]) == Ok(c)
    ensures DecodeVorbisComment(bd) == Ok(VorbisComment(vendor, c))
  {
    VorbisCommentParts(bd);
  }

  /** The counted vendor string reads back, and what follows it is left. */
  lemma VendorRead(bd: Bytes, vendor: Bytes, counted: Bytes)
    requires |vendor| < 0x1_0000_0000 && bd == LengthLE(|vendor|) + vendor + counted
    ensures LittleEndian(View(bd, 0, 4)) == |vendor| && View(bd, 4, |vendor|) == vendor
    ensures bd[4 + |vendor|..] == counted
  {
    assert bd == LengthLE(|vendor|) + (vendor + counted);
    ReadLength(bd, 0, |vendor|, vendor + counted);
    ReadBytes(bd, 4, vendor, counted);
  }

  /** A VORBIS_COMMENT payload reads back as written: the vendor string,
      and the map rebuilt from its `KEY=value` strings. */
  lemma VorbisCommentRoundTrip(b: Block)
    requires Writable(b) && b.data.VorbisComment?
    requires |b.data.vendor| < 0x1_0000_0000 && Restorable(b.data.comments)
    requires CommentStringsFit(ToStringArray(b.data.comments))
    ensures DecodePayload(VorbisCommentType, |EncodePayload(b)|, EncodePayload(b)) == Ok(b.data)
  {
    var VorbisComment(vendor, c) := b.data;
    var bd, ps := EncodePayload(b), Pairs(c);
    PairsAreSeparable(c);
    VorbisPayloadLaidOut(b, vendor, c);
    VorbisLayoutReads(bd, vendor, ps);
    RebuildFromPairs(c);
    assert DecodePayload(VorbisCommentType, |bd|, bd) == DecodeVorbisComment(bd);
  }

  /** The VORBIS_COMMENT payload is the vendor string and the map's pairs
      joined as `KEY=value` strings, each counted. */
  lemma VorbisPayloadLaidOut(b: Block, vendor: Bytes, c: CommentMap)
    requires Writable(b) && b.data == VorbisComment(vendor, c)
    ensures var cs := Joined(Pairs(c));
            EncodePayload(b) == LengthLE(|vendor|) + vendor + LengthLE(|cs|) + EncodeComments(cs)
  {
    StringsAreJoinedPairs(c);
  }

  /** Where the fields after the description start: `at'` past the two
      counted strings. */
  predicate PictureOffsets(bd: Bytes, mime: Bytes, desc: Bytes, at: nat, at': nat)
  {
    && BigEndian(View(bd, 4, 4)) == |mime| && at == 8 + |mime|
    && BigEndian(View(bd, at, 4)) == |desc| && at' == at + 4 + |desc|
  }

  /** The picture type and the two counted strings read from their slots. */
  lemma PictureHead(bd: Bytes, apic: nat, mime: Bytes, desc: Bytes, at: nat, at': nat)
    requires PictureOffsets(bd, mime, desc, at, at')
    requires BigEndian(View(bd, 0, 4)) == apic
    requires View(bd, 8, |mime|) == mime && View(bd, at + 4, |desc|) == desc
    ensures var d := DecodePicture(bd);
            d.apicType == apic && d.mimeType == mime && d.description == desc
  {
  }

  /** The four numbers and the picture data read from their slots after
      `at'`. */
  lemma PictureTail(bd: Bytes, mime: Bytes, desc: Bytes, at: nat, at': nat, width: nat, height: nat,
                    depth: nat, colors: nat, data: Bytes)
    requires PictureOffsets(bd, mime, desc, at, at')
    requires BigEndian(View(bd, at', 4)) == width && BigEndian(View(bd, at' + 4, 4)) == height
    requires BigEndian(View(bd, at' + 8, 4)) == depth && BigEndian(View(bd, at' + 12, 4)) == colors
    requires BigEndian(View(bd, at' + 16, 4)) == |data| && View(bd, at' + 20, |data|) == data
    ensures var d := DecodePicture(bd);
            d.width == width && d.height == height && d.colorDepth == depth && d.colorNumber == colors
            && d.data == data
  {
  }

  /** The PICTURE layout, written field by field, seen from its first
      field on. */
  lemma PictureRegrouped(apic: Bytes, ml: Bytes, mime: Bytes, dl: Bytes, desc: Bytes, w: Bytes, h: Bytes,
                         d: Bytes, c: Bytes, n: Bytes, data: Bytes)
    ensures apic + ml + mime + dl + desc + w + h + d + c + n + data
         == apic + (ml + (mime + (dl + (desc + (w + (h + (d + (c + (n + data)))))))))
  {
    var r9 := n + data;
    Assoc(apic + ml + mime + dl + desc + w + h + d, c, n);
    Assoc(apic + ml + mime + dl + desc + w + h + d, c + n, data);
    Assoc(c, n, data);
    var r8 := c + r9;
    Assoc(apic + ml + mime + dl + desc + w + h, d, r8);
    var r7 := d + r8;
    Assoc(apic + ml + mime + dl + desc + w, h, r7);
    var r6 := h + r7;
    Assoc(apic + ml + mime + dl + desc, w, r6);
    var r5 := w + r6;
    Assoc(apic + ml + mime + dl, desc, r5);
    var r4 := desc + r5;
    Assoc(apic + ml + mime, dl, r4);
    var r3 := dl + r4;
    Assoc(apic + ml, mime, r3);
    var r2 := mime + r3;
    Assoc(apic, ml, r2);
  }

  /** The picture type and the two counted strings at the start of the
      layout. */
  lemma PictureHeadReads(bd: Bytes, apic: nat, mime: Bytes, desc: Bytes, after: Bytes)
    requires apic < 0x1_0000_0000 && |mime| < 0x1_0000_0000 && |desc| < 0x1_0000_0000
    requires bd == Uint32Bytes(apic) + (Uint32Bytes(|mime|) + (mime + (Uint32Bytes(|desc|) + (desc + after))))
    ensures var at := 8 + |mime|;
            && PictureOffsets(bd, mime, desc, at, at + 4 + |desc|)
            && BigEndian(View(bd, 0, 4)) == apic
            && View(bd, 8, |mime|) == mime && View(bd, at + 4, |desc|) == desc
            && at + 4 + |desc| <= |bd| && bd[at + 4 + |desc|..] == after
  {
    var r4 := desc + after;
    var r3 := Uint32Bytes(|desc|) + r4;
    var r2 := mime + r3;
    var r1 := Uint32Bytes(|mime|) + r2;
    var at := 8 + |mime|;
    assert bd[0..] == Uint32Bytes(apic) + r1;
    ReadUint32(bd, 0, apic, r1);
    ReadUint32(bd, 4, |mime|, r2);
    ReadBytes(bd, 8, mime, r3);
    ReadUint32(bd, at, |desc|, r4);
    ReadBytes(bd, at + 4, desc, after);
  }

  /** The four numbers and the counted picture data from `at'` on. */
  lemma PictureTailReads(bd: Bytes, at': nat, width: nat, height: nat, depth: nat, colors: nat, data: Bytes)
    requires width < 0x1_0000_0000 && height < 0x1_0000_0000 && depth < 0x1_0000_0000
    requires colors < 0x1_0000_0000 && |data| < 0x1_0000_0000
    requires at' <= |bd|
    requires bd[at'..] == Uint32Bytes(width) + (Uint32Bytes(height) + (Uint32Bytes(depth) + (Uint32Bytes(colors)
                          + (Uint32Bytes(|data|) + data))))
    ensures BigEndian(View(bd, at', 4)) == width && BigEndian(View(bd, at' + 4, 4)) == height
    ensures BigEndian(View(bd, at' + 8, 4)) == depth && BigEndian(View(bd, at' + 12, 4)) == colors
    ensures BigEndian(View(bd, at' + 16, 4)) == |data| && View(bd, at' + 20, |data|) == data
  {
    var r9 := Uint32Bytes(|data|) + data;
    var r8 := Uint32Bytes(colors) + r9;
    var r7 := Uint32Bytes(depth) + r8;
    var r6 := Uint32Bytes(height) + r7;
    ReadUint32(bd, at', width, r6);
    ReadUint32(bd, at' + 4, height, r7);
    ReadUint32(bd, at' + 8, depth, r8);
    ReadUint32(bd, at' + 12, colors, r9);
    ReadUint32(bd, at' + 16, |data|, data);
    ReadBytes(bd, at' + 20, data, []);
  }

  /** The PICTURE layout, field after field, reads back as its fields. */
  lemma PictureLayoutReads(bd: Bytes, apic: nat, mime: Bytes, desc: Bytes, width: nat, height: nat,
                           depth: nat, colors: nat, data: Bytes)
    requires apic < 0x1_0000_0000 && |mime| < 0x1_0000_0000 && |desc| < 0x1_0000_0000
    requires width < 0x1_0000_0000 && height < 0x1_0000_0000 && depth < 0x1_0000_0000
    requires colors < 0x1_0000_0000 && |data| < 0x1_0000_0000
    requires bd == Uint32Bytes(apic) + Uint32Bytes(|mime|) + mime + Uint32Bytes(|desc|) + desc
                   + Uint32Bytes(width) + Uint32Bytes(height) + Uint32Bytes(depth) + Uint32Bytes(colors)
                   + Uint32Bytes(|data|) + data
    ensures DecodePicture(bd) == Picture(apic, mime, desc, width, height, depth, colors, data)
  {
    var tail := Uint32Bytes(width) + (Uint32Bytes(height) + (Uint32Bytes(depth) + (Uint32Bytes(colors)
                + (Uint32Bytes(|data|) + data))));
    assert bd == Uint32Bytes(apic) + (Uint32Bytes(|mime|) + (mime + (Uint32Bytes(|desc|) + (desc + tail)))) by {
      PictureRegrouped(Uint32Bytes(apic), Uint32Bytes(|mime|), mime, Uint32Bytes(|desc|), desc,
                       Uint32Bytes(width), Uint32Bytes(height), Uint32Bytes(depth), Uint32Bytes(colors),
                       Uint32Bytes(|data|), data);
    }
    var at := 8 + |mime|;
    var at' := at + 4 + |desc|;
    PictureHeadReads(bd, apic, mime, desc, tail);
    PictureHead(bd, apic, mime, desc, at, at');
    PictureTailReads(bd, at', width, height, depth, colors, data);
    PictureTail(bd, mime, desc, at, at', width, height, depth, colors, data);
    PictureOfFields(DecodePicture(bd), Picture(apic, mime, desc, width, height, depth, colors, data));
  }

  /** Two pictures with the same fields are the same. */
  lemma PictureOfFields(d: BlockData, e: BlockData)
    requires d.Picture? && e.Picture?
    requires d.apicType == e.apicType && d.mimeType == e.mimeType && d.description == e.description
    requires d.width == e.width && d.height == e.height && d.colorDepth == e.colorDepth
    requires d.colorNumber == e.colorNumber && d.data == e.data
    ensures d == e
  {
  }

  /** A PICTURE payload with every number and length below 2^32 reads back
      as written. */
  lemma PictureRoundTrip(b: Block)
    requires Writable(b) && b.data.Picture? && RoundTrips(b.data)
    ensures DecodePayload(PictureType, |EncodePayload(b)|, EncodePayload(b)) == Ok(b.data)
  {
    var Picture(apic, mime, desc, width, height, depth, colors, data) := b.data;
    PictureLayoutReads(EncodePayload(b), apic, mime, desc, width, height, depth, colors, data);
  }

  /** Every payload in round-trip form reads back as written, whatever its
      type: `_parseMetadataBlock` undoes `_serializeMetadataBlock`. */
  lemma PayloadRoundTrip(b: Block)
    requires WellTyped(b) && Writable(b) && RoundTrips(b.data)
    ensures DecodePayload(b.Type(), |EncodePayload(b)|, EncodePayload(b)) == Ok(b.data)
  {
    match b.data
    case StreamInfo(_, _, _, _, _, _, _, _, _) => StreamInfoRoundTrip(b);
    case Application(_, _) => ApplicationRoundTrip(b);
    case SeekTable(_) => SeekTableRoundTrip(b);
    case VorbisComment(_, _) => VorbisCommentRoundTrip(b);
    case Picture(_, _, _, _, _, _, _, _) => PictureRoundTrip(b);
    case _ =>
  }

  // ------------------------------------------------------------ whole file

  /** Block `b`, read from `buf`, lies inside the buffer and its payload
      re-encodes to the very bytes it was read from. */
  predicate Reencodes(buf: Bytes, b: Block)
  {
    && b.offset + 4 + b.blockSize <= |buf|
    && Writable(b)
    && EncodePayload(b) == buf[b.offset + 4..b.offset + 4 + b.blockSize]
  }

  /** The header byte the writer sets is the one read: the type number in
      the low seven bits and the last flag in bit 7. */
  lemma HeaderByteRestored(x: Byte, last: bool)
    requires last <==> x / 0x80 == 1
    ensures x % 0x80 + (if last then 0x80 else 0) == x
  {
  }

  /** The header the writer emits for `b` is the four bytes `h` it was
      read from, when the type, the size and the last flag agree. */
  lemma HeaderRestored(h: Bytes, b: Block, last: bool)
    requires |h| == 4 && Sized(b)
    requires b.typeNumber == h[0] % 0x80 && (last <==> h[0] / 0x80 == 1)
    requires SerializedSize(b) == BigEndian(h[1..])
    ensures Header(b, last) == h
  {
    Uint24OfBigEndian(h[1..]);
    HeaderByteRestored(h[0], last);
    assert h == [h[0]] + h[1..];
  }

  /** A block that re-encodes is written back, header and payload, as the
      bytes it was read from, provided the writer's last flag is the one
      read. */
  lemma BlockRestored(buf: Bytes, b: Block, last: bool)
    requires b.offset < |buf| && b.typeNumber == HeaderType(buf, b.offset)
    requires b.blockSize == HeaderSize(buf, b.offset) && Reencodes(buf, b)
    requires last <==> IsLastFlagged(buf, b.offset)
    ensures EncodeBlock(b, last) == buf[b.offset..b.offset + 4 + b.blockSize]
  {
    var o, e := b.offset, b.offset + 4 + b.blockSize;
    var h, p := buf[o..o + 4], buf[o + 4..e];
    PayloadSize(b);
    assert View(buf, o + 1, 3) == h[1..];
    HeaderRestored(h, b, last);
    JoinStretch(buf, h, p, o, o + 4, e);
  }

  lemma {:induction false} SpanSnoc(bs: seq<Block>, n: nat)
    requires n < |bs|
    ensures Span(bs[..n + 1]) == Span(bs[..n]) + 4 + bs[n].blockSize
    decreases n
  {
    if n > 0 {
      SpanSnoc(bs[1..], n - 1);
      assert bs[..n + 1][1..] == bs[1..][..n];
      assert bs[..n][1..] == bs[1..][..n - 1];
    } else {
      assert bs[..1][1..] == [];
    }
  }

  /** Chunk `c` is the stretch of `buf` from `from` to `to`. */
  predicate ChunkIn(buf: Bytes, c: Bytes, from: nat, to: nat)
  {
    from <= to <= |buf| && c == buf[from..to]
  }

  /** Chunk `i` of `cs` is the stretch of `buf` where block `i` of `bs`
      lies, after the signature and the blocks before it. */
  predicate ChunkOfBlock(buf: Bytes, cs: seq<Bytes>, bs: seq<Block>, i: nat)
  {
    i < |cs| && i < |bs| && ChunkIn(buf, cs[i], 4 + Span(bs[..i]), 4 + Span(bs[..i + 1]))
  }

  /** Two stretches of `buf` that meet make one. */
  lemma JoinStretch(buf: Bytes, x: Bytes, y: Bytes, from: nat, mid: nat, to: nat)
    requires from <= mid <= to <= |buf|
    requires x == buf[from..mid] && y == buf[mid..to]
    ensures x + y == buf[from..to]
  {
  }

  /** Chunks lying back to back in `buf`, each where its block lies,
      concatenate to the stretch the first `n` blocks cover. */
  lemma {:induction false} ConcatRestored(buf: Bytes, cs: seq<Bytes>, bs: seq<Block>, n: nat)
    requires |cs| == |bs| && n <= |cs| && 4 <= |buf|
    requires forall i :: 0 <= i < |cs| ==> ChunkOfBlock(buf, cs, bs, i)
    ensures 4 + Span(bs[..n]) <= |buf|
    ensures Concat(cs[..n]) == buf[4..4 + Span(bs[..n])]
  {
    if n > 0 {
      ConcatRestored(buf, cs, bs, n - 1);
      ConcatStep(cs, n - 1);
      assert ChunkOfBlock(buf, cs, bs, n - 1);
      JoinStretch(buf, Concat(cs[..n - 1]), cs[n - 1], 4, 4 + Span(bs[..n - 1]), 4 + Span(bs[..n]));
    } else {
      assert cs[..0] == [] && bs[..0] == [];
    }
  }

  /** Block `i` of a list of writable blocks, re-encoding where it was
      read, is written back as the bytes it was read from when only the
      final block is flagged last. */
  lemma BlockChunkRestored(buf: Bytes, bs: seq<Block>, i: nat)
    requires i < |bs| && AllWritable(bs) && bs[i].offset < |buf|
    requires bs[i].typeNumber == HeaderType(buf, bs[i].offset)
    requires bs[i].blockSize == HeaderSize(buf, bs[i].offset) && Reencodes(buf, bs[i])
    requires i == |bs| - 1 <==> IsLastFlagged(buf, bs[i].offset)
    ensures BlockChunks(bs)[i] == buf[bs[i].offset..bs[i].offset + 4 + bs[i].blockSize]
  {
    BlockRestored(buf, bs[i], i == |bs| - 1);
  }

  /** In a walk whose final block is flagged last, exactly that block is. */
  lemma WalkFlags(buf: Bytes, bs: seq<Block>, framesOffset: nat, i: nat)
    requires Walk(DecodePayload, buf, 4, bs, framesOffset)
    requires bs != [] ==> bs[|bs| - 1].offset < |buf| && IsLastFlagged(buf, bs[|bs| - 1].offset)
    requires i < |bs|
    ensures bs[i].offset < |buf|
    ensures i == |bs| - 1 <==> IsLastFlagged(buf, bs[i].offset)
  {
    if i < |bs| - 1 {
      assert bs[i].offset < |buf| && !IsLastFlagged(buf, bs[i].offset);
    }
  }

  /** Block `i` of a walk whose blocks all re-encode, the final one
      flagged last, is written back as the bytes it was read from. */
  lemma ChunkOfWalk(buf: Bytes, bs: seq<Block>, framesOffset: nat, i: nat)
    requires Walk(DecodePayload, buf, 4, bs, framesOffset)
    requires forall j :: 0 <= j < |bs| ==> Reencodes(buf, bs[j])
    requires bs != [] ==> bs[|bs| - 1].offset < |buf| && IsLastFlagged(buf, bs[|bs| - 1].offset)
    requires i < |bs| && AllWritable(bs)
    ensures ChunkOfBlock(buf, BlockChunks(bs), bs, i)
  {
    assert bs[i].offset == 4 + Span(bs[..i]) && ReadAt(DecodePayload, buf, bs[i]);
    assert Reencodes(buf, bs[i]);
    WalkFlags(buf, bs, framesOffset, i);
    BlockChunkRestored(buf, bs, i);
    ChunkPlaced(buf, BlockChunks(bs), bs, i);
  }

  /** A chunk equal to the bytes block `i` was read from, the block read
      right after the blocks before it, is where that block lies. */
  lemma ChunkPlaced(buf: Bytes, cs: seq<Bytes>, bs: seq<Block>, i: nat)
    requires i < |cs| && i < |bs|
    requires bs[i].offset == 4 + Span(bs[..i]) && bs[i].offset + 4 + bs[i].blockSize <= |buf|
    requires cs[i] == buf[bs[i].offset..bs[i].offset + 4 + bs[i].blockSize]
    ensures ChunkOfBlock(buf, cs, bs, i)
  {
    SpanSnoc(bs, i);
  }

  /** A buffer cut in three pieces is their concatenation. */
  lemma Reassembled(buf: Bytes, head: Bytes, body: Bytes, tail: Bytes, at: nat)
    requires 4 <= at <= |buf|
    requires head == buf[..4] && body == buf[4..at] && tail == buf[at..]
    ensures head + body + tail == buf
  {
    assert buf[..4] + buf[4..at] == buf[..at];
  }

  /** Blocks that all re-encode are writable. */
  lemma ReencodedWritable(buf: Bytes, bs: seq<Block>)
    requires forall j :: 0 <= j < |bs| ==> Reencodes(buf, bs[j])
    ensures AllWritable(bs)
  {
    forall i | 0 <= i < |bs| ensures Writable(bs[i]) {
      assert Reencodes(buf, bs[i]);
    }
  }

  /** Chunks lying back to back in `buf`, each where its block lies,
      concatenate to the stretch all the blocks cover. */
  lemma ChunksConcat(buf: Bytes, cs: seq<Bytes>, bs: seq<Block>, framesOffset: nat)
    requires |cs| == |bs| && 4 <= |buf| && framesOffset == 4 + Span(bs)
    requires forall i :: 0 <= i < |cs| ==> ChunkOfBlock(buf, cs, bs, i)
    ensures framesOffset <= |buf| && Concat(cs) == buf[4..framesOffset]
  {
    ConcatRestored(buf, cs, bs, |cs|);
    assert cs[..|cs|] == cs && bs[..|bs|] == bs;
  }

  /** All the blocks of a walk whose blocks all re-encode, the final one
      flagged last, are written back as the stretch of `buf` they were
      read from. */
  lemma ChunksRestored(buf: Bytes, bs: seq<Block>, framesOffset: nat)
    requires 4 <= |buf| && Walk(DecodePayload, buf, 4, bs, framesOffset)
    requires forall j :: 0 <= j < |bs| ==> Reencodes(buf, bs[j])
    requires bs != [] ==> bs[|bs| - 1].offset < |buf| && IsLastFlagged(buf, bs[|bs| - 1].offset)
    requires AllWritable(bs)
    ensures framesOffset <= |buf|
    ensures Concat(BlockChunks(bs)) == buf[4..framesOffset]
  {
    var cs := BlockChunks(bs);
    forall i | 0 <= i < |cs| ensures ChunkOfBlock(buf, cs, bs, i) {
      ChunkOfWalk(buf, bs, framesOffset, i);
    }
    ChunksConcat(buf, cs, bs, framesOffset);
  }

  /** A file written back from its own parse is the file itself, when
      every block re-encodes to the bytes it was read from and the final
      block carries the last flag (otherwise the writer sets one that was
      not there). */
  lemma ParseThenSerialize(buf: Bytes)
    requires |buf| >= 4 && Parse(buf).Ok?
    requires var bs := Parse(buf).value.blocks;
             && (forall i :: 0 <= i < |bs| ==> Reencodes(buf, bs[i]))
             && (bs != [] ==> bs[|bs| - 1].offset < |buf| && IsLastFlagged(buf, bs[|bs| - 1].offset))
    ensures MetadataWritable(Parse(buf).value)
    ensures Serialize(Parse(buf).value, buf) == buf
  {
    var m := Parse(buf).value;
    var bs := m.blocks;
    ParseWalks(buf);
    ReencodedWritable(buf, bs);
    ChunksRestored(buf, bs, m.framesOffset);
    var fo := m.framesOffset;
    assert InSlot(m.signature, 4) == buf[..4];
    Reassembled(buf, InSlot(m.signature, 4), Concat(BlockChunks(bs)), Frames(buf, fo), fo);
  }

  // ------------------------------------------------- STREAMINFO in place

  /** Bytes 10 to 12 are rebuilt from the rate, channel and sample-size
      fields read out of them. */
  lemma PackedRateRestored(packed: nat, b12: Byte, b13: Byte)
    requires packed < 0x100_0000 && packed % 0x100 == b12
    ensures PackedRate(packed / 16, 1 + (b12 / 2) % 8, 1 + (b12 % 2) * 16 + b13 / 16) == packed
  {
    var q, top: int := packed / 16, b13 / 16;
    assert ((b12 % 2) * 16 + top) / 16 == b12 % 2;
    LowNibble(packed, b12);
    assert packed == q * 16 + 2 * ((b12 / 2) % 8) + b12 % 2;
  }

  /** The low four bits of a word are those of its low byte: three channel
      bits over the top sample-size bit. */
  lemma LowNibble(x: nat, low: Byte)
    requires x % 0x100 == low
    ensures x % 16 == 2 * ((low / 2) % 8) + low % 2
  {
    var q := x / 0x100;
    assert x == 0x100 * q + low;
    assert x % 16 == low % 16;
  }

  /** Byte 13 is rebuilt from the sample-size and sample-count fields read
      out of it and of bytes 14 to 17. */
  lemma SizeAndCountRestored(b12: Byte, b13: Byte, high: nat)
    requires high < 0x1_0000_0000
    ensures SizeAndCountByte(1 + (b12 % 2) * 16 + b13 / 16, (b13 % 16) * 0x1_0000_0000 + high) == b13
    ensures ((b13 % 16) * 0x1_0000_0000 + high) % 0x1_0000_0000 == high
  {
    var top, low: int := b13 / 16, b13 % 16;
    assert ((b12 % 2) * 16 + top) % 16 == top;
    assert (low * 0x1_0000_0000 + high) / 0x1_0000_0000 == low;
    assert (low * 0x1_0000_0000 + high) % 0x1_0000_0000 == high;
  }

  /** The eight fields of a STREAMINFO payload put back together. */
  lemma StreamInfoPieces(bd: Bytes)
    requires |bd| == 34
    ensures bd[0..2] + bd[2..4] + bd[4..7] + bd[7..10] + bd[10..13] + [bd[13]] + bd[14..18] + bd[18..34] == bd
  {
  }

  /** A 34-byte STREAMINFO payload, decoded and encoded again, is the
      payload itself: every bit of it is kept in some field. */
  lemma StreamInfoReencodes(bd: Bytes, b: Block)
    requires |bd| == 34 && b.data == DecodeStreamInfo(bd)
    ensures Writable(b) && EncodePayload(b) == bd
  {
    StreamInfoSizesRead(bd, b.data);
    StreamInfoPackedRead(bd, b.data);
    StreamInfoCountRead(bd, b.data);
    StreamInfoSignatureRead(bd, b.data);
    StreamInfoEncoded(b, bd);
  }

  /** The four block and frame sizes are written back as read. */
  lemma StreamInfoSizesRead(bd: Bytes, d: BlockData)
    requires |bd| == 34 && d == DecodeStreamInfo(bd)
    ensures Uint16Bytes(d.minBlockSize) == bd[0..2] && Uint16Bytes(d.maxBlockSize) == bd[2..4]
    ensures Uint24Bytes(d.minFrameSize) == bd[4..7] && Uint24Bytes(d.maxFrameSize) == bd[7..10]
  {
    assert View(bd, 0, 2) == bd[0..2] && View(bd, 2, 2) == bd[2..4];
    assert View(bd, 4, 3) == bd[4..7] && View(bd, 7, 3) == bd[7..10];
    Uint16OfBigEndian(bd[0..2]);
    Uint16OfBigEndian(bd[2..4]);
    Uint24OfBigEndian(bd[4..7]);
    Uint24OfBigEndian(bd[7..10]);
  }

  /** Bytes 10 to 12, the packed sample rate, channel count and the top
      bit of the sample size, are written back as read. */
  lemma StreamInfoPackedRead(bd: Bytes, d: BlockData)
    requires |bd| == 34 && d == DecodeStreamInfo(bd)
    ensures Uint24Bytes(PackedRate(d.sampleRate, d.numberOfChannels, d.bitsPerSample)) == bd[10..13]
  {
    assert View(bd, 10, 3) == bd[10..13];
    Uint24OfBigEndian(bd[10..13]);
    PackedRateRestored(BigEndian(bd[10..13]), bd[12], bd[13]);
  }

  /** Bytes 13 to 17, the rest of the sample size and the 36-bit sample
      count, are written back as read. */
  lemma StreamInfoCountRead(bd: Bytes, d: BlockData)
    requires |bd| == 34 && d == DecodeStreamInfo(bd)
    ensures SizeAndCountByte(d.bitsPerSample, d.totalSamples) == bd[13]
    ensures Uint32Bytes(d.totalSamples) == bd[14..18]
  {
    assert View(bd, 14, 4) == bd[14..18];
    var high := BigEndian(bd[14..18]);
    SizeAndCountRestored(bd[12], bd[13], high);
    Uint32OfBigEndian(bd[14..18]);
    Uint32BytesLow(d.totalSamples);
  }

  /** The MD5 signature, kept as upper-case hex, is written back as read. */
  lemma StreamInfoSignatureRead(bd: Bytes, d: BlockData)
    requires |bd| == 34 && d == DecodeStreamInfo(bd)
    ensures HexOfAtMost(d.md5, 16) && InSlot(HexToBytes(d.md5), 16) == bd[18..34]
  {
    assert View(bd, 18, 16) == bd[18..34];
    UpperHexRoundTrip(bd[18..34]);
  }

  /** A STREAMINFO block whose eight encoded fields are the eight slices
      of `bd` is encoded as `bd`. */
  lemma StreamInfoEncoded(b: Block, bd: Bytes)
    requires |bd| == 34 && Writable(b) && b.data.StreamInfo?
    requires var d := b.data;
             && Uint16Bytes(d.minBlockSize) == bd[0..2] && Uint16Bytes(d.maxBlockSize) == bd[2..4]
             && Uint24Bytes(d.minFrameSize) == bd[4..7] && Uint24Bytes(d.maxFrameSize) == bd[7..10]
             && Uint24Bytes(PackedRate(d.sampleRate, d.numberOfChannels, d.bitsPerSample)) == bd[10..13]
             && SizeAndCountByte(d.bitsPerSample, d.totalSamples) == bd[13]
             && Uint32Bytes(d.totalSamples) == bd[14..18]
             && InSlot(HexToBytes(d.md5), 16) == bd[18..34]
    ensures EncodePayload(b) == bd
  {
    StreamInfoPieces(bd);
  }

  // --------------------------------------------------------------- examples

  /** The signature `fLaC`. */
  const FLAC_SIGNATURE: Bytes := [0x66, 0x4C, 0x61, 0x43]

  /** The smallest complete file: the signature, one STREAMINFO block of
      34 bytes flagged last, then two bytes of audio frames. */
  function MinimalFile(streamInfo: Bytes): (buf: Bytes)
    requires |streamInfo| == 34
    ensures |buf| == 44 && buf[8..42] == streamInfo
  {
    FLAC_SIGNATURE + [0x80, 0, 0, 34] + streamInfo + [0xAA, 0xBB]
  }

  /** It reads as one STREAMINFO block at offset 4, the frames at 42. */
  lemma MinimalFileParses(streamInfo: Bytes)
    requires |streamInfo| == 34
    ensures Parse(MinimalFile(streamInfo))
            == Ok(Metadata(FLAC_SIGNATURE, [Block(0, 34, 4, DecodeStreamInfo(streamInfo))], 42))
  {
    var buf := MinimalFile(streamInfo);
    assert View(buf, 5, 3) == [0, 0, 34];
    BigEndianOfThree(0, 0, 34);
    assert HeaderType(buf, 4) == 0 && HeaderSize(buf, 4) == 34 && IsLastFlagged(buf, 4);
    assert View(buf, 8, 34) == streamInfo;
    var block := Block(0, 34, 4, DecodeStreamInfo(streamInfo));
    LoopTurn(DecodePayload, buf, 4, 0, block, 42, true, 1);
    LoopEnds(DecodePayload, buf, 42, true, 1);
    assert [block] + [] == [block];
    assert ParseLoop(DecodePayload, buf, 4, false, 0) == Ok(([block], 42));
    assert View(buf, 0, 4) == FLAC_SIGNATURE;
  }

  /** ... and is written back byte for byte, whatever its STREAMINFO. */
  lemma MinimalFileRoundTrip(streamInfo: Bytes)
    requires |streamInfo| == 34
    ensures Parse(MinimalFile(streamInfo)).Ok? && MetadataWritable(Parse(MinimalFile(streamInfo)).value)
    ensures Serialize(Parse(MinimalFile(streamInfo)).value, MinimalFile(streamInfo)) == MinimalFile(streamInfo)
  {
    var buf := MinimalFile(streamInfo);
    MinimalFileParses(streamInfo);
    var b := Block(0, 34, 4, DecodeStreamInfo(streamInfo));
    StreamInfoReencodes(streamInfo, b);
    assert Reencodes(buf, b);
    ParseThenSerialize(buf);
  }

  /** A file holding a CUESHEET block of one byte, flagged last. */
  const CUESHEET_FILE: Bytes := FLAC_SIGNATURE + [0x85, 0, 0, 1, 0]

  /** It reads as one CUESHEET block, its payload not kept. */
  lemma CueSheetFileParses()
    ensures Parse(CUESHEET_FILE) == Ok(Metadata(FLAC_SIGNATURE, [Block(5, 1, 4, CueSheet)], 9))
  {
    var buf := CUESHEET_FILE;
    assert View(buf, 5, 3) == [0, 0, 1];
    BigEndianOfThree(0, 0, 1);
    assert HeaderType(buf, 4) == 5 && HeaderSize(buf, 4) == 1 && IsLastFlagged(buf, 4);
    var b := Block(5, 1, 4, CueSheet);
    LoopTurn(DecodePayload, buf, 4, 0, b, 9, true, 1);
    LoopEnds(DecodePayload, buf, 9, true, 1);
    assert [b] + [] == [b];
    assert ParseLoop(DecodePayload, buf, 4, false, 0) == Ok(([b], 9));
    assert View(buf, 0, 4) == FLAC_SIGNATURE;
  }

  /** A CUESHEET block is written with size 0 and no payload, so that
      file comes back one byte shorter, its block header changed. */
  lemma CueSheetShrinks()
    ensures Parse(CUESHEET_FILE).Ok? && MetadataWritable(Parse(CUESHEET_FILE).value)
    ensures Serialize(Parse(CUESHEET_FILE).value, CUESHEET_FILE) == FLAC_SIGNATURE + [0x85, 0, 0, 0]
  {
    CueSheetFileParses();
    CueSheetWritten();
    assert Frames(CUESHEET_FILE, 9) == [];
  }

  /** The CUESHEET block alone is written as a bare header. */
  lemma CueSheetWritten()
    ensures AllWritable([Block(5, 1, 4, CueSheet)])
    ensures Concat(BlockChunks([Block(5, 1, 4, CueSheet)])) == [0x85, 0, 0, 0]
  {
    var b := Block(5, 1, 4, CueSheet);
    assert Header(b, true) == [0x85, 0, 0, 0] && EncodePayload(b) == [];
    assert EncodeBlock(b, true) == [0x85, 0, 0, 0];
    var cs := BlockChunks([b]);
    assert cs == [[0x85, 0, 0, 0]];
    assert cs[..0] == [];
  }

  /** The comment "A=b=c" is read as field A with value "b": the text after
      the second '=' is lost, and "A=b" is all that is written back. */
  lemma SecondSeparatorLost(text: Bytes)
    requires |text| == 5 && text[0] == 0x41 && text[1] == EQUALS && text[2] == 0x62 && text[3] == EQUALS && text[4] == 0x63
    ensures var m: CommentMap := map[[0x41] := [[0x62]]];
            && AddRawComment(map[], text) == Ok(m)
            && ToStringArray(m) != [] && text !in ToStringArray(m)
            && forall c :: c in ToStringArray(m) ==> c == [0x41, EQUALS, 0x62]
  {
    SecondSeparatorParts(text);
    assert Upper([0x41]) == [0x41];
    WrittenBackAs(text, [0x41], [0x41], [0x62]);
    assert [0x41] + [EQUALS] + [0x62] == [0x41, EQUALS, 0x62];
  }

  /** "A=b=c" splits into the field "A" and the value "b". */
  lemma SecondSeparatorParts(text: Bytes)
    requires |text| == 5 && text[0] == 0x41 && text[1] == EQUALS && text[2] == 0x62 && text[3] == EQUALS && text[4] == 0x63
    ensures FieldPart(text) == [0x41] && ValuePart(text) == Some([0x62])
  {
    assert Separator(text, 1) == 1 && Separator(text, 0) == 1;
    assert Separator(text, 3) == 3 && Separator(text, 2) == 3;
    assert text[..1] == [0x41] && text[2..3] == [0x62];
  }

  /** The comment "a=b" is stored under the upper-cased field and written
      back as "A=b". */
  lemma FieldNameRaised(text: Bytes)
    requires text == [0x61, EQUALS, 0x62]
    ensures var m: CommentMap := map[[0x41] := [[0x62]]];
            && AddRawComment(map[], text) == Ok(m)
            && ToStringArray(m) != [] && text !in ToStringArray(m)
            && forall c :: c in ToStringArray(m) ==> c == [0x41, EQUALS, 0x62]
  {
    LowerFieldParts(text);
    assert Upper([0x61]) == [0x41];
    WrittenBackAs(text, [0x61], [0x41], [0x62]);
  }

  /** "a=b" splits into the field "a" and the value "b". */
  lemma LowerFieldParts(text: Bytes)
    requires text == [0x61, EQUALS, 0x62]
    ensures FieldPart(text) == [0x61] && ValuePart(text) == Some([0x62])
  {
    assert Separator(text, 1) == 1 && Separator(text, 0) == 1;
    assert Separator(text, 3) == 3 && Separator(text, 2) == 3;
    assert text[..1] == [0x61] && text[2..3] == [0x62];
  }

  /** A comment read into an empty map is written back as the one string
      "KEY=value" of its upper-cased field and its value. */
  lemma WrittenBackAs(text: Bytes, field: Bytes, key: Bytes, value: Bytes)
    requires FieldPart(text) == field && ValuePart(text) == Some(value) && Upper(field) == key
    ensures var m := map[key := [value]];
            && AddRawComment(map[], text) == Ok(m)
            && ToStringArray(m) != []
            && forall c :: c in ToStringArray(m) ==> c == key + [EQUALS] + value
  {
    OneCommentRead(text, field, value);
    OnlyOneString(key, value);
  }

  /** A comment read into an empty map stores its one value under its
      upper-cased field. */
  lemma OneCommentRead(text: Bytes, field: Bytes, value: Bytes)
    requires FieldPart(text) == field && ValuePart(text) == Some(value)
    ensures AddRawComment(map[], text) == Ok(map[Upper(field) := [value]])
  {
    var none: seq<Bytes> := [];
    assert value !in none && none + [value] == [value];
  }

  /** A map holding one value under one field is written as that one
      string. */
  lemma OnlyOneString(k: Bytes, v: Bytes)
    ensures ToStringArray(map[k := [v]]) != []
    ensures forall c :: c in ToStringArray(map[k := [v]]) ==> c == k + [EQUALS] + v
  {
    var m := map[k := [v]];
    ToStringArrayComplete(m, k, v);
  }
}
