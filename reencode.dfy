/** Writing back what was read: for each block type, the payload bytes
    that `_serializeMetadataBlock` lays out again, byte for byte, once
    `_parseMetadataBlock` has decoded them, and a whole file written back
    as itself when every block's bytes are of that form. */
module Reencode {
  import opened Primitives
  import opened VorbisComments
  import opened Blocks
  import opened Parser
  import opened Serializer
  import opened RoundTrip

  // ------------------------------------------------------------- the forms

  /** A PICTURE payload whose counted data ends exactly at the end of the
      block: nothing trails it and no field is cut short. */
  predicate PictureFilled(bd: Bytes)
  {
    var mimeLength := BigEndian(View(bd, 4, 4));
    var at := 8 + mimeLength;
    var descLength := BigEndian(View(bd, at, 4));
    var at' := at + 4 + descLength;
    at' + 20 <= |bd| && at' + 20 + BigEndian(View(bd, at' + 16, 4)) == |bd|
  }

  /** Pairs as `toStringArray` emits them: upper-case keys in sorted order,
      no pair twice, and each separable. */
  predicate CommentsInOrder(ps: seq<(Bytes, Bytes)>)
  {
    && Separable(ps)
    && (forall i :: 0 <= i < |ps| ==> Upper(ps[i].0) == ps[i].0)
    && (forall i, j :: 0 <= i < j < |ps| ==> LexLeq(ps[i].0, ps[j].0) && ps[i] != ps[j])
  }

  /** A VORBIS_COMMENT payload: the counted vendor string, the count and
      the counted `KEY=value` strings of pairs in order, nothing after. */
  predicate VorbisLayout(bd: Bytes, vendor: Bytes, ps: seq<(Bytes, Bytes)>)
  {
    && |vendor| < 0x1_0000_0000 && |ps| < 0x1_0000_0000 && CommentsInOrder(ps)
    && bd == LengthLE(|vendor|) + vendor + LengthLE(|Joined(ps)|) + EncodeComments(Joined(ps))
  }

  ghost predicate VorbisLaidOut(bd: Bytes)
  {
    exists vendor, ps :: VorbisLayout(bd, vendor, ps)
  }

  /** The payloads of each type that are written back as read. */
  ghost predicate ReencodableBytes(t: BlockType, bd: Bytes)
  {
    match t
    case StreamInfoType => |bd| == 34
    case PaddingType => forall i :: 0 <= i < |bd| ==> bd[i] == 0
    case ApplicationType => |bd| >= 4
    case SeekTableType => |bd| % 18 == 0
    case VorbisCommentType => VorbisLaidOut(bd)
    case CueSheetType => bd == []
    case PictureType => PictureFilled(bd)
    case InvalidType => false
    case ReservedType => false
  }

  // ------------------------------------------------ the simple block types

  /** Padding is written as zeros: its bytes come back exactly when they
      were all zero. */
  lemma PaddingReencodes(bd: Bytes, b: Block)
    requires b.data == Padding && b.blockSize == |bd|
    ensures Writable(b)
    ensures EncodePayload(b) == bd <==> forall i :: 0 <= i < |bd| ==> bd[i] == 0
  {
    if forall i :: 0 <= i < |bd| ==> bd[i] == 0 {
      assert EncodePayload(b) == Zeros(|bd|);
    }
  }

  /** An APPLICATION payload comes back exactly when it holds at least
      the 4-byte id: a shorter one is padded to the id's slot. */
  lemma ApplicationReencodes(bd: Bytes, b: Block)
    requires DecodePayload(ApplicationType, |bd|, bd) == Ok(b.data)
    ensures Writable(b)
    ensures EncodePayload(b) == bd <==> |bd| >= 4
  {
    var id, data := View(bd, 0, 4), bd[Min(4, |bd|)..];
    assert b.data == Application(id, data);
    assert |EncodePayload(b)| == 4 + |data|;
    if |bd| >= 4 {
      assert id == bd[..4];
      assert EncodePayload(b) == bd[..4] + bd[4..];
    }
  }

  /** A CUESHEET payload is not kept: it comes back only when empty. */
  lemma CueSheetReencodes(bd: Bytes, b: Block)
    requires b.data == CueSheet
    ensures Writable(b)
    ensures EncodePayload(b) == bd <==> bd == []
  {
  }

  /** STREAMINFO is always written in 34 bytes, and 34 bytes come back. */
  lemma StreamInfoBytesReencode(bd: Bytes, b: Block)
    requires b.data == DecodeStreamInfo(bd)
    ensures Writable(b)
    ensures EncodePayload(b) == bd <==> |bd| == 34
  {
    if |bd| == 34 {
      StreamInfoReencodes(bd, b);
    } else {
      assert HexOfAtMost(b.data.md5, 16);
      assert |EncodePayload(b)| == 34;
    }
  }

  // ------------------------------------------------------------ SEEKTABLE

  /** A slice of the tail from `k` is the slice of the whole from `k` on. */
  lemma ViewDrop(s: Bytes, k: nat, start: nat, count: nat)
    requires k <= |s|
    ensures View(s[k..], start, count) == View(s, k + start, count)
  {
  }

  /** Point `i + 1` of a table is point `i` of the table after its first
      18 bytes. */
  lemma SeekPointDrop(bd: Bytes, i: nat)
    requires 18 <= |bd|
    ensures DecodeSeekPoint(bd, 18 * (i + 1)) == DecodeSeekPoint(bd[18..], 18 * i)
  {
    ViewDrop(bd, 18, 18 * i, 8);
    ViewDrop(bd, 18, 18 * i + 8, 8);
    ViewDrop(bd, 18, 18 * i + 16, 2);
  }

  /** A field of `n` bytes read as hex and written back fills its slot
      with the same bytes. */
  lemma HexFieldRestored(s: Bytes, n: nat)
    requires |s| == n && n > 0
    ensures HexOfAtMost(HexString(s), n) && InSlot(HexToBytes(HexString(s)), n) == s
  {
    HexRoundTrip(s);
    assert Zeros(0) == [];
  }

  /** The first 18 bytes, read as a point and written back, are themselves. */
  lemma FirstSeekPointRestored(bd: Bytes)
    requires 18 <= |bd|
    ensures EncodeSeekPoint(DecodeSeekPoint(bd, 0)) == bd[..18]
  {
    assert View(bd, 0, 8) == bd[0..8] && View(bd, 8, 8) == bd[8..16] && View(bd, 16, 2) == bd[16..18];
    HexFieldRestored(bd[0..8], 8);
    HexFieldRestored(bd[8..16], 8);
    HexFieldRestored(bd[16..18], 2);
    assert bd[0..8] + bd[8..16] + bd[16..18] == bd[..18];
  }

  /** Points each read from its own 18 bytes are written back as those
      bytes. */
  lemma {:induction false} SeekPointsRestored(bd: Bytes, ps: seq<SeekPoint>)
    requires |bd| == 18 * |ps|
    requires forall i :: 0 <= i < |ps| ==> ps[i] == DecodeSeekPoint(bd, 18 * i) && SeekPointFits(ps[i])
    ensures EncodeSeekPoints(ps) == bd
    decreases |ps|
  {
    if ps != [] {
      var tail, rest := ps[1..], bd[18..];
      forall i | 0 <= i < |tail| ensures tail[i] == DecodeSeekPoint(rest, 18 * i) && SeekPointFits(tail[i]) {
        assert tail[i] == ps[i + 1];
        SeekPointDrop(bd, i);
      }
      SeekPointsRestored(rest, tail);
      FirstSeekPointRestored(bd);
      assert EncodeSeekPoints(ps) == EncodeSeekPoint(ps[0]) + EncodeSeekPoints(tail);
      assert bd == bd[..18] + rest;
    }
  }

  /** Whole points fill the block exactly when its size is a multiple
      of 18. */
  lemma SeekCountExact(size: nat)
    ensures 18 * SeekPointCount(size) == size <==> size % 18 == 0
  {
  }

  /** Whole multiples of 18 bytes come back; otherwise the trailing partial
      point is read and written back as a whole one. */
  lemma SeekTableReencodes(bd: Bytes, b: Block)
    requires DecodePayload(SeekTableType, |bd|, bd) == Ok(b.data)
    ensures Writable(b)
    ensures EncodePayload(b) == bd <==> |bd| % 18 == 0
  {
    var n := SeekPointCount(|bd|);
    var points := DecodeSeekPoints(bd, n);
    assert b.data == SeekTable(points);
    SeekPointsSize(points);
    SeekCountExact(|bd|);
    if |bd| % 18 == 0 {
      SeekPointsRestored(bd, points);
    }
  }

  // -------------------------------------------------------------- PICTURE

  /** A slice from `i` is the slice up to `j` and the rest. */
  lemma SliceSplit(bd: Bytes, i: nat, j: nat)
    requires i <= j <= |bd|
    ensures bd[i..] == bd[i..j] + bd[j..]
  {
  }

  /** A big-endian number read from four bytes is written back as them. */
  lemma NumberRestored(bd: Bytes, at: nat)
    requires at + 4 <= |bd|
    ensures Uint32Bytes(BigEndian(View(bd, at, 4))) == bd[at..at + 4]
  {
    Uint32OfBigEndian(bd[at..at + 4]);
  }

  /** The picture type, the two counted strings and what follows them. */
  lemma PictureHeadSlices(bd: Bytes, at: nat, at': nat)
    requires 8 <= at && at + 4 <= at' <= |bd|
    ensures bd == bd[0..4] + (bd[4..8] + (bd[8..at] + (bd[at..at + 4] + (bd[at + 4..at'] + bd[at'..]))))
  {
    SliceSplit(bd, at + 4, at');
    var r4 := bd[at + 4..at'] + bd[at'..];
    SliceSplit(bd, at, at + 4);
    var r3 := bd[at..at + 4] + r4;
    SliceSplit(bd, 8, at);
    var r2 := bd[8..at] + r3;
    SliceSplit(bd, 4, 8);
    SliceSplit(bd, 0, 4);
    assert bd == bd[0..];
  }

  /** The four numbers and the counted data from `at'` on. */
  lemma PictureTailSlices(bd: Bytes, at': nat)
    requires at' + 20 <= |bd|
    ensures bd[at'..] == bd[at'..at' + 4] + (bd[at' + 4..at' + 8] + (bd[at' + 8..at' + 12]
                         + (bd[at' + 12..at' + 16] + (bd[at' + 16..at' + 20] + bd[at' + 20..]))))
  {
    SliceSplit(bd, at' + 16, at' + 20);
    SliceSplit(bd, at' + 12, at' + 16);
    SliceSplit(bd, at' + 8, at' + 12);
    SliceSplit(bd, at' + 4, at' + 8);
    SliceSplit(bd, at', at' + 4);
  }

  /** The picture type and the two counted strings of a PICTURE payload
      are its first slices. */
  lemma PictureHeadFields(bd: Bytes, at: nat, at': nat, d: BlockData)
    requires d == DecodePicture(bd) && at' <= |bd|
    requires at == 8 + BigEndian(View(bd, 4, 4)) && at' == at + 4 + BigEndian(View(bd, at, 4))
    ensures d.mimeType == bd[8..at] && d.description == bd[at + 4..at']
    ensures Uint32Bytes(d.apicType) == bd[0..4] && Uint32Bytes(|d.mimeType|) == bd[4..8]
    ensures Uint32Bytes(|d.description|) == bd[at..at + 4]
  {
    NumberRestored(bd, 0);
    NumberRestored(bd, 4);
    NumberRestored(bd, at);
  }

  /** The four numbers after the description are the next four slices. */
  lemma PictureNumberFields(bd: Bytes, at: nat, at': nat, d: BlockData)
    requires d == DecodePicture(bd) && at' + 16 <= |bd|
    requires at == 8 + BigEndian(View(bd, 4, 4)) && at' == at + 4 + BigEndian(View(bd, at, 4))
    ensures Uint32Bytes(d.width) == bd[at'..at' + 4] && Uint32Bytes(d.height) == bd[at' + 4..at' + 8]
    ensures Uint32Bytes(d.colorDepth) == bd[at' + 8..at' + 12]
    ensures Uint32Bytes(d.colorNumber) == bd[at' + 12..at' + 16]
  {
    NumberRestored(bd, at');
    NumberRestored(bd, at' + 4);
    NumberRestored(bd, at' + 8);
    NumberRestored(bd, at' + 12);
  }

  /** The counted data of a PICTURE payload that ends with it is its last
      slice. */
  lemma PictureDataField(bd: Bytes, at: nat, at': nat, d: BlockData)
    requires d == DecodePicture(bd) && at' + 20 <= |bd|
    requires at == 8 + BigEndian(View(bd, 4, 4)) && at' == at + 4 + BigEndian(View(bd, at, 4))
    requires at' + 20 + BigEndian(View(bd, at' + 16, 4)) == |bd|
    ensures d.data == bd[at' + 20..] && Uint32Bytes(|d.data|) == bd[at' + 16..at' + 20]
  {
    NumberRestored(bd, at' + 16);
  }

  /** A PICTURE payload whose data ends where the block does comes back. */
  lemma PictureReencodes(bd: Bytes, b: Block)
    requires PictureFilled(bd) && b.data == DecodePicture(bd)
    ensures Writable(b) && EncodePayload(b) == bd
  {
    var at := 8 + BigEndian(View(bd, 4, 4));
    var at' := at + 4 + BigEndian(View(bd, at, 4));
    PictureHeadFields(bd, at, at', b.data);
    PictureNumberFields(bd, at, at', b.data);
    PictureDataField(bd, at, at', b.data);
    PictureHeadSlices(bd, at, at');
    PictureTailSlices(bd, at');
    var Picture(apic, mime, desc, width, height, depth, colors, data) := b.data;
    PictureRegrouped(Uint32Bytes(apic), Uint32Bytes(|mime|), mime, Uint32Bytes(|desc|), desc,
                     Uint32Bytes(width), Uint32Bytes(height), Uint32Bytes(depth), Uint32Bytes(colors),
                     Uint32Bytes(|data|), data);
  }

  // -------------------------------------------------------- VORBIS_COMMENT

  /** The keys of the pairs never decrease. */
  predicate KeysSorted(p: seq<(Bytes, Bytes)>)
  {
    forall i, j :: 0 <= i < j < |p| ==> LexLeq(p[i].0, p[j].0)
  }

  /** Every pair that holds `k` as its key lies at or after the first pair. */
  lemma FirstKeyLeast(p: seq<(Bytes, Bytes)>, k: Bytes, v: Bytes)
    requires KeysSorted(p) && p != [] && v in ValuesOf(p, k)
    ensures LexLeq(p[0].0, k)
  {
    PairIndexExists(p, k, v);
    var i :| 0 <= i < |p| && p[i] == (k, v);
    if i == 0 {
      LexTotal(k, k);
    }
  }

  /** Pairs in key order are determined by the values they pair with each
      key: `toStringArray` has one output per map. */
  lemma {:induction false} SortedPairsDetermined(p: seq<(Bytes, Bytes)>, q: seq<(Bytes, Bytes)>)
    requires KeysSorted(p) && KeysSorted(q)
    requires forall k :: ValuesOf(p, k) == ValuesOf(q, k)
    ensures p == q
    decreases |p|
  {
    if p == [] || q == [] {
      if p != [] {
        ValueOfEachPair(p, 0);
      } else if q != [] {
        ValueOfEachPair(q, 0);
      }
    } else {
      var a, b := p[0].0, q[0].0;
      ValueOfEachPair(p, 0);
      ValueOfEachPair(q, 0);
      FirstKeyLeast(p, b, q[0].1);
      FirstKeyLeast(q, a, p[0].1);
      LexAntisymmetric(a, b);
      assert p[0] == q[0] by {
        assert ValuesOf(p, a) == [p[0].1] + ValuesOf(p[1..], a);
        assert ValuesOf(q, a) == [q[0].1] + ValuesOf(q[1..], a);
      }
      forall k ensures ValuesOf(p[1..], k) == ValuesOf(q[1..], k) {
        SameHeadValues(p, q, k);
      }
      SortedPairsDetermined(p[1..], q[1..]);
      assert p == [p[0]] + p[1..] && q == [q[0]] + q[1..];
    }
  }

  /** Two pair lists with the same first pair and the same values for
      `k` have tails with the same values for `k`. */
  lemma SameHeadValues(p: seq<(Bytes, Bytes)>, q: seq<(Bytes, Bytes)>, k: Bytes)
    requires p != [] && q != [] && p[0] == q[0] && ValuesOf(p, k) == ValuesOf(q, k)
    ensures ValuesOf(p[1..], k) == ValuesOf(q[1..], k)
  {
    var head := if p[0].0 == k then [p[0].1] else [];
    assert ValuesOf(p, k) == head + ValuesOf(p[1..], k);
    assert ValuesOf(q, k) == head + ValuesOf(q[1..], k);
    assert ValuesOf(p[1..], k) == ValuesOf(p, k)[|head|..];
    assert ValuesOf(q[1..], k) == ValuesOf(q, k)[|head|..];
  }

  /** A value never paired with `k` is not among its values. */
  lemma {:induction false} UnpairedValue(p: seq<(Bytes, Bytes)>, k: Bytes, v: Bytes)
    requires forall i :: 0 <= i < |p| ==> p[i] != (k, v)
    ensures v !in ValuesOf(p, k)
    decreases |p|
  {
    if p != [] {
      var tail := p[1..];
      forall i | 0 <= i < |tail| ensures tail[i] != (k, v) {
        assert tail[i] == p[i + 1];
      }
      UnpairedValue(tail, k, v);
    }
  }

  /** Distinct pairs pair each key with distinct values. */
  lemma {:induction false} DistinctValuesOf(ps: seq<(Bytes, Bytes)>, k: Bytes)
    requires forall i, j :: 0 <= i < j < |ps| ==> ps[i] != ps[j]
    ensures Distinct(ValuesOf(ps, k))
    decreases |ps|
  {
    if ps != [] {
      var tail := ps[1..];
      forall i, j | 0 <= i < j < |tail| ensures tail[i] != tail[j] {
        assert tail[i] == ps[i + 1] && tail[j] == ps[j + 1];
      }
      DistinctValuesOf(tail, k);
      if ps[0].0 == k {
        forall i | 0 <= i < |tail| ensures tail[i] != (k, ps[0].1) {
          assert tail[i] == ps[i + 1];
        }
        UnpairedValue(tail, k, ps[0].1);
        DistinctCons(ps[0].1, ValuesOf(tail, k));
      }
    }
  }

  lemma DistinctCons(x: Bytes, s: seq<Bytes>)
    requires x !in s && Distinct(s)
    ensures Distinct([x] + s)
  {
    var r := [x] + s;
    forall i, j | 0 <= i < j < |r| ensures r[i] != r[j] {
      assert r[j] == s[j - 1];
      if i > 0 { assert r[i] == s[i - 1]; }
    }
  }

  /** No value would be stored twice under any key. */
  ghost predicate NoneTwice(acc: CommentMap, ps: seq<(Bytes, Bytes)>)
  {
    forall key :: Distinct(Stored(acc, key) + ValuesOf(ps, key))
  }

  predicate UpperKeys(ps: seq<(Bytes, Bytes)>)
  {
    forall i :: 0 <= i < |ps| ==> Upper(ps[i].0) == ps[i].0
  }

  /** What the comment loop keeps for each key. */
  predicate StoresValues(r: CommentMap, acc: CommentMap, ps: seq<(Bytes, Bytes)>, k: Bytes)
  {
    && Stored(r, k) == Stored(acc, k) + ValuesOf(ps, k)
    && (k in r <==> k in acc || ValuesOf(ps, k) != [])
  }

  /** The map after the first pair is appended to its key's list. */
  function AfterFirst(acc: CommentMap, ps: seq<(Bytes, Bytes)>): CommentMap
    requires ps != []
  {
    acc[ps[0].0 := Stored(acc, ps[0].0) + [ps[0].1]]
  }

  /** Pairs with upper-case keys, inserted in order, append to each key's
      list the values paired with it, provided none is stored twice. */
  lemma {:induction false} InsertPairsStored(acc: CommentMap, ps: seq<(Bytes, Bytes)>, k: Bytes)
    requires UpperKeys(ps) && NoneTwice(acc, ps)
    ensures StoresValues(InsertPairs(acc, ps), acc, ps, k)
    decreases |ps|
  {
    if ps != [] {
      var acc' := AfterFirst(acc, ps);
      FirstPairAppended(acc, ps);
      forall key ensures Distinct(Stored(acc', key) + ValuesOf(ps[1..], key)) {
        StoredStep(acc, ps, key);
      }
      UpperKeysTail(ps);
      InsertPairsStored(acc', ps[1..], k);
      StoredStep(acc, ps, k);
    }
  }

  lemma UpperKeysTail(ps: seq<(Bytes, Bytes)>)
    requires ps != [] && UpperKeys(ps)
    ensures UpperKeys(ps[1..])
  {
    forall i | 0 <= i < |ps[1..]| ensures Upper(ps[1..][i].0) == ps[1..][i].0 {
      assert ps[1..][i] == ps[i + 1];
    }
  }

  /** The first pair goes in as a new value at the end of its key's list. */
  lemma FirstPairAppended(acc: CommentMap, ps: seq<(Bytes, Bytes)>)
    requires ps != [] && UpperKeys(ps) && NoneTwice(acc, ps)
    ensures InsertPairs(acc, ps) == InsertPairs(AfterFirst(acc, ps), ps[1..])
  {
    var (k0, v0) := ps[0];
    assert Upper(k0) == k0;
    assert v0 !in Stored(acc, k0) by {
      assert ValuesOf(ps, k0) == [v0] + ValuesOf(ps[1..], k0);
      assert Distinct(Stored(acc, k0) + ValuesOf(ps, k0));
      FirstIsNew(Stored(acc, k0), ValuesOf(ps, k0));
    }
    InsertAppends(acc, k0, v0);
    InsertPairsCons(acc, ps);
  }

  /** Moving the first pair into the map leaves each key's values, stored
      and still to come, as they were. */
  lemma StoredStep(acc: CommentMap, ps: seq<(Bytes, Bytes)>, key: Bytes)
    requires ps != []
    ensures var acc' := AfterFirst(acc, ps);
            && Stored(acc', key) + ValuesOf(ps[1..], key) == Stored(acc, key) + ValuesOf(ps, key)
            && (key in acc' || ValuesOf(ps[1..], key) != [] <==> key in acc || ValuesOf(ps, key) != [])
  {
    var (k0, v0) := ps[0];
    assert ValuesOf(ps, key) == (if k0 == key then [v0] else []) + ValuesOf(ps[1..], key);
    if k0 == key {
      assert Stored(acc, key) + ValuesOf(ps, key) == (Stored(acc, key) + [v0]) + ValuesOf(ps[1..], key);
    }
  }

  /** Pairs in `toStringArray`'s order, inserted into an empty packet,
      make the map whose pairs they are. */
  lemma PairsOfInserted(ps: seq<(Bytes, Bytes)>)
    requires CommentsInOrder(ps)
    ensures Pairs(InsertPairs(map[], ps)) == ps
  {
    var m := InsertPairs(map[], ps);
    forall key ensures Distinct(Stored(map[], key) + ValuesOf(ps, key)) {
      DistinctValuesOf(ps, key);
      assert Stored(map[], key) + ValuesOf(ps, key) == ValuesOf(ps, key);
    }
    assert NoneTwice(map[], ps) && UpperKeys(ps);
    forall k ensures ValuesOf(Pairs(m), k) == ValuesOf(ps, k) {
      InsertPairsStored(map[], ps, k);
    }
    SortedPairsDetermined(Pairs(m), ps);
  }

  /** A VORBIS_COMMENT payload laid out as `toStringArray` writes it comes
      back: the vendor string, and the strings of the rebuilt map, which
      are the ones read. */
  lemma VorbisCommentReencodes(bd: Bytes, b: Block)
    requires VorbisLaidOut(bd) && DecodeVorbisComment(bd) == Ok(b.data)
    ensures Writable(b) && EncodePayload(b) == bd
  {
    var vendor, ps :| VorbisLayout(bd, vendor, ps);
    VorbisLayoutReads(bd, vendor, ps);
    var m := InsertPairs(map[], ps);
    assert b.data == VorbisComment(vendor, m);
    PairsOfInserted(ps);
    VorbisPayloadLaidOut(b, vendor, m);
  }

  // -------------------------------------------------------------- any type

  /** A payload of a form its type re-encodes, decoded as `_parseMetadataBlock`
      does, is written back as the same bytes. */
  lemma PayloadReencodes(bd: Bytes, b: Block)
    requires b.blockSize == |bd| && ReencodableBytes(b.Type(), bd)
    requires DecodePayload(b.Type(), |bd|, bd) == Ok(b.data)
    ensures Writable(b) && EncodePayload(b) == bd
  {
    match b.Type()
    case StreamInfoType => StreamInfoBytesReencode(bd, b);
    case PaddingType => PaddingReencodes(bd, b);
    case ApplicationType => ApplicationReencodes(bd, b);
    case SeekTableType => SeekTableReencodes(bd, b);
    case VorbisCommentType => VorbisCommentReencodes(bd, b);
    case CueSheetType => CueSheetReencodes(bd, b);
    case PictureType => PictureReencodes(bd, b);
  }

  // ------------------------------------------------------------ whole file

  /** The payload of `b` lies inside the buffer and its bytes are of a form
      its type re-encodes. */
  ghost predicate PayloadReencodable(buf: Bytes, b: Block)
  {
    b.offset + 4 + b.blockSize <= |buf| && ReencodableBytes(b.Type(), buf[b.offset + 4..b.offset + 4 + b.blockSize])
  }

  /** A block read from `buf` whose bytes are of a re-encoded form. */
  lemma BlockReencodes(buf: Bytes, b: Block)
    requires ReadAt(DecodePayload, buf, b) && PayloadReencodable(buf, b)
    ensures Reencodes(buf, b)
  {
    var bd := View(buf, b.offset + 4, b.blockSize);
    PayloadAt(buf, b);
    PayloadReencodes(bd, b);
  }

  /** A file is written back from its own parse byte for byte when each
      block's payload bytes lie inside the file in a form its type
      re-encodes, and the final block carries the last flag. */
  lemma ParsedFileRestored(buf: Bytes)
    requires |buf| >= 4 && Parse(buf).Ok?
    requires var bs := Parse(buf).value.blocks;
             && (forall i :: 0 <= i < |bs| ==> PayloadReencodable(buf, bs[i]))
             && (bs != [] ==> bs[|bs| - 1].offset < |buf| && IsLastFlagged(buf, bs[|bs| - 1].offset))
    ensures MetadataWritable(Parse(buf).value)
    ensures Serialize(Parse(buf).value, buf) == buf
  {
    var bs := Parse(buf).value.blocks;
    ParseWalks(buf);
    forall i | 0 <= i < |bs| ensures Reencodes(buf, bs[i]) {
      assert ReadAt(DecodePayload, buf, bs[i]);
      BlockReencodes(buf, bs[i]);
    }
    ParseThenSerialize(buf);
  }
}
