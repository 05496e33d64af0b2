/** `_serializeMetadataBlock` and `serializeMetadata`: each block's payload
    is written into a zero-filled array sized by `serializedSize`, and the
    whole file into one sized up front, at a running offset. */
module Serializer {
  import opened Primitives
  import opened VorbisComments
  import opened Blocks

  /** The array holds `done` followed by zeros (a fresh `Uint8Array` is
      zero-filled and is written front to back). */
  ghost predicate Filled(a: array<Byte>, done: Bytes)
    reads a
  {
    && |done| <= a.Length
    && (forall k {:trigger a[k]} :: 0 <= k < |done| ==> a[k] == done[k])
    && (forall k {:trigger a[k]} :: |done| <= k < a.Length ==> a[k] == 0)
  }

  /** A filled array with nothing left over holds exactly `done`. */
  lemma FilledAll(a: array<Byte>, done: Bytes)
    requires Filled(a, done) && |done| == a.Length
    ensures a[..] == done
  {
  }

  /** `bytes.set(src, off)` at the end of what is written so far. */
  method SetAt(a: array<Byte>, off: nat, src: Bytes, ghost done: Bytes)
    requires Filled(a, done) && off == |done| && off + |src| <= a.Length
    modifies a
    ensures Filled(a, done + src)
  {
    var i := 0;
    while i < |src|
      invariant 0 <= i <= |src|
      invariant forall k :: 0 <= k < off ==> a[k] == done[k]
      invariant forall k :: 0 <= k < i ==> a[off + k] == src[k]
      invariant forall k :: off + i <= k < a.Length ==> a[k] == 0
    {
      a[off + i] := src[i];
      i := i + 1;
    }
  }

  /** Bytes the source leaves unwritten stay zero. */
  lemma SkipZeros(a: array<Byte>, done: Bytes, n: nat)
    requires Filled(a, done) && |done| + n <= a.Length
    ensures Filled(a, done + Zeros(n))
  {
  }

  /** A field written into a fixed-size slot; the bytes it does not
      cover stay zero. */
  method SetInSlot(a: array<Byte>, off: nat, src: Bytes, n: nat, ghost done: Bytes)
    requires |src| <= n
    requires Filled(a, done) && off == |done| && off + n <= a.Length
    modifies a
    ensures Filled(a, done + InSlot(src, n))
  {
    SetAt(a, off, src, done);
    SkipZeros(a, done + src, n - |src|);
    Assoc(done, src, Zeros(n - |src|));
  }

  /** Two consecutive `set` calls. */
  method SetPair(a: array<Byte>, off: nat, x: Bytes, y: Bytes, ghost done: Bytes)
    requires Filled(a, done) && off == |done| && off + |x| + |y| <= a.Length
    modifies a
    ensures Filled(a, done + x + y)
  {
    SetAt(a, off, x, done);
    SetAt(a, off + |x|, y, done + x);
  }

  lemma Assoc(a: Bytes, b: Bytes, c: Bytes)
    ensures a + b + c == a + (b + c)
  {
  }

  lemma EmptyAppend(s: Bytes)
    ensures [] + s == s
  {
  }

  /** Regrouping an append of three pieces onto what is written so far. */
  lemma Regroup(d: Bytes, a: Bytes, b: Bytes, c: Bytes)
    ensures d + a + b + c == d + (a + b + c) == d + (a + (b + c))
  {
  }

  /** The middle piece of a concatenation, and any slice of it. */
  lemma SliceOfMiddle(a: Bytes, b: Bytes, c: Bytes, lo: nat, hi: nat)
    requires lo <= hi <= |b|
    ensures (a + b + c)[|a| + lo..|a| + hi] == b[lo..hi]
  {
  }

  /** `_serializeMetadataBlock`: a new array of `serializedSize` bytes with
      the payload written into it. */
  method SerializeBlock(b: Block) returns (bytes: array<Byte>)
    requires Writable(b)
    ensures bytes.Length == SerializedSize(b)
    ensures bytes[..] == EncodePayload(b)
  {
    PayloadSize(b);
    bytes := new Byte[SerializedSize(b)](_ => 0);
    match b.data {
      case StreamInfo(minB, maxB, minF, maxF, rate, ch, bits, total, md5) =>
        WriteStreamInfo(bytes, minB, maxB, minF, maxF, rate, ch, bits, total, md5);
      case Padding =>
        assert bytes[..] == Zeros(b.blockSize);
      case Application(id, data) =>
        WriteApplication(bytes, id, data);
      case SeekTable(points) =>
        WriteSeekTable(bytes, points);
      case VorbisComment(vendor, comments) =>
        WriteVorbisComment(bytes, vendor, ToStringArray(comments));
      case CueSheet =>
      case Picture(apic, mime, desc, width, height, depth, colors, data) =>
        WritePicture(bytes, apic, mime, desc, width, height, depth, colors, data);
    }
  }

  /** The STREAMINFO case of `_serializeMetadataBlock`. */
  method WriteStreamInfo(bytes: array<Byte>, minB: U16, maxB: U16, minF: U24, maxF: U24,
                         rate: U20, ch: Channels, bits: SampleBits, total: U36, md5: seq<char>)
    requires HexOfAtMost(md5, 16)
    requires Filled(bytes, []) && bytes.Length == 34
    modifies bytes
    ensures bytes[..] == Uint16Bytes(minB) + Uint16Bytes(maxB) + Uint24Bytes(minF) + Uint24Bytes(maxF)
                         + Uint24Bytes(PackedRate(rate, ch, bits)) + [SizeAndCountByte(bits, total)]
                         + Uint32Bytes(total) + InSlot(HexToBytes(md5), 16)
  {
    SetAt(bytes, 0, Uint16Bytes(minB), []);
    EmptyAppend(Uint16Bytes(minB));
    ghost var done := Uint16Bytes(minB);
    SetPair(bytes, 2, Uint16Bytes(maxB), Uint24Bytes(minF), done);
    done := done + Uint16Bytes(maxB) + Uint24Bytes(minF);
    SetPair(bytes, 7, Uint24Bytes(maxF), Uint24Bytes(PackedRate(rate, ch, bits)), done);
    done := done + Uint24Bytes(maxF) + Uint24Bytes(PackedRate(rate, ch, bits));
    SetPair(bytes, 13, [SizeAndCountByte(bits, total)], Uint32Bytes(total), done);
    done := done + [SizeAndCountByte(bits, total)] + Uint32Bytes(total);
    var md5Bytes := HexToBytes(md5);
    SetInSlot(bytes, 18, md5Bytes, 16, done);
    FilledAll(bytes, done + InSlot(md5Bytes, 16));
  }

  /** The APPLICATION case: the identifier in a 4-byte slot, then the data. */
  method WriteApplication(bytes: array<Byte>, id: Bytes, data: Bytes)
    requires |id| <= 4
    requires Filled(bytes, []) && bytes.Length == 4 + |data|
    modifies bytes
    ensures bytes[..] == InSlot(id, 4) + data
  {
    SetInSlot(bytes, 0, id, 4, []);
    EmptyAppend(InSlot(id, 4));
    SetAt(bytes, 4, data, InSlot(id, 4));
    FilledAll(bytes, InSlot(id, 4) + data);
  }

  /** One seek point's three hex fields in slots of 8, 8 and 2 bytes. */
  method WriteSeekPoint(bytes: array<Byte>, offset: nat, p: SeekPoint, ghost done: Bytes)
    requires SeekPointFits(p)
    requires Filled(bytes, done) && offset == |done| && offset + 18 <= bytes.Length
    modifies bytes
    ensures Filled(bytes, done + EncodeSeekPoint(p))
  {
    var sn, off, ns := HexToBytes(p.sampleNumber), HexToBytes(p.offset), HexToBytes(p.numberOfSamples);
    ghost var d := done;
    SetInSlot(bytes, offset, sn, 8, d);
    d := d + InSlot(sn, 8);
    SetInSlot(bytes, offset + 8, off, 8, d);
    d := d + InSlot(off, 8);
    SetInSlot(bytes, offset + 16, ns, 2, d);
    Regroup(done, InSlot(sn, 8), InSlot(off, 8), InSlot(ns, 2));
  }

  /** The SEEKTABLE case: 18 bytes per point at a running offset. */
  method WriteSeekTable(bytes: array<Byte>, points: seq<SeekPoint>)
    requires forall i :: 0 <= i < |points| ==> SeekPointFits(points[i])
    requires Filled(bytes, []) && bytes.Length == 18 * |points|
    modifies bytes
    ensures bytes[..] == EncodeSeekPoints(points)
  {
    ghost var done: Bytes := [];
    var offset := 0;
    var i := 0;
    while i < |points|
      invariant 0 <= i <= |points|
      invariant offset == 18 * i == |done|
      invariant done == EncodeSeekPoints(points[..i])
      invariant Filled(bytes, done)
    {
      SeekPointsPrefix(points, i);
      WriteSeekPoint(bytes, offset, points[i], done);
      done := done + EncodeSeekPoint(points[i]);
      offset, i := offset + 18, i + 1;
    }
    assert points[..i] == points;
    FilledAll(bytes, done);
  }

  /** A Vorbis comment field: its little-endian length, then its bytes. */
  method SetCountedLE(a: array<Byte>, off: nat, src: Bytes, ghost done: Bytes)
    requires Filled(a, done) && off == |done| && off + 4 + |src| <= a.Length
    modifies a
    ensures Filled(a, done + LengthLE(|src|) + src)
  {
    SetAt(a, off, LengthLE(|src|), done);
    SetAt(a, off + 4, src, done + LengthLE(|src|));
  }

  /** The VORBIS_COMMENT case: little-endian lengths, the vendor string,
      then each `KEY=value` of `toStringArray` with its length. */
  method WriteVorbisComment(bytes: array<Byte>, vendor: Bytes, cs: seq<Bytes>)
    requires Filled(bytes, [])
    requires bytes.Length == 4 + |vendor| + 4 + CommentsSize(cs)
    modifies bytes
    ensures bytes[..] == LengthLE(|vendor|) + vendor + LengthLE(|cs|) + EncodeComments(cs)
  {
    CommentsSizeIsLength(cs);
    SetCountedLE(bytes, 0, vendor, []);
    EmptyAppend(LengthLE(|vendor|));
    ghost var done := LengthLE(|vendor|) + vendor;
    var offset := 4 + |vendor|;
    SetAt(bytes, offset, LengthLE(|cs|), done);
    done, offset := done + LengthLE(|cs|), offset + 4;
    ghost var header := done;
    var i := 0;
    while i < |cs|
      invariant 0 <= i <= |cs|
      invariant done == header + EncodeComments(cs[..i])
      invariant offset == |done|
      invariant Filled(bytes, done)
    {
      CommentsPrefix(cs, i);
      CommentsPrefixShorter(cs, i + 1);
      SetCountedLE(bytes, offset, cs[i], done);
      ghost var next := done + LengthLE(|cs[i]|) + cs[i];
      Regroup(header, EncodeComments(cs[..i]), LengthLE(|cs[i]|), cs[i]);
      done, offset := next, offset + 4 + |cs[i]|;
      i := i + 1;
    }
    assert cs[..i] == cs;
    FilledAll(bytes, done);
  }

  /** A 32-bit big-endian length followed by the bytes it counts. */
  method SetCounted(a: array<Byte>, off: nat, src: Bytes, ghost done: Bytes)
    requires Filled(a, done) && off == |done| && off + 4 + |src| <= a.Length
    modifies a
    ensures Filled(a, done + Uint32Bytes(|src|) + src)
  {
    SetAt(a, off, Uint32Bytes(|src|), done);
    SetAt(a, off + 4, src, done + Uint32Bytes(|src|));
  }

  /** The PICTURE case: the big-endian fields and the three byte strings. */
  method WritePicture(bytes: array<Byte>, apic: nat, mime: Bytes, desc: Bytes, width: nat,
                      height: nat, depth: nat, colors: nat, data: Bytes)
    requires Filled(bytes, [])
    requires bytes.Length == 4 + 4 + |mime| + 4 + |desc| + 4 + 4 + 4 + 4 + 4 + |data|
    modifies bytes
    ensures bytes[..] == Uint32Bytes(apic) + Uint32Bytes(|mime|) + mime + Uint32Bytes(|desc|) + desc
                         + Uint32Bytes(width) + Uint32Bytes(height) + Uint32Bytes(depth) + Uint32Bytes(colors)
                         + Uint32Bytes(|data|) + data
  {
    SetAt(bytes, 0, Uint32Bytes(apic), []);
    ghost var done := Uint32Bytes(apic);
    SetCounted(bytes, 4, mime, done);
    done := done + Uint32Bytes(|mime|) + mime;
    var offset := 8 + |mime|;
    SetCounted(bytes, offset, desc, done);
    done, offset := done + Uint32Bytes(|desc|) + desc, offset + 4 + |desc|;
    SetAt(bytes, offset, Uint32Bytes(width), done);
    done, offset := done + Uint32Bytes(width), offset + 4;
    SetAt(bytes, offset, Uint32Bytes(height), done);
    done, offset := done + Uint32Bytes(height), offset + 4;
    SetAt(bytes, offset, Uint32Bytes(depth), done);
    done, offset := done + Uint32Bytes(depth), offset + 4;
    SetAt(bytes, offset, Uint32Bytes(colors), done);
    done, offset := done + Uint32Bytes(colors), offset + 4;
    SetCounted(bytes, offset, data, done);
    FilledAll(bytes, done + Uint32Bytes(|data|) + data);
  }

  lemma SeekPointsPrefix(points: seq<SeekPoint>, i: nat)
    requires i < |points|
    requires forall k :: 0 <= k < |points| ==> SeekPointFits(points[k])
    ensures EncodeSeekPoints(points[..i + 1]) == EncodeSeekPoints(points[..i]) + EncodeSeekPoint(points[i])
  {
    var a, b := points[..i], [points[i]];
    assert a + b == points[..i + 1];
    SeekPointsAppend(a, b);
    assert b[1..] == [];
    assert EncodeSeekPoints(b) == EncodeSeekPoint(points[i]) + EncodeSeekPoints([]);
  }

  lemma {:induction false} SeekPointsAppend(a: seq<SeekPoint>, b: seq<SeekPoint>)
    requires forall k :: 0 <= k < |a| ==> SeekPointFits(a[k])
    requires forall k :: 0 <= k < |b| ==> SeekPointFits(b[k])
    ensures EncodeSeekPoints(a + b) == EncodeSeekPoints(a) + EncodeSeekPoints(b)
  {
    if a == [] {
      assert a + b == b;
    } else {
      assert (a + b)[0] == a[0] && (a + b)[1..] == a[1..] + b;
      SeekPointsAppend(a[1..], b);
    }
  }

  lemma CommentsPrefix(cs: seq<Bytes>, i: nat)
    requires i < |cs|
    ensures EncodeComments(cs[..i + 1]) == EncodeComments(cs[..i]) + LengthLE(|cs[i]|) + cs[i]
  {
    CommentsAppend(cs[..i], [cs[i]]);
    assert cs[..i] + [cs[i]] == cs[..i + 1];
    assert EncodeComments([cs[i]]) == LengthLE(|cs[i]|) + cs[i] + EncodeComments([]);
  }

  lemma CommentsPrefixShorter(cs: seq<Bytes>, j: nat)
    requires j <= |cs|
    ensures |EncodeComments(cs[..j])| <= |EncodeComments(cs)|
  {
    CommentsAppend(cs[..j], cs[j..]);
    assert cs[..j] + cs[j..] == cs;
  }

  lemma {:induction false} CommentsAppend(a: seq<Bytes>, b: seq<Bytes>)
    ensures EncodeComments(a + b) == EncodeComments(a) + EncodeComments(b)
  {
    if a == [] {
      assert a + b == b;
    } else {
      assert (a + b)[0] == a[0] && (a + b)[1..] == a[1..] + b;
      CommentsAppend(a[1..], b);
    }
  }

  // ------------------------------------------------------------ whole file

  /** `4 + reduce((sum, block) => sum + 4 + block.serializedSize, 0)` over
      the first `n` blocks, less the signature. */
  function SizeOfFirst(bs: seq<Block>, n: nat): nat
    requires n <= |bs| && forall i :: 0 <= i < |bs| ==> Sized(bs[i])
  {
    if n == 0 then 0 else SizeOfFirst(bs, n - 1) + 4 + SerializedSize(bs[n - 1])
  }

  /** A block header: `blockTypeNubmer | (lastBlock << 7)`, then the 24-bit
      size. The type number is below 128, so the OR is an addition. */
  function Header(b: Block, last: bool): (h: Bytes)
    requires Sized(b)
    ensures |h| == 4
  {
    [b.typeNumber + (if last then 0x80 else 0)] + Uint24Bytes(SerializedSize(b))
  }

  /** A block as written: its header, then its payload; `size` in the
      header counts exactly the payload bytes. */
  function EncodeBlock(b: Block, last: bool): (r: Bytes)
    requires Writable(b)
    ensures |r| == 4 + SerializedSize(b)
  {
    PayloadSize(b);
    Header(b, last) + EncodePayload(b)
  }

  /** Every block as written, in list order, the final one flagged last. */
  function BlockChunks(bs: seq<Block>): (r: seq<Bytes>)
    requires AllWritable(bs)
    ensures |r| == |bs|
    ensures forall i :: 0 <= i < |bs| ==> r[i] == EncodeBlock(bs[i], i == |bs| - 1)
    ensures forall i :: 0 <= i < |bs| ==> |r[i]| == 4 + SerializedSize(bs[i])
  {
    seq(|bs|, i requires 0 <= i < |bs| => EncodeBlock(bs[i], i == |bs| - 1))
  }

  /** The chunks one after the other. */
  function Concat(cs: seq<Bytes>): Bytes
  {
    if cs == [] then [] else Concat(cs[..|cs| - 1]) + cs[|cs| - 1]
  }

  /** The original bytes from `framesOffset` on (`subarray` clamps). */
  function Frames(original: Bytes, framesOffset: nat): Bytes
  {
    original[Min(framesOffset, |original|)..]
  }

  /** The file `serializeMetadata` produces. */
  function Serialize(m: Metadata, original: Bytes): Bytes
    requires MetadataWritable(m)
  {
    InSlot(m.signature, 4) + Concat(BlockChunks(m.blocks)) + Frames(original, m.framesOffset)
  }

  lemma ConcatStep(cs: seq<Bytes>, n: nat)
    requires n < |cs|
    ensures Concat(cs[..n + 1]) == Concat(cs[..n]) + cs[n]
  {
    assert cs[..n + 1][..n] == cs[..n];
  }

  /** Chunk `i` sits right after the chunks before it. */
  lemma {:induction false} ConcatSlice(cs: seq<Bytes>, i: nat)
    requires i < |cs|
    ensures |Concat(cs[..i])| + |cs[i]| <= |Concat(cs)|
    ensures Concat(cs)[|Concat(cs[..i])|..|Concat(cs[..i])| + |cs[i]|] == cs[i]
  {
    var n := |cs| - 1;
    var pre := cs[..n];
    assert Concat(cs) == Concat(pre) + cs[n];
    if i == n {
      assert pre == cs[..i];
    } else {
      ConcatSlice(pre, i);
      assert pre[..i] == cs[..i] && pre[i] == cs[i];
      var lo := |Concat(cs[..i])|;
      assert Concat(cs)[lo..lo + |cs[i]|] == Concat(pre)[lo..lo + |cs[i]|];
    }
  }

  /** Chunks of `4 + SerializedSize` bytes each: the first `n` of them
      take `SizeOfFirst(n)` bytes. */
  lemma {:induction false} ChunkLengths(bs: seq<Block>, cs: seq<Bytes>, n: nat)
    requires n <= |bs| == |cs| && forall i :: 0 <= i < |bs| ==> Sized(bs[i])
    requires forall i :: 0 <= i < |cs| ==> |cs[i]| == 4 + SerializedSize(bs[i])
    ensures |Concat(cs[..n])| == SizeOfFirst(bs, n)
  {
    if n > 0 {
      ChunkLengths(bs, cs, n - 1);
      ConcatStep(cs, n - 1);
    } else {
      assert cs[..0] == [];
    }
  }

  /** The blocks before `n` take `SizeOfFirst(n)` bytes. */
  lemma ChunksSize(bs: seq<Block>, n: nat)
    requires n <= |bs| && AllWritable(bs)
    ensures |Concat(BlockChunks(bs)[..n])| == SizeOfFirst(bs, n)
  {
    ChunkLengths(bs, BlockChunks(bs), n);
  }

  lemma {:induction false} SizeOfFirstGrows(bs: seq<Block>, n: nat)
    requires n <= |bs| && forall i :: 0 <= i < |bs| ==> Sized(bs[i])
    ensures SizeOfFirst(bs, n) <= SizeOfFirst(bs, |bs|)
    decreases |bs| - n
  {
    if n < |bs| {
      SizeOfFirstGrows(bs, n + 1);
    }
  }

  /** One iteration of the block loop: the header, then the payload that
      `_serializeMetadataBlock` returns. */
  method WriteBlock(bytes: array<Byte>, offset: nat, blocks: seq<Block>, n: nat, lastBlock: bool, ghost done: Bytes)
    requires n < |blocks| && AllWritable(blocks)
    requires Filled(bytes, done) && offset == |done| && offset + 4 + SerializedSize(blocks[n]) <= bytes.Length
    modifies bytes
    ensures Filled(bytes, done + EncodeBlock(blocks[n], lastBlock))
  {
    var block := blocks[n];
    var header := [block.typeNumber + (if lastBlock then 0x80 else 0)] + Uint24Bytes(SerializedSize(block));
    SetAt(bytes, offset, header, done);
    var payload := SerializeBlock(block);
    SetAt(bytes, offset + 4, payload[..], done + header);
    Assoc(done, header, payload[..]);
  }

  /** `done` is `pre` followed by the first `n` chunks. */
  predicate Written(done: Bytes, pre: Bytes, cs: seq<Bytes>, n: nat)
  {
    n <= |cs| && done == pre + Concat(cs[..n])
  }

  /** Appending chunk `n` to the chunks before it stays within the whole. */
  lemma ConcatGrows(pre: Bytes, cs: seq<Bytes>, n: nat, done: Bytes)
    requires n < |cs| && Written(done, pre, cs, n)
    ensures |done| + |cs[n]| <= |pre| + |Concat(cs)|
    ensures Written(done + cs[n], pre, cs, n + 1)
  {
    ConcatSlice(cs, n);
    ConcatStep(cs, n);
  }

  /** The `forEach` over the blocks: after the signature slot `pre`, each
      block's header and payload in turn, the final one flagged last. */
  method WriteBlocks(bytes: array<Byte>, blocks: seq<Block>, ghost pre: Bytes) returns (offset: nat)
    requires AllWritable(blocks) && Filled(bytes, pre) && |pre| == 4
    requires |pre| + |Concat(BlockChunks(blocks))| <= bytes.Length
    modifies bytes
    ensures offset == |pre| + |Concat(BlockChunks(blocks))|
    ensures Filled(bytes, pre + Concat(BlockChunks(blocks)))
  {
    ghost var chunks := BlockChunks(blocks);
    ghost var done := pre;
    assert chunks[..0] == [];
    assert Written(done, pre, chunks, 0);
    offset := 4;
    var lastBlock := false;
    var n := 0;
    while n < |blocks|
      invariant 0 <= n <= |blocks|
      invariant lastBlock ==> n == |blocks|
      invariant Written(done, pre, chunks, n)
      invariant offset == |done|
      invariant Filled(bytes, done)
    {
      if |blocks| - 1 == n {
        lastBlock := true;
      }
      ConcatGrows(pre, chunks, n, done);
      WriteBlock(bytes, offset, blocks, n, lastBlock, done);
      done, offset := done + chunks[n], offset + 4 + SerializedSize(blocks[n]);
      n := n + 1;
    }
    assert chunks[..n] == chunks;
  }

  /** `serializeMetadata`: the new file is sized up front, then filled with
      the signature, each block's header and payload, and the frames. */
  method SerializeMetadata(m: Metadata, original: Bytes) returns (r: Bytes)
    requires MetadataWritable(m)
    ensures r == Serialize(m, original)
  {
    var blocks := m.blocks;
    ghost var chunks := BlockChunks(blocks);
    ghost var pre := InSlot(m.signature, 4);
    var frames := Frames(original, m.framesOffset);
    var metadataLength := 4 + SizeOfFirst(blocks, |blocks|);
    var newSize := metadataLength + (if |original| > m.framesOffset then |original| - m.framesOffset else 0);
    SerializeLength(m, original);
    assert Serialize(m, original) == pre + Concat(chunks) + frames;
    var bytes := new Byte[newSize](_ => 0);
    SetInSlot(bytes, 0, m.signature, 4, []);
    EmptyAppend(pre);
    var offset := WriteBlocks(bytes, blocks, pre);
    SetAt(bytes, offset, frames, pre + Concat(chunks));
    FilledAll(bytes, pre + Concat(chunks) + frames);
    r := bytes[..];
  }

  // ------------------------------------------------------------ properties

  /** The output is `4 + Σ(4 + size_i)` bytes of metadata followed by
      whatever the original held past `framesOffset`. */
  lemma SerializeLength(m: Metadata, original: Bytes)
    requires MetadataWritable(m)
    ensures |Serialize(m, original)| == 4 + SizeOfFirst(m.blocks, |m.blocks|)
              + (if |original| > m.framesOffset then |original| - m.framesOffset else 0)
  {
    ChunksSize(m.blocks, |m.blocks|);
    assert BlockChunks(m.blocks)[..|m.blocks|] == BlockChunks(m.blocks);
  }

  /** The audio frames come through untouched. */
  lemma SerializeKeepsFrames(m: Metadata, original: Bytes)
    requires MetadataWritable(m)
    ensures var out := Serialize(m, original);
            var start := 4 + SizeOfFirst(m.blocks, |m.blocks|);
            start <= |out| && out[start..] == Frames(original, m.framesOffset)
  {
    ChunksSize(m.blocks, |m.blocks|);
    assert BlockChunks(m.blocks)[..|m.blocks|] == BlockChunks(m.blocks);
  }

  /** The first header byte is the type number with bit 7 set exactly on
      the last block (`blockTypeNubmer | (lastBlock << 7)`), then the
      size follows in three big-endian bytes. */
  lemma HeaderLayout(b: Block, last: bool)
    requires Sized(b)
    ensures var h := Header(b, last);
            && (h[0] >= 0x80 <==> last)
            && h[0] % 0x80 == b.typeNumber
            && h[0] / 0x80 == (if last then 1 else 0)
            && BigEndian(h[1..4]) == SerializedSize(b) % 0x100_0000
  {
    var h := Header(b, last);
    FlagByte(b.typeNumber, last, h[0]);
    assert h[1..4] == Uint24Bytes(SerializedSize(b));
    Uint24RoundTrip(SerializedSize(b));
  }

  /** A type number below 0x80 with bit 7 set for the last block. */
  lemma FlagByte(t: int, last: bool, x: int)
    requires 0 <= t < 0x80 && x == t + (if last then 0x80 else 0)
    ensures (x >= 0x80 <==> last) && x % 0x80 == t && x / 0x80 == (if last then 1 else 0)
  {
  }

  /** `piece` is found in `out` starting at index `at`. */
  predicate Occurs(out: Bytes, at: nat, piece: Bytes)
  {
    at + |piece| <= |out| && out[at..at + |piece|] == piece
  }

  /** Chunk `i` of a file laid out as a prefix, the chunks and a suffix. */
  lemma ChunkAt(pre: Bytes, cs: seq<Bytes>, post: Bytes, i: nat, out: Bytes, at: nat)
    requires i < |cs| && out == pre + Concat(cs) + post && at == |pre| + |Concat(cs[..i])|
    ensures Occurs(out, at, cs[i])
  {
    ConcatSlice(cs, i);
    SliceOfMiddle(pre, Concat(cs), post, |Concat(cs[..i])|, |Concat(cs[..i])| + |cs[i]|);
  }

  /** Block `i` starts at `4 + Σ_{k<i}(4 + size_k)` and occupies its
      header and payload there (`Header` flags it last exactly when it is
      the final block of the list). */
  lemma SerializeBlockAt(m: Metadata, original: Bytes, i: nat)
    requires MetadataWritable(m) && i < |m.blocks|
    ensures Occurs(Serialize(m, original), 4 + SizeOfFirst(m.blocks, i),
                   EncodeBlock(m.blocks[i], i == |m.blocks| - 1))
  {
    var cs := BlockChunks(m.blocks);
    ChunksSize(m.blocks, i);
    SerializedChunk(m, original, cs, i, 4 + SizeOfFirst(m.blocks, i));
  }

  /** Chunk `i` of the written blocks sits after the signature and the
      chunks before it. */
  lemma SerializedChunk(m: Metadata, original: Bytes, cs: seq<Bytes>, i: nat, at: nat)
    requires MetadataWritable(m) && cs == BlockChunks(m.blocks)
    requires i < |cs| && at == 4 + |Concat(cs[..i])|
    ensures Occurs(Serialize(m, original), at, cs[i])
  {
    ChunkAt(InSlot(m.signature, 4), cs, Frames(original, m.framesOffset), i, Serialize(m, original), at);
  }
}
