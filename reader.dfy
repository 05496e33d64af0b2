/** Reading a FLAC file's metadata: the walk over the METADATA_BLOCK chain
    that follows the signature (section 8.1 of RFC 9639) and the decoding of
    each payload, with the two loops that build SEEKTABLE points and the
    comment map. */
module Parser {
  import opened Primitives
  import opened VorbisComments
  import opened Blocks

  // ------------------------------------------------------------ one payload

  /** `_parseMetadataBlock(array, arrayOffset, type, size)`: the payload is
      read from `subarray(arrayOffset, arrayOffset + size)`. */
  method ParseBlock(bytes: Bytes, arrayOffset: nat, t: BlockType, size: nat) returns (r: Result<BlockData>)
    ensures r == DecodePayload(t, size, View(bytes, arrayOffset, size))
  {
    var blockData := View(bytes, arrayOffset, size);
    match t {
      case SeekTableType =>
        var points := ReadSeekPoints(blockData, SeekPointCount(size));
        r := Ok(SeekTable(points));
      case VorbisCommentType =>
        r := ReadVorbisComment(blockData);
      case _ =>
        r := DecodePayload(t, size, blockData);
    }
  }

  /** The SEEKTABLE loop: `pointCount` points of 18 bytes, each field kept
      as hex text. */
  method ReadSeekPoints(blockData: Bytes, pointCount: nat) returns (points: seq<SeekPoint>)
    ensures points == DecodeSeekPoints(blockData, pointCount)
  {
    points := [];
    var offset := 0;
    var i := 0;
    while i < pointCount
      invariant 0 <= i <= pointCount
      invariant offset == 18 * i
      invariant points == DecodeSeekPoints(blockData, i)
    {
      points := points + [SeekPoint(HexString(View(blockData, offset, 8)),
                                    HexString(View(blockData, offset + 8, 8)),
                                    HexString(View(blockData, offset + 16, 2)))];
      offset := offset + 18;
      i := i + 1;
    }
  }

  /** The VORBIS_COMMENT case: the vendor string, then `userCommentListLength`
      comments, each behind its little-endian length, fed to `_addComment`. */
  method ReadVorbisComment(blockData: Bytes) returns (r: Result<BlockData>)
    ensures r == DecodeVorbisComment(blockData)
  {
    var offset := 0;
    var vendorLength := LittleEndian(View(blockData, offset, 4));
    offset := offset + 4;
    var vendor := View(blockData, offset, vendorLength);
    offset := offset + vendorLength;
    var userCommentListLength := LittleEndian(View(blockData, offset, 4));
    offset := offset + 4;
    var comments := ReadComments(blockData, offset, userCommentListLength);
    VorbisCommentParts(blockData);
    if comments.Err? {
      return Err(comments.error);
    }
    r := Ok(VorbisComment(vendor, comments.value));
  }

  /** The comment loop of the VORBIS_COMMENT case: `count` comments, each a
      little-endian length and that many bytes, added one by one. */
  method ReadComments(blockData: Bytes, start: nat, count: nat) returns (r: Result<CommentMap>)
    ensures r == DecodeComments(AddRawComment, blockData, start, count, map[])
  {
    var offset := start;
    var comments: CommentMap := map[];
    ghost var remaining := count;
    ghost var all := DecodeComments(AddRawComment, blockData, offset, remaining, comments);
    var i := 0;
    while i < count
      invariant 0 <= i <= count && remaining == count - i
      invariant DecodeComments(AddRawComment, blockData, offset, remaining, comments) == all
    {
      ghost var at, before, left := offset, comments, remaining;
      var commentLength := LittleEndian(View(blockData, offset, 4));
      offset := offset + 4;
      var added := AddRawComment(comments, View(blockData, offset, commentLength));
      AddRawCommentApplied(before, View(blockData, offset, commentLength));
      if added.Err? {
        CommentFails(AddRawComment, blockData, at, left, before, commentLength, added);
        return Err(added.error);
      }
      comments := added.value;
      offset := offset + commentLength;
      i, remaining := i + 1, remaining - 1;
      CommentAdded(AddRawComment, blockData, at, left, before, commentLength, comments, offset, remaining);
    }
    CommentsDone(AddRawComment, blockData, offset, comments);
    r := Ok(comments);
  }

  /** `AddRawComment` passed as a `CommentAdder` reads as itself. */
  lemma AddRawCommentApplied(m: CommentMap, text: Bytes)
    ensures var add: CommentAdder := AddRawComment; add(m, text) == AddRawComment(m, text)
  {
  }

  /** One turn of the comment loop: the comment at `at` fails to be added
      and ends the loop, or is added and the loop goes on after it. */
  lemma CommentFails(add: CommentAdder, bd: Bytes, at: nat, remaining: nat, m: CommentMap, length: nat,
                     added: Result<CommentMap>)
    requires remaining > 0 && length == LittleEndian(View(bd, at, 4))
    requires added == add(m, View(bd, at + 4, length)) && added.Err?
    ensures DecodeComments(add, bd, at, remaining, m) == Err(added.error)
  {
  }

  lemma CommentAdded(add: CommentAdder, bd: Bytes, at: nat, remaining: nat, m: CommentMap, length: nat,
                     m': CommentMap, next: nat, remaining': nat)
    requires remaining > 0 && length == LittleEndian(View(bd, at, 4))
    requires add(m, View(bd, at + 4, length)) == Ok(m')
    requires next == at + 4 + length && remaining' == remaining - 1
    ensures DecodeComments(add, bd, at, remaining, m) == DecodeComments(add, bd, next, remaining', m')
  {
  }

  lemma CommentsDone(add: CommentAdder, bd: Bytes, at: nat, m: CommentMap)
    ensures DecodeComments(add, bd, at, 0, m) == Ok(m)
  {
  }

  // ------------------------------------------------------------- the chain

  /** The header at `offset`: bit 7 of the first byte is the last flag, the
      low seven bits the type number, then a 24-bit big-endian size. */
  predicate IsLastFlagged(buf: Bytes, offset: nat)
    requires offset < |buf|
  {
    buf[offset] / 0x80 == 1
  }

  function HeaderType(buf: Bytes, offset: nat): TypeNumber
    requires offset < |buf|
  {
    buf[offset] % 0x80
  }

  function HeaderSize(buf: Bytes, offset: nat): nat
  {
    BigEndian(View(buf, offset + 1, 3))
  }

  /** The block the loop body builds at `offset`, once its payload is read. */
  function BlockAt(buf: Bytes, offset: nat, data: BlockData): Block
    requires offset < |buf|
  {
    Block(HeaderType(buf, offset), HeaderSize(buf, offset), offset, data)
  }

  /** How a payload is read from its type, declared size and bytes. The
      walk over the chain does not depend on it; `Parse` uses
      `DecodePayload`, which is `_parseMetadataBlock`. */
  type Decoder = (BlockType, nat, Bytes) -> Result<BlockData>

  /** The parse loop from `offset` on, `lastBlock` and `iteration` being
      the loop variables on entry: the blocks still to read and the final
      offset, or the exception that ends the walk. */
  function ParseLoop(decode: Decoder, buf: Bytes, offset: nat, lastBlock: bool, iteration: nat): Result<(seq<Block>, nat)>
    decreases |buf| - offset
  {
    if lastBlock || offset >= |buf| then Ok(([], offset))
    else if iteration > 42 then Err(TooManyBlocks)
    else
      var size := HeaderSize(buf, offset);
      match decode(BlockTypeOf(HeaderType(buf, offset)), size, View(buf, offset + 4, size))
      case Err(e) => Err(e)
      case Ok(data) =>
        match ParseLoop(decode, buf, offset + 4 + size, IsLastFlagged(buf, offset), iteration + 1)
        case Err(e) => Err(e)
        case Ok((rest, framesOffset)) => Ok(([BlockAt(buf, offset, data)] + rest, framesOffset))
  }

  /** The file's metadata as `_parseMetadata` reads it. */
  function Parse(buf: Bytes): Result<Metadata>
  {
    match ParseLoop(DecodePayload, buf, 4, false, 0)
    case Err(e) => Err(e)
    case Ok((blocks, framesOffset)) => Ok(Metadata(View(buf, 0, 4), blocks, framesOffset))
  }

  /** `pre` followed by what the rest of the walk reads. */
  function After(pre: seq<Block>, r: Result<(seq<Block>, nat)>): Result<(seq<Block>, nat)>
  {
    match r
    case Err(e) => Err(e)
    case Ok((rest, framesOffset)) => Ok((pre + rest, framesOffset))
  }

  /** The body of the parse loop at `offset`: the last flag, the block
      header and the payload `_parseMetadataBlock` reads after it. */
  method ReadBlock(buf: Bytes, offset: nat) returns (lastBlock: bool, r: Result<Block>)
    requires offset < |buf|
    ensures lastBlock == IsLastFlagged(buf, offset)
    ensures var size := HeaderSize(buf, offset);
            var data := DecodePayload(BlockTypeOf(HeaderType(buf, offset)), size, View(buf, offset + 4, size));
            && (r.Err? <==> data.Err?)
            && (r.Err? ==> r.error == data.error)
            && (r.Ok? ==> r.value == BlockAt(buf, offset, data.value))
  {
    lastBlock := buf[offset] / 0x80 == 1;
    var typeNumber := buf[offset] % 0x80;
    var blockSize := BigEndian(View(buf, offset + 1, 3));
    var data := ParseBlock(buf, offset + 4, BlockTypeOf(typeNumber), blockSize);
    if data.Err? {
      return lastBlock, Err(data.error);
    }
    r := Ok(Block(typeNumber, blockSize, offset, data.value));
  }

  /** `_parseMetadata`: the signature, then blocks until one carries the
      last flag or the buffer ends; the offset reached is `framesOffset`. */
  method ParseMetadata(buf: Bytes) returns (r: Result<Metadata>)
    ensures r == Parse(buf)
  {
    var signature := View(buf, 0, 4);
    var offset := 4;
    var lastBlock := false;
    var iteration := 0;
    var blocks: seq<Block> := [];
    ghost var whole := ParseLoop(DecodePayload, buf, offset, lastBlock, iteration);
    AfterNothing(whole);
    while !lastBlock && offset < |buf|
      invariant After(blocks, ParseLoop(DecodePayload, buf, offset, lastBlock, iteration)) == whole
      decreases |buf| - offset
    {
      if iteration > 42 {
        LoopTooMany(DecodePayload, buf, offset, iteration);
        return Err(TooManyBlocks);
      }
      ghost var start, before := offset, iteration;
      iteration := iteration + 1;
      var read;
      lastBlock, read := ReadBlock(buf, offset);
      DecodePayloadApplied(BlockTypeOf(HeaderType(buf, start)), HeaderSize(buf, start),
                           View(buf, start + 4, HeaderSize(buf, start)));
      if read.Err? {
        LoopFails(DecodePayload, buf, start, before, read.error);
        return Err(read.error);
      }
      var block := read.value;
      offset := offset + 4 + block.blockSize;
      LoopTurn(DecodePayload, buf, start, before, block, offset, lastBlock, iteration);
      AfterStep(blocks, block, ParseLoop(DecodePayload, buf, offset, lastBlock, iteration));
      blocks := blocks + [block];
    }
    LoopEnds(DecodePayload, buf, offset, lastBlock, iteration);
    assert blocks + [] == blocks;
    r := Ok(Metadata(signature, blocks, offset));
  }

  /** `DecodePayload` passed as a `Decoder` reads as itself. */
  lemma DecodePayloadApplied(t: BlockType, size: nat, bd: Bytes)
    ensures var decode: Decoder := DecodePayload;
            decode(t, size, bd) == DecodePayload(t, size, bd)
  {
  }

  /** The walk stops once the last block was read or the buffer is exhausted. */
  lemma LoopEnds(decode: Decoder, buf: Bytes, offset: nat, lastBlock: bool, iteration: nat)
    requires lastBlock || offset >= |buf|
    ensures ParseLoop(decode, buf, offset, lastBlock, iteration) == Ok(([], offset))
  {
  }

  /** The 44th turn throws before reading anything. */
  lemma LoopTooMany(decode: Decoder, buf: Bytes, offset: nat, iteration: nat)
    requires offset < |buf| && iteration > 42
    ensures ParseLoop(decode, buf, offset, false, iteration) == Err(TooManyBlocks)
  {
  }

  /** A payload that fails to decode ends the walk with its error. */
  lemma LoopFails(decode: Decoder, buf: Bytes, offset: nat, iteration: nat, e: Error)
    requires offset < |buf| && iteration <= 42
    requires decode(BlockTypeOf(HeaderType(buf, offset)), HeaderSize(buf, offset),
                    View(buf, offset + 4, HeaderSize(buf, offset))) == Err(e)
    ensures ParseLoop(decode, buf, offset, false, iteration) == Err(e)
  {
  }

  /** A turn that reads `block` at `offset` goes on at `next` with the
      block's last flag. */
  lemma LoopTurn(decode: Decoder, buf: Bytes, offset: nat, iteration: nat, block: Block,
                 next: nat, flag: bool, iteration': nat)
    requires offset < |buf| && iteration <= 42
    requires var size := HeaderSize(buf, offset);
             var data := decode(BlockTypeOf(HeaderType(buf, offset)), size, View(buf, offset + 4, size));
             data.Ok? && block == BlockAt(buf, offset, data.value)
    requires next == offset + 4 + block.blockSize && flag == IsLastFlagged(buf, offset)
    requires iteration' == iteration + 1
    ensures ParseLoop(decode, buf, offset, false, iteration)
            == After([block], ParseLoop(decode, buf, next, flag, iteration'))
  {
  }

  lemma AfterNothing(r: Result<(seq<Block>, nat)>)
    ensures After([], r) == r
  {
    match r
    case Err(_) =>
    case Ok((rest, _)) => assert [] + rest == rest;
  }

  lemma AfterStep(pre: seq<Block>, b: Block, r: Result<(seq<Block>, nat)>)
    ensures After(pre + [b], r) == After(pre, After([b], r))
  {
    match r
    case Err(_) =>
    case Ok((rest, _)) => assert pre + [b] + rest == pre + ([b] + rest);
  }

  // -------------------------------------------------------------- properties

  /** The room the blocks take: a 4-byte header and `blockSize` bytes each. */
  function Span(bs: seq<Block>): nat
  {
    if bs == [] then 0 else 4 + bs[0].blockSize + Span(bs[1..])
  }

  /** Block `b` is what the loop body reads at `b.offset`: the header's
      fields and the payload decoded from the `blockSize` bytes after it. */
  predicate ReadAt(decode: Decoder, buf: Bytes, b: Block)
  {
    && b.offset < |buf|
    && b.typeNumber == HeaderType(buf, b.offset)
    && b.blockSize == HeaderSize(buf, b.offset)
    && decode(BlockTypeOf(b.typeNumber), b.blockSize, View(buf, b.offset + 4, b.blockSize)) == Ok(b.data)
  }

  /** What a walk from `offset` that read `bs` and stopped at `framesOffset`
      looks like: blocks back to back from `offset`, each read at its own
      offset, none but the final one flagged last, and the walk over when
      the final one is flagged or the buffer is exhausted. */
  predicate Walk(decode: Decoder, buf: Bytes, offset: nat, bs: seq<Block>, framesOffset: nat)
  {
    && framesOffset == offset + Span(bs)
    && (forall i :: 0 <= i < |bs| ==> bs[i].offset == offset + Span(bs[..i]) && ReadAt(decode, buf, bs[i]))
    && (forall i :: 0 <= i < |bs| - 1 ==> bs[i].offset < |buf| && !IsLastFlagged(buf, bs[i].offset))
    && (bs != [] ==> var last := bs[|bs| - 1].offset;
                     last < |buf| && (IsLastFlagged(buf, last) || framesOffset >= |buf|))
  }

  lemma SpanCons(b: Block, rest: seq<Block>, i: nat)
    requires i <= |rest|
    ensures Span(([b] + rest)[..i + 1]) == 4 + b.blockSize + Span(rest[..i])
  {
    assert ([b] + rest)[..i + 1] == [b] + rest[..i];
    assert ([b] + rest[..i])[1..] == rest[..i];
  }

  /** One more block in front of a walk that starts where it ends. */
  lemma WalkCons(decode: Decoder, buf: Bytes, b: Block, rest: seq<Block>, framesOffset: nat)
    requires ReadAt(decode, buf, b)
    requires rest != [] ==> !IsLastFlagged(buf, b.offset)
    requires rest == [] ==> IsLastFlagged(buf, b.offset) || b.offset + 4 + b.blockSize >= |buf|
    requires Walk(decode, buf, b.offset + 4 + b.blockSize, rest, framesOffset)
    ensures Walk(decode, buf, b.offset, [b] + rest, framesOffset)
  {
    var bs := [b] + rest;
    assert bs[1..] == rest;
    assert bs[..0] == [];
    forall i | 0 <= i < |bs|
      ensures bs[i].offset == b.offset + Span(bs[..i]) && ReadAt(decode, buf, bs[i])
    {
      if i > 0 {
        SpanCons(b, rest, i - 1);
        assert bs[i] == rest[i - 1];
      }
    }
    forall i | 0 <= i < |bs| - 1
      ensures bs[i].offset < |buf| && !IsLastFlagged(buf, bs[i].offset)
    {
      if i > 0 {
        assert bs[i] == rest[i - 1];
      }
    }
  }

  /** What the loop reads from `offset` on, entered with `lastBlock` and
      `iteration`: a `Walk` that is empty exactly when the loop does not
      run, and at most `43 - iteration` blocks long, since the check
      `iteration++ > 42` stops a 44th. */
  predicate Walked(decode: Decoder, buf: Bytes, offset: nat, lastBlock: bool, iteration: nat,
                   bs: seq<Block>, framesOffset: nat)
  {
    && Walk(decode, buf, offset, bs, framesOffset)
    && (bs == [] <==> lastBlock || offset >= |buf|)
    && (bs != [] ==> iteration + |bs| <= 43)
  }

  /** One turn of the loop that does not throw. */
  lemma ParseLoopStep(decode: Decoder, buf: Bytes, offset: nat, iteration: nat, size: nat,
                      data: Result<BlockData>, flag: bool, rest: Result<(seq<Block>, nat)>)
    requires offset < |buf| && ParseLoop(decode, buf, offset, false, iteration).Ok?
    requires size == HeaderSize(buf, offset)
    requires data == decode(BlockTypeOf(HeaderType(buf, offset)), size, View(buf, offset + 4, size))
    requires flag == IsLastFlagged(buf, offset)
    requires rest == ParseLoop(decode, buf, offset + 4 + size, flag, iteration + 1)
    ensures iteration <= 42 && data.Ok? && rest.Ok?
    ensures ParseLoop(decode, buf, offset, false, iteration).value
            == ([BlockAt(buf, offset, data.value)] + rest.value.0, rest.value.1)
  {
  }

  lemma WalkedNil(decode: Decoder, buf: Bytes, offset: nat, lastBlock: bool, iteration: nat)
    requires lastBlock || offset >= |buf|
    ensures Walked(decode, buf, offset, lastBlock, iteration, [], offset)
  {
  }

  lemma WalkedCons(decode: Decoder, buf: Bytes, offset: nat, iteration: nat, size: nat, data: BlockData,
                   next: nat, flag: bool, rest: seq<Block>, framesOffset: nat)
    requires offset < |buf| && iteration <= 42 && size == HeaderSize(buf, offset)
    requires decode(BlockTypeOf(HeaderType(buf, offset)), size, View(buf, offset + 4, size)) == Ok(data)
    requires next == offset + 4 + size && flag == IsLastFlagged(buf, offset)
    requires Walked(decode, buf, next, flag, iteration + 1, rest, framesOffset)
    ensures Walked(decode, buf, offset, false, iteration, [BlockAt(buf, offset, data)] + rest, framesOffset)
  {
    WalkCons(decode, buf, BlockAt(buf, offset, data), rest, framesOffset);
  }

  /** Every walk the loop completes is `Walked`. */
  lemma {:induction false} ParseLoopWalks(decode: Decoder, buf: Bytes, offset: nat, lastBlock: bool, iteration: nat)
    requires ParseLoop(decode, buf, offset, lastBlock, iteration).Ok?
    ensures var (bs, framesOffset) := ParseLoop(decode, buf, offset, lastBlock, iteration).value;
            Walked(decode, buf, offset, lastBlock, iteration, bs, framesOffset)
    decreases |buf| - offset
  {
    if !lastBlock && offset < |buf| {
      var size := HeaderSize(buf, offset);
      var data := decode(BlockTypeOf(HeaderType(buf, offset)), size, View(buf, offset + 4, size));
      var flag := IsLastFlagged(buf, offset);
      var next := offset + 4 + size;
      var rest := ParseLoop(decode, buf, next, flag, iteration + 1);
      ParseLoopStep(decode, buf, offset, iteration, size, data, flag, rest);
      ParseLoopWalks(decode, buf, next, flag, iteration + 1);
      WalkedCons(decode, buf, offset, iteration, size, data.value, next, flag, rest.value.0, rest.value.1);
    } else {
      LoopEnds(decode, buf, offset, lastBlock, iteration);
      WalkedNil(decode, buf, offset, lastBlock, iteration);
    }
  }

  /** What a parsed file holds: the first four bytes as its signature, its
      blocks laid back to back from offset 4 with `framesOffset` right
      after the last, at most 43 of them, and none but the last flagged. */
  lemma ParseWalks(buf: Bytes)
    requires Parse(buf).Ok?
    ensures var m := Parse(buf).value;
            && m.signature == View(buf, 0, 4)
            && Walk(DecodePayload, buf, 4, m.blocks, m.framesOffset)
            && |m.blocks| <= 43
            && (m.blocks == [] <==> |buf| <= 4)
  {
    ParseLoopWalks(DecodePayload, buf, 4, false, 0);
  }

  /** A block the parser read holds what `_parseMetadataBlock` decoded. */
  lemma PayloadAt(buf: Bytes, b: Block)
    requires ReadAt(DecodePayload, buf, b)
    ensures DecodePayload(BlockTypeOf(b.typeNumber), b.blockSize, View(buf, b.offset + 4, b.blockSize)) == Ok(b.data)
  {
  }

  /** Each parsed payload has its type's shape; the blocks the writer can
      lay out are exactly those of the seven known types. */
  lemma ParsedBlocksWellTyped(buf: Bytes, i: nat)
    requires Parse(buf).Ok? && i < |Parse(buf).value.blocks|
    ensures var b := Parse(buf).value.blocks[i];
            WellTyped(b) && (Writable(b) <==> b.typeNumber <= 6)
  {
    ParseWalks(buf);
    var b := Parse(buf).value.blocks[i];
    assert ReadAt(DecodePayload, buf, b);
    PayloadAt(buf, b);
    DecodedIsWritable(b.typeNumber, b.blockSize, b.offset, View(buf, b.offset + 4, b.blockSize));
  }

  /** The comment maps of a parsed file are canonical. */
  lemma ParsedCommentsCanonical(buf: Bytes, i: nat)
    requires Parse(buf).Ok? && i < |Parse(buf).value.blocks|
    ensures var b := Parse(buf).value.blocks[i];
            b.data.VorbisComment? ==> Canonical(b.data.comments)
  {
    ParseWalks(buf);
    var b := Parse(buf).value.blocks[i];
    assert ReadAt(DecodePayload, buf, b);
    PayloadAt(buf, b);
    DecodedPayloadCanonical(BlockTypeOf(b.typeNumber), b.blockSize, View(buf, b.offset + 4, b.blockSize));
  }

  /** A file whose blocks all have known types can be written back. */
  lemma ParsedIsWritable(buf: Bytes)
    requires Parse(buf).Ok?
    requires forall i :: 0 <= i < |Parse(buf).value.blocks| ==> Parse(buf).value.blocks[i].typeNumber <= 6
    ensures MetadataWritable(Parse(buf).value)
  {
    var m := Parse(buf).value;
    forall i | 0 <= i < |m.blocks| ensures Writable(m.blocks[i]) {
      ParsedBlocksWellTyped(buf, i);
    }
  }
}
