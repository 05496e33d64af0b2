/** The editor object: the bytes of a FLAC file and the metadata parsed
    from them, with the comment and picture edits that change the metadata
    and `serializeMetadata`, which writes a new file from it. */
module Editor {
  import opened Primitives
  import opened VorbisComments
  import opened Blocks
  import opened Serializer
  import opened Parser

  // ------------------------------------------------------------- invariants

  predicate AllWellTyped(bs: seq<Block>)
  {
    forall i :: 0 <= i < |bs| ==> WellTyped(bs[i])
  }

  predicate AllCanonical(bs: seq<Block>)
  {
    forall i :: 0 <= i < |bs| && bs[i].data.VorbisComment? ==> Canonical(bs[i].data.comments)
  }

  /** What the editor keeps true of its metadata: every payload has its
      block's type, and every comment map is canonical. */
  predicate Consistent(m: Metadata)
  {
    AllWellTyped(m.blocks) && AllCanonical(m.blocks)
  }

  /** A parsed file is consistent. */
  lemma ParsedIsConsistent(buf: Bytes)
    requires Parse(buf).Ok?
    ensures Consistent(Parse(buf).value)
  {
    var bs := Parse(buf).value.blocks;
    forall i | 0 <= i < |bs| ensures WellTyped(bs[i]) {
      ParsedBlocksWellTyped(buf, i);
    }
    forall i | 0 <= i < |bs| && bs[i].data.VorbisComment? ensures Canonical(bs[i].data.comments) {
      ParsedCommentsCanonical(buf, i);
    }
  }

  // ------------------------------------------------------ the comment block

  /** `blocks.find(block => block.blockType === 'VORBIS_COMMENT')`: the
      index of the first VORBIS_COMMENT block, if any. */
  function FindVorbisComment(bs: seq<Block>): (r: Option<nat>)
    ensures r.Some? ==> r.value < |bs| && bs[r.value].Type() == VorbisCommentType
    ensures r.Some? ==> forall j :: 0 <= j < r.value ==> bs[j].Type() != VorbisCommentType
    ensures r.None? ==> forall j :: 0 <= j < |bs| ==> bs[j].Type() != VorbisCommentType
  {
    if bs == [] then None
    else if bs[0].Type() == VorbisCommentType then Some(0)
    else
      match FindVorbisComment(bs[1..])
      case None => None
      case Some(i) => Some(i + 1)
  }

  /** The comments of block `i`, replaced by `c`; nothing else changes. */
  function SetComments(m: Metadata, i: nat, c: CommentMap): (r: Metadata)
    requires i < |m.blocks| && m.blocks[i].data.VorbisComment?
    ensures r.signature == m.signature && r.framesOffset == m.framesOffset
    ensures |r.blocks| == |m.blocks|
    ensures forall j :: 0 <= j < |m.blocks| && j != i ==> r.blocks[j] == m.blocks[j]
    ensures r.blocks[i].typeNumber == m.blocks[i].typeNumber && r.blocks[i].blockSize == m.blocks[i].blockSize
    ensures r.blocks[i].offset == m.blocks[i].offset
    ensures r.blocks[i].data == VorbisComment(m.blocks[i].data.vendor, c)
  {
    var b := m.blocks[i];
    m.(blocks := m.blocks[i := b.(data := b.data.(comments := c))])
  }

  /** Replacing a comment map by a canonical one keeps the metadata
      consistent and writable, and the VORBIS_COMMENT block where it was. */
  lemma SetCommentsKeeps(m: Metadata, i: nat, c: CommentMap)
    requires i < |m.blocks| && m.blocks[i].data.VorbisComment?
    requires Consistent(m) && Canonical(c)
    ensures Consistent(SetComments(m, i, c))
    ensures MetadataWritable(m) ==> MetadataWritable(SetComments(m, i, c))
    ensures FindVorbisComment(SetComments(m, i, c).blocks) == FindVorbisComment(m.blocks)
  {
    var r := SetComments(m, i, c);
    assert forall j :: 0 <= j < |m.blocks| ==> r.blocks[j].Type() == m.blocks[j].Type();
    FindSameTypes(m.blocks, r.blocks);
  }

  /** `find` looks at the types only. */
  lemma {:induction false} FindSameTypes(a: seq<Block>, b: seq<Block>)
    requires |a| == |b| && forall j :: 0 <= j < |a| ==> a[j].Type() == b[j].Type()
    ensures FindVorbisComment(a) == FindVorbisComment(b)
  {
    if a != [] && a[0].Type() != VorbisCommentType {
      FindSameTypes(a[1..], b[1..]);
    }
  }

  /** `this._vorbisComment.comments`: the map of the first VORBIS_COMMENT
      block; reading `.comments` of `undefined` throws without one. */
  function CommentsOf(m: Metadata): (r: Result<CommentMap>)
    requires AllWellTyped(m.blocks)
    ensures r.Err? <==> FindVorbisComment(m.blocks).None?
    ensures r.Err? ==> r.error == NoVorbisComment
    ensures r.Ok? ==> var i := FindVorbisComment(m.blocks).value;
                      m.blocks[i].data.VorbisComment? && r.value == m.blocks[i].data.comments
  {
    match FindVorbisComment(m.blocks)
    case None => Err(NoVorbisComment)
    case Some(i) => assert WellTyped(m.blocks[i]); Ok(m.blocks[i].data.comments)
  }

  // ---------------------------------------------------- the edits, as values

  /** `addComment(field, value)`: nothing happens when `CommentToAdd` finds
      no pair (the comment block is then not even looked up); otherwise the
      pair is inserted into the first VORBIS_COMMENT block's map. */
  function AddCommentTo(m: Metadata, field: Bytes, value: Bytes): (r: Result<Metadata>)
    requires AllWellTyped(m.blocks)
  {
    match CommentToAdd(field, value)
    case None => Ok(m)
    case Some(_) =>
      match FindVorbisComment(m.blocks)
      case None => Err(NoVorbisComment)
      case Some(i) =>
        assert WellTyped(m.blocks[i]);
        Ok(SetComments(m, i, AddComment(m.blocks[i].data.comments, field, value)))
  }

  /** `removeComment(field, value)` with the guard of the value form read
      as intended (the field is a key of the map): no field empties the
      map, no value deletes the field, otherwise the value is filtered out
      of the field's list. Every form reads `this._vorbisComment`. */
  function RemoveCommentFrom(m: Metadata, field: Bytes, value: Bytes): (r: Result<Metadata>)
    requires AllWellTyped(m.blocks)
  {
    match FindVorbisComment(m.blocks)
    case None => Err(NoVorbisComment)
    case Some(i) =>
      assert WellTyped(m.blocks[i]);
      var c := m.blocks[i].data.comments;
      Ok(SetComments(m, i, if field == [] then map[]
                           else if value == [] then RemoveField(c, field)
                           else RemoveValue(c, field, value)))
  }

  /** The own properties of the editor object, `arrayBuffer` and `metadata`. */
  predicate IsEditorProperty(key: Bytes)
  {
    || key == [0x61, 0x72, 0x72, 0x61, 0x79, 0x42, 0x75, 0x66, 0x66, 0x65, 0x72]
    || key == [0x6D, 0x65, 0x74, 0x61, 0x64, 0x61, 0x74, 0x61]
  }

  /** `removeComment(field, value)` as written: the value form filters only
      when `this.hasOwnProperty(field)` holds, `this` being the editor. */
  function RemoveCommentAsWritten(m: Metadata, field: Bytes, value: Bytes): (r: Result<Metadata>)
    requires AllWellTyped(m.blocks)
  {
    if field != [] && value != [] && !IsEditorProperty(Upper(field)) then Ok(m)
    else RemoveCommentFrom(m, field, value)
  }

  /** `getComment(field)`: the values stored under the upper-cased field. */
  function GetCommentOf(m: Metadata, field: Bytes): (r: Result<Option<seq<Bytes>>>)
    requires AllWellTyped(m.blocks)
    ensures r.Err? <==> CommentsOf(m).Err?
    ensures r.Ok? ==> r.value == Get(CommentsOf(m).value, field)
  {
    match CommentsOf(m)
    case Err(e) => Err(e)
    case Ok(c) => Ok(Get(c, field))
  }

  // --------------------------------------------------------------- pictures

  /** The argument of `addPicture`; `dataIsByteBuffer` says whether `data`
      passed the `byteLength` check, and a zero number or empty text
      stands for a property that is falsy or absent. */
  datatype PictureInput = PictureInput(dataIsByteBuffer: bool, apicType: nat, mimeType: Bytes,
                                       description: Bytes, width: nat, height: nat,
                                       colorDepth: nat, colorNumber: nat, data: Bytes)

  /** "image/jpeg" */
  const IMAGE_JPEG: Bytes := [0x69, 0x6D, 0x61, 0x67, 0x65, 0x2F, 0x6A, 0x70, 0x65, 0x67]

  /** The PICTURE block `addPicture` builds: type 6, `blockSize` and
      `offset` left at 0, each falsy property replaced by its default
      (front cover, "image/jpeg", and empty or zero for the others; `data`,
      a `Uint8Array`, is never falsy). */
  function PictureBlock(input: PictureInput): (b: Block)
    ensures b.typeNumber == 6 && b.blockSize == 0 && b.offset == 0 && b.data.Picture?
    ensures WellTyped(b) && Writable(b)
    ensures b.data.apicType == (if input.apicType == 0 then 3 else input.apicType)
    ensures b.data.mimeType == (if input.mimeType == [] then IMAGE_JPEG else input.mimeType)
    ensures b.data.description == input.description && b.data.data == input.data
    ensures b.data.width == input.width && b.data.height == input.height
    ensures b.data.colorDepth == input.colorDepth && b.data.colorNumber == input.colorNumber
  {
    Block(6, 0, 0, Picture(if input.apicType == 0 then 3 else input.apicType,
                           if input.mimeType == [] then IMAGE_JPEG else input.mimeType,
                           input.description, input.width, input.height,
                           input.colorDepth, input.colorNumber, input.data))
  }

  /** Where the picture goes: before a final PADDING block, else at the end. */
  function PictureSlot(bs: seq<Block>): (k: nat)
    requires bs != []
    ensures k <= |bs|
  {
    if bs[|bs| - 1].Type() == PaddingType then |bs| - 1 else |bs|
  }

  /** `bl.splice(index, 0, block)`; `bl[bl.length - 1].blockType` throws on
      an empty list. */
  function InsertPicture(bs: seq<Block>, b: Block): (r: Result<seq<Block>>)
    ensures r.Err? <==> bs == []
    ensures r.Err? ==> r.error == NoBlocks
  {
    if bs == [] then Err(NoBlocks)
    else
      var k := PictureSlot(bs);
      Ok(bs[..k] + [b] + bs[k..])
  }

  /** `addPicture(input)` on the metadata. */
  function AddPictureTo(m: Metadata, input: PictureInput): (r: Result<Metadata>)
  {
    if !input.dataIsByteBuffer then Err(DataNotAByteBuffer)
    else
      match InsertPicture(m.blocks, PictureBlock(input))
      case Err(e) => Err(e)
      case Ok(bs) => Ok(m.(blocks := bs))
  }

  // -------------------------------------------------------------- the class

  /** The outcome of an edit: the new metadata and no exception, or the
      exception and the metadata as it was. */
  predicate Applied(update: Result<Metadata>, before: Metadata, after: Metadata, r: Result<()>)
  {
    match update
    case Ok(m) => r == Ok(()) && after == m
    case Err(e) => r == Err(e) && after == before
  }

  class Editor {
    /** `arrayBuffer`: the file's bytes. */
    var buffer: Bytes
    var metadata: Metadata

    ghost predicate Valid()
      reads this
    {
      Consistent(metadata)
    }

    constructor Init(buf: Bytes, m: Metadata)
      requires Consistent(m)
      ensures buffer == buf && metadata == m && Valid()
    {
      buffer := buf;
      metadata := m;
    }

    /** `new FLACMetadataEditor(buffer)`: the buffer is kept and its
        metadata parsed; a parse error is thrown from the constructor. */
    static method Open(buf: Bytes) returns (r: Result<Editor>)
      ensures r.Err? <==> Parse(buf).Err?
      ensures r.Err? ==> r.error == Parse(buf).error
      ensures r.Ok? ==> fresh(r.value) && r.value.Valid()
      ensures r.Ok? ==> r.value.buffer == buf && r.value.metadata == Parse(buf).value
    {
      var parsed := ParseMetadata(buf);
      if parsed.Err? {
        return Err(parsed.error);
      }
      ParsedIsConsistent(buf);
      var e := new Editor.Init(buf, parsed.value);
      r := Ok(e);
    }

    method AddComment(field: Bytes, value: Bytes) returns (r: Result<()>)
      requires Valid()
      modifies this
      ensures Valid() && buffer == old(buffer)
      ensures Applied(AddCommentTo(old(metadata), field, value), old(metadata), metadata, r)
      ensures MetadataWritable(old(metadata)) ==> MetadataWritable(metadata)
    {
      var pair := CommentToAdd(field, value);
      if pair.None? {
        return Ok(());
      }
      var i := FindVorbisComment(metadata.blocks);
      if i.None? {
        return Err(NoVorbisComment);
      }
      assert WellTyped(metadata.blocks[i.value]);
      var comments := metadata.blocks[i.value].data.comments;
      var (f, v) := pair.value;
      comments := Insert(comments, f, v);
      InsertKeepsCanonical(metadata.blocks[i.value].data.comments, f, v);
      SetCommentsKeeps(metadata, i.value, comments);
      metadata := SetComments(metadata, i.value, comments);
      r := Ok(());
    }

    /** `removeComment(field, value)`, its value form filtering as intended. */
    method RemoveComment(field: Bytes, value: Bytes) returns (r: Result<()>)
      requires Valid()
      modifies this
      ensures Valid() && buffer == old(buffer)
      ensures Applied(RemoveCommentFrom(old(metadata), field, value), old(metadata), metadata, r)
      ensures MetadataWritable(old(metadata)) ==> MetadataWritable(metadata)
    {
      var i := FindVorbisComment(metadata.blocks);
      if i.None? {
        return Err(NoVorbisComment);
      }
      assert WellTyped(metadata.blocks[i.value]);
      var comments := metadata.blocks[i.value].data.comments;
      if field == [] {
        comments := map[];
      } else if value == [] {
        comments := RemoveField(comments, field);
      } else {
        RemoveValueKeepsCanonical(comments, field, value);
        comments := RemoveValue(comments, field, value);
      }
      SetCommentsKeeps(metadata, i.value, comments);
      metadata := SetComments(metadata, i.value, comments);
      r := Ok(());
    }

    function GetComment(field: Bytes): (r: Result<Option<seq<Bytes>>>)
      requires Valid()
      reads this
      ensures r == GetCommentOf(metadata, field)
    {
      match CommentsOf(metadata)
      case Err(e) => Err(e)
      case Ok(c) => Ok(if Upper(field) in c then Some(c[Upper(field)]) else None)
    }

    method AddPicture(input: PictureInput) returns (r: Result<()>)
      requires Valid()
      modifies this
      ensures Valid() && buffer == old(buffer)
      ensures Applied(AddPictureTo(old(metadata), input), old(metadata), metadata, r)
      ensures MetadataWritable(old(metadata)) ==> MetadataWritable(metadata)
    {
      if !input.dataIsByteBuffer {
        return Err(DataNotAByteBuffer);
      }
      var block := PictureBlock(input);
      var bl := metadata.blocks;
      if |bl| == 0 {
        return Err(NoBlocks);
      }
      var index := |bl|;
      if bl[|bl| - 1].Type() == PaddingType {
        index := index - 1;
      }
      bl := bl[..index] + [block] + bl[index..];
      PictureKeeps(metadata.blocks, block, index, bl);
      metadata := metadata.(blocks := bl);
      r := Ok(());
    }

    /** `serializeMetadata()`, with `framesOffset` moved to where the frames
        now begin in the new buffer. */
    method SerializeMetadata()
      requires Valid() && MetadataWritable(metadata)
      modifies this
      ensures Valid() && MetadataWritable(metadata)
      ensures buffer == Serialize(old(metadata), old(buffer))
      ensures metadata == Reframed(old(metadata))
    {
      var bytes := Serializer.SerializeMetadata(metadata, buffer);
      buffer := bytes;
      metadata := metadata.(framesOffset := 4 + SizeOfFirst(metadata.blocks, |metadata.blocks|));
    }
  }

  /** The splice keeps every block, in order, around the new one. */
  lemma PictureKeeps(bs: seq<Block>, b: Block, k: nat, r: seq<Block>)
    requires k <= |bs| && r == bs[..k] + [b] + bs[k..] && WellTyped(b) && Writable(b)
    ensures AllWellTyped(bs) ==> AllWellTyped(r)
    ensures AllCanonical(bs) && !b.data.VorbisComment? ==> AllCanonical(r)
    ensures AllWritable(bs) ==> AllWritable(r)
  {
    assert forall j :: 0 <= j < |r| ==> r[j] == (if j < k then bs[j] else if j == k then b else bs[j - 1]);
  }

  // ------------------------------------------------------------- properties

  /** A second identical `addComment` changes nothing. */
  lemma AddCommentIdempotent(m: Metadata, field: Bytes, value: Bytes)
    requires Consistent(m) && AddCommentTo(m, field, value).Ok?
    ensures var m' := AddCommentTo(m, field, value).value;
            AllWellTyped(m'.blocks) && AddCommentTo(m', field, value) == Ok(m')
  {
    match CommentToAdd(field, value)
    case None =>
    case Some((f, v)) =>
      var i := FindVorbisComment(m.blocks).value;
      assert WellTyped(m.blocks[i]);
      var c := m.blocks[i].data.comments;
      InsertKeepsCanonical(c, f, v);
      SetCommentsKeeps(m, i, Insert(c, f, v));
      InsertIdempotent(c, f, v);
      var m' := SetComments(m, i, Insert(c, f, v));
      assert SetComments(m', i, Insert(Insert(c, f, v), f, v)) == m';
  }

  /** After `addComment`, `getComment` of the field finds the value. */
  lemma AddCommentThenGet(m: Metadata, field: Bytes, value: Bytes)
    requires Consistent(m) && AddCommentTo(m, field, value).Ok?
    requires CommentToAdd(field, value).Some?
    ensures var (f, v) := CommentToAdd(field, value).value;
            var m' := AddCommentTo(m, field, value).value;
            AllWellTyped(m'.blocks) && GetCommentOf(m', f).Ok? && GetCommentOf(m', f).value.Some?
            && v in GetCommentOf(m', f).value.value
  {
    var (f, v) := CommentToAdd(field, value).value;
    var i := FindVorbisComment(m.blocks).value;
    assert WellTyped(m.blocks[i]);
    var c := m.blocks[i].data.comments;
    InsertKeepsCanonical(c, f, v);
    SetCommentsKeeps(m, i, Insert(c, f, v));
    InsertThenGet(c, f, v);
  }

  /** `removeComment()` leaves no field behind. */
  lemma RemoveAllThenGet(m: Metadata, value: Bytes, other: Bytes)
    requires Consistent(m) && RemoveCommentFrom(m, [], value).Ok?
    ensures var m' := RemoveCommentFrom(m, [], value).value;
            AllWellTyped(m'.blocks) && GetCommentOf(m', other) == Ok(None)
  {
    var i := FindVorbisComment(m.blocks).value;
    assert WellTyped(m.blocks[i]);
    SetCommentsKeeps(m, i, map[]);
  }

  /** `removeComment(field)` deletes that field, whatever its case, and no
      other. */
  lemma RemoveFieldThenGetComment(m: Metadata, field: Bytes, other: Bytes)
    requires Consistent(m) && field != [] && RemoveCommentFrom(m, field, []).Ok?
    ensures var m' := RemoveCommentFrom(m, field, []).value;
            && AllWellTyped(m'.blocks)
            && GetCommentOf(m', field) == Ok(None)
            && (Upper(other) != Upper(field) ==> GetCommentOf(m', other) == GetCommentOf(m, other))
  {
    var i := FindVorbisComment(m.blocks).value;
    assert WellTyped(m.blocks[i]);
    var c := m.blocks[i].data.comments;
    SetCommentsKeeps(m, i, RemoveField(c, field));
    RemoveFieldThenGet(c, field, other);
  }

  /** `removeComment(field, value)` as intended: the value is gone from the
      field's list, every other value of every field stays, and the field's
      other values keep their order. */
  lemma RemoveValueThenGet(m: Metadata, field: Bytes, value: Bytes, other: Bytes)
    requires Consistent(m) && field != [] && value != [] && RemoveCommentFrom(m, field, value).Ok?
    ensures var m' := RemoveCommentFrom(m, field, value).value;
            && AllWellTyped(m'.blocks)
            && GetCommentOf(m', field).Ok? && GetCommentOf(m, field).Ok?
            && (GetCommentOf(m', field).value.Some? <==> GetCommentOf(m, field).value.Some?)
            && (GetCommentOf(m, field).value.Some? ==>
                  forall x :: (x in GetCommentOf(m', field).value.value
                               <==> x in GetCommentOf(m, field).value.value && x != value))
            && (Upper(other) != Upper(field) ==> GetCommentOf(m', other) == GetCommentOf(m, other))
            && (GetCommentOf(m, field).value.Some? ==>
                  var s, s' := GetCommentOf(m, field).value.value, GetCommentOf(m', field).value.value;
                  if value in s then exists k :: 0 <= k < |s| && s[k] == value && s' == s[..k] + s[k + 1..]
                  else s' == s)
  {
    var i := FindVorbisComment(m.blocks).value;
    assert WellTyped(m.blocks[i]);
    var c := m.blocks[i].data.comments;
    RemoveValueKeepsCanonical(c, field, value);
    SetCommentsKeeps(m, i, RemoveValue(c, field, value));
  }

  /** As written, the value form of `removeComment` never removes anything:
      an upper-cased name is never `arrayBuffer` or `metadata`, whose first
      letters are lower case. */
  lemma RemoveValueAsWrittenDoesNothing(m: Metadata, field: Bytes, value: Bytes)
    requires AllWellTyped(m.blocks) && field != [] && value != []
    ensures RemoveCommentAsWritten(m, field, value) == Ok(m)
  {
    if IsEditorProperty(Upper(field)) {
      UpperHasNoLowerCase(field, 0);
      assert false;
    }
  }

  /** A file holding `ARTIST=x` keeps it after `removeComment("ARTIST", "x")`
      as written, and loses it with the guard read as intended. */
  lemma RemoveValueAsWrittenExample()
    ensures var artist: Bytes := [0x41, 0x52, 0x54, 0x49, 0x53, 0x54];
            var x: Bytes := [0x78];
            var m := Metadata([], [Block(4, 0, 0, VorbisComment([], map[artist := [x]]))], 0);
            && AllWellTyped(m.blocks)
            && RemoveCommentAsWritten(m, artist, x) == Ok(m)
            && GetCommentOf(m, artist) == Ok(Some([x]))
            && GetCommentOf(RemoveCommentFrom(m, artist, x).value, artist) == Ok(Some([]))
  {
    var artist: Bytes := [0x41, 0x52, 0x54, 0x49, 0x53, 0x54];
    var x: Bytes := [0x78];
    var m := Metadata([], [Block(4, 0, 0, VorbisComment([], map[artist := [x]]))], 0);
    assert WellTyped(m.blocks[0]);
    RemoveValueAsWrittenDoesNothing(m, artist, x);
    UpperOfUpper(artist);
    assert Without([x], x) == [];
  }

  /** An upper-case ASCII name is its own upper case. */
  lemma {:induction false} UpperOfUpper(s: Bytes)
    requires forall i :: 0 <= i < |s| ==> 0x41 <= s[i] <= 0x5A
    ensures Upper(s) == s
  {
    if s != [] {
      UpperOfUpper(s[1..]);
    }
  }

  /** `addPicture` puts the new block last, or just before a final PADDING
      block, and keeps every other block in its order. */
  lemma PicturePlacement(bs: seq<Block>, input: PictureInput)
    requires bs != []
    ensures var b := PictureBlock(input);
            var r := InsertPicture(bs, b).value;
            var k := PictureSlot(bs);
            && |r| == |bs| + 1 && r[k] == b
            && r[..k] + r[k + 1..] == bs
            && (bs[|bs| - 1].Type() == PaddingType ==> k == |bs| - 1 && r[|r| - 1] == bs[|bs| - 1])
            && (bs[|bs| - 1].Type() != PaddingType ==> k == |bs| && r[|r| - 1] == b)
  {
    var b := PictureBlock(input);
    var k := PictureSlot(bs);
    var r := InsertPicture(bs, b).value;
    assert r == bs[..k] + [b] + bs[k..];
    assert r[..k] == bs[..k];
    assert r[k + 1..] == bs[k..];
    assert bs[..k] + bs[k..] == bs;
  }

  // -------------------------------------------------- writing the file again

  /** The metadata once the file was written: the frames now start right
      after the blocks. */
  function Reframed(m: Metadata): (r: Metadata)
    requires MetadataWritable(m)
    ensures r.signature == m.signature && r.blocks == m.blocks
    ensures r.framesOffset == 4 + SizeOfFirst(m.blocks, |m.blocks|)
  {
    m.(framesOffset := 4 + SizeOfFirst(m.blocks, |m.blocks|))
  }

  /** With `framesOffset` moved, writing the file a second time gives the
      same file. */
  lemma SerializeTwice(m: Metadata, original: Bytes)
    requires MetadataWritable(m)
    ensures MetadataWritable(Reframed(m))
    ensures var once := Serialize(m, original);
            Serialize(Reframed(m), once) == once
  {
    SerializeKeepsFrames(m, original);
  }

  /** `serializeMetadata()` as written: the new buffer replaces the old one
      and `framesOffset` stays where the parser found it. */
  function SerializeAsWritten(m: Metadata, buffer: Bytes): (r: (Metadata, Bytes))
    requires MetadataWritable(m)
    ensures r.0 == m && r.1 == Serialize(m, buffer)
  {
    (m, Serialize(m, buffer))
  }

  /** As written, a second `serializeMetadata()` after the metadata changed
      size does not reproduce the file: the frames are copied from the old
      offset in the new buffer. */
  lemma SerializeTwiceAsWritten(m: Metadata, original: Bytes)
    requires MetadataWritable(m) && |original| > m.framesOffset
    requires 4 + SizeOfFirst(m.blocks, |m.blocks|) != m.framesOffset
    ensures var (m1, once) := SerializeAsWritten(m, original);
            var (_, twice) := SerializeAsWritten(m1, once);
            |twice| != |once|
  {
    var once := Serialize(m, original);
    SerializeLength(m, original);
    SerializeLength(m, once);
  }
}
