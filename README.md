# FLAC metadata codec

A Dafny model of the metadata codec in `FLACMetadataEditor.js`. The editor
opens the bytes of a FLAC file. It parses the chain of METADATA_BLOCKs that
follows the four-byte signature, as laid out in section 8 of RFC 9639. It
lets the caller add and remove Vorbis comments and insert a PICTURE block.
Then it writes a new file: the signature, every block again with a
recomputed size and the last-block flag on the final block only, and the
original audio frames copied from `framesOffset` on.

The model is split into modules along the lines of the source:

- `primitives.dfy`, module `Primitives`: bytes, the `_getBytesAs*` readers, the `_uint{16,24,32}ToUint8Array` writers, the hex-string conversions, ASCII upper-casing and the block-type table.
- `comments.dfy`, module `VorbisComments`: the `VorbisCommentPacket` map, with `_addComment`, the add, remove and get operations and `toStringArray`.
- `blocks.dfy`, module `Blocks`: the payload datatype, the `serializedSize` getter, the byte layout of each payload and its decoding.
- `reader.dfy`, module `Parser`: `_parseMetadataBlock` and `_parseMetadata` as methods with loops, proved against the decoding functions.
- `writer.dfy`, module `Serializer`: `_serializeMetadataBlock` and `serializeMetadata` as methods that fill an `array<Byte>` at a running offset, proved against the layout functions.
- `editor.dfy`, module `Editor`: the editor object as a class holding `buffer` (`arrayBuffer`) and `metadata`, with its edits and `serializeMetadata`.
- `roundtrip.dfy`, module `RoundTrip`: reading back what the writer writes. For each payload type, `_parseMetadataBlock` undoes `_serializeMetadataBlock`; a parsed file is written back byte for byte under stated conditions; and concrete files show where it is not.
- `reencode.dfy`, module `Reencode`: writing back what the reader reads. For each payload type, the bytes that `_serializeMetadataBlock` writes back unchanged after `_parseMetadataBlock` has decoded them, and a whole file written back byte for byte when every block's bytes are of that form.

Each pure part of the source is a function whose contract says what its
result means. Examples: the comment map's insert, lookup and removal, and
the sorted flattening. Each loop of the source is a method. Its
postcondition ties the result to a specification function, and the
properties are proved about those functions. The parser's loop is proved
equal to `Parser.Parse`. The serializer's loops are proved to produce
`Serializer.Serialize`. The editor's mutators are proved to apply the edit
functions `AddCommentTo`, `RemoveCommentFrom` and `AddPictureTo`, and to
keep the editor's invariant.

Text (the vendor string, comments, MIME type, description, signature and
application id) is the UTF-8 bytes the source encodes or decodes. Field
names are upper-cased byte by byte in ASCII.

## Model

| member | source | states |
|---|---|---|
| Primitives.View | FLACMetadataEditor.js:97-100 | `subarray(start, start+count)` clamps both ends to the array: the result has `min(count, len − start)` bytes and is the exact slice when it fits |
| Primitives.BigEndian | FLACMetadataEditor.js:97 | `_getBytesAsNumber` of n bytes is below 256^n |
| Primitives.LittleEndianIsReversedBigEndian | FLACMetadataEditor.js:98 | `_getBytesAsNumberLittleEndian` (reduceRight) reads the reversed bytes big-endian |
| Primitives.Uint32RoundTrip | FLACMetadataEditor.js:115-123 | reading back the four bytes of `_uint32ToUint8Array(x)` gives `x mod 2^32`, hence x itself when x < 2^32 |
| Primitives.Uint24RoundTrip | FLACMetadataEditor.js:124-131 | reading back the three bytes of `_uint24ToUint8Array(x)` gives `x mod 2^24`, hence x when x < 2^24 |
| Primitives.Uint16RoundTrip | FLACMetadataEditor.js:132-138 | reading back the two bytes of `_uint16ToUint8Array(x)` gives `x mod 2^16`, hence x when x < 2^16 |
| Primitives.Uint32OfBigEndian | FLACMetadataEditor.js:115-123 | `_uint32ToUint8Array` of the number `_getBytesAsNumber` reads from four bytes gives those four bytes back |
| Primitives.Uint24OfBigEndian | FLACMetadataEditor.js:124-131 | `_uint24ToUint8Array` of the number read from three bytes gives those three bytes back |
| Primitives.Uint16OfBigEndian | FLACMetadataEditor.js:132-138 | `_uint16ToUint8Array` of the number read from two bytes gives those two bytes back |
| Primitives.Uint32BytesLow | FLACMetadataEditor.js:115-123 | the shifts `>>>` and the masks see only x mod 2^32: x and x mod 2^32 are written alike |
| Primitives.Uint32LittleEndianRoundTrip | FLACMetadataEditor.js:263 | the reversed 32-bit writer, read little-endian, gives `x mod 2^32` |
| Primitives.HexString | FLACMetadataEditor.js:99 | `_getBytesAsHexString` yields two hex digits per byte |
| Primitives.HexToBytes | FLACMetadataEditor.js:139-140 | `_hexStringToUint8Array` yields one byte per digit pair, one more for a trailing odd digit, and one byte for the empty string |
| Primitives.HexRoundTrip | FLACMetadataEditor.js:139-140 | for non-empty b, `_hexStringToUint8Array(_getBytesAsHexString(b)) == b` and the hex string has twice as many digits as b has bytes |
| Primitives.LowerHexRoundTrip | FLACMetadataEditor.js:139-140 | an even-length lower-case hex string, the form `_getBytesAsHexString` produces, converted to bytes and back is itself |
| Primitives.UpperHexRoundTrip | FLACMetadataEditor.js:362 | the upper-cased MD5 text still converts back to the bytes it came from |
| Primitives.Upper | FLACMetadataEditor.js:23 | `toUpperCase` maps each byte by its ASCII upper case and keeps the length |
| Primitives.UpperHasNoLowerCase | FLACMetadataEditor.js:23 | an upper-cased field name holds no byte `a`–`z` |
| Primitives.UpperIdempotent | FLACMetadataEditor.js:157 | upper-casing twice is upper-casing once |
| Primitives.BlockTypeOf | FLACMetadataEditor.js:101-113 | `_getBlockType`: a number is reserved exactly when it is neither 0–6 nor 127 |
| Primitives.TypeNumberOf | FLACMetadataEditor.js:101-113 | every named block type has a number that `_getBlockType` maps back to it |
| Primitives.BlockTypeOfInjective | FLACMetadataEditor.js:101-113 | two numbers with the same non-reserved name are equal |
| VorbisComments.Separator | FLACMetadataEditor.js:22-23 | the first `=` from a position on, or the end: no `=` before it |
| VorbisComments.FieldPart | FLACMetadataEditor.js:23 | `split('=')[0]` holds no `=` |
| VorbisComments.ValuePart | FLACMetadataEditor.js:22 | `split('=')[1]` is absent exactly when the text has no `=`, and holds no `=` itself |
| VorbisComments.PartsArePrefix | FLACMetadataEditor.js:22-23 | field, `=` and value are a prefix of the text: whatever follows a second `=` is dropped |
| VorbisComments.SplitPair | FLACMetadataEditor.js:22-23 | splitting `k=v` (neither holding `=`) gives back k and v |
| VorbisComments.Insert | FLACMetadataEditor.js:24-27 | adds the upper-cased field, leaves every other field alone, and appends the value only when it is not stored yet |
| VorbisComments.InsertThenGet | FLACMetadataEditor.js:24-27 | after an insert, looking the field up finds the value |
| VorbisComments.InsertIdempotent | FLACMetadataEditor.js:26-27 | inserting the same pair twice changes nothing the second time |
| VorbisComments.InsertIgnoresCase | FLACMetadataEditor.js:23 | inserting under a field or under its upper case is the same |
| VorbisComments.InsertKeepsCanonical | FLACMetadataEditor.js:24-27 | insertion keeps every key upper-case and every value list free of duplicates |
| VorbisComments.AddRawComment | FLACMetadataEditor.js:21-29 | `_addComment` fails (`value.toString()` of `undefined`) exactly when the text has no `=` |
| VorbisComments.AddRawCommentOfPair | FLACMetadataEditor.js:21-29 | `_addComment("k=v")` is the insert of (k, v) |
| VorbisComments.AddRawCommentKeepsCanonical | FLACMetadataEditor.js:21-29 | `_addComment` keeps the map canonical |
| VorbisComments.CommentToAdd | FLACMetadataEditor.js:149-156 | an empty field adds nothing; a field with a value is taken as given; a lone field adds nothing exactly when it has no `=` or nothing after the first one, and otherwise adds (`split('=')[0]`, `split('=')[1]`) |
| VorbisComments.AddCommentWithoutValue | FLACMetadataEditor.js:151-153 | `addComment("F")` without `=`, or with nothing after it, leaves the map unchanged |
| VorbisComments.AddComment | FLACMetadataEditor.js:149-162 | `addComment` is a no-op without a pair and the insert of the pair otherwise |
| VorbisComments.AddCommentForms | FLACMetadataEditor.js:150-156 | `addComment("F=v")` and `addComment("F", "v")` do the same |
| VorbisComments.Without | FLACMetadataEditor.js:175 | the `filter` keeps exactly the values other than the removed one, and the whole list when the value is not stored |
| VorbisComments.WithoutKeepsOrder | FLACMetadataEditor.js:175 | on a list without duplicates, filtering a stored value out removes it at its one position and keeps the other values in stored order |
| VorbisComments.WithoutKeepsDistinct | FLACMetadataEditor.js:175 | filtering keeps a value list free of duplicates |
| VorbisComments.RemoveValue | FLACMetadataEditor.js:173-175 | the value form removes that value from the upper-cased field, keeps the field's other values in their stored order, and changes nothing else |
| VorbisComments.RemoveValueKeepsCanonical | FLACMetadataEditor.js:173-175 | removing a value keeps the map canonical |
| VorbisComments.RemoveField | FLACMetadataEditor.js:169-171 | `delete comments[FIELD]` drops that key only |
| VorbisComments.Get | FLACMetadataEditor.js:180-182 | `getComment` finds a field exactly when its upper case is a key, and returns that key's list |
| VorbisComments.RemoveFieldThenGet | FLACMetadataEditor.js:169-182 | after deleting a field it is not found, and every other field reads as before |
| VorbisComments.SortedKeys | FLACMetadataEditor.js:32 | `Object.keys(this).sort()`: every key once, in increasing order |
| VorbisComments.PairsOfKeys | FLACMetadataEditor.js:32-36 | every emitted pair's key is one of the listed keys |
| VorbisComments.PairsOfSorted | FLACMetadataEditor.js:32-36 | over increasing keys, the emitted keys never decrease |
| VorbisComments.PairsOfValues | FLACMetadataEditor.js:33-35 | each key's values are emitted in their stored order; an unlisted key has none |
| VorbisComments.Pairs | FLACMetadataEditor.js:30-38 | the pairs `toStringArray` visits: keys of the map only, in sorted order, each key's values exactly as stored |
| VorbisComments.ToStringArray | FLACMetadataEditor.js:30-38 | one `KEY=value` string per stored pair, in that order |
| VorbisComments.ToStringArrayComplete | FLACMetadataEditor.js:30-38 | every stored pair appears as `KEY=value` in the output, and every output string is `KEY=value` of a stored pair |
| VorbisComments.InsertValues | FLACMetadataEditor.js:21-29 | `_addComment` of distinct values in order under an upper-case field appends them, in that order, to the field's list |
| VorbisComments.InsertPairsOf | FLACMetadataEditor.js:30-38 | adding the pairs emitted for a list of distinct new keys adds exactly those keys, each with its whole list, and leaves the other keys alone |
| VorbisComments.RebuildFromPairs | FLACMetadataEditor.js:21-38 | `_addComment` of every pair `toStringArray` emits, from an empty packet, rebuilds the map when its keys are upper-case, its values distinct, no key or value holds `=` and no list is empty |
| Blocks.SerializedSizeAsWritten | FLACMetadataEditor.js:51-63 | the getter as written, counting the vendor string in UTF-16 code units |
| Blocks.SizeAsWrittenOfAsciiVendor | FLACMetadataEditor.js:59 | with an ASCII vendor string the getter as written equals the byte count |
| Blocks.SizeAsWrittenTooSmall | FLACMetadataEditor.js:59 | a vendor string `é` (two UTF-8 bytes) makes the getter one byte short of the payload written |
| Blocks.PayloadSize | FLACMetadataEditor.js:51-63 | the corrected `serializedSize`, counting the vendor string in bytes, equals the length of the payload the writer lays out, for every writable block |
| Blocks.SeekPointsSize | FLACMetadataEditor.js:56 | a seek table takes 18 bytes per point |
| Blocks.CommentsSizeIsLength | FLACMetadataEditor.js:58 | the comment total `Σ(4 + length)` is the length of the encoded comment list |
| Blocks.DecodeSeekPoints | FLACMetadataEditor.js:372-381 | one point per 18-byte slot, each read at its own offset |
| Blocks.DecodeVorbisComment | FLACMetadataEditor.js:383-400 | a decoded comment payload carries the vendor string of the length its little-endian prefix gives, and a comment map with upper-case keys and distinct values; `RoundTrip.VorbisCommentRoundTrip` is its inverse |
| Blocks.DecodeCommentsKeep | FLACMetadataEditor.js:394-399 | what every `_addComment` step keeps, the whole comment loop keeps |
| Blocks.DecodedIsWritable | FLACMetadataEditor.js:341-428 | each decoded payload has its type's shape, and fits the writer exactly when the type number is 0–6 |
| Blocks.StreamInfoLayout | FLACMetadataEditor.js:230-245 | the STREAMINFO writer's 34 bytes hold each field at its offset |
| Blocks.StreamInfoPackedFields | FLACMetadataEditor.js:239-241 | the packed bytes give back the sample rate, channels − 1 in 3 bits, bits per sample − 1 split 1 + 4 bits, and totalSamples' top 4 bits |
| Blocks.StreamInfoRoundTrip | FLACMetadataEditor.js:347-362 | decoding the 34 bytes written for a STREAMINFO block gives the block's fields back |
| Parser.ParseBlock | FLACMetadataEditor.js:341-428 | `_parseMetadataBlock` returns the payload decoded from `subarray(offset, offset + size)` |
| Parser.ReadSeekPoints | FLACMetadataEditor.js:372-381 | the SEEKTABLE loop builds exactly the decoded points |
| Parser.ReadVorbisComment | FLACMetadataEditor.js:383-392 | the VORBIS_COMMENT case returns the decoded payload or the error of a comment without `=` |
| Parser.ReadComments | FLACMetadataEditor.js:393-399 | the comment loop adds the comments one by one as the decoding function does |
| Parser.ReadBlock | FLACMetadataEditor.js:443-453 | the last flag is bit 7 of the header byte, and the block carries the type number (low 7 bits), the 24-bit size, its offset and its decoded payload |
| Parser.ParseMetadata | FLACMetadataEditor.js:430-460 | `_parseMetadata` returns exactly what `Parse` specifies |
| Parser.LoopTooMany | FLACMetadataEditor.js:441 | a 44th turn without a last flag fails with the RangeError |
| Parser.LoopEnds | FLACMetadataEditor.js:440 | the loop ends at a last flag or at the end of the buffer, and `framesOffset` is the offset reached |
| Parser.ParseWalks | FLACMetadataEditor.js:430-460 | a parsed file is a walk from offset 4: each block at the offset reached, each next offset 4 + `blockSize` further, only the final block last-flagged or past the end, at most 43 blocks, and no blocks only when the buffer ends at 4 |
| Parser.ParsedBlocksWellTyped | FLACMetadataEditor.js:447-452 | every parsed block's payload has its type's shape |
| Parser.ParsedCommentsCanonical | FLACMetadataEditor.js:394-399 | every parsed comment map is canonical |
| Parser.ParsedIsWritable | FLACMetadataEditor.js:430-460 | a parsed file whose type numbers are all 0–6 can be written back |
| Serializer.SerializeBlock | FLACMetadataEditor.js:224-307 | `_serializeMetadataBlock` returns `serializedSize` bytes holding the block's payload layout |
| Serializer.WriteStreamInfo | FLACMetadataEditor.js:230-246 | the STREAMINFO case writes the sizes, the packed rate, channels and bits, totalSamples and the MD5 bytes |
| Serializer.WriteApplication | FLACMetadataEditor.js:249-253 | the APPLICATION case writes the id into its 4 bytes, then the data |
| Serializer.WriteSeekTable | FLACMetadataEditor.js:254-261 | the SEEKTABLE loop writes 18 bytes per point |
| Serializer.WriteVorbisComment | FLACMetadataEditor.js:262-277 | the VORBIS_COMMENT case writes the little-endian vendor length, the vendor, the comment count and each counted comment |
| Serializer.WritePicture | FLACMetadataEditor.js:280-304 | the PICTURE case writes each big-endian field, each counted string and the data |
| Serializer.WriteBlocks | FLACMetadataEditor.js:316-327 | the `forEach` writes every block, header then payload, right after the previous one |
| Serializer.SerializeMetadata | FLACMetadataEditor.js:309-338 | `serializeMetadata` produces the signature, the written blocks and the frames |
| Serializer.SerializeLength | FLACMetadataEditor.js:310-313 | the output has `4 + Σ(4 + size_i) + max(0, len − framesOffset)` bytes |
| Serializer.SerializeKeepsFrames | FLACMetadataEditor.js:334 | the bytes after the metadata are the original's from `framesOffset` on |
| Serializer.SerializeBlockAt | FLACMetadataEditor.js:318-326 | block i starts at `4 + Σ_{k<i}(4 + size_k)`, header and payload, with the last flag on the final block only |
| Serializer.HeaderLayout | FLACMetadataEditor.js:319-322 | the header byte is the type number with bit 7 set exactly on the last block, then the size in 24 big-endian bits |
| RoundTrip.ApplicationRoundTrip | FLACMetadataEditor.js:366-370 | an APPLICATION payload with a 4-byte id is read back as written |
| RoundTrip.SeekPointRoundTrip | FLACMetadataEditor.js:374-380 | the i-th 18-byte slot of a written seek table reads back as the i-th point, when its fields are 16, 16 and 4 lower-case hex digits |
| RoundTrip.SeekTableRoundTrip | FLACMetadataEditor.js:371-382 | a SEEKTABLE of such points is read back as written: the size gives back the count, and each slot its point |
| RoundTrip.CommentLoopRoundTrip | FLACMetadataEditor.js:393-399 | the comment loop over the counted `KEY=value` strings of pairs free of `=` adds those pairs, in order |
| RoundTrip.VorbisCommentRoundTrip | FLACMetadataEditor.js:383-400 | a VORBIS_COMMENT payload is read back as written, vendor and map, when the map is rebuilt by its own strings and every length fits 32 bits |
| RoundTrip.PictureRoundTrip | FLACMetadataEditor.js:403-425 | a PICTURE payload with every number and length below 2^32 is read back as written |
| RoundTrip.StreamInfoReencodes | FLACMetadataEditor.js:346-362 | any 34 STREAMINFO bytes, decoded and written again, are themselves: every bit is kept in some field |
| RoundTrip.PayloadRoundTrip | FLACMetadataEditor.js:341-428 | `_parseMetadataBlock` undoes `_serializeMetadataBlock` for every payload type, under the conditions above |
| RoundTrip.HeaderRestored | FLACMetadataEditor.js:319-322 | the header written for a block is the four bytes it was read from, when the type, the size and the last flag agree |
| RoundTrip.BlockRestored | FLACMetadataEditor.js:318-326 | a block whose payload re-encodes to its bytes is written, header and payload, as the bytes it was read from |
| RoundTrip.ChunksRestored | FLACMetadataEditor.js:316-327 | the blocks of a parsed chain that all re-encode, the final one flagged last, are written as the bytes from 4 up to `framesOffset` |
| RoundTrip.ParseThenSerialize | FLACMetadataEditor.js:309-338 | `serializeMetadata` right after parsing gives the file back byte for byte when every block re-encodes to its bytes and the final block carries the last flag |
| RoundTrip.MinimalFileParses | FLACMetadataEditor.js:430-460 | `fLaC`, a last-flagged 34-byte STREAMINFO and the frames `AA BB` parse as one STREAMINFO block at offset 4, with `framesOffset` 42 |
| RoundTrip.MinimalFileRoundTrip | FLACMetadataEditor.js:309-338 | that file is written back byte for byte, whatever its 34 STREAMINFO bytes |
| RoundTrip.CueSheetFileParses | FLACMetadataEditor.js:401-402 | a file with a one-byte CUESHEET block parses, the payload not kept |
| RoundTrip.CueSheetShrinks | FLACMetadataEditor.js:60 | that file is written back with a CUESHEET of size 0 and no payload, one byte shorter |
| RoundTrip.SecondSeparatorLost | FLACMetadataEditor.js:22-23 | the comment `A=b=c` is read as field `A` with value `b`, and written back as `A=b` alone |
| RoundTrip.FieldNameRaised | FLACMetadataEditor.js:23 | the comment `a=b` is stored under `A` and written back as `A=b` |
| Reencode.StreamInfoBytesReencode | FLACMetadataEditor.js:230-246 | the STREAMINFO writer always writes 34 bytes, and a decoded payload is written back as itself exactly when it has 34 bytes |
| Reencode.PaddingReencodes | FLACMetadataEditor.js:247-248 | PADDING is written as `blockSize` zero bytes, so a PADDING payload is written back as itself exactly when every byte of it is 0 |
| Reencode.ApplicationReencodes | FLACMetadataEditor.js:249-253 | a decoded APPLICATION payload is written back as itself exactly when it holds at least the 4 id bytes; a shorter one is padded to 4 |
| Reencode.SeekPointsRestored | FLACMetadataEditor.js:254-261 | points each read from their own 18 bytes are written back as those bytes |
| Reencode.SeekTableReencodes | FLACMetadataEditor.js:254-261 | a decoded SEEKTABLE is written back as itself exactly when its size is a multiple of 18; a trailing partial point is written as a whole one |
| Reencode.SortedPairsDetermined | FLACMetadataEditor.js:30-38 | two pair lists with keys in order that pair every key with the same values are equal, so `toStringArray` has one output per packet |
| Reencode.InsertPairsStored | FLACMetadataEditor.js:21-29 | `_addComment` of pairs with upper-case keys, no value twice under a key, appends to each key's list exactly the values paired with it, and adds exactly the keys that have one |
| Reencode.PairsOfInserted | FLACMetadataEditor.js:30-38 | pairs in `toStringArray`'s order (upper-case keys, sorted, no pair twice), added to an empty packet, are the pairs `toStringArray` then emits |
| Reencode.VorbisCommentReencodes | FLACMetadataEditor.js:262-277 | a VORBIS_COMMENT payload laid out as the writer lays it out (counted vendor, count, counted `KEY=value` strings with upper-case keys in sorted order, one `=` each, no string twice, nothing after) is written back as itself |
| Reencode.CueSheetReencodes | FLACMetadataEditor.js:278-279 | a CUESHEET is written with no payload, so it is written back as itself exactly when its payload was empty |
| Reencode.PictureReencodes | FLACMetadataEditor.js:280-305 | a PICTURE payload whose counted data ends where the block ends is written back as itself |
| Reencode.PayloadReencodes | FLACMetadataEditor.js:224-307 | a payload of any known type, in the form above for its type and decoded from its declared size, is written back as the same bytes |
| Reencode.BlockReencodes | FLACMetadataEditor.js:341-342 | a block read from the file whose payload bytes are in that form re-encodes to the bytes it was read from |
| Reencode.ParsedFileRestored | FLACMetadataEditor.js:309-338 | `serializeMetadata` right after parsing gives the file back byte for byte when each block's payload lies inside the file in the form above for its type and the final block carries the last flag |
| Editor.ParsedIsConsistent | FLACMetadataEditor.js:430-460 | a parsed file meets the editor's invariant: typed payloads, canonical comment maps |
| Editor.FindVorbisComment | FLACMetadataEditor.js:143-147 | `_vorbisComment` is the first VORBIS_COMMENT block, or none |
| Editor.CommentsOf | FLACMetadataEditor.js:143-147 | the comment map of that block, or the TypeError when there is none |
| Editor.SetCommentsKeeps | FLACMetadataEditor.js:158-161 | replacing the comment map by a canonical one keeps the invariant, writability and which block is found |
| Editor.GetCommentOf | FLACMetadataEditor.js:180-182 | `getComment` looks the upper-cased field up in the first comment block |
| Editor.PictureBlock | FLACMetadataEditor.js:190-210 | the new block is a PICTURE with each falsy property replaced by its default (3, `image/jpeg`, empty, 0) |
| Editor.InsertPicture | FLACMetadataEditor.js:212-217 | the splice fails only on an empty block list |
| Editor.PicturePlacement | FLACMetadataEditor.js:212-217 | the picture goes just before a final PADDING block, else at the end, and the other blocks keep their order |
| Editor.PictureKeeps | FLACMetadataEditor.js:212-217 | inserting the picture keeps the invariant and writability |
| Editor.AddCommentIdempotent | FLACMetadataEditor.js:158-161 | adding the same comment twice is adding it once |
| Editor.AddCommentThenGet | FLACMetadataEditor.js:149-182 | after `addComment`, `getComment` of the field finds the value |
| Editor.RemoveAllThenGet | FLACMetadataEditor.js:166-167 | after `removeComment()` every field reads as absent |
| Editor.RemoveFieldThenGetComment | FLACMetadataEditor.js:169-171 | after `removeComment(f)` f reads as absent and other fields as before |
| Editor.RemoveValueThenGet | FLACMetadataEditor.js:172-175 | the corrected value form: the field's values afterwards are the old ones with the removed value taken out at its one position, the others in their stored order; other fields read as before |
| Editor.RemoveValueAsWrittenDoesNothing | FLACMetadataEditor.js:174-175 | as written, the value form never changes the metadata for a field other than the editor's own property names |
| Editor.RemoveValueAsWrittenExample | FLACMetadataEditor.js:174-175 | `removeComment("ARTIST", "x")` leaves `["x"]` stored, where the corrected form leaves `[]` |
| Editor.Reframed | FLACMetadataEditor.js:458 | after writing, the frames begin right after the new metadata |
| Editor.SerializeTwice | FLACMetadataEditor.js:309-338 | with `framesOffset` updated, writing the written file again changes nothing |
| Editor.SerializeAsWritten | FLACMetadataEditor.js:309-338 | as written, the metadata is left as it was and the buffer is replaced |
| Editor.SerializeTwiceAsWritten | FLACMetadataEditor.js:334 | as written, once the metadata size has changed, a second write copies frames from the stale offset and the file length changes |
| Editor.Editor.Init | FLACMetadataEditor.js:79-95 | the editor holds the buffer and its metadata |
| Editor.Editor.Open | FLACMetadataEditor.js:79-95 | the constructor parses the buffer: it fails exactly as `_parseMetadata` does, and otherwise holds the buffer and the parsed metadata |
| Editor.Editor.AddComment | FLACMetadataEditor.js:149-164 | applies `addComment` to the metadata or raises its error, keeps the invariant and the buffer |
| Editor.Editor.RemoveComment | FLACMetadataEditor.js:165-179 | applies the corrected `removeComment`, keeps the invariant and the buffer |
| Editor.Editor.GetComment | FLACMetadataEditor.js:180-182 | reads the comment map of the current metadata |
| Editor.Editor.AddPicture | FLACMetadataEditor.js:184-220 | applies `addPicture` (error when `data` has no `byteLength` or there are no blocks), keeps the invariant and the buffer |
| Editor.Editor.SerializeMetadata | FLACMetadataEditor.js:309-338 | replaces the buffer by the written file and moves `framesOffset` to the end of the new metadata |

## Left out

- UTF-8 encoding and decoding (`TextEncoder`, `TextDecoder`, the `String.prototype.toUTF8` patch) are not modelled. Text is the bytes themselves, so an invalid UTF-8 sequence is not replaced by U+FFFD when read.
- `toUpperCase` is modelled on ASCII letters only; other characters are left as they are.
- `sort()` compares UTF-16 code units; the model sorts keys by their bytes. The two orders agree on ASCII field names.
- The `ArrayBuffer`/`Buffer` duck-typing check of the constructor is not modelled: the constructor takes bytes. For `addPicture` it is the boolean `dataIsByteBuffer` of the input.
- The signature is read but never checked, and the model does not check it either.
- CUESHEET payloads are not decoded, and the writer writes them with size 0, as the source does. A file with a non-empty CUESHEET block therefore does not come back as read (`RoundTrip.CueSheetShrinks`).
- RoundTrip.ParseThenSerialize: takes as given that every block re-encodes to the bytes it was read from (`RoundTrip.Reencodes`) and that the final block carries the last flag. `Reencode.ParsedFileRestored` discharges the first condition from the bytes alone. A payload re-encodes when its type is known and its bytes are in the form `Reencode.ReencodableBytes` names: 34 bytes for STREAMINFO; all zero for PADDING; at least 4 bytes for APPLICATION; a multiple of 18 bytes for SEEKTABLE; empty for CUESHEET; data ending where the block ends for PICTURE; and for VORBIS_COMMENT, the strings `toStringArray` would write, with nothing after them. For STREAMINFO, PADDING, APPLICATION, SEEKTABLE and CUESHEET the form is also necessary. For VORBIS_COMMENT and PICTURE the converse is not proved.
- Reencode.VorbisCommentReencodes: states one direction only. A VORBIS_COMMENT payload in another form may still happen to be written back as read; which ones do is not characterised.
- Reencode.PictureReencodes: states one direction only. A PICTURE payload whose fields are cut short by the end of the block is not characterised.
- A comment map round-trips only when it is rebuilt by its own strings. Text after a second `=` is dropped when read (`RoundTrip.SecondSeparatorLost`), lower-case field names come back upper-cased (`RoundTrip.FieldNameRaised`), repeated values are merged and the fields are written in sorted order, so such a comment block is not written back as read.
- Reserved and invalid (127) blocks have no `serializedSize`. The writer requires `MetadataWritable`, which excludes them.
- Seek-point fields and the MD5 are kept as hex text, as in the source. The writer requires each to fit its slot, which every parsed block does.
- The SEEKTABLE point count `size / 18` is a JavaScript float; the loop runs `⌈size / 18⌉` times, and the model uses that count.
- `Math.pow` and `Math.trunc` in the totalSamples split are integer division and remainder by 2^32.
- Falsy properties of the `addPicture` argument (0, empty string, absent) are modelled as 0 and empty bytes.
- The `this` returned for chaining is not modelled; mutators return `Result<()>` instead.
- Exceptions are `Err` results: the parser's RangeError, the TypeError of a comment without `=`, and the TypeErrors of editing without a VORBIS_COMMENT block or inserting a picture into an empty block list.
- The serializer takes the original bytes as a value, so leaving the original buffer untouched holds by construction and is not a separate lemma.
- Editor.Editor.RemoveComment: does not model the as-written value form. That form never filters (see Findings) and is modelled separately by `Editor.RemoveCommentAsWritten`.
- Editor.Editor.SerializeMetadata: updates `framesOffset`, which the source does not (see Findings); `Editor.SerializeAsWritten` models the source's behaviour.
- Serializer.SerializeBlock: sizes a VORBIS_COMMENT payload with the corrected, byte-counted vendor length, so it writes a payload for a non-ASCII vendor string. The source allocates `serializedSize` bytes with the UTF-16 count (FLACMetadataEditor.js:59, 225), and its `bytes.set` then throws a RangeError. The as-written size is `Blocks.SerializedSizeAsWritten` (see Findings).
- Serializer.WriteBlocks: writes each block with that corrected size, so for a non-ASCII vendor string it writes blocks where the source throws the RangeError.
- Serializer.SerializeMetadata: produces a file for a non-ASCII vendor string, where the source throws the RangeError and writes nothing.
- Editor.Editor.SerializeMetadata: replaces the buffer for a non-ASCII vendor string, where the source throws the RangeError and keeps the old buffer.
- Editor.PictureBlock: the `PictureInput` fields `width`, `height`, `colorDepth`, `colorNumber` and `apicType` are natural numbers. The source also accepts negative numbers, which `_uint32ToUint8Array` writes modulo 2^32 (FLACMetadataEditor.js:115-123). `Editor.Editor.AddPicture` takes the same input.
- `scriptVersion` and the demo page in `demo.js` are not part of this model.

## Findings

| source | as written | input that shows it | evidently intended | confidence | as-written member | corrected member |
|---|---|---|---|---|---|---|
| FLACMetadataEditor.js:174 | `removeComment(field, value)` filters only when `this.hasOwnProperty(field)`, and `this` is the editor, whose own properties are `arrayBuffer` and `metadata` | `removeComment("ARTIST", "x")` on a map holding `ARTIST=x`: the value stays | test the comment map: `this._vorbisComment.comments.hasOwnProperty(field)` | high, not executed | Editor.RemoveValueAsWrittenExample | Editor.RemoveValueThenGet |
| FLACMetadataEditor.js:59 | `serializedSize` counts the vendor string by `vendorString.length`, in UTF-16 code units, while lines 263-266 write its UTF-8 bytes | vendor string `é` (UTF-8 `C3 A9`): the size is one byte short of the payload, and `bytes.set` overruns the array | count `vendorString.toUTF8().length`, as the comments are counted on line 58 | high, not executed | Blocks.SizeAsWrittenTooSmall | Blocks.PayloadSize |
| FLACMetadataEditor.js:334 | `serializeMetadata` replaces `arrayBuffer` but leaves `metadata.framesOffset` at the old metadata's end | add a comment, call `serializeMetadata` twice: the second call copies frames from the old offset in the new buffer, and the file length changes | set `framesOffset` to the new metadata length after writing | medium, not executed | Editor.SerializeTwiceAsWritten | Editor.SerializeTwice |
