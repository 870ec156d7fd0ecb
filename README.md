# zelda64-toolkit in Dafny

A model of the byte-level core of zelda64-toolkit. The toolkit works with
Nintendo 64 ROM images of the Zelda games: the N64 container, with its
4 KiB head and three byte orders, the byte-order converters, the games'
DMA filesystem table ("dmadata"), the ROM wrappers that find that table and
patch it back, and the two decompression engines that rebuild a ROM body
from the table. Also modelled are the small codecs the object reader uses:
segmented addresses, `Vec3s`, and the skeleton hierarchy.

The repository holds two generations of the crate. The newer one lives under
`zelda64-rs/` and works with `n64rom-rs/`. The older one is under `src/` and
has its own dma, rom, decompress and bytes modules. Both are modelled:

| module | source |
|---|---|
| `Common` | machine integers, `Result`/`Option`, big-endian words, `Cursor` writes |
| `Util` | zelda64-rs/src/util.rs |
| `Segment` | zelda64-rs/src/segment.rs |
| `Primitive` | zelda64-rs/src/primitive.rs |
| `Hierarchy` | src/models/hierarchy.rs |
| `ByteOrder` | the 4-byte word permutations shared by both converters |
| `Convert` | n64rom-rs/src/convert.rs |
| `Bytes` | src/bytes.rs |
| `N64Rom` | n64rom-rs/src/rom.rs |
| `Dma` | src/dma.rs (also standing in for the newer crate's dma module) |
| `Yaz0` | the Yaz0 codec, as an abstract decoder |
| `ZRom` | zelda64-rs/src/rom.rs |
| `LegacyRom` | src/rom.rs |
| `Decompress` | zelda64-rs/src/decompress.rs |
| `LegacyDecompress` | src/decompress.rs |

The form follows the source:
- Pure decoders and predicates are functions, with lemmas about them.
- The N64 container is a class whose image is an `array<u8>`. Its methods
  update the image in place: CRC correction, patching, table patch-back and
  writing out.
- The converters and swaps run loops over that array. Each is proved equal to
  a function on `seq<u8>`: `ByteOrder.Permuted`, `ByteOrder.Converted` or
  `Bytes.Swapped`.
- The table reader, the table search and both decompression loops are
  methods with loops. Each is proved against a specification: the predicates
  `Dma.Parses`, `Dma.FirstInitialAt` and `Dma.NoInitial`, or the prefix-wise
  functions `Decompress.Run` and `LegacyDecompress.Run`. The layout
  properties are lemmas about those functions.

Integer overflow follows Rust's debug builds: an overflowing `u32`
operation panics. A release build wraps instead; where that changes what the
code does, "## Left out" says so.

Most Rust panics that depend on decoded data are error values of the model:
- a slice start past the end;
- `unwrap` of a Yaz0 result;
- u32 underflow or overflow in the legacy loop;
- an input slice outside the image.

The other panics are `requires` clauses. Most are conditions on the caller's
own inputs:
- a table is present for `decompress`;
- the buffer length for the `LittleEndian` and `Mixed` swaps;
- `align16` does not overflow;
- `isize::MIN` is excluded from `to_signed_hex`.

One condition is on decoded table data: the `u32` addition in `range` must
not overflow (`Dma.Entry.RangeFits`, for every entry `Dma.AllFit`). It is a
`requires` of the decompressors rather than an error value; "## Left out"
lists what this leaves unpromised.

Some of the code's behaviour is easy to mistake; the model follows the code:
- The table search looks for the initial entry `(0, 0x1060, 0, 0)` in
  16-byte windows from offset 0. It does not look for a signature string.
  When nothing matches, it ends in an I/O error (`UnexpectedEof`); it never
  reports "not found" (src/dma.rs:316-327).
- The compact layout packs files back to back with no 16-byte alignment
  (zelda64-rs/src/decompress.rs:67-68).
- Every rewritten file entry gets physical start = virtual start, in both
  layouts (zelda64-rs/src/decompress.rs:71). It does not get the file's output
  location.
- A decompressed file's output length cannot differ from its virtual length,
  because the output slice is exactly that long. The only length error is the
  Yaz0 decoder not filling its output (`Yaz0.DecompressInto`).
- The older reader takes the table address from the body offset, while the
  entries hold image addresses and the newer reader searches the full image
  (zelda64-rs/src/rom.rs:45); see Findings.

## Model

| member | source | states |
|---|---|---|
| `Common.Range.Len` | zelda64-rs/src/decompress.rs:67-68 | the length of a range is end − start, and 0 when start > end |
| `Util.Align16` | zelda64-rs/src/util.rs:5-7 | the result is a multiple of 16 and lies in [v, v + 16) |
| `Util.Align16Least` | zelda64-rs/src/util.rs:5-7 | the result is the least multiple of 16 that is at least v |
| `Util.Align16Idempotent` | zelda64-rs/src/util.rs:5-7 | aligning twice is aligning once, and the result does not overflow |
| `Util.Align16Fixed` | zelda64-rs/src/util.rs:5-7 | v is a fixed point exactly when v is a multiple of 16 |
| `Util.Hex` | zelda64-rs/src/util.rs:12 | `{:X}` gives at least one upper-case hex digit, with no leading zero unless the value is 0 |
| `Util.HexValueOfHex` | zelda64-rs/src/util.rs:12 | reading the hex digits back gives the number |
| `Util.SignedHexRoundTrip` | zelda64-rs/src/util.rs:9-15 | the string starts with '-' exactly for negative n, the rest is hex digits, and its signed value is n |
| `Util.ToUsize` | zelda64-rs/src/util.rs:21-26 | start, end and length are kept |
| `Segment.SegAddr.Offset` | zelda64-rs/src/segment.rs:32-34 | the offset is below 2^24 |
| `Segment.From` | zelda64-rs/src/segment.rs:22-25 | the segment is the one given; the offset keeps only the low 24 bits of the one given |
| `Segment.FromRaw` | zelda64-rs/src/segment.rs:27-29 | the raw word is the one given |
| `Segment.RawSplits` | zelda64-rs/src/segment.rs:32-44 | the raw word is segment · 2^24 + offset |
| `Segment.FromParts` | zelda64-rs/src/segment.rs:22-44 | rebuilding from segment and offset gives back the same address |
| `Primitive.From` | zelda64-rs/src/primitive.rs:18-28 | `to_tuple` of `from(x, y, z)` is (x, y, z) |
| `Primitive.ReadI16` | zelda64-rs/src/primitive.rs:34-36 | reading succeeds exactly when two bytes remain, and otherwise fails with UnexpectedEof |
| `Primitive.I16RoundTrip` | zelda64-rs/src/primitive.rs:34-36 | the two's-complement big-endian reading of a value's bytes is the value |
| `Primitive.FromBytes` | zelda64-rs/src/primitive.rs:32-38 | decoding succeeds exactly when 6 bytes are present, and otherwise fails with UnexpectedEof |
| `Primitive.FromToBytes` | zelda64-rs/src/primitive.rs:32-38 | decoding an encoded `Vec3s` followed by any bytes gives it back |
| `Primitive.FromBytesPrefix` | zelda64-rs/src/primitive.rs:16 | only the first `SIZE` bytes matter |
| `Hierarchy.ReadU8` | src/models/hierarchy.rs:72-73 | a byte is read exactly when one remains |
| `Hierarchy.TopByte` | src/models/hierarchy.rs:32-33 | shifting a big-endian word right by 24 gives its first byte |
| `Hierarchy.HeaderFromBytes` | src/models/hierarchy.rs:24-40 | succeeds exactly with 12 bytes; limbs is the word at 0, count and display lists are bytes 4 and 8 |
| `Hierarchy.LimbFromBytes` | src/models/hierarchy.rs:69-82 | succeeds exactly with `Limb::SIZE` bytes; translation from 0..6, child byte 6, next byte 7, display list word at 8 |
| `Hierarchy.PlayerLimbFromBytes` | src/models/hierarchy.rs:103-113 | succeeds exactly with 16 bytes; a limb followed by the far-model display list word at 12 |
| `Hierarchy.LimbRoundTrip` | src/models/hierarchy.rs:69-82 | decoding an encoded limb followed by any bytes gives it back |
| `Hierarchy.PlayerLimbRoundTrip` | src/models/hierarchy.rs:103-113 | decoding an encoded player limb followed by any bytes gives it back |
| `Hierarchy.Limbs` | src/models/hierarchy.rs:144-150 | on success, exactly n limbs are returned |
| `Hierarchy.ReadFrom` | src/models/hierarchy.rs:139-152 | the reading loop computes `ReadFromSpec` |
| `Hierarchy.LimbsStopsAtError` | src/models/hierarchy.rs:145-147 | the first failing limb's error is the result of the whole read |
| `Hierarchy.LimbsAt` | src/models/hierarchy.rs:144-150 | the read succeeds exactly when every limb does; limb j has the index word at indexes + 4j as its address and is parsed at its 24-bit offset |
| `Hierarchy.ReadFromShape` | src/models/hierarchy.rs:139-152 | a successful read has the header at offset and exactly `count` limbs; each limb's address is its index word and its value is parsed at that offset |
| `ByteOrder.PermutedStep` | n64rom-rs/src/convert.rs:80-82 | permuting one more word extends the permutation of the first n words |
| `ByteOrder.PermutedTwice` | n64rom-rs/src/convert.rs:44-59 | two word permutations in a row are their composition |
| `ByteOrder.PermutedIdentity` | n64rom-rs/src/convert.rs:75-77 | the identity permutation changes nothing |
| `ByteOrder.SwapsAreInvolutions` | n64rom-rs/src/convert.rs:44-59 | each of the three swaps undoes itself |
| `ByteOrder.BigLittleReverses` | n64rom-rs/src/convert.rs:44-47 | Big↔Little reverses every 4-byte word |
| `ByteOrder.ConversionWithBig` | n64rom-rs/src/convert.rs:72-136 | converting to or from Big is the same rearrangement in both directions |
| `ByteOrder.ConversionCompose` | n64rom-rs/src/convert.rs:72-136 | converting a→b and then b→c is converting a→c |
| `ByteOrder.Converted` | n64rom-rs/src/convert.rs:72-144 | conversion keeps the buffer length; the rows around it give the composition and round trip |
| `ByteOrder.ConvertedCompose` | n64rom-rs/src/convert.rs:138-160 | on buffers, converting a→b and then b→c is converting a→c |
| `ByteOrder.ConvertedSame` | n64rom-rs/src/convert.rs:75-77 | converting to the current order leaves the buffer unchanged |
| `ByteOrder.ConvertRoundTrip` | n64rom-rs/src/convert.rs:138-160 | converting a→b and back restores the buffer |
| `ByteOrder.PairSwappedTwice` | src/bytes.rs:42-49 | swapping adjacent pairs twice restores the buffer |
| `ByteOrder.PairSwapIsBigMixed` | src/bytes.rs:42-49 | the pair swap is the Big↔Mixed word permutation (bytes 0↔1, 2↔3) |
| `Convert.ValidateAlignment` | n64rom-rs/src/convert.rs:25-31 | succeeds exactly for multiples of 4, and otherwise fails with `AlignmentError(value)` |
| `Convert.ValidateRomFileSize` | n64rom-rs/src/convert.rs:34-41 | over 64 MiB is `FileTooBigError`, checked first; then unaligned is `AlignmentError`; otherwise the size is returned |
| `Convert.SwapChunk` | n64rom-rs/src/convert.rs:44-59 | one chunk is permuted and no other byte changes |
| `Convert.SwapChunks` | n64rom-rs/src/convert.rs:80-82 | the chunk loop applies the swap's permutation to every word |
| `Convert.ConvertWith` | n64rom-rs/src/convert.rs:72-144 | the status is `AlreadyConverted` exactly when the orders agree; the buffer becomes its conversion |
| `Convert.ConvertBuffer` | n64rom-rs/src/convert.rs:147-160 | an unaligned buffer is refused with `AlignmentError(len)` and left unchanged; an aligned one is converted |
| `Convert.ConvertRom` | n64rom-rs/src/convert.rs:208-211 | the ROM image is converted from the ROM's own order, with the same alignment refusal |
| `Bytes.Swapped` | src/bytes.rs:14-49 | each swap keeps the buffer length; `Bytes.SwapInvolution` and `Bytes.SwapIsConversion` state what it does |
| `Bytes.SwapBig` | src/bytes.rs:14-18 | the buffer is unchanged |
| `Bytes.SwapLittle` | src/bytes.rs:24-35 | every 4-byte group is reversed |
| `Bytes.ReverseGroup` | src/bytes.rs:28-33 | one group is reversed and no other byte changes |
| `Bytes.SwapMixed` | src/bytes.rs:42-49 | every adjacent byte pair is swapped |
| `Bytes.Swap` | src/bytes.rs:72-78 | dispatches to the swap of the given byte order |
| `Bytes.SwapInvolution` | src/bytes.rs:14-49 | each swap applied twice restores the buffer |
| `Bytes.SwapIsConversion` | src/bytes.rs:72-78 | on aligned buffers each swap is the converter's conversion to and from Big |
| `N64Rom.FromEndianness` | n64rom-rs/src/rom.rs:70-77 | every byte order has an extension |
| `N64Rom.ExtensionsBijective` | n64rom-rs/src/rom.rs:35-41 | the two maps are inverse bijections: z64↔Big, n64↔Little, v64↔Mixed |
| `N64Rom.AsStrInjective` | n64rom-rs/src/rom.rs:62-68 | different extensions have different names |
| `N64Rom.Rom.From` | n64rom-rs/src/rom.rs:165-172 | the ROM holds the given header, IPL3, image and order |
| `N64Rom.Rom.Data` | n64rom-rs/src/rom.rs:142-144 | the body is the image after `HEAD_SIZE` |
| `N64Rom.Rom.Full` | n64rom-rs/src/rom.rs:175-177 | the full view is the whole image |
| `N64Rom.Rom.Len` | n64rom-rs/src/rom.rs:246-248 | the length is the image length |
| `N64Rom.Rom.IsEmpty` | n64rom-rs/src/rom.rs:251-253 | empty exactly when the length is 0 |
| `N64Rom.Rom.CheckCrc` | n64rom-rs/src/rom.rs:119-124 | reports the CRCs computed from IPL3 and body, and whether the header holds them |
| `N64Rom.Rom.CorrectCrc` | n64rom-rs/src/rom.rs:127-139 | returns whether the CRCs already matched; if not, it stores the computed pair; afterwards they always match |
| `N64Rom.Rom.WriteData` | n64rom-rs/src/rom.rs:147-149 | writing through `data_mut` changes only the given body bytes |
| `N64Rom.Rom.WriteFull` | n64rom-rs/src/rom.rs:180-182 | writing through `full_mut` changes only the given image bytes |
| `N64Rom.Rom.Write` | n64rom-rs/src/rom.rs:224-243 | the encoded head is laid over the image, which is emitted in the given or the ROM's own order; a head too large is a `WriteZero` error after the bytes that fit have been written |
| `N64Rom.FromImage` | n64rom-rs/src/rom.rs:152-162 | header errors propagate; an order other than Big is `UnsupportedEndianness`; otherwise the ROM wraps the image with header and IPL3 |
| `Yaz0.DecompressInto` | zelda64-rs/src/decompress.rs:75-77 | succeeds exactly when the decoder succeeds and fills the output; the output is then the decoded bytes |
| `Dma.Entry.RealRange` | src/dma.rs:184-196 | present only for files; a compressed file's range is its physical range; a decompressed one's starts at phys_start and is as long as the virtual range |
| `Dma.Entry.Validate` | src/dma.rs:199-217 | a virtual start past its end is an error, checked first; a real range start past its end is an error; otherwise the result is (virt, range, kind) |
| `Dma.Entry.Diff` | src/dma.rs:118-129 | validation errors propagate; a file gives virtual length minus physical length; other entries give None |
| `Dma.InitialIsDecompressed` | src/dma.rs:146-148 | the initial entry is decompressed, with real range [0, 0x1060) |
| `Dma.FromDecompressedKind` | src/dma.rs:137-139 | an entry built by `from_decompressed` is empty when all its fields are zero, and decompressed otherwise |
| `Dma.KindSentinels` | src/dma.rs:151-162 | the kind is derived from the sentinel values, in the source's order |
| `Dma.PhysicalErrorOnlyForCompressed` | src/dma.rs:199-217 | a physical range error happens exactly for a compressed entry whose virtual range is valid and whose physical start is past its end |
| `Dma.DiffOfDecompressed` | src/dma.rs:118-129 | a valid decompressed entry has difference 0 |
| `Dma.DiffExample` | src/dma.rs:118-129 | a 100-byte file stored in 40 bytes has difference 60 |
| `Dma.Read` | src/dma.rs:164-171 | an entry is read exactly when 16 bytes remain, and otherwise the read fails with UnexpectedEof |
| `Dma.ReadEncode` | src/dma.rs:164-171 | reading an encoded entry gives it back |
| `Dma.EncodeRead` | src/dma.rs:220-226 | encoding a read entry gives back the 16 bytes it came from |
| `Dma.Encode` | src/dma.rs:220-226 | an entry is 16 bytes; with `Dma.ReadEncode` and `Dma.EncodeRead` it is the inverse of `read` |
| `Dma.EncodeTable` | src/dma.rs:330-336 | a table encodes to 16 bytes per entry; `Dma.ReadEncodedTable` reads entry j back from record j |
| `Dma.ReadEncodedTable` | src/dma.rs:330-336 | record j of an encoded table is entry j |
| `Dma.Write` | src/dma.rs:330-336 | the table is the entries' encodings back to back, and the count is 16 per entry |
| `Dma.SelfEntryUnique` | src/dma.rs:287-289 | only the first entry whose start is the table address fixes the end |
| `Dma.ParsedUnique` | src/dma.rs:279-306 | a table parse is determined by stream, position and address |
| `Dma.EncodeParsed` | src/dma.rs:279-306 | the bytes of consecutive read records are the encoding of those records |
| `Dma.ParsedFits` | src/dma.rs:279-306 | a parsed table lies inside the stream, and writing it back where it was changes nothing |
| `Dma.ReadAt` | src/dma.rs:279-306 | on success the entries are the parse at that address; it fails with UnexpectedEof exactly when no parse exists |
| `Dma.ReadTable` | src/dma.rs:309-313 | the table address is the stream position as a u32 |
| `Dma.FindOffset` | src/dma.rs:316-327 | the result is the first 16-aligned window holding the initial entry; with none, the search fails with UnexpectedEof and never returns None |
| `Dma.Find` | src/dma.rs:265-276 | the table is parsed at the first initial entry, and the offset is returned with it; errors are UnexpectedEof |
| `ZRom.AddressedTable.Size` | zelda64-rs/src/rom.rs:72 | the size is the length of the table's encoding |
| `ZRom.Rom.From` | zelda64-rs/src/rom.rs:28-33 | the ROM holds the given container and table |
| `ZRom.Rom.Patch` | zelda64-rs/src/rom.rs:35-39 | writes as much as fits into the body at offset, returns that count, and changes nothing else, the head included |
| `ZRom.Rom.Slice` | zelda64-rs/src/rom.rs:55-58 | the slice is the bytes of the entry's real range in the full image |
| `ZRom.Rom.UpdateTableData` | zelda64-rs/src/rom.rs:68-79 | without a table nothing changes; with one, only its bytes at its address are rewritten with its encoding |
| `ZRom.Rom.Update` | zelda64-rs/src/rom.rs:61-66 | the table is patched back and then the CRCs are corrected; no other header field changes |
| `ZRom.Rom.WriteOut` | zelda64-rs/src/rom.rs:81-83 | writes the container in its own order, the head laid over the image; on `WriteZero` only the bytes that fit were laid |
| `ZRom.Rom.WriteWithUpdate` | zelda64-rs/src/rom.rs:85-89 | the image is updated and then written; CRCs match afterwards |
| `ZRom.Read` | zelda64-rs/src/rom.rs:41-53 | the table is found in the full image and parsed at the found offset; the read fails, with UnexpectedEof, only when no window holds the initial entry or no table parses at the first one |
| `ZRom.PatchBackUnchanged` | zelda64-rs/src/rom.rs:68-79 | patching a freshly read table back changes no byte |
| `LegacyRom.Rom.From` | src/rom.rs:49-54 | the ROM holds the given container and table |
| `LegacyRom.Rom.Patch` | src/rom.rs:56-60 | writes as many bytes as fit between offset and the end of the body, returns that count, and changes nothing else, the head included |
| `LegacyRom.Rom.UpdateTableData` | src/rom.rs:93-104 | the table's encoding is patched into the body at the stored offset; without a table nothing changes |
| `LegacyRom.Rom.Update` | src/rom.rs:86-91 | patched first, then the CRCs are corrected |
| `LegacyRom.Rom.WriteOut` | src/rom.rs:106-108 | writes the container in its own order, the head laid over the image (n64rom-rs's `write`; see Left out) |
| `LegacyRom.Rom.WriteWithUpdate` | src/rom.rs:110-114 | the image is updated and then written; CRCs match afterwards; the head overwrite as in `WriteOut` |
| `LegacyRom.ReadAsWritten` | src/rom.rs:62-84 | as written: the table is searched in the body and parsed with the body offset as its address; it fails only when there is no initial entry in the body or no parse at the first one with that address |
| `LegacyRom.ExampleFoundAt16` | src/dma.rs:316-327 | in the example body the initial entry is found only at offset 16 |
| `LegacyRom.BodyAddressMissesSelfEntry` | src/dma.rs:309-313 | with the body offset as address, no parse of the example body exists, so the read fails |
| `LegacyRom.Read` | src/rom.rs:62-84 | corrected: the table is parsed with the image address (body offset + head), and lies inside the body; it fails only under `LegacyRom.ReadFails` |
| `LegacyRom.ImageAddress` | src/rom.rs:66-67 | the image address of a body offset is the offset plus the head size when that fits in a u32 |
| `LegacyRom.ImageAddressFindsSelfEntry` | src/dma.rs:279-306 | with the image address, the example body parses into its two table entries |
| `LegacyRom.ExampleReadSucceeds` | src/rom.rs:62-84 | the corrected read cannot fail on the example body, so `LegacyRom.Read` succeeds there |
| `LegacyRom.PatchBackUnchanged` | src/rom.rs:93-104 | patching a freshly read table back writes all of it and changes no byte |
| `Decompress.DefaultOptions` | zelda64-rs/src/decompress.rs:34-36 | the default options select the matching layout |
| `Decompress.FileBytes` | zelda64-rs/src/decompress.rs:72-84 | a file's bytes are as long as its virtual range; a decompressed file's are its physical bytes; a compressed file's are the Yaz0 result of its physical bytes; a physical range past the image is `InputOutOfRange`, a Yaz0 failure is `Yaz0Error` |
| `Decompress.OutputStart` | zelda64-rs/src/decompress.rs:64-70 | an output slice always fits the 64 MiB arena |
| `Decompress.Step` | zelda64-rs/src/decompress.rs:58-87 | one pass keeps the arena at 64 MiB; `Decompress.DecompressEntry` proves the pass equal to it |
| `Decompress.Run` | zelda64-rs/src/decompress.rs:57-89 | the loop keeps the arena at 64 MiB; the layout rows below state what it holds |
| `Decompress.RunStopsAt` | zelda64-rs/src/decompress.rs:57-89 | the first failing entry's error is the result |
| `Decompress.RunErrorPersists` | zelda64-rs/src/decompress.rs:57-89 | once the loop has failed, later entries do not change the result |
| `Decompress.InvalidEntryAborts` | zelda64-rs/src/decompress.rs:58 | an entry that fails validation, of any kind, aborts the call with its `DmaError` |
| `Decompress.MatchingOutOfRange` | zelda64-rs/src/decompress.rs:64-65 | in the matching layout a file ending past 64 MiB aborts with `OutOfRangeError(virt)` |
| `Decompress.Place` | zelda64-rs/src/decompress.rs:81 | the arena gets the bytes at the slice and nothing else changes |
| `Decompress.DecompressRom` | zelda64-rs/src/decompress.rs:50-96 | the result is `Run` over the table: a fresh image holding the arena, the rewritten table at the old address, and the same header, IPL3 and order |
| `Decompress.DecompressEntry` | zelda64-rs/src/decompress.rs:58-87 | one loop pass computes `Step` |
| `Decompress.DecompressDefault` | zelda64-rs/src/decompress.rs:44-47 | `decompress` is `decompress_rom` with the matching layout |
| `Decompress.AppliedDisjoint` | zelda64-rs/src/decompress.rs:52 | with non-overlapping writes, each write's bytes survive in the arena |
| `Decompress.RunEntries` | zelda64-rs/src/decompress.rs:54-89 | the output table has the input's length and order; files become (virt.start, virt.end, virt.start, 0) and other entries are copied |
| `Decompress.RunLeavesNoCompressed` | zelda64-rs/src/decompress.rs:71 | no output entry is compressed |
| `Decompress.RunWrites` | zelda64-rs/src/decompress.rs:52-89 | there is one write per file, holding its bytes, and the arena is the zero arena with those writes applied |
| `Decompress.RunMatching` | zelda64-rs/src/decompress.rs:64-65 | in the matching layout each file is written at its virtual start |
| `Decompress.RunCompact` | zelda64-rs/src/decompress.rs:66-69 | in the compact layout each file is written where the previous files' lengths end, and the cursor ends at the total |
| `Decompress.PackedDisjoint` | zelda64-rs/src/decompress.rs:66-69 | packed writes never overlap |
| `Decompress.CompactWrites` | zelda64-rs/src/decompress.rs:55-69 | the compact writes are packed from 0, disjoint and inside the arena |
| `Decompress.CompactLayout` | zelda64-rs/src/decompress.rs:66-69 | in the compact layout, file j's bytes sit at the sum of the lengths before it |
| `Decompress.CompactTail` | zelda64-rs/src/decompress.rs:52 | in the compact layout every byte past the last file is zero |
| `Decompress.MatchingLayout` | zelda64-rs/src/decompress.rs:64-84 | in the matching layout with non-overlapping files, each file's bytes sit at its virtual range |
| `Decompress.MatchingGaps` | zelda64-rs/src/decompress.rs:52 | in the matching layout a byte outside every file's virtual range is zero |
| `LegacyDecompress.ReadExact` | src/decompress.rs:82-84 | reads exactly length bytes from start, or fails with UnexpectedEof; reading nothing succeeds |
| `LegacyDecompress.Piece` | src/decompress.rs:44-91 | a file's bytes: decompressed files read from body offset phys.start − head, or from 0 less the head for the first file; compressed ones are decoded from there |
| `LegacyDecompress.Resize` | src/decompress.rs:99 | the body becomes exactly n bytes, zero-padded or truncated |
| `LegacyDecompress.RunErrorPersists` | src/decompress.rs:39-97 | once the loop has failed, later entries do not change the result |
| `LegacyDecompress.InvalidEntryAborts` | src/decompress.rs:40 | an entry that fails validation aborts the call with its DMA error |
| `LegacyDecompress.Decompress` | src/decompress.rs:24-106 | the result is `Run` over the table, with the body resized to 64 MiB less the head and the table offset kept |
| `LegacyDecompress.FileStep` | src/decompress.rs:42-94 | one file's pass appends its bytes and advances `current` as `Step` says |
| `LegacyDecompress.RunPrefixes` | src/decompress.rs:62 | the body only grows along the table |
| `LegacyDecompress.CurrentStep` | src/decompress.rs:73-90 | each step advances `current` by the bytes appended, plus the head for the head-covering file |
| `LegacyDecompress.RunCurrent` | src/decompress.rs:32-90 | `current` is the body length plus one head per head-covering file |
| `LegacyDecompress.RunEntries` | src/decompress.rs:39-96 | the output table has the input's length and order; files are rewritten at the `current` before them and other entries are copied |
| `LegacyDecompress.FilePlaced` | src/decompress.rs:62-87 | each file's bytes sit in the body right after the bytes of the files before it, with no gaps |
| `LegacyDecompress.FileRecorded` | src/decompress.rs:45-69 | file i is rewritten as `from_decompressed(virt, current)`, with `current` taken before its bytes are appended |
| `LegacyDecompress.RunLeavesNoCompressed` | src/decompress.rs:45-69 | no output entry is compressed |

## Left out

- The stream-reading and file-level entry points are not modelled: `Rom::read` and `read_with_body` of n64rom-rs/src/rom.rs, `N64Rom::read` inside both `Rom::read`s, and the file and path converters of n64rom-rs/src/convert.rs:163-250. They are I/O over files and readers; their byte-level cores (`from_image`, `convert_with`, `convert_rom`, `Table::find`) are modelled.
- `update_file_extension`, `FileSize`, the `Display` impls, `to_paragraph` and the command-line tools are presentation or I/O.
- The IPL3 CRC computation, the header and IPL3 parsers and serialisers, and the final writer are function values passed in. Their modules (`header`, `ipl3`, `io`) are not part of this model. `HEAD_SIZE` = 0x1000 and the 0x40-byte header are taken as constants.
- The Yaz0 codec is an external crate. It is an abstract decoder from input bytes to plain bytes or an error.
- zelda64-rs/src/dma.rs is not part of this model. The newer crate's uses of it follow src/dma.rs: `from_uncompressed` is `from_decompressed`, `range_usize` is `range`, `table.address` is the discovery offset, and `size()` is 16 bytes per entry.
- Legacy `decompress` is not rebuilt into a `Rom`. Its last lines call `Table::from` with two arguments (src/decompress.rs:101), while src/dma.rs:258-262 takes one. The model returns the resized body, the rewritten entries and the kept offset.
- `swap_bytes` (src/bytes.rs:3-5) is folded into `Bytes.Swap`. `Relative::from` (zelda64-rs/src/segment.rs:10-15) is the constructor of `Segment.Relative`. `Entry::from_range` and `from_decompressed` have no separate rows; `Dma.FromDecompressedKind` states their kind.
- `Util.ToSignedHex` has no row of its own; `Util.SignedHexRoundTrip` states its contract. `isize::MIN` is excluded, because negating it overflows in the source.
- `Dma.Find`: the source's `None` branch is unreachable because the search never returns `None`, so the model has no `None` result.
- `ZRom.Read` and `LegacyRom.ReadAsWritten`: for the same reason they never store `None`. A ROM without an initial entry fails to read with UnexpectedEof.
- `LegacyDecompress.Piece`: for a compressed file it states only that its bytes are the decoder's result on the body from phys.start − head. The source does not check that length against the virtual range.
- `LegacyDecompress.Decompress`: the `u32` conversions of lengths (src/decompress.rs:64, 76, 89) and the overflow of `current` are one `OffsetOverflow` error. The unwrapped Yaz0 results (src/decompress.rs:53-54) are `Yaz0Failure`.
- `Decompress.DecompressRom`: a Yaz0 decoder that does not fill its output slice is reported as a Yaz0 error; the source's `decompress_into` hides how it reports that.
- `ZRom.Rom.Slice` and `Dma.Entry.RealRange` require the range to exist and lie inside the image, and the `u32` addition not to overflow. These are where the source unwraps or panics.
- `LegacyRom.Rom.WriteOut`: the older crate's container is not part of this model, and the source shows it differs from n64rom-rs's. src/decompress.rs:26 reads a field `data`, which n64rom-rs/src/rom.rs:86-93 does not have. src/rom.rs:106-107 calls `write` through `&self`, while n64rom-rs/src/rom.rs:240 needs `&mut self`. The model uses n64rom-rs's container: `data()` and `data_mut()` are `image[HEAD_SIZE..]`, and `write` is its flush-and-emit. So the model rewrites the image head, which a `&self` write could not do.
- `LegacyRom.Rom.WriteWithUpdate`: the same substitution of n64rom-rs's `write`; its head-overwrite clause comes from there.
- `LegacyDecompress.Decompress`: reads the body as n64rom-rs's `data()`, the image after `HEAD_SIZE`; the older container it was written for is not part of this model. The container it would rebuild from a body of ROM_CAPACITY − HEAD_SIZE bytes (src/decompress.rs:99-102) is not built.
- `Decompress.DecompressRom`: requires every entry to satisfy `Dma.Entry.RangeFits`, so that phys_start plus the virtual length fits in a `u32` (src/dma.rs:190). A table that breaks it panics in a debug build. In a release build the sum wraps, and `validate` (src/dma.rs:205-207) rejects the entry with `InvalidRange(Physical, …)`. The model promises neither outcome.
- `LegacyDecompress.Decompress`: likewise requires `Dma.AllFit` of the table, with the same debug and release outcomes. Its `u32` arithmetic also follows debug builds. A head-covering file shorter than the head is `Panicked(LengthBeforeHead)` (src/decompress.rs:75). A release build wraps that length to about 4 GiB, and `read_exact` then fails with UnexpectedEof. An overflow of `current` is `OffsetOverflow` (src/decompress.rs:65, 74, 90). A release build wraps it and goes on with wrong physical starts.
- Specification functions whose meaning is stated by other rows have no row of their own:
  - `Dma.Entry.Kind`, by `Dma.KindSentinels`;
  - `Dma.Initial`, by `Dma.InitialIsDecompressed`;
  - `LegacyDecompress.Step` and `LegacyDecompress.Run`, by `LegacyDecompress.RunEntries`, `RunCurrent`, `FilePlaced`, `FileRecorded` and `Decompress`;
  - `N64Rom.FromFileExt` and `N64Rom.AsStr`, by `N64Rom.ExtensionsBijective` and `N64Rom.AsStrInjective`;
  - `N64Rom.Rom.Order`, the order field as `Convert.ConvertRom` and `N64Rom.Rom.Write` use it;
  - `Segment.SegAddr.Segment` and `Segment.SegAddr.Raw`, by `Segment.RawSplits` and `Segment.FromParts`;
  - `Primitive.Vec3s.ToTuple`, by `Primitive.From`;
  - `Hierarchy.ReadFromSpec`, by `Hierarchy.ReadFrom` and `Hierarchy.ReadFromShape`;
  - `ByteOrder.Conversion`, by `ByteOrder.ConversionCompose` and `ByteOrder.ConversionWithBig`.
- `Decompress.MatchingLayout` requires the files' virtual ranges not to overlap. With overlapping files, later files overwrite earlier ones, which `Decompress.RunWrites` still describes.

## Findings

| source | as written | input that shows it | evidently intended | confidence | as-written member | corrected member |
|---|---|---|---|---|---|---|
| src/rom.rs:66-67 | `Rom::read` searches the body (`data()`), so `Table::read` (src/dma.rs:309-313) takes the body offset as the table's address. But table entries carry image addresses: the table's entry about itself has virtual start = body offset + 0x1000. So `read_at` never fixes the table's end and reads until the input runs out (UnexpectedEof). | a 64-byte body of four entries: (0,0,0,0), the initial (0,0x1060,0,0), the self entry (0x1010,0x1030,0x1010,0), and (0,0,0,0). The initial entry is found at body offset 16; address 16 matches no virtual start. | parse with address = body offset + `HEAD_SIZE`, the image address, as the newer zelda64-rs/src/rom.rs:45 does by searching `full()` | not executed | `LegacyRom.ReadAsWritten`, `LegacyRom.BodyAddressMissesSelfEntry` | `LegacyRom.Read`, `LegacyRom.ImageAddressFindsSelfEntry`, `LegacyRom.ExampleReadSucceeds` |
