# ASAR archives and signature scanners, modelled in Dafny

This project models the archive core of Wemod-Patcher and the three byte-signature
scanners the patcher uses.

The archive core is AsarSharp, a C# port of Electron's `asar` tool. An ASAR archive is:

- an 8-byte *size pickle*, whose payload is one `UInt32`: the length of the header pickle;
- a *header pickle*, whose payload is one string: the JSON text of the header tree;
- the *blob*, the concatenated contents of every packed file.

Each file node of the header tree records the file's size, its offset in the blob (as
decimal text), its integrity record and its flags.

The model covers these parts of AsarSharp:

- **Pickle writer** (`PickleSpec`, `PickleLaws`, `PickleFromBuffer`, and the class
  `PickleBuffer.Pickle` over an `array<byte>`). It models the pickle's header buffer, its
  header size, its capacity after the header and its write offset. Writes are 4-byte
  aligned and grow the buffer in 64-byte units. The size field is little-endian.
- **Pickle reader** (`PickleReader`, `PickleReaderLaws`, and the class `PickleCursor.Iterator`).
  It models the read cursor. The cursor pins to the end on a read that is too long.
  `PickleCodec` proves that what the writer writes, the reader reads back.
- **Header tree** (`Entries`, `Tree`, `FilesystemSpec`, `FilesystemQueries`, and the class
  `Filesystems.Filesystem`). It models:
  - directory walking and creation;
  - file insertion, packed or unpacked;
  - node and file lookup with link following;
  - the file listing.
- **Disk** (`Disk`):
  - the archive-header reader;
  - reading a file's bytes;
  - the filesystem cache (the class `Disk.Cache`);
  - copying unpacked files;
  - writing an archive.
- **Integrity** (`Integrity`): the SHA-256 block-hash record of a file.
- **Creator** (`CreatorSpec`, and the class `Creator.AsarCreator`):
  - the per-file dispatch;
  - the unpack decision;
  - the insertion of packed files into the archive.
- **Extractor** (`ExtractorSpec`, `Extractor`): extraction, given as the list of actions it
  performs. This covers the guards against link escapes and the aggregated error.
- **Path helpers** (`Paths`, `Text`):
  - .NET `Path.GetDirectoryName` and `Path.GetFileName`;
  - `Extensions.GetDirectoryName` and `Extensions.GetBasePath`;
  - decimal and hexadecimal text.

The model also covers the three signature scanners:

- the C# `MemoryUtils` (`MemoryUtils`): a byte mask of 0s and 1s;
- the C# `PatternScanner` (`PatternScanner`): a text mask of `x` and `?`;
- the JavaScript `memoryScanner.js` (`MemoryScanner`): a text mask, with `undefined` past
  the end of the buffer or the mask.

`SignatureSyntax` holds their token syntax: .NET `Convert.ToByte(s, 16)`,
JavaScript `parseInt(s, 16)` and `Buffer.from`. Lemmas show that the three parsers and
searches agree on the signatures the C# parsers accept.

Behaviours of the code worth noting:

- `Extensions.GetBasePath` looks only for the last separator before the first wildcard. It
  returns "." when there is none.
- `ScanMemoryBlock` returns 0 whenever no mask byte under the pattern is 1 and the block is
  at least as long as the pattern (a mask of all 2s compares no byte at all). A block
  shorter than the pattern gives -1 first.
- `parseSignature` in `memoryScanner.js` rejects nothing. An empty or unreadable token
  becomes a required 0x00 byte (`MemoryScanner.UnreadableTokenRequiresZero`).
- The Windows branch of link extraction cannot run: no link is extracted on Windows
  before it (`ExtractorSpec.WindowsMeetsNoLinks`).

Four defects of the pickle code are recorded under "## Findings". The pickle modules
model each defect as written, beside a corrected definition. `Disk` builds on the
corrected definitions:

- it reads archives through `CreateFromBufferCorrected` and `ReadStringCorrected`;
- it writes the header pickle from `CreateEmptyCorrected`;
- it writes the size pickle from the code's own `CreateEmpty`, since one `UInt32` always fits.

Where the sizes read are in range, the corrected readers agree with the code
(`PickleFromBuffer.CorrectedAgrees`, `PickleReaderLaws.CorrectedReadStringAgrees`).
The code's own header writer, `Disk.HeaderBufferAsWritten`, fails for header JSON of 57
to 60 bytes. For every other length it writes the same bytes as the corrected writer
(`Disk.HeaderAsWrittenAgrees`).

Arithmetic on C# `int` values wraps modulo 2^32 (`Bytes.Unchecked32`). The model applies
this wrap:

- to the header size `CreateFromBuffer` derives;
- to the size `ToBuffer` copies;
- to the doubled capacity in `EnsureCapacity`.

Code the model cannot see is passed in as parameters: the JSON serialiser, SHA-256,
UTF-8 encoding, the unpack regular expression, `Path.GetRelativePath` /
`Path.GetFullPath` and the file system.

## Model

| member | source | states |
|---|---|---|
| Bytes.Int32RoundTrip | AsarSharp/PickleTools/Pickle.cs:350-364 | the little-endian 4-byte encoding of a 32-bit signed integer decodes back to it |
| Bytes.UInt32RoundTrip | AsarSharp/PickleTools/Pickle.cs:335-348 | the little-endian encoding of a 32-bit unsigned integer decodes back to it |
| Bytes.Int64RoundTrip | AsarSharp/PickleTools/Pickle.cs:382-400 | the little-endian 8-byte encoding of a 64-bit signed integer decodes back to it |
| Bytes.UInt64RoundTrip | AsarSharp/PickleTools/Pickle.cs:402-420 | the little-endian encoding of a 64-bit unsigned integer decodes back to it |
| Bytes.LeByte | AsarSharp/PickleTools/Pickle.cs:366-380 | byte k of the encoding is `(v >> 8k) & 0xFF` |
| Bytes.FromLeLe | AsarSharp/PickleTools/Pickle.cs:335-348 | an n-byte little-endian encoding of a value below 256^n decodes back to it |
| Bytes.LeFromLe | AsarSharp/PickleTools/Pickle.cs:335-348 | encoding a decoded n-byte sequence gives the sequence back |
| Bytes.SignedWrap | AsarSharp/PickleTools/PickleIterator.cs:26-29 | a value in the signed n-byte range, wrapped to n bytes and read as two's complement, is itself again |
| Bytes.Unchecked32 | AsarSharp/PickleTools/Pickle.cs:31 | the unchecked `int` result lies in [-2^31, 2^31) and differs from the exact value by a multiple of 2^32 |
| Bytes.Unchecked32Small | AsarSharp/PickleTools/Pickle.cs:91 | a sum already in the `int` range does not wrap |
| PickleSpec.AlignInt | AsarSharp/PickleTools/Pickle.cs:317-320 | with C# truncating `%`, for i ≥ 0 the result is a multiple of the alignment in [i, i+alignment) |
| PickleSpec.AlignIntLeast | AsarSharp/PickleTools/Pickle.cs:317-320 | the aligned value is the least multiple of the alignment not below i |
| PickleSpec.AlignOfMultiple | AsarSharp/PickleTools/Pickle.cs:317-320 | a multiple of the alignment, of either sign, is left unchanged (C#'s `%` of a negative multiple is 0) |
| PickleSpec.AlignFixedIffMultiple | AsarSharp/PickleTools/Pickle.cs:317-320 | `AlignInt(i, 4) == i` exactly when i is a multiple of 4 |
| PickleSpec.PayloadSizeRoundTrip | AsarSharp/PickleTools/Pickle.cs:298-306 | for 0 ≤ n < 2^31, GetPayloadSize after SetPayloadSize(n) is n, and nothing after the size field changes |
| PickleSpec.ResizeKeeps | AsarSharp/PickleTools/Pickle.cs:308-315 | old bytes are kept and the new bytes are 0; the new capacity is a multiple of 64 with request ≤ capacity < request + 64 |
| PickleSpec.GrowMakesRoom | AsarSharp/PickleTools/Pickle.cs:322-331 | after EnsureCapacity(n) the capacity covers the aligned write, also when the `int` doubling wraps; nothing shrinks |
| PickleSpec.GrowTwice | AsarSharp/PickleTools/Pickle.cs:110-113 | the second capacity check a write makes after EnsureCapacity changes nothing |
| PickleSpec.Put | AsarSharp/PickleTools/Pickle.cs:115-125 | the write succeeds exactly when the padded bytes fit in the header array at header size plus write offset and the array holds a size field; on success the offset advances by the aligned length, on failure it is kept; header size, capacity and array length never change |
| PickleLaws.CreateEmptyIsZeroed | AsarSharp/PickleTools/Pickle.cs:50-58 | a fresh pickle is 64 zero bytes, header size 4, capacity 64, offset 0, and ToBuffer gives four zero bytes |
| PickleLaws.WriteFixedAppends | AsarSharp/PickleTools/Pickle.cs:103-203 | a successful fixed-width write appends the value's little-endian bytes to the payload and updates the size field |
| PickleLaws.WriteStringAppends | AsarSharp/PickleTools/Pickle.cs:267-296 | a successful string write appends its length, its bytes and zero padding to a multiple of 4 |
| PickleLaws.WriteValueAppends | AsarSharp/PickleTools/Pickle.cs:98-296 | each successful write appends exactly the value's encoding |
| PickleLaws.WriteAllAppends | AsarSharp/PickleTools/Pickle.cs:98-296 | successful writes append the concatenated encodings |
| PickleLaws.WriteWithinCapacity | AsarSharp/PickleTools/Pickle.cs:110-113 | the write offset never exceeds the capacity |
| PickleLaws.FramedToBuffer | AsarSharp/PickleTools/Pickle.cs:89-95 | ToBuffer gives the size word followed by exactly the payload written, whenever header size plus payload is below 2^31 so the `int` sum does not wrap |
| PickleLaws.WriteAllToBuffer | AsarSharp/PickleTools/Pickle.cs:89-95 | after successful writes ToBuffer gives the size word and the concatenated encodings |
| PickleLaws.ResizeEstablishesRoomy | AsarSharp/PickleTools/Pickle.cs:308-315 | once the header array is as long as header size plus capacity, writes that fit the capacity fit the array |
| PickleLaws.RoomyWriteAllSucceeds | AsarSharp/PickleTools/Pickle.cs:98-296 | on such a pickle every write succeeds |
| PickleLaws.CreateEmptyNotRoomy | AsarSharp/PickleTools/Pickle.cs:52-56 | a fresh pickle's array is four bytes short of header size plus capacity |
| PickleLaws.UnresizedInt | AsarSharp/PickleTools/Pickle.cs:103-126 | on a fresh-shaped pickle, WriteInt succeeds exactly when the offset is at most 56 |
| PickleLaws.SixteenthIntOverruns | AsarSharp/PickleTools/Pickle.cs:103-126 | on a fresh pickle 15 ints are written and the 16th fails, though capacity 64 promises room for 16 |
| PickleLaws.FreshStringWindow | AsarSharp/PickleTools/Pickle.cs:267-296 | on a fresh pickle WriteString fails exactly when 57 ≤ length ≤ 60 |
| PickleLaws.CreateEmptyCorrected | AsarSharp/PickleTools/Pickle.cs:50-58 | the intended fresh pickle has room for its full capacity and an empty framed payload |
| PickleLaws.CorrectedWritesSucceed | AsarSharp/PickleTools/Pickle.cs:98-296 | from the intended fresh pickle every sequence of writes succeeds |
| PickleFromBuffer.FromBufferHeader | AsarSharp/PickleTools/Pickle.cs:26-48 | a buffer of at least 4 bytes gives header size ≤ length and a multiple of 4, read-only capacity, offset 0, and an empty header when the size is 0; the header size is the `int` difference, wrapped |
| PickleFromBuffer.WrappedHeaderAccepted | AsarSharp/PickleTools/Pickle.cs:31-43 | the 8 bytes [08 00 00 80 00 00 00 00] give an `int` header size that wraps to -2^31 and is kept, ToBuffer's sum wraps back to 8 and returns all 8 bytes, and the corrected check resets the size to 0 |
| PickleFromBuffer.FromShortBuffer | AsarSharp/PickleTools/Pickle.cs:29-30 | a buffer shorter than the size field is refused |
| PickleFromBuffer.ToBufferFromBuffer | AsarSharp/PickleTools/Pickle.cs:26-48 | a pickle's own buffer is read back with header size 4 and the same payload |
| PickleFromBuffer.FromBufferOfFourByteHeader | AsarSharp/PickleTools/Pickle.cs:26-48 | a buffer whose size word is its length minus 4 is read as a four-byte header |
| PickleFromBuffer.NegativeHeaderAccepted | AsarSharp/PickleTools/Pickle.cs:31-43 | an 8-byte buffer claiming a 12-byte payload is accepted with header size −4 |
| PickleFromBuffer.CreateFromBufferCorrected | AsarSharp/PickleTools/Pickle.cs:26-48 | the intended reader: short buffers are refused and the header size is between 0 and the length, a multiple of 4 |
| PickleFromBuffer.CorrectedAgrees | AsarSharp/PickleTools/Pickle.cs:26-48 | it agrees with the code whenever the wrapped `int` header size is not negative |
| PickleFromBuffer.CorrectedRefusesNegative | AsarSharp/PickleTools/Pickle.cs:36-48 | on the counterexample it falls back to header size 0 |
| PickleBuffer.Pickle.CreateEmpty | AsarSharp/PickleTools/Pickle.cs:50-64 | the new object's state is the fresh pickle `CreateEmpty` builds |
| PickleBuffer.Pickle.FromBuffer | AsarSharp/PickleTools/Pickle.cs:26-49 | on a buffer of at least 4 bytes the object's state is the one the reader gives, with the `int` wrap of the header size, and it keeps the caller's array unless the header size is reset to 0 |
| PickleBuffer.CreateFromBuffer | AsarSharp/PickleTools/Pickle.cs:26-49 | a new object in the state the reader gives, or ShortBuffer when that refuses |
| PickleBuffer.Pickle.ToBuffer | AsarSharp/PickleTools/Pickle.cs:89-95 | returns the bytes ToBuffer gives for the object's state: the first header size plus payload size bytes, that sum wrapped as an `int`, or an error when it is negative or past the array |
| PickleBuffer.Pickle.ReadPayloadSize | AsarSharp/PickleTools/Pickle.cs:303-306 | returns the size word as a signed 32-bit value |
| PickleBuffer.Pickle.SetPayloadSize | AsarSharp/PickleTools/Pickle.cs:298-301 | the array becomes the state's SetPayloadSize |
| PickleBuffer.Pickle.Resize | AsarSharp/PickleTools/Pickle.cs:308-315 | the array is replaced by a longer one keeping the old bytes, per the Resize state function |
| PickleBuffer.Pickle.EnsureCapacity | AsarSharp/PickleTools/Pickle.cs:322-331 | the state becomes the grown state, the doubled capacity taken as an `int` product, so the array covers the aligned write (GrowMakesRoom) |
| PickleBuffer.Pickle.WriteInt | AsarSharp/PickleTools/Pickle.cs:103-126 | result and new state are those of the WriteInt state function |
| PickleBuffer.Pickle.WriteBool | AsarSharp/PickleTools/Pickle.cs:98-101 | result and new state are those of WriteBool |
| PickleBuffer.Pickle.WriteUInt32 | AsarSharp/PickleTools/Pickle.cs:129-153 | result and new state are those of WriteUInt32 |
| PickleBuffer.Pickle.WriteInt64 | AsarSharp/PickleTools/Pickle.cs:154-179 | result and new state are those of WriteInt64 |
| PickleBuffer.Pickle.WriteUInt64 | AsarSharp/PickleTools/Pickle.cs:180-203 | result and new state are those of WriteUInt64 |
| PickleBuffer.Pickle.WriteString | AsarSharp/PickleTools/Pickle.cs:267-296 | result and new state are those of WriteString |
| PickleReader.IteratorOf | AsarSharp/PickleTools/PickleIterator.cs:13-19 | a cursor over the header starting at read index 0, offset by the header size; refused when the header is shorter than 4 bytes |
| PickleReader.Take | AsarSharp/PickleTools/PickleIterator.cs:76-86 | fails exactly when the length exceeds what is left before the end; otherwise returns payload offset plus read index; payload, offset and end are kept |
| PickleReader.ReadFixed | AsarSharp/PickleTools/PickleIterator.cs:62-66 | a successful read returns exactly the requested number of bytes |
| PickleReader.ReadBytes | AsarSharp/PickleTools/PickleIterator.cs:68-74 | a successful read returns exactly `length` bytes |
| PickleReader.ReadAll | AsarSharp/PickleTools/PickleIterator.cs:21-60 | a successful run returns one value per kind read |
| PickleReaderLaws.TakeMoves | AsarSharp/PickleTools/PickleIterator.cs:88-99 | a successful take advances by the aligned length, or pins to the end when less than that is left |
| PickleReaderLaws.RefusedTakePins | AsarSharp/PickleTools/PickleIterator.cs:78-81 | a refused take leaves the cursor at the end |
| PickleReaderLaws.TakeKeepsBounds | AsarSharp/PickleTools/PickleIterator.cs:76-99 | for a non-negative length, a cursor inside [0, end] stays inside |
| PickleReaderLaws.ReadValueKeepsBounds | AsarSharp/PickleTools/PickleIterator.cs:21-44 | fixed-width reads keep the cursor within bounds |
| PickleReaderLaws.ReadStringKeepsBounds | AsarSharp/PickleTools/PickleIterator.cs:56-60 | a string whose length is not negative keeps the cursor within bounds |
| PickleReaderLaws.ReadAllKeepsBounds | AsarSharp/PickleTools/PickleIterator.cs:21-60 | a run of reads of fixed-width kinds keeps the cursor within bounds |
| PickleReaderLaws.StickyFailure | AsarSharp/PickleTools/PickleIterator.cs:78-81 | after a read refused as too long, every later non-empty read is refused too (a negative string length does not pin: see NegativeLengthRewinds) |
| PickleReaderLaws.NegativeLengthMovesBack | AsarSharp/PickleTools/PickleIterator.cs:56-60 | a negative string length fails but moves the read index back by that length |
| PickleReaderLaws.NegativeLengthRewinds | AsarSharp/PickleTools/PickleIterator.cs:56-99 | on a concrete payload the read index becomes −4, outside the payload, and the next ReadInt returns the first int again |
| PickleReaderLaws.TakeCorrected | AsarSharp/PickleTools/PickleIterator.cs:76-86 | the intended take refuses negative lengths too, pins on refusal, and keeps the cursor within bounds |
| PickleReaderLaws.ReadBytesCorrected | AsarSharp/PickleTools/PickleIterator.cs:68-74 | returns `length` bytes and keeps the cursor within bounds |
| PickleReaderLaws.ReadStringCorrectedKeepsBounds | AsarSharp/PickleTools/PickleIterator.cs:56-60 | the intended ReadString keeps every cursor within bounds |
| PickleReaderLaws.CorrectedReadStringAgrees | AsarSharp/PickleTools/PickleIterator.cs:56-60 | it agrees with the code whenever the length read is not negative |
| PickleReaderLaws.CorrectedNegativeLengthPins | AsarSharp/PickleTools/PickleIterator.cs:56-99 | on the counterexample it pins to the end, so the next read fails |
| PickleCursor.Iterator.constructor | AsarSharp/PickleTools/PickleIterator.cs:13-19 | the object's state is IteratorOf the pickle |
| PickleCursor.CreateIterator | AsarSharp/PickleTools/Pickle.cs:81-84 | a fresh iterator over the pickle's state, or an error when the header is too short |
| PickleCursor.Iterator.Advance | AsarSharp/PickleTools/PickleIterator.cs:88-99 | the read index becomes that of the Advance state function |
| PickleCursor.Iterator.GetReadPayloadOffsetAndAdvance | AsarSharp/PickleTools/PickleIterator.cs:76-86 | result and read index are those of Take |
| PickleCursor.Iterator.ReadFixedBytes | AsarSharp/PickleTools/PickleIterator.cs:62-66 | result and read index are those of ReadFixed |
| PickleCursor.Iterator.ReadInt | AsarSharp/PickleTools/PickleIterator.cs:26-29 | result and read index are those of ReadInt |
| PickleCursor.Iterator.ReadBool | AsarSharp/PickleTools/PickleIterator.cs:21-24 | result and read index are those of ReadBool |
| PickleCursor.Iterator.ReadUInt32 | AsarSharp/PickleTools/PickleIterator.cs:31-34 | result and read index are those of ReadUInt32 |
| PickleCursor.Iterator.ReadInt64 | AsarSharp/PickleTools/PickleIterator.cs:36-39 | result and read index are those of ReadInt64 |
| PickleCursor.Iterator.ReadUInt64 | AsarSharp/PickleTools/PickleIterator.cs:41-44 | result and read index are those of ReadUInt64 |
| PickleCursor.Iterator.ReadBytes | AsarSharp/PickleTools/PickleIterator.cs:68-74 | result and read index are those of ReadBytes |
| PickleCursor.Iterator.ReadString | AsarSharp/PickleTools/PickleIterator.cs:56-60 | result and read index are those of ReadString |
| PickleCodec.ReadIntInverts | AsarSharp/PickleTools/PickleIterator.cs:26-29 | reading where an Int was written returns it and moves past its four bytes |
| PickleCodec.ReadUInt32Inverts | AsarSharp/PickleTools/PickleIterator.cs:31-34 | the same for UInt32 |
| PickleCodec.ReadInt64Inverts | AsarSharp/PickleTools/PickleIterator.cs:36-39 | the same for Int64 |
| PickleCodec.ReadUInt64Inverts | AsarSharp/PickleTools/PickleIterator.cs:41-44 | the same for UInt64 |
| PickleCodec.ReadStringInverts | AsarSharp/PickleTools/PickleIterator.cs:56-60 | reading where a string was written returns its bytes and moves past its padding |
| PickleCodec.ReadValueInverts | AsarSharp/PickleTools/PickleIterator.cs:21-60 | each value read back from its encoding is the value written |
| PickleCodec.ReadAllInverts | AsarSharp/PickleTools/PickleIterator.cs:21-60 | a run of reads over concatenated encodings returns the values written |
| PickleCodec.WriteThenRead | AsarSharp/PickleTools/Pickle.cs:61-296 | values written to a pickle that succeeds, sent through ToBuffer and CreateFromBuffer, read back exactly |
| PickleCodec.CorrectedWriteThenRead | AsarSharp/PickleTools/Pickle.cs:50-58 | from the intended fresh pickle every sequence of values reads back exactly |
| Entries.EmittedFields | AsarSharp/AsarFileSystem/FilesystemEntry.cs:9-47 | the serialised node has `unpacked` only when it is true, `files` only for a directory, `size` only for a file, `link` only for a link |
| Entries.Blank | AsarSharp/AsarFileSystem/FilesystemEntry.cs:9-37 | a new entry has every field absent |
| Entries.EmptyDirectory | AsarSharp/AsarFileSystem/FileSystem.cs:21 | an entry with an empty files dictionary is a directory with no children |
| Entries.Find | AsarSharp/AsarFileSystem/FilesystemEntry.cs:11 | a dictionary lookup returns the first index holding the key, or nothing exactly when no child has it |
| Entries.Put | AsarSharp/AsarFileSystem/FileSystem.cs:64-65 | setting a key keeps the other keys and their order, and adds a new key last |
| Entries.PutLookup | AsarSharp/AsarFileSystem/FileSystem.cs:64-65 | after setting a key, it maps to the new entry and the other keys are unchanged |
| Tree.ReplaceAt | AsarSharp/AsarFileSystem/FileSystem.cs:47-75 | replacing the node at a path makes that path hold the new node |
| Tree.ReplaceOff | AsarSharp/AsarFileSystem/FileSystem.cs:47-75 | replacing at a path leaves every path that is not below it, nor above it, unchanged |
| Tree.EnsureChild | AsarSharp/AsarFileSystem/FileSystem.cs:62-66 | a missing child of a directory is added as an empty directory; an existing one is kept |
| Tree.WalkFrom | AsarSharp/AsarFileSystem/FileSystem.cs:56-71 | a failing walk fails only with UnexpectedDirectoryState |
| Tree.WalkEnds | AsarSharp/AsarFileSystem/FileSystem.cs:56-74 | a successful walk from an existing node ends at the walked path, with the skipped segments left out, and that path exists in the new tree |
| Tree.WalkExisting | AsarSharp/AsarFileSystem/FileSystem.cs:56-74 | when the whole walked path already exists, the walk succeeds there and leaves the tree unchanged |
| Tree.WalkSkip | AsarSharp/AsarFileSystem/FileSystem.cs:58 | "." and empty segments are skipped |
| Tree.WalkFails | AsarSharp/AsarFileSystem/FileSystem.cs:60-71 | a walk fails exactly when some prefix reaches a node that is not a directory |
| Tree.WalkCreates | AsarSharp/AsarFileSystem/FileSystem.cs:62-66 | every missing directory along the path is created |
| Tree.WalkKeepsOthers | AsarSharp/AsarFileSystem/FileSystem.cs:62-66 | nodes off the walked path are unchanged |
| Tree.WalkExtends | AsarSharp/AsarFileSystem/FileSystem.cs:62-66 | a walk only adds nodes: every path that existed still has the same kind of node |
| FilesystemSpec.Open | AsarSharp/AsarFileSystem/FileSystem.cs:173-176 | a node without a files dictionary gets an empty one, otherwise it is unchanged |
| FilesystemSpec.WithChild | AsarSharp/AsarFileSystem/FileSystem.cs:178-181 | the parent gets the child under its name, the other children unchanged |
| FilesystemSpec.SearchNodeFromPath | AsarSharp/AsarFileSystem/FileSystem.cs:161-184 | the result names the parent directory's path and the child's name |
| FilesystemSpec.SearchNodeFromPathShape | AsarSharp/AsarFileSystem/FileSystem.cs:161-184 | on success the parent exists as a directory and the node under the name is a directory if it existed |
| FilesystemSpec.SearchNodeFromPathFails | AsarSharp/AsarFileSystem/FileSystem.cs:161-184 | it fails exactly when walking to the parent fails |
| FilesystemSpec.SearchNodeFromPathExisting | AsarSharp/AsarFileSystem/FileSystem.cs:165-170 | an existing node is returned as it is |
| FilesystemSpec.SearchNodeFromPathCreates | AsarSharp/AsarFileSystem/FileSystem.cs:178-181 | a missing name gets a fresh blank node |
| FilesystemSpec.InsertDirectoryMarks | AsarSharp/AsarFileSystem/FileSystem.cs:186-191 | the unpacked flag set is exactly the one passed |
| FilesystemSpec.InsertDirectoryFails | AsarSharp/AsarFileSystem/FileSystem.cs:186-191 | it fails exactly when the parent search fails |
| FilesystemSpec.InsertFilePacked | AsarSharp/AsarFileSystem/FileSystem.cs:217-230 | a packed file records its size, its integrity and its offset as decimal text that parses back; the running offset grows by its size; executable becomes true for a hidden file off Windows and is kept otherwise; its other fields and every node off its path are as the searches, which only add, left them |
| FilesystemSpec.InsertFileUnpacked | AsarSharp/AsarFileSystem/FileSystem.cs:209-215 | an unpacked file records its size and integrity and unpacked true, keeps its offset, executable, children and link, and the running offset is unchanged; every node off its path is as the searches, which only add, left it |
| FilesystemSpec.InsertFileFails | AsarSharp/AsarFileSystem/FileSystem.cs:193-221 | it fails exactly when the search fails, the entry is not a file, or a packed size exceeds UINT32_MAX; the offset is kept on failure |
| Filesystems.Filesystem.constructor | AsarSharp/AsarFileSystem/FileSystem.cs:18-24 | an empty root directory, header size 0, offset 0 |
| Filesystems.Filesystem.SetHeader | AsarSharp/AsarFileSystem/FileSystem.cs:41-45 | the header and header size become the given ones, nothing else changes |
| Filesystems.Filesystem.SearchNodeFromDirectory | AsarSharp/AsarFileSystem/FileSystem.cs:47-75 | result and new header tree are those of the Tree walk; nothing changes on failure |
| Filesystems.Filesystem.SearchNodeFromPath | AsarSharp/AsarFileSystem/FileSystem.cs:161-184 | result and new tree are those of the function of the same name |
| Filesystems.Filesystem.InsertDirectory | AsarSharp/AsarFileSystem/FileSystem.cs:186-191 | the new tree is that of InsertDirectory |
| Filesystems.Filesystem.InsertFile | AsarSharp/AsarFileSystem/FileSystem.cs:193-231 | new tree and offset are those of InsertFile |
| Filesystems.Filesystem.RecordFile | AsarSharp/AsarFileSystem/FileSystem.cs:199-230 | the node for the file is recorded as the spec's packed or unpacked entry |
| Filesystems.Filesystem.GetNode | AsarSharp/AsarFileSystem/FileSystem.cs:106-130 | result and new tree are those of the GetNode function |
| Filesystems.Filesystem.FollowNodeLink | AsarSharp/AsarFileSystem/FileSystem.cs:115-118 | a link met on the way is resolved from the root, as the GetNode function does |
| Filesystems.Filesystem.GetFile | AsarSharp/AsarFileSystem/FileSystem.cs:132-148 | result and new tree are those of the GetFile function |
| Filesystems.Filesystem.FollowFile | AsarSharp/AsarFileSystem/FileSystem.cs:142-145 | a link found by GetFile is followed when asked |
| Filesystems.Filesystem.ListFiles | AsarSharp/AsarFileSystem/FileSystem.cs:77-82 | returns the listing of the header tree |
| Filesystems.FillFilesFromMetadata | AsarSharp/AsarFileSystem/FileSystem.cs:84-103 | appends the listing of a directory's children, depth first, to the list given |
| FilesystemQueries.ListFilesExactlyOnce | AsarSharp/AsarFileSystem/FileSystem.cs:77-103 | every node of the tree is listed, once, under its own "/"-joined path, and nothing else is listed |
| FilesystemQueries.NodesComplete | AsarSharp/AsarFileSystem/FileSystem.cs:84-103 | the depth-first traversal reaches every node of the tree |
| FilesystemQueries.NodesDistinct | AsarSharp/AsarFileSystem/FileSystem.cs:84-103 | it reaches each path once |
| FilesystemQueries.GetNode | AsarSharp/AsarFileSystem/FileSystem.cs:106-130 | a node found is at a path that exists in the resulting tree |
| FilesystemQueries.GetFile | AsarSharp/AsarFileSystem/FileSystem.cs:132-148 | a file found exists, and is not a link when links are followed |
| FilesystemQueries.GetFileNothing | AsarSharp/AsarFileSystem/FileSystem.cs:136-139 | a lookup that finds nothing fails with "not found" |
| FilesystemQueries.GetFileFound | AsarSharp/AsarFileSystem/FileSystem.cs:132-148 | a file found is the node at its path |
| FilesystemQueries.GetFileFails | AsarSharp/AsarFileSystem/FileSystem.cs:132-148 | GetFile fails exactly when GetNode does or finds nothing |
| FilesystemQueries.GetNodeKeeps | AsarSharp/AsarFileSystem/FileSystem.cs:106-130 | a lookup does not change any existing node |
| FilesystemQueries.GetNodeExtends | AsarSharp/AsarFileSystem/FileSystem.cs:111 | a lookup only adds directories, through the walk to the parent |
| FilesystemQueries.GetNodeWalks | AsarSharp/AsarFileSystem/FileSystem.cs:111-129 | a lookup walks to the parent and then looks up each name |
| FilesystemQueries.NodeAtEnds | AsarSharp/AsarFileSystem/FileSystem.cs:115-129 | the node found by a walk with links followed is the node at the path reached |
| FilesystemQueries.NodeAtLink | AsarSharp/AsarFileSystem/FileSystem.cs:115-118 | a link is resolved from the root through its target, and the lookup continues from there |
| FilesystemQueries.GetNodeFindsListed | AsarSharp/AsarFileSystem/FileSystem.cs:122-125 | a node reached by plain names, whose parent is not a link, is found by its own listed path with the tree unchanged |
| FilesystemQueries.GetFileFindsListed | AsarSharp/AsarFileSystem/FileSystem.cs:132-148 | every listed file of a link-free tree is found by GetFile |
| FilesystemQueries.GetFileMissing | AsarSharp/AsarFileSystem/FileSystem.cs:120-139 | a name that is not in the tree is not found |
| Paths.GetDirectoryName | AsarSharp/Utils/Extensions.cs:36-48 | never empty: "." for an empty or parentless path, otherwise the text before the last separator or colon (root and separator normalisation of .NET are left out) |
| Paths.GetFileName | AsarSharp/AsarFileSystem/FileSystem.cs:163 | .NET `Path.GetFileName`: the part after the last separator or volume colon, which holds neither |
| Paths.SplitPath | AsarSharp/AsarFileSystem/FileSystem.cs:163-164 | directory name and file name together give back the path |
| Paths.BaseOfPlain | AsarSharp/Utils/Extensions.cs:73-77 | a path with no wildcard is its own base |
| Paths.BaseWithoutSeparator | AsarSharp/Utils/Extensions.cs:79-83 | with no separator before the first wildcard the base is "." |
| Paths.BaseBeforeWildcard | AsarSharp/Utils/Extensions.cs:79-85 | otherwise the base is the prefix before the last separator, before the wildcard, and it contains no wildcard |
| Paths.FirstWildcard | AsarSharp/Utils/Extensions.cs:73 | `IndexOfAny`: the first '*' or '?', or −1 |
| Paths.LastIndexOf | AsarSharp/Utils/Extensions.cs:79 | `LastIndexOf(sep, start)`: the last separator at or before start, or −1 |
| Paths.ListingPathJoins | AsarSharp/AsarFileSystem/FileSystem.cs:95 | a listed path is the parent's path, the separator and the child name |
| Paths.SegmentsAltSep | AsarSharp/AsarFileSystem/FileSystem.cs:52-54 | splitting on either separator gives the same segments as splitting after normalising |
| Paths.SegmentsOfJoin | AsarSharp/AsarFileSystem/FileSystem.cs:52-54 | splitting a joined path gives back its names |
| Paths.SplitJoined | AsarSharp/AsarFileSystem/FileSystem.cs:161-164 | the parent and name of a joined path are the joined prefix and the last name |
| Text.ParseDecimal | AsarSharp/AsarFileSystem/FileSystem.cs:224 | the decimal text of a non-negative number parses back to it |
| Text.ParseLong | AsarSharp/AsarFileSystem/Disk.cs:110 | a parsed offset is within the `long` range |
| Text.ParseSigned | AsarSharp/AsarFileSystem/Disk.cs:110 | `long.Parse` also accepts blanks around the number and a leading `+` or `-`: " 12 " and "+12" give 12 and "-5" gives -5 |
| Text.TrimStart | AsarSharp/AsarFileSystem/Disk.cs:110 | the result is a suffix of the text that does not start with a blank |
| Text.TrimEnd | AsarSharp/AsarFileSystem/Disk.cs:110 | the result is a prefix of the text that does not end with a blank |
| Text.TrimBoth | AsarSharp/AsarFileSystem/Disk.cs:110 | trimming removes exactly the blanks around a text that starts and ends with something else |
| Text.DigitsDecimal | AsarSharp/AsarFileSystem/FileSystem.cs:224 | the decimal text of a number reads back, digit by digit, as that number |
| Text.HexDigestRoundTrip | AsarSharp/Integrity/IntegrityHelper.cs:60-67 | the lower-cased hex digest with dashes removed has two lower-case hex characters per byte and decodes back to the bytes |
| Text.LowerOfRemoved | AsarSharp/Integrity/IntegrityHelper.cs:65 | removing dashes and lower-casing can happen in either order |
| Text.JoinSplit | AsarSharp/AsarFileSystem/FileSystem.cs:52-54 | joining the split pieces gives back the text |
| Text.SplitJoin | AsarSharp/AsarFileSystem/FileSystem.cs:52-54 | splitting pieces joined by a separator they lack gives back the pieces |
| Disk.ReadArchiveHeader | AsarSharp/AsarFileSystem/Disk.cs:36-69 | fails at the size read exactly when the archive is shorter than 8 bytes; on success the header pickle lies within the archive, and the header is the deserialised header string |
| Disk.DecodeSizeInverts | AsarSharp/AsarFileSystem/Disk.cs:174-180 | the size pickle written for a header reads back as the header pickle's length |
| Disk.DecodeSizeAgrees | AsarSharp/AsarFileSystem/Disk.cs:47-48 | on any buffer whose header size is not negative, the code's `CreateFromBuffer` + `ReadUInt32` gives what the corrected size reader gives |
| Disk.DecodeHeaderAgrees | AsarSharp/AsarFileSystem/Disk.cs:57-58 | on the same buffers, the code's `CreateFromBuffer` + `ReadString` succeeds exactly when the corrected header reader does, with the same string |
| Disk.DecodeSizeAsWrittenInverts | AsarSharp/AsarFileSystem/Disk.cs:47-48 | the code's own reader reads the size pickle back as the header pickle's length |
| Disk.DecodeHeaderAsWrittenInverts | AsarSharp/AsarFileSystem/Disk.cs:57-58 | the code's own reader reads the header pickle back as the JSON text |
| Disk.DecodeHeaderInverts | AsarSharp/AsarFileSystem/Disk.cs:174-180 | the header pickle the corrected writer makes for a JSON text reads back as that text |
| Disk.HeaderAsWritten | AsarSharp/AsarFileSystem/Disk.cs:168-174 | the code's header writer fails for JSON of 57 to 60 bytes and otherwise gives the size word and the string's encoding |
| Disk.HeaderAsWrittenAgrees | AsarSharp/AsarFileSystem/Disk.cs:168-174 | the code's header writer gives the corrected writer's bytes for every JSON length outside 57 to 60 |
| Disk.SizeWritten | AsarSharp/AsarFileSystem/Disk.cs:176-178 | the code's own fresh pickle takes the uint32 header length, and its buffer is the size word and that value |
| Disk.ArchiveHeaderRoundTrip | AsarSharp/AsarFileSystem/Disk.cs:36-69 | the header of an archive written by WriteFileSystem reads back as the JSON text written |
| Disk.PositionExact | AsarSharp/AsarFileSystem/Disk.cs:110 | a packed file starts at 8 + header size + its offset |
| Disk.ReadFile | AsarSharp/AsarFileSystem/Disk.cs:83-123 | a non-file is refused; a size outside [0, 2^31) is refused; a size of 0 gives no bytes; an unpacked file is the whole file `<root>.unpacked/<filename>`; a packed read succeeds whenever the offset parses and the position and size fit the archive, and a packed read gives exactly `size` bytes from 8 + header size + the offset as `long.Parse` reads it (a sign and blanks allowed, so "-5" starts before the blob), or fails on a negative position or a short read |
| Disk.Cache.constructor | AsarSharp/AsarFileSystem/Disk.cs:12 | the cache starts empty |
| Disk.Cache.ReadFilesystemSync | AsarSharp/AsarFileSystem/Disk.cs:70-81 | a cached archive path returns the cached filesystem and changes nothing; otherwise the archive is read and cached, or the error is returned with the cache unchanged |
| Disk.Cache.UncacheFilesystem | AsarSharp/AsarFileSystem/Disk.cs:127-136 | the path is removed; the result says whether it was cached |
| Disk.Cache.UncacheAll | AsarSharp/AsarFileSystem/Disk.cs:138-141 | the cache becomes empty |
| Disk.CopyFile | AsarSharp/AsarFileSystem/Disk.cs:143-162 | no copy exactly when the destination is the root path; otherwise the file name joined to the root path is copied to the file name joined to the destination |
| Disk.WriteFileSystem | AsarSharp/AsarFileSystem/Disk.cs:165-201 | the bytes written are the size pickle, the header pickle and the blob, and the copies are the unpacked files |
| Disk.WriteFiles | AsarSharp/AsarFileSystem/Disk.cs:187-199 | the loop appends the packed files' contents, in order, and collects the unpacked files' copies |
| Disk.BlobPlaces | AsarSharp/AsarFileSystem/Disk.cs:187-199 | each packed file's contents lie in the blob at the sum of the sizes before it |
| Disk.PackedFileReadsBack | AsarSharp/AsarFileSystem/Disk.cs:83-123 | a packed file of an archive written by WriteFileSystem reads back, through the header and ReadFile, as its contents |
| Integrity.BlockHashesAt | AsarSharp/Integrity/IntegrityHelper.cs:44-67 | one hash per block, the lower-case hex SHA-256 of the block |
| Integrity.GetFileIntegrity | AsarSharp/Integrity/IntegrityHelper.cs:30-58 | the record the reading loop builds is the integrity record of the file |
| Integrity.IntegrityRecord | AsarSharp/Integrity/IntegrityHelper.cs:11-56 | "SHA256", block size 4194304, blocks that tile the file, each hash the digest of its block, and a whole-file hash that decodes to the digest of the file |
| Integrity.ChunksTile | AsarSharp/Integrity/IntegrityHelper.cs:37-50 | the blocks read concatenate to the file and each is between 1 byte and the block size |
| Integrity.EmptyFileNoBlocks | AsarSharp/Integrity/IntegrityHelper.cs:40 | an empty file has no blocks |
| Integrity.WholeReadsWell | AsarSharp/Integrity/IntegrityHelper.cs:37-50 | reading by full blocks gives each block's exact bytes |
| CreatorSpec.ShouldUnpackPath | AsarSharp/AsarCreator.cs:82-85 | fails without options; otherwise true exactly when an unpack pattern is given and matches |
| CreatorSpec.HandleFileDispatch | AsarSharp/AsarCreator.cs:58-80 | fails with UnknownFileType when no type is known and with LinkNotImplemented for a link; records the type in the metadata |
| CreatorSpec.HandleAllStops | AsarSharp/AsarCreator.cs:48-51 | a failure stops the loop with that error |
| CreatorSpec.HandleFirstFails | AsarSharp/AsarCreator.cs:48-51 | the loop fails with the first file's error |
| CreatorSpec.LinkFirstAborts | AsarSharp/AsarCreator.cs:77-78 | a link before any file aborts packaging |
| CreatorSpec.DirectoryInsertedPacked | AsarSharp/AsarCreator.cs:69-71 | a directory is inserted with unpacked false |
| CreatorSpec.FileListedWithFlag | AsarSharp/AsarCreator.cs:72-76 | a file is listed last with its unpack flag; an unpacked file's node is marked unpacked |
| CreatorSpec.HandleAllSucceeds | AsarSharp/AsarCreator.cs:41-54 | a run without links or unknown types succeeds and lists exactly the regular files, in order |
| CreatorSpec.CreateSucceeds | AsarSharp/AsarCreator.cs:41-54 | the archive then receives exactly those files |
| CreatorSpec.InsertsDone | AsarSharp/AsarCreator.cs:87-91 | makes the archive and copy list for the files |
| Creator.NewAsarCreator | AsarSharp/AsarCreator.cs:25-30 | fails with NullArgument exactly when a path is missing |
| Creator.AsarCreator.constructor | AsarSharp/AsarCreator.cs:25-30 | keeps the source, destination and options; empty file list and metadata |
| Creator.AsarCreator.CreatePackageWithOptions | AsarSharp/AsarCreator.cs:32-38 | the result is that of CreatePackageFromFiles over the crawled file list |
| Creator.AsarCreator.CreatePackageFromFiles | AsarSharp/AsarCreator.cs:41-54 | result, metadata and writes are those of the creator spec |
| Creator.AsarCreator.HandleFile | AsarSharp/AsarCreator.cs:58-80 | result and new filesystem are those of the spec's HandleFile |
| Creator.AsarCreator.InsertsDone | AsarSharp/AsarCreator.cs:87-91 | the written archive is that of the spec's InsertsDone |
| ExtractorSpec.ExtractAllOutcome | AsarSharp/AsarExtractor.cs:13-129 | the first action makes the destination; extraction fails exactly when an entry failed, with all the errors aggregated; every later action writes the checked destination of a listed path or its directory |
| ExtractorSpec.EveryEntryAttempted | AsarSharp/AsarExtractor.cs:25-120 | an entry's failure does not stop the others |
| ExtractorSpec.ErrorsIffFailure | AsarSharp/AsarExtractor.cs:96-128 | errors are added exactly when some entry fails, and at most one per entry |
| ExtractorSpec.GrowsOnly | AsarSharp/AsarExtractor.cs:25-120 | actions and errors are only appended, never removed |
| ExtractorSpec.EntryStaysInside | AsarSharp/AsarExtractor.cs:35-39 | an entry that takes any action has a destination that passed the escape check, and every action writes that destination or its directory |
| ExtractorSpec.RunStaysInside | AsarSharp/AsarExtractor.cs:25-120 | every action of the whole run writes the checked destination of one of the entries, or its directory |
| ExtractorSpec.EscapeRefused | AsarSharp/AsarExtractor.cs:35-39 | an entry whose destination lies outside the extraction directory fails with that error and takes no action |
| ExtractorSpec.LinkOutsideDeletesFirst | AsarSharp/AsarExtractor.cs:55-69 | a link whose target lies outside: its only action deletes its destination, and the error names the link, its target and the resolved path |
| ExtractorSpec.WindowsMeetsNoLinks | AsarSharp/AsarExtractor.cs:19-86 | on Windows no entry deletes, copies or creates a link |
| ExtractorSpec.FileWritten | AsarSharp/AsarExtractor.cs:94-108 | a file that reads back is written first with the bytes read, with no error, at most one more action, and mode 755 set exactly when it is executable off Windows |
| ExtractorSpec.FileWritesDestination | AsarSharp/AsarExtractor.cs:94-108 | every action for a file writes bytes to, or sets the mode of, its destination |
| ExtractorSpec.LinkActions | AsarSharp/AsarExtractor.cs:47-93 | a link's actions first delete its destination; a target outside the extraction directory stops there; every action writes the destination or its directory |
| ExtractorSpec.CopyTarget | AsarSharp/AsarExtractor.cs:73-86 | copying a link's target writes only the link's destination or the directory holding it |
| ExtractorSpec.CreateLink | AsarSharp/AsarExtractor.cs:87-92 | creating a symbolic link writes only the link's destination or the directory holding it |
| Extractor.ExtractEntry | AsarSharp/AsarExtractor.cs:28-119 | actions and error are those of the spec for the entry |
| Extractor.ExtractNode | AsarSharp/AsarExtractor.cs:41-114 | actions and error are those of the spec for the node |
| Extractor.ExtractLink | AsarSharp/AsarExtractor.cs:47-93 | actions and error are those of LinkActions |
| Extractor.ExtractEntries | AsarSharp/AsarExtractor.cs:25-120 | actions and errors are those of the spec for the run |
| Extractor.ExtractAll | AsarSharp/AsarExtractor.cs:13-129 | actions and outcome are those of the spec's ExtractAll |
| MemoryUtils.ScanMemoryBlock | WeModPatcher/Utils/MemoryUtils.cs:15-71 | −1 when the buffer is shorter than the pattern; 0 when the mask has no 1; the first match when the mask has a 1 or is binary |
| MemoryUtils.FirstMatchUnique | WeModPatcher/Utils/MemoryUtils.cs:15-71 | the first match is unique |
| MemoryUtils.WildcardsMatchFirst | WeModPatcher/Utils/MemoryUtils.cs:28-40 | an all-wildcard pattern matches at once |
| MemoryUtils.TokenEntry | WeModPatcher/Utils/MemoryUtils.cs:83-92 | a wildcard gives (0, 0), a hex token its byte and mask 1, and any other token is refused |
| MemoryUtils.ParseTokensEntries | WeModPatcher/Utils/MemoryUtils.cs:81-93 | a parse succeeds exactly when every token does, entry by entry |
| MemoryUtils.ParsedWellFormed | WeModPatcher/Utils/MemoryUtils.cs:73-94 | a parse has one byte and one 0-or-1 mark per token, with the mark 0 exactly for wildcards, over a 0 byte |
| MemoryUtils.ParsedRefuses | WeModPatcher/Utils/MemoryUtils.cs:91 | a parse fails exactly when some token is not a wildcard and not a hex byte |
| MemoryUtils.ParseSignatureText | WeModPatcher/Utils/MemoryUtils.cs:73-94 | a well-formed signature, written out as text, parses back to itself |
| MemoryUtils.ParseSignature | WeModPatcher/Utils/MemoryUtils.cs:73-94 | success exactly when the text parses, and then the arrays hold the parse |
| MemoryUtils.FillEntries | WeModPatcher/Utils/MemoryUtils.cs:81-93 | the loop fills both arrays with the tokens' entries, or fails when a token is refused |
| SignatureSyntax.ConvertToByte | WeModPatcher/Utils/MemoryUtils.cs:91 | .NET `Convert.ToByte(s, 16)`: an optional '+', then an optional 0x/0X, then one hex digit or more worth less than 256; '-' and blanks are refused |
| SignatureSyntax.ConvertUpperPair | WeModPatcher/Utils/MemoryUtils.cs:91 | a byte's two upper-case hex digits convert back to it |
| SignatureSyntax.Tokens | WeModPatcher/Utils/MemoryUtils.cs:75 | the non-empty pieces of the text between blanks |
| SignatureSyntax.FormatTokens | WeModPatcher/Utils/MemoryUtils.cs:75 | tokens joined by single spaces split back into those tokens |
| SignatureSyntax.ParseIntUpperPair | memoryScanner.js:31 | `parseInt` reads a byte's two hex digits back as the byte |
| SignatureSyntax.ParseIntAgrees | memoryScanner.js:31 | on a token `Convert.ToByte` accepts, `parseInt` gives the same value |
| SignatureSyntax.ToUint8 | memoryScanner.js:36 | `Buffer.from`: a number in 0..255 is stored as it is, NaN as 0 |
| PatternScanner.IsMatch | WeModPatcher/Utils/PatternScanner.cs:25-33 | true exactly when every 'x' position holds the signature's byte |
| PatternScanner.FindPatternInBuffer | WeModPatcher/Utils/PatternScanner.cs:12-23 | the first offset where the signature matches, or −1, and −1 when fewer bytes were read than the signature's length |
| PatternScanner.FirstMatchUnique | WeModPatcher/Utils/PatternScanner.cs:12-23 | the first match is unique |
| PatternScanner.WildcardsMatchFirst | WeModPatcher/Utils/PatternScanner.cs:16-31 | an all-'?' mask matches at once |
| PatternScanner.TokenEntry | WeModPatcher/Utils/PatternScanner.cs:43-52 | a wildcard gives (0, '?'), a hex token its byte and 'x', and any other token is refused |
| PatternScanner.ParsedShape | WeModPatcher/Utils/PatternScanner.cs:35-56 | a parse has one byte and one 'x' or '?' per piece, '?' exactly for wildcards, over a 0 byte |
| PatternScanner.ParsedRefuses | WeModPatcher/Utils/PatternScanner.cs:40-52 | a parse fails exactly when some piece is refused |
| PatternScanner.EmptyPieceRefused | WeModPatcher/Utils/PatternScanner.cs:40-50 | a doubled, leading or trailing space makes the parse fail |
| PatternScanner.ParseSignatureText | WeModPatcher/Utils/PatternScanner.cs:35-56 | a well-formed non-empty signature, written out, parses back to itself |
| PatternScanner.ParseSignature | WeModPatcher/Utils/PatternScanner.cs:35-56 | success exactly when the text parses, and then the bytes and mask are the parse |
| PatternScanner.ParsedAsMemoryUtils | WeModPatcher/Utils/PatternScanner.cs:35-56 | a signature this parser accepts is accepted by `MemoryUtils` with the same bytes and the matching marks |
| PatternScanner.MatchesAgree | WeModPatcher/Utils/PatternScanner.cs:25-33 | with matching marks the two C# match tests agree |
| PatternScanner.ScannersAgree | WeModPatcher/Utils/PatternScanner.cs:12-23 | for an accepted signature both C# scanners find the same first match |
| MemoryScanner.ByteAt | memoryScanner.js:16 | `buffer[k]`: the byte exactly when k is inside the buffer, otherwise `undefined` |
| MemoryScanner.CharAt | memoryScanner.js:15 | `mask[i]`: the character exactly when i is inside the mask |
| MemoryScanner.IsMatch | memoryScanner.js:14-19 | true exactly when every 'x' position holds the signature's byte inside the buffer |
| MemoryScanner.FindPatternInBuffer | memoryScanner.js:3-11 | the first offset where the signature matches, or −1, and −1 when fewer bytes were read than the signature's length |
| MemoryScanner.ParseSignature | memoryScanner.js:21-37 | the buffer and mask are the parse of the text |
| MemoryScanner.UnreadableTokenRequiresZero | memoryScanner.js:31-36 | a piece that is neither wildcard nor hex becomes a required 0 byte |
| MemoryScanner.ParseSignatureText | memoryScanner.js:21-37 | a well-formed non-empty signature, written out, parses back to itself |
| MemoryScanner.ParsedAsPatternScanner | memoryScanner.js:21-37 | a text the C# `PatternScanner` accepts gives the same bytes and mask here |
| MemoryScanner.MatchesAgree | memoryScanner.js:14-19 | with a mask that covers the signature, the JavaScript and C# match tests agree |
| MemoryScanner.ScannersAgree | memoryScanner.js:3-11 | for a signature the C# parser accepts, both languages find the same first match |

## Findings

| source | as written | input that shows it | evidently intended | confidence | as-written member | corrected member |
|---|---|---|---|---|---|---|
| AsarSharp/PickleTools/Pickle.cs:50-58 | `CreateEmpty` resizes a 0-byte header to 64 bytes and sets capacity 64, but the payload starts after the 4-byte header, so only 60 bytes of room exist while capacity says 64 | a fresh pickle: 15 `WriteInt` calls succeed and the 16th finds capacity enough and writes past the array; a string of 57 to 60 bytes is refused | the header array is header size plus capacity bytes long, so every write within capacity fits | not executed | PickleLaws.SixteenthIntOverruns | PickleLaws.CorrectedWritesSucceed |
| AsarSharp/PickleTools/Pickle.cs:31-43 | the header size is the buffer length minus the claimed payload size and is only checked from above and for alignment | an 8-byte buffer whose size word claims 12 bytes is accepted with header size −4 | a negative header size is rejected like a misaligned one and falls back to 0 | not executed | PickleFromBuffer.NegativeHeaderAccepted | PickleFromBuffer.CorrectedRefusesNegative |
| AsarSharp/PickleTools/Pickle.cs:31 | `buffer.Length - GetPayloadSize()` is computed in `int` and wraps | the 8 bytes [08 00 00 80 00 00 00 00]: the size word reads as −2^31 + 8, the header size wraps to −2^31 and is kept, and `ToBuffer`'s sum wraps back to 8 | the header size is checked as a non-negative quantity, so such a buffer falls back to header size 0 | not executed | PickleFromBuffer.WrappedHeaderAccepted | PickleFromBuffer.CreateFromBufferCorrected |
| AsarSharp/PickleTools/PickleIterator.cs:56-99 | `ReadString` passes a negative length to `GetReadPayloadOffsetAndAdvance`, which lets it through and moves the read index backwards before the array allocation throws | payload Int32(8), Int32(−8), four zero bytes with header size 4: after the failed read the index is −4 and the next `ReadInt` returns 8 again | a negative length is refused and pins the cursor to the end, like an overlong one | not executed | PickleReaderLaws.NegativeLengthRewinds | PickleReaderLaws.ReadStringCorrectedKeepsBounds |

## Left out

- JSON serialisation and deserialisation of the header tree (Newtonsoft.Json) is a parameter; the header tree is modelled up to it.
- SHA-256, UTF-8 encoding and decoding, and the unpack regular expression are parameters.
- `Path.GetRelativePath`, `Path.GetFullPath`, `Path.Combine` beyond joining with a separator, and `Uri` handling are parameters or left out.
- File-system I/O (reading, writing, creating directories, deleting, copying, symbolic links, permissions) is a list of actions; the I/O failures of those actions are not modelled.
- The file-system crawler (`FileSystemCrawler.cs`), `Filesystem.ReadLink`, `Extensions.CopyDirectory` and `Extensions.SetUnixFilePermission` are not modelled beyond the actions they stand for.
- Culture-sensitive `StartsWith` in the extractor's escape test is modelled as an ordinal prefix test.
- Filesystems.Filesystem.GetNode: link following uses a fuel bound and reports LinkDepth where the C# code would recurse until a stack overflow on a link cycle.
- ExtractorSpec.EveryEntryAttempted: on a link cycle the C# stack overflow ends the whole process, so no later entry is extracted; the model records a lookup failure for that entry and goes on with the rest.
- FilesystemSpec.InsertFilePacked: the running offset is an unbounded integer; 64-bit overflow of the offset is not modelled.
- CreatorSpec.InsertsDone: the exception thrown when the destination has no directory part is not modelled (`Path.GetDirectoryName` gives null for a root or empty path and "" for a bare file name, and `Directory.CreateDirectory` refuses ""); the model always creates `DirectoryName(dest)` and writes the archive.
- Disk.WriteFileSystem: the metadata and link-list parameters, which the C# code does not use, are left out.
- Null arguments are modelled only for the creator's constructor; elsewhere arguments are present.
- The filesystem cache is a single-threaded dictionary; concurrency is not modelled.
- `WriteFloat`, `WriteDouble`, `ReadFloat` and `ReadDouble` are left out: floating point.
- PickleCodec.WriteThenRead: the round trip is stated for payloads below 2^31 - 4 bytes; above that the `int` sum in `ToBuffer` wraps and the code throws.
- PickleSpec.Grow: the `int` doubling of the capacity wraps as in C#, but `_writeOffset + dataLength` and the `AlignInt` of a length near 2^31 are unbounded integers; sizes that close to 2^31 are not modelled.
- PickleBuffer.Pickle.EnsureCapacity: the same as `PickleSpec.Grow`: only the doubling wraps.
- PickleSpec.AlignInt: an unbounded integer; the C# sum wraps for values within 7 of 2^31, which the model does not follow.
- PickleReader.Take: the reader's `AlignInt` of a length and its index arithmetic are unbounded integers; lengths within 7 of 2^31 are not modelled.
- Text.ParseLong: takes the culture's signs to be `+` and `-`, and does not accept the trailing NUL characters .NET's parser also allows.
- Paths.GetDirectoryName: the paths follow .NET on Windows (separator `\\`, `/` as alternative, the drive colon). `Path.GetDirectoryName`'s handling of roots ("C:\\x" gives "C:\\" and "\\x" gives "\\") and its separator normalisation ("a/b/c" gives "a\\b") are not modelled. A drive colon counts as a stop here.
- Paths.DirectoryName: the same as `Paths.GetDirectoryName`.
- The branches of the creator and the extractor for systems other than Windows (symbolic links, mode 755) use the same Windows path text; Unix path rules are not modelled.
- Disk.WriteFileSystem: the header pickle is built from `CreateEmptyCorrected`, so the archive is written even for header JSON of 57 to 60 bytes, where the code's `WriteString` throws (`Disk.HeaderAsWritten`).
- Disk.ArchiveOf: the same 57 to 60-byte header window as `Disk.WriteFileSystem`.
- Disk.DecodeHeaderInverts: proved for the corrected header writer; for JSON of 57 to 60 bytes the code writes nothing (`Disk.HeaderAsWrittenAgrees` covers the other lengths).
- Disk.ArchiveHeaderRoundTrip: the same 57 to 60-byte header window as `Disk.DecodeHeaderInverts`.
- Disk.PackedFileReadsBack: the same 57 to 60-byte header window as `Disk.WriteFileSystem`.
- CreatorSpec.InsertsDone: builds on `Disk.ArchiveOf`, and so has the same 57 to 60-byte header window.
- CreatorSpec.CreateSucceeds: builds on `Disk.ArchiveOf`, and so has the same 57 to 60-byte header window.
- Creator.AsarCreator.InsertsDone: builds on `Disk.ArchiveOf`, and so has the same 57 to 60-byte header window.
- MemoryUtils.ScanMemoryBlock: requires indices inside the arrays where the C# code would throw IndexOutOfRangeException.
- PatternScanner.IsMatch: requires the compared positions to be inside the buffer where the C# code would throw IndexOutOfRangeException.
- PatternScanner.FindPatternInBuffer: requires `bytesRead` not beyond the buffer and a mask covering the signature, where the C# code would throw.
- JavaScript numbers are modelled as integers; precision beyond 2^53 and fractional offsets are left out.
- `PatchBySignature`, `patchBySignature`, `PatchFile` and `ScanVirtualMemory` are left out: they read and write process memory or files.
- The byte order of the host is taken to be little-endian, as `BitConverter` is on the supported platforms.
