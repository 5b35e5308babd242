/**
 * `Disk`: the archive as bytes. An archive is an 8-byte pickle holding the size of the
 * header pickle, the header pickle holding the header JSON as a string, and then the
 * bytes of every packed file in the order they were listed. The archive file is a byte
 * sequence, the JSON (de)serialiser and the files outside the archive are parameters.
 * The header pickle is built with the corrected fresh pickle (`HeaderBufferAsWritten`
 * is the code's own, which fails for JSON of 57 to 60 bytes) and both pickles are read
 * back with the corrected `CreateFromBuffer` and `ReadString` (see `PickleLaws` and
 * `PickleReaderLaws` for the behaviour as written). `DecodeSizeAgrees` and
 * `DecodeHeaderAgrees` show that on these pickles the code's own readers do the same.
 */
module Disk {
  import opened Wrappers
  import opened Bytes
  import opened Text
  import opened Paths
  import opened Entries
  import opened PickleSpec
  import opened PickleReader
  import opened PickleLaws
  import opened PickleFromBuffer
  import opened PickleCodec
  import opened PickleReaderLaws
  import opened Filesystems

  /** What the reading and writing functions throw. */
  datatype DiskError =
    | HeaderSizeUnreadable            // fewer than 8 bytes for the size pickle
    | HeaderTooLarge                  // a header size that does not fit a byte array
    | HeaderUnreadable                // fewer bytes left than the header size
    | PickleFailed(pickle: PickleError)
    | ReadFailed(read: ReadError)
    | WriteFailed                     // a pickle write ran past the array
    | NotAFileEntry
    | BadSize                         // `new byte[size]` refuses the size
    | BadOffset                       // `long.Parse` refuses the offset text
    | BadPosition                     // `FileStream.Position` refuses a negative position
    | ShortRead

  datatype ArchiveHeader = ArchiveHeader(header: Entry, headerString: seq<byte>, headerSize: int)

  // ---- Reading the header ----

  /** The uint32 the size pickle holds. */
  function DecodeSize(sizeBuf: seq<byte>): Result<nat, DiskError>
  {
    match CreateFromBufferCorrected(sizeBuf)
    case Err(e) => Err(PickleFailed(e))
    case Ok(p) =>
      match IteratorOf(p)
      case Err(e) => Err(ReadFailed(e))
      case Ok(c) =>
        var s := ReadUInt32(c);
        if s.result.Err? then Err(ReadFailed(s.result.error)) else Ok(s.result.value)
  }

  /** The string (its UTF-8 bytes) the header pickle holds. */
  function DecodeHeader(headerBuf: seq<byte>): Result<seq<byte>, DiskError>
  {
    match CreateFromBufferCorrected(headerBuf)
    case Err(e) => Err(PickleFailed(e))
    case Ok(p) =>
      match IteratorOf(p)
      case Err(e) => Err(ReadFailed(e))
      case Ok(c) =>
        var s := ReadStringCorrected(c);
        if s.result.Err? then Err(ReadFailed(s.result.error)) else Ok(s.result.value)
  }

  /** `DecodeSize` as the C# code reads it: the `CreateFromBuffer` and `ReadUInt32` as written. */
  function DecodeSizeAsWritten(sizeBuf: seq<byte>): Result<nat, DiskError>
  {
    match CreateFromBuffer(sizeBuf)
    case Err(e) => Err(PickleFailed(e))
    case Ok(p) =>
      match IteratorOf(p)
      case Err(e) => Err(ReadFailed(e))
      case Ok(c) =>
        var s := ReadUInt32(c);
        if s.result.Err? then Err(ReadFailed(s.result.error)) else Ok(s.result.value)
  }

  /** `DecodeHeader` as the C# code reads it: the `CreateFromBuffer` and `ReadString` as written. */
  function DecodeHeaderAsWritten(headerBuf: seq<byte>): Result<seq<byte>, DiskError>
  {
    match CreateFromBuffer(headerBuf)
    case Err(e) => Err(PickleFailed(e))
    case Ok(p) =>
      match IteratorOf(p)
      case Err(e) => Err(ReadFailed(e))
      case Ok(c) =>
        var s := ReadString(c);
        if s.result.Err? then Err(ReadFailed(s.result.error)) else Ok(s.result.value)
  }

  /**
   * On a buffer whose header size comes out non-negative, the corrected size reader is
   * the code's own.
   */
  lemma DecodeSizeAgrees(b: seq<byte>)
    requires |b| >= SIZE_UINT32 && Unchecked32(|b| - GetPayloadSize(b)) >= 0
    ensures DecodeSizeAsWritten(b) == DecodeSize(b)
  {
    CorrectedAgrees(b);
  }

  /**
   * On the same buffers the corrected header reader succeeds exactly when the code's
   * own does, with the same string: where the length read is negative both fail.
   */
  lemma DecodeHeaderAgrees(b: seq<byte>)
    requires |b| >= SIZE_UINT32 && Unchecked32(|b| - GetPayloadSize(b)) >= 0
    ensures DecodeHeaderAsWritten(b).Ok? <==> DecodeHeader(b).Ok?
    ensures DecodeHeader(b).Ok? ==> DecodeHeaderAsWritten(b) == DecodeHeader(b)
  {
    CorrectedAgrees(b);
    match CreateFromBuffer(b)
    case Err(_) =>
    case Ok(p) =>
      match IteratorOf(p)
      case Err(_) =>
      case Ok(c) =>
        var n := ReadInt(c);
        if n.result.Ok? && n.result.value < 0 {
          assert ReadString(c) == ReadBytes(n.cursor, n.result.value);
          assert ReadStringCorrected(c) == ReadBytesCorrected(n.cursor, n.result.value);
        } else {
          CorrectedReadStringAgrees(c);
        }
  }

  /**
   * `ReadArchiveHeaderSync`: read 8 bytes, decode the header size from them, read that
   * many bytes more and decode the header string from them. A read that returns fewer
   * bytes than asked for throws; a size of 2^31 or more does not fit the byte array.
   */
  function ReadArchiveHeader(archive: seq<byte>, deserialize: seq<byte> -> Entry): (r: Result<ArchiveHeader, DiskError>)
    ensures |archive| < 8 <==> r == Err(HeaderSizeUnreadable)
    ensures r.Ok? ==> 0 <= r.value.headerSize && 8 + r.value.headerSize <= |archive|
    ensures r.Ok? ==> DecodeSize(archive[..8]) == Ok(r.value.headerSize)
    ensures r.Ok? ==> DecodeHeader(archive[8..8 + r.value.headerSize]) == Ok(r.value.headerString)
    ensures r.Ok? ==> r.value.header == deserialize(r.value.headerString)
  {
    if |archive| < 8 then Err(HeaderSizeUnreadable)
    else
      match DecodeSize(archive[..8])
      case Err(e) => Err(e)
      case Ok(size) =>
        if size >= TWO31 then Err(HeaderTooLarge)
        else if |archive| - 8 < size then Err(HeaderUnreadable)
        else
          match DecodeHeader(archive[8..8 + size])
          case Err(e) => Err(e)
          case Ok(s) => Ok(ArchiveHeader(deserialize(s), s, size))
  }

  // ---- Writing the header ----

  /** `WriteString(headerJson)` on a fresh pickle, then `ToBuffer`. */
  function StringPickle(start: State, json: seq<byte>): Result<seq<byte>, DiskError>
    requires Sane(start)
  {
    var w := WriteString(start, json);
    if !w.ok then Err(WriteFailed)
    else
      match ToBuffer(w.state)
      case Err(e) => Err(PickleFailed(e))
      case Ok(b) => Ok(b)
  }

  /**
   * `CreateEmpty`, `WriteString(headerJson)`, `ToBuffer` as written: the fresh array is
   * four bytes short, so JSON of 57 to 60 bytes runs past it (`HeaderAsWrittenAgrees`).
   */
  function HeaderBufferAsWritten(json: seq<byte>): Result<seq<byte>, DiskError>
  {
    StringPickle(CreateEmpty(), json)
  }

  /** The header pickle the archive writer uses: the same steps on the corrected fresh pickle. */
  function HeaderBuffer(json: seq<byte>): Result<seq<byte>, DiskError>
  {
    StringPickle(CreateEmptyCorrected(), json)
  }

  /**
   * `CreateEmpty`, `WriteUInt32((uint)headerBuf.Length)`, `ToBuffer`. A single uint32
   * fits the fresh array, so the pickle as written serves here.
   */
  function SizeBuffer(headerLength: nat): Result<seq<byte>, DiskError>
  {
    var w := WriteUInt32(CreateEmpty(), Wrap(headerLength, 4));
    if !w.ok then Err(WriteFailed)
    else
      match ToBuffer(w.state)
      case Err(e) => Err(PickleFailed(e))
      case Ok(b) => Ok(b)
  }

  lemma WriteAllOne(s: State, v: Value)
    requires Sane(s)
    ensures WriteAll(s, [v]) == WriteValue(s, v)
  {
  }

  lemma EncodeOne(v: Value)
    ensures EncodeAll([v]) == Encoding(v)
  {
  }

  /** The corrected fresh pickle takes a string shorter than 2^31 - 12 bytes, and its buffer is the payload size and the encoding. */
  lemma HeaderWritten(json: seq<byte>)
    requires |json| < TWO31 - 12
    ensures var w := WriteString(CreateEmptyCorrected(), json); var e := Encoding(String(json));
      w.ok && ToBuffer(w.state) == Ok(UInt32Le(|e|) + e)
  {
    var vals := [String(json)];
    EncodeOne(String(json));
    CorrectedWriteThenRead(vals);
    WriteAllOne(CreateEmptyCorrected(), String(json));
  }

  /**
   * The header pickle of a JSON text shorter than 2^31 - 12 bytes: the payload size, then
   * the length and the bytes, padded to a multiple of 4.
   */
  lemma HeaderBufferIs(json: seq<byte>)
    requires |json| < TWO31 - 12
    ensures var e := Encoding(String(json));
      && HeaderBuffer(json) == Ok(UInt32Le(|e|) + e)
      && |UInt32Le(|e|) + e| == 8 + AlignInt(|json|, SIZE_UINT32)
  {
    HeaderWritten(json);
  }

  /**
   * The header pickle as written throws exactly for JSON of 57 to 60 bytes; for every
   * other length it is the corrected writer's buffer.
   */
  lemma HeaderAsWrittenAgrees(json: seq<byte>)
    requires |json| < TWO31 - 12
    ensures HeaderBufferAsWritten(json) == if 57 <= |json| <= 60 then Err(WriteFailed) else HeaderBuffer(json)
  {
    HeaderAsWritten(json);
    if !(57 <= |json| <= 60) {
      HeaderBufferIs(json);
    }
  }

  /** The header pickle as written: a failed write for JSON of 57 to 60 bytes, otherwise the payload size and the encoding. */
  lemma HeaderAsWritten(json: seq<byte>)
    requires |json| < TWO31 - 12
    ensures var e := Encoding(String(json));
      HeaderBufferAsWritten(json) == if 57 <= |json| <= 60 then Err(WriteFailed) else Ok(UInt32Le(|e|) + e)
  {
    FreshUnresized();
    EmptyFramed();
    UnresizedStringPickle(CreateEmpty(), json);
  }

  lemma UnresizedStringPickle(s: State, json: seq<byte>)
    requires Unresized(s) && Framed(s) && s.writeOffset == 0 && |json| < TWO31 - 12
    ensures var e := Encoding(String(json));
      StringPickle(s, json) == if 57 <= |json| <= 60 then Err(WriteFailed) else Ok(UInt32Le(|e|) + e)
  {
    FreshStringWindow(s, json);
    if !(57 <= |json| <= 60) {
      OneWriteToBuffer(s, String(json));
    }
  }

  /** The fresh pickle takes any uint32, and its buffer is the payload size and the value. */
  lemma SizeWritten(n: nat)
    requires n < TWO32
    ensures var w := WriteUInt32(CreateEmpty(), n); var e := UInt32Le(n);
      w.ok && ToBuffer(w.state) == Ok(UInt32Le(|e|) + e)
  {
    FreshUnresized();
    EmptyFramed();
    UnresizedUInt32(CreateEmpty(), n);
  }

  lemma UnresizedUInt32(s: State, n: nat)
    requires Unresized(s) && Framed(s) && s.writeOffset == 0 && n < TWO32
    ensures var w := WriteUInt32(s, n); var e := UInt32Le(n);
      w.ok && ToBuffer(w.state) == Ok(UInt32Le(|e|) + e)
  {
    UnresizedUInt32Fits(s, n);
    assert WriteValue(s, UInt32(n)) == WriteUInt32(s, n);
    OneWriteToBuffer(s, UInt32(n));
  }

  /** On a framed pickle with nothing written, one successful write leaves the size field and that value's encoding. */
  lemma OneWriteToBuffer(s: State, v: Value)
    requires Framed(s) && s.writeOffset == 0 && WriteValue(s, v).ok && |Encoding(v)| < TWO31 - SIZE_UINT32
    ensures ToBuffer(WriteValue(s, v).state) == Ok(UInt32Le(|Encoding(v)|) + Encoding(v))
  {
    EncodeOne(v);
    WriteAllOne(s, v);
    FramedWriteAllToBuffer(s, [v]);
  }

  /** The size pickle of a header length below 2^31: eight bytes, the payload size 4 and the length. */
  lemma SizeBufferIs(n: nat)
    requires n < TWO31
    ensures var e := UInt32Le(n); SizeBuffer(n) == Ok(UInt32Le(|e|) + e) && |UInt32Le(|e|) + e| == 8
  {
    WrapSmall(n);
    SizeWritten(n);
  }

  lemma WrapSmall(n: nat)
    requires n < TWO31
    ensures Wrap(n, 4) == n
  {
    Pow256Values();
    DivUnique(n, TWO32, 0, n);
  }

  /** After the payload-size field of a buffer, the payload holds the bytes the field counts. */
  lemma HoldsPayload(e: seq<byte>)
    requires |e| < TWO31
    ensures Holds(Cursor(UInt32Le(|e|) + e, SIZE_UINT32, 0, |e|), e)
  {
    var b := UInt32Le(|e|) + e;
    AfterField(UInt32Le(|e|), e);
    assert b[4..4 + |e|] == b[4..];
  }

  /** A payload-size field followed by the encoding of a uint32 decodes to that uint32. */
  lemma DecodeSizeOf(n: nat)
    requires n < TWO32
    ensures var e := UInt32Le(n); DecodeSize(UInt32Le(|e|) + e) == Ok(n)
  {
    var e := UInt32Le(n);
    var sb := UInt32Le(|e|) + e;
    WrapsPayload(e);
    var c := Cursor(sb, SIZE_UINT32, 0, |e|);
    HoldsPayload(e);
    ReadUInt32Inverts(c, n);
  }

  /** A payload-size field followed by the encoding of a string decodes to that string. */
  lemma DecodeHeaderOf(json: seq<byte>)
    requires |json| < TWO31 - 8
    ensures var e := Encoding(String(json)); DecodeHeader(UInt32Le(|e|) + e) == Ok(json)
  {
    var e := Encoding(String(json));
    var hb := UInt32Le(|e|) + e;
    WrapsPayload(e);
    ReadsEncodedString(json);
    DecodeHeaderSteps(hb, Cursor(hb, SIZE_UINT32, 0, |e|), json);
  }

  /** A buffer made of a payload-size field and the payload wraps into a pickle with a 4-byte header. */
  lemma WrapsPayload(e: seq<byte>)
    requires |e| < TWO31
    ensures var b := UInt32Le(|e|) + e;
      && CreateFromBufferCorrected(b) == Ok(State(b, SIZE_UINT32, CAPACITY_READ_ONLY, 0))
      && IteratorOf(State(b, SIZE_UINT32, CAPACITY_READ_ONLY, 0)) == Ok(Cursor(b, SIZE_UINT32, 0, |e|))
  {
    SizeFieldOf(|e|, e);
    FourByteHeader(UInt32Le(|e|) + e);
  }

  /** A buffer whose payload-size field counts every byte after it has a 4-byte header. */
  lemma FourByteHeader(b: seq<byte>)
    requires |b| >= SIZE_UINT32 && GetPayloadSize(b) == |b| - SIZE_UINT32
    ensures CreateFromBufferCorrected(b) == Ok(State(b, SIZE_UINT32, CAPACITY_READ_ONLY, 0))
  {
    Unchecked32Small(|b| - GetPayloadSize(b));
    AlignFixedIffMultiple(|b| - GetPayloadSize(b));
  }

  /** The corrected reader reads a string back from its encoding. */
  lemma ReadsEncodedString(json: seq<byte>)
    requires |json| < TWO31 - 8
    ensures var e := Encoding(String(json));
      ReadStringCorrected(Cursor(UInt32Le(|e|) + e, SIZE_UINT32, 0, |e|)).result == Ok(json)
  {
    var e := Encoding(String(json));
    var c := Cursor(UInt32Le(|e|) + e, SIZE_UINT32, 0, |e|);
    HoldsPayload(e);
    ReadStringInverts(c, json);
    LengthRead(c, json);
    CorrectedReadStringAgrees(c);
  }

  lemma DecodeHeaderSteps(hb: seq<byte>, c: Cursor, json: seq<byte>)
    requires CreateFromBufferCorrected(hb) == Ok(State(hb, SIZE_UINT32, CAPACITY_READ_ONLY, 0))
    requires IteratorOf(State(hb, SIZE_UINT32, CAPACITY_READ_ONLY, 0)) == Ok(c)
    requires ReadStringCorrected(c).result == Ok(json)
    ensures DecodeHeader(hb) == Ok(json)
  {
  }

  /** A string read first reads its length. */
  lemma LengthRead(c: Cursor, s: seq<byte>)
    requires ReadString(c).result == Ok(s)
    ensures ReadInt(c).result == Ok(|s|)
  {
  }

  /** The size pickle decodes to the header length it was written with. */
  lemma DecodeSizeInverts(n: nat)
    requires n < TWO31
    ensures SizeBuffer(n).Ok? && DecodeSize(SizeBuffer(n).value) == Ok(n)
  {
    SizeBufferIs(n);
    DecodeSizeOf(n);
  }

  /** The header pickle decodes to the JSON text it was written with. */
  lemma DecodeHeaderInverts(json: seq<byte>)
    requires |json| < TWO31 - 12
    ensures HeaderBuffer(json).Ok? && DecodeHeader(HeaderBuffer(json).value) == Ok(json)
    ensures |HeaderBuffer(json).value| <= |json| + 11
  {
    HeaderBufferIs(json);
    DecodeHeaderOf(json);
  }

  /** The code's own size reader reads the size pickle back as the header length. */
  lemma DecodeSizeAsWrittenInverts(n: nat)
    requires n < TWO31
    ensures SizeBuffer(n).Ok? && DecodeSizeAsWritten(SizeBuffer(n).value) == Ok(n)
  {
    DecodeSizeInverts(n);
    SizeBufferIs(n);
    var e := UInt32Le(n);
    SizeFieldOf(|e|, e);
    Unchecked32Small(SIZE_UINT32);
    DecodeSizeAgrees(SizeBuffer(n).value);
  }

  /** The code's own header reader reads the header pickle back as the JSON text. */
  lemma DecodeHeaderAsWrittenInverts(json: seq<byte>)
    requires |json| < TWO31 - 12
    ensures HeaderBuffer(json).Ok? && DecodeHeaderAsWritten(HeaderBuffer(json).value) == Ok(json)
  {
    DecodeHeaderInverts(json);
    HeaderBufferIs(json);
    var e := Encoding(String(json));
    SizeFieldOf(|e|, e);
    Unchecked32Small(SIZE_UINT32);
    DecodeHeaderAgrees(HeaderBuffer(json).value);
  }

  /**
   * The round trip of the archive header: the size pickle and the header pickle that
   * `WriteFileSystem` writes, followed by any bytes, read back as the JSON text that was
   * written, with the header pickle's length as the header size.
   */
  lemma ArchiveHeaderRoundTrip(json: seq<byte>, blob: seq<byte>, deserialize: seq<byte> -> Entry)
    requires |json| < TWO31 - 16
    ensures HeaderBuffer(json).Ok? && SizeBuffer(|HeaderBuffer(json).value|).Ok?
    ensures var hb := HeaderBuffer(json).value; var sb := SizeBuffer(|hb|).value;
      && |sb| == 8 && |hb| <= |json| + 11
      && ReadArchiveHeader(sb + hb + blob, deserialize) == Ok(ArchiveHeader(deserialize(json), json, |hb|))
  {
    DecodeHeaderInverts(json);
    var hb := HeaderBuffer(json).value;
    DecodeSizeInverts(|hb|);
    SizeBufferIs(|hb|);
    ReadsHeader(SizeBuffer(|hb|).value, hb, blob, json, deserialize);
  }

  /** An archive that starts with a size pickle and a header pickle that decode reads as their contents. */
  lemma ReadsHeader(sb: seq<byte>, hb: seq<byte>, blob: seq<byte>, json: seq<byte>, deserialize: seq<byte> -> Entry)
    requires |sb| == 8 && |hb| < TWO31 && DecodeSize(sb) == Ok(|hb|) && DecodeHeader(hb) == Ok(json)
    ensures ReadArchiveHeader(sb + hb + blob, deserialize) == Ok(ArchiveHeader(deserialize(json), json, |hb|))
  {
    var archive := sb + hb + blob;
    assert archive[..8] == sb;
    assert archive[8..8 + |hb|] == hb;
  }

  // ---- Reading a file ----

  /** `8 + GetHeaderSize()` in `int`, then `+ long.Parse(Offset)` in `long`, both unchecked. */
  function Position(headerSize: int, offset: int): int
  {
    var start := Signed(Wrap(8 + headerSize, 4), 4);
    Signed(Wrap(start + offset, 8), 8)
  }

  lemma PositionExact(headerSize: nat, offset: nat)
    requires 8 + headerSize < TWO31 && 8 + headerSize + offset < TWO63
    ensures Position(headerSize, offset) == 8 + headerSize + offset
  {
    Pow256Values();
    SignedWrap(8 + headerSize, 4);
    SignedWrap(8 + headerSize + offset, 8);
  }

  /**
   * `ReadFileSync(filesystem, filename, info)`: a non-file entry is refused, a size of
   * zero gives no bytes, an unpacked file is the whole file beside the archive, and a
   * packed one is `size` bytes of the archive from `8 + headerSize + offset`; a read
   * that returns fewer bytes throws. `readFile` is `File.ReadAllBytes`.
   */
  function ReadFile(rootPath: string, headerSize: int, filename: string, info: Entry,
                    archive: seq<byte>, readFile: string -> seq<byte>): (r: Result<seq<byte>, DiskError>)
    ensures !IsFile(info) ==> r == Err(NotAFileEntry)
    ensures IsFile(info) && info.size.value == 0 ==> r == Ok([])
    ensures r.Ok? && info.unpacked != Some(true) ==> |r.value| == info.size.value
    ensures r.Ok? && info.unpacked != Some(true) && |r.value| > 0 ==>
      && info.offset.Some? && ParseLong(info.offset.value).Some?
      && var pos := Position(headerSize, ParseLong(info.offset.value).value);
      0 <= pos && pos + |r.value| <= |archive| && r.value == archive[pos..pos + |r.value|]
    ensures IsFile(info) && !(0 <= info.size.value < TWO31) ==> r == Err(BadSize)
    ensures IsFile(info) && 0 < info.size.value < TWO31 && info.unpacked == Some(true) ==>
      r == Ok(readFile(Combine(rootPath + ".unpacked", filename)))
    ensures (&& IsFile(info) && 0 < info.size.value < TWO31 && info.unpacked != Some(true)
             && info.offset.Some? && ParseLong(info.offset.value).Some?
             && 0 <= Position(headerSize, ParseLong(info.offset.value).value)
             && Position(headerSize, ParseLong(info.offset.value).value) + info.size.value <= |archive|)
      ==> r.Ok?
  {
    if !IsFile(info) then Err(NotAFileEntry)
    else
      var size := info.size.value;
      if size < 0 || size >= TWO31 then Err(BadSize)
      else if size == 0 then Ok([])
      else if info.unpacked == Some(true) then Ok(readFile(Combine(rootPath + ".unpacked", filename)))
      else if info.offset.None? then Err(BadOffset)
      else
        match ParseLong(info.offset.value)
        case None => Err(BadOffset)
        case Some(off) =>
          var pos := Position(headerSize, off);
          if pos < 0 then Err(BadPosition)
          else if pos + size > |archive| then Err(ShortRead)
          else Ok(archive[pos..pos + size])
  }

  // ---- The cache ----

  /** The process-wide `_filesystemCache`, run single-threaded. */
  class Cache {
    var entries: map<string, Filesystem?>

    constructor()
      ensures entries == map[]
    {
      entries := map[];
    }

    /** Whether the cache answers for `archivePath` without reading. */
    predicate Hit(archivePath: string)
      reads this
    {
      archivePath in entries && entries[archivePath] != null
    }

    /**
     * `ReadFilesystemSync`: a hit returns the cached object and reads nothing; a miss
     * reads the header of `archive` (the file's bytes), makes a new `Filesystem` with it
     * and caches that. Afterwards the cache holds the result under `archivePath`.
     */
    method ReadFilesystemSync(archivePath: string, fullPath: string, archive: seq<byte>,
                              deserialize: seq<byte> -> Entry) returns (r: Result<Filesystem, DiskError>)
      modifies this
      ensures old(Hit(archivePath)) ==> r == Ok(old(entries[archivePath])) && entries == old(entries)
      ensures !old(Hit(archivePath)) && ReadArchiveHeader(archive, deserialize).Err? ==>
        r == Err(ReadArchiveHeader(archive, deserialize).error) && entries == old(entries)
      ensures !old(Hit(archivePath)) && ReadArchiveHeader(archive, deserialize).Ok? ==>
        && r.Ok? && fresh(r.value)
        && var h := ReadArchiveHeader(archive, deserialize).value;
        && r.value.src == fullPath && r.value.header == h.header
        && r.value.headerSize == h.headerSize && r.value.offset == 0
        && entries == old(entries)[archivePath := r.value]
      ensures r.Ok? ==> archivePath in entries && entries[archivePath] == r.value
    {
      if archivePath in entries && entries[archivePath] != null {
        return Ok(entries[archivePath]);
      }
      var header := ReadArchiveHeader(archive, deserialize);
      if header.Err? {
        return Err(header.error);
      }
      var filesystem := new Filesystem(fullPath);
      filesystem.SetHeader(header.value.header, header.value.headerSize);
      entries := entries[archivePath := filesystem];
      r := Ok(filesystem);
    }

    /** `UncacheFilesystem`: drop the entry, and say whether there was one. */
    method UncacheFilesystem(archivePath: string) returns (removed: bool)
      modifies this
      ensures removed <==> archivePath in old(entries)
      ensures entries == old(entries) - {archivePath}
    {
      removed := archivePath in entries;
      if removed {
        entries := entries - {archivePath};
      }
    }

    /** `UncacheAll`: the cache is empty afterwards. */
    method UncacheAll()
      modifies this
      ensures entries == map[]
    {
      entries := map[];
    }
  }

  // ---- Writing the archive ----

  /** `BasicFileInfo`: a file to store, and whether it goes beside the archive instead. */
  datatype BasicFileInfo = BasicFileInfo(filename: string, unpack: bool)

  /** A file copied from `source` to `target` (by `CopyFile`). */
  datatype Copy = Copy(source: string, target: string)

  /** The archive's bytes, and the copies made beside it, in order. */
  datatype Archive = Archive(bytes: seq<byte>, copies: seq<Copy>)

  /** `CopyFile(dest, rootPath, filename)`: nothing to do when both directories are the same. */
  function CopyFile(dest: string, rootPath: string, filename: string): (r: Option<Copy>)
    ensures r.None? <==> dest == rootPath
    ensures r.Some? ==> r.value.source == Combine(rootPath, filename) && r.value.target == Combine(dest, filename)
  {
    if dest == rootPath then None
    else Some(Copy(Combine(rootPath, filename), Combine(dest, filename)))
  }

  /** The bytes a listed file adds to the archive. */
  function Packed(f: BasicFileInfo, contents: string -> seq<byte>): seq<byte> {
    if f.unpack then [] else contents(f.filename)
  }

  /** The packed files' bytes, in list order. */
  function Blob(files: seq<BasicFileInfo>, contents: string -> seq<byte>): seq<byte>
    decreases |files|
  {
    if |files| == 0 then [] else Blob(files[..|files| - 1], contents) + Packed(files[|files| - 1], contents)
  }

  /** The copy an unpacked file makes into `<dest>.unpacked`, if any. */
  function CopyOf(f: BasicFileInfo, dest: string, rootPath: string, relative: (string, string) -> string): seq<Copy> {
    if !f.unpack then []
    else
      match CopyFile(dest + ".unpacked", rootPath, relative(rootPath, f.filename))
      case None => []
      case Some(c) => [c]
  }

  function Copies(files: seq<BasicFileInfo>, dest: string, rootPath: string, relative: (string, string) -> string): seq<Copy>
    decreases |files|
  {
    if |files| == 0 then []
    else Copies(files[..|files| - 1], dest, rootPath, relative) + CopyOf(files[|files| - 1], dest, rootPath, relative)
  }

  /** The archive `WriteFileSystem` produces from the header JSON and the file list. */
  function ArchiveOf(json: seq<byte>, files: seq<BasicFileInfo>, dest: string, rootPath: string,
                     contents: string -> seq<byte>, relative: (string, string) -> string): Result<Archive, DiskError>
  {
    match HeaderBuffer(json)
    case Err(e) => Err(e)
    case Ok(hb) =>
      match SizeBuffer(|hb|)
      case Err(e) => Err(e)
      case Ok(sb) => Ok(Archive(sb + hb + Blob(files, contents), Copies(files, dest, rootPath, relative)))
  }

  /**
   * `WriteFileSystem(dest, fileSystem, lists, metadata)`: serialise the header, build the
   * two pickles, then write the size pickle, the header pickle and every file that is not
   * unpacked, in list order; an unpacked file is copied to `<dest>.unpacked` instead.
   * `serialize` is the JSON serialiser with its UTF-8 encoding, `contents` the files'
   * bytes and `relative` is `GetRelativePath`.
   */
  method WriteFileSystem(dest: string, fileSystem: Filesystem, files: seq<BasicFileInfo>,
                         serialize: Entry -> seq<byte>, contents: string -> seq<byte>,
                         relative: (string, string) -> string) returns (r: Result<Archive, DiskError>)
    ensures r == ArchiveOf(serialize(fileSystem.header), files, dest, fileSystem.src, contents, relative)
  {
    var headerJson := serialize(fileSystem.GetHeader());
    var headerBuf := HeaderBuffer(headerJson);
    if headerBuf.Err? {
      return Err(headerBuf.error);
    }
    var sizeBuf := SizeBuffer(|headerBuf.value|);
    if sizeBuf.Err? {
      return Err(sizeBuf.error);
    }
    var root := fileSystem.GetRootPath();
    var bytes, copies := WriteFiles(sizeBuf.value + headerBuf.value, dest, root, files, contents, relative);
    r := Ok(Archive(bytes, copies));
  }

  /**
   * The loop of `WriteFileSystem` over the listed files: a packed file's bytes are appended
   * after `start`, an unpacked one is copied beside the archive.
   */
  method WriteFiles(start: seq<byte>, dest: string, root: string, files: seq<BasicFileInfo>,
                    contents: string -> seq<byte>, relative: (string, string) -> string)
    returns (bytes: seq<byte>, copies: seq<Copy>)
    ensures bytes == start + Blob(files, contents)
    ensures copies == Copies(files, dest, root, relative)
  {
    bytes := start;
    copies := [];
    WriteFilesStart(start, files, dest, root, contents, relative);
    for i := 0 to |files|
      invariant bytes == start + Blob(files[..i], contents)
      invariant copies == Copies(files[..i], dest, root, relative)
    {
      var file := files[i];
      WriteFilesStep(start, files, dest, root, contents, relative, i);
      if file.unpack {
        var filename := relative(root, file.filename);
        var copy := CopyFile(dest + ".unpacked", root, filename);
        if copy.Some? {
          copies := copies + [copy.value];
        }
        continue;
      }
      bytes := bytes + contents(file.filename);
    }
    assert files[..|files|] == files;
  }

  lemma WriteFilesStart(start: seq<byte>, files: seq<BasicFileInfo>, dest: string, root: string,
                        contents: string -> seq<byte>, relative: (string, string) -> string)
    ensures start + Blob(files[..0], contents) == start
    ensures Copies(files[..0], dest, root, relative) == []
  {
    assert files[..0] == [];
  }

  /** One step of the loop: what file `i` adds to the bytes and to the copies. */
  lemma WriteFilesStep(start: seq<byte>, files: seq<BasicFileInfo>, dest: string, root: string,
                       contents: string -> seq<byte>, relative: (string, string) -> string, i: nat)
    requires i < |files|
    ensures files[i].unpack ==> start + Blob(files[..i + 1], contents) == start + Blob(files[..i], contents)
    ensures !files[i].unpack ==>
      start + Blob(files[..i + 1], contents) == start + Blob(files[..i], contents) + contents(files[i].filename)
    ensures Copies(files[..i + 1], dest, root, relative)
         == Copies(files[..i], dest, root, relative) + CopyOf(files[i], dest, root, relative)
  {
    BlobStep(files, contents, i);
    CopiesStep(files, dest, root, relative, i);
    if files[i].unpack {
      assert Blob(files[..i + 1], contents) == Blob(files[..i], contents) + [];
    }
  }

  lemma BlobStep(files: seq<BasicFileInfo>, contents: string -> seq<byte>, i: nat)
    requires i < |files|
    ensures Blob(files[..i + 1], contents) == Blob(files[..i], contents) + Packed(files[i], contents)
  {
    assert files[..i + 1][..i] == files[..i];
  }

  lemma CopiesStep(files: seq<BasicFileInfo>, dest: string, rootPath: string, relative: (string, string) -> string, i: nat)
    requires i < |files|
    ensures Copies(files[..i + 1], dest, rootPath, relative)
         == Copies(files[..i], dest, rootPath, relative) + CopyOf(files[i], dest, rootPath, relative)
  {
    assert files[..i + 1][..i] == files[..i];
  }

  // ---- Where the packed files are ----

  lemma PrefixOfPrefix<T>(s: seq<T>, n: nat, k: nat)
    requires k <= n <= |s|
    ensures s[..n][..k] == s[..k]
  {
  }

  /** The bytes of packed file `k` sit in the blob right after those of the files before it. */
  lemma {:induction false} BlobPlaces(files: seq<BasicFileInfo>, contents: string -> seq<byte>, k: nat)
    requires k < |files| && !files[k].unpack
    ensures var at := |Blob(files[..k], contents)|; var c := contents(files[k].filename);
      at + |c| <= |Blob(files, contents)| && Blob(files, contents)[at..at + |c|] == c
    decreases |files|
  {
    var n := |files|;
    var init := files[..n - 1];
    var c := contents(files[k].filename);
    if k == n - 1 {
      assert files[..k] == init;
      assert Blob(files, contents) == Blob(init, contents) + c;
      SliceOfBack(Blob(init, contents), c, 0, |c|);
    } else {
      PrefixOfPrefix(files, n - 1, k);
      assert init[k] == files[k];
      BlobPlaces(init, contents, k);
      assert Blob(files, contents) == Blob(init, contents) + Packed(files[n - 1], contents);
      SliceOfFront(Blob(init, contents), Packed(files[n - 1], contents), |Blob(files[..k], contents)|, |c|);
    }
  }

  /** A slice that lies within the front part of a concatenation is a slice of that part. */
  lemma SliceOfFront(x: seq<byte>, y: seq<byte>, at: nat, len: nat)
    requires at + len <= |x|
    ensures (x + y)[at..at + len] == x[at..at + len]
  {
  }

  /**
   * A packed file read back from the archive `WriteFileSystem` wrote: with the header
   * size the reader decodes, an entry whose offset is the decimal text of the length of
   * the packed files before it and whose size is the file's length reads back exactly
   * the file's bytes.
   */
  lemma PackedFileReadsBack(json: seq<byte>, files: seq<BasicFileInfo>, dest: string, rootPath: string,
                            contents: string -> seq<byte>, relative: (string, string) -> string,
                            k: nat, info: Entry, filename: string, readFile: string -> seq<byte>,
                            deserialize: seq<byte> -> Entry)
    requires |json| < TWO31 - 32
    requires k < |files| && !files[k].unpack
    requires |Blob(files, contents)| < TWO63 - TWO31
    requires info.size == Some(|contents(files[k].filename)|) && |contents(files[k].filename)| < TWO31
    requires info.offset == Some(Decimal(|Blob(files[..k], contents)|)) && info.unpacked != Some(true)
    ensures ArchiveOf(json, files, dest, rootPath, contents, relative).Ok?
    ensures var a := ArchiveOf(json, files, dest, rootPath, contents, relative).value;
      && ReadArchiveHeader(a.bytes, deserialize).Ok?
      && ReadFile(rootPath, ReadArchiveHeader(a.bytes, deserialize).value.headerSize, filename, info, a.bytes, readFile)
         == Ok(contents(files[k].filename))
  {
    var sb, hb := WrittenArchive(json, files, dest, rootPath, contents, relative, deserialize);
    PackedReads(sb, hb, files, contents, k, rootPath, filename, info, readFile);
  }

  /** Behind any eight-byte size pickle and header pickle, the `k`-th packed file reads back from the blob. */
  lemma PackedReads(sb: seq<byte>, hb: seq<byte>, files: seq<BasicFileInfo>, contents: string -> seq<byte>, k: nat,
                    rootPath: string, filename: string, info: Entry, readFile: string -> seq<byte>)
    requires |sb| == 8 && |hb| < TWO31 - 8
    requires k < |files| && !files[k].unpack
    requires |Blob(files, contents)| < TWO63 - TWO31
    requires info.size == Some(|contents(files[k].filename)|) && |contents(files[k].filename)| < TWO31
    requires info.offset == Some(Decimal(|Blob(files[..k], contents)|)) && info.unpacked != Some(true)
    ensures ReadFile(rootPath, |hb|, filename, info, sb + hb + Blob(files, contents), readFile)
            == Ok(contents(files[k].filename))
  {
    BlobPlaces(files, contents, k);
    ReadsPacked(sb, hb, Blob(files, contents), |Blob(files[..k], contents)|, contents(files[k].filename),
                rootPath, filename, info, readFile);
  }

  /** The written archive is the two pickles and the blob, and its header size is the header pickle's length. */
  lemma WrittenArchive(json: seq<byte>, files: seq<BasicFileInfo>, dest: string, rootPath: string,
                       contents: string -> seq<byte>, relative: (string, string) -> string,
                       deserialize: seq<byte> -> Entry)
    returns (sb: seq<byte>, hb: seq<byte>)
    requires |json| < TWO31 - 32
    ensures ArchiveOf(json, files, dest, rootPath, contents, relative).Ok?
    ensures var a := ArchiveOf(json, files, dest, rootPath, contents, relative).value;
      && |sb| == 8 && |hb| < TWO31 - 8
      && a.bytes == sb + hb + Blob(files, contents)
      && ReadArchiveHeader(a.bytes, deserialize).Ok?
      && ReadArchiveHeader(a.bytes, deserialize).value.headerSize == |hb|
  {
    ArchiveHeaderRoundTrip(json, Blob(files, contents), deserialize);
    hb := HeaderBuffer(json).value;
    sb := SizeBuffer(|hb|).value;
  }

  /** A packed entry whose offset and size pick out `c` from the blob reads back as `c`. */
  lemma ReadsPacked(sb: seq<byte>, hb: seq<byte>, blob: seq<byte>, at: nat, c: seq<byte>,
                    rootPath: string, filename: string, info: Entry, readFile: string -> seq<byte>)
    requires |sb| == 8 && |hb| < TWO31 - 8 && |blob| < TWO63 - TWO31
    requires at + |c| <= |blob| && blob[at..at + |c|] == c && |c| < TWO31
    requires info.size == Some(|c|) && info.offset == Some(Decimal(at)) && info.unpacked != Some(true)
    ensures ReadFile(rootPath, |hb|, filename, info, sb + hb + blob, readFile) == Ok(c)
  {
    ParseDecimal(at);
    PositionExact(|hb|, at);
    SliceOfBack(sb + hb, blob, at, |c|);
  }

  /** A slice that lies within the back part of a concatenation is a slice of that part, shifted. */
  lemma SliceOfBack(x: seq<byte>, y: seq<byte>, at: nat, len: nat)
    requires at + len <= |y|
    ensures (x + y)[|x| + at..|x| + at + len] == y[at..at + len]
  {
  }
}
