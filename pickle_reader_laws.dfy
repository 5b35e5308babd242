/**
 * What the pickle reader keeps of its cursor: reads of non-negative length keep the
 * read index between 0 and the end index, a refused read pins the cursor to the end so
 * that every later read is refused too, and a negative string length read from the
 * payload moves the cursor backwards, out of the payload. `ReadStringCorrected` refuses
 * negative lengths the way the Chromium reader does.
 */
module PickleReaderLaws {
  import opened Wrappers
  import opened Bytes
  import opened PickleSpec
  import opened PickleReader
  import opened PickleCodec

  /** `0 <= readIndex <= endIndex`. */
  ghost predicate InBounds(c: Cursor)
  {
    0 <= c.readIndex <= c.endIndex
  }

  /** Where a successful `Take` of a non-negative length leaves the cursor. */
  lemma TakeMoves(c: Cursor, length: int)
    requires InBounds(c) && 0 <= length <= c.endIndex - c.readIndex
    ensures var r := Take(c, length).cursor;
      r.readIndex == if c.endIndex - c.readIndex < AlignInt(length, SIZE_UINT32) then c.endIndex
                     else c.readIndex + AlignInt(length, SIZE_UINT32)
    ensures InBounds(Take(c, length).cursor)
  {
  }

  /** A refused `Take` pins the cursor to the end index. */
  lemma RefusedTakePins(c: Cursor, length: int)
    requires Take(c, length).result.Err?
    ensures Take(c, length).cursor == c.(readIndex := c.endIndex)
  {
  }

  lemma TakeKeepsBounds(c: Cursor, length: int)
    requires InBounds(c) && length >= 0
    ensures InBounds(Take(c, length).cursor)
  {
    if length <= c.endIndex - c.readIndex {
      TakeMoves(c, length);
    }
  }

  lemma ReadFixedKeepsBounds(c: Cursor, n: nat)
    requires InBounds(c)
    ensures InBounds(ReadFixed(c, n).cursor)
  {
    TakeKeepsBounds(c, n);
  }

  /** Every read but `ReadString` keeps the cursor in bounds, whatever the payload holds. */
  lemma ReadValueKeepsBounds(c: Cursor, k: Kind)
    requires InBounds(c) && k != KString
    ensures InBounds(ReadValue(c, k).cursor)
  {
    match k
    case KBool => ReadFixedKeepsBounds(c, SIZE_INT32);
    case KInt => ReadFixedKeepsBounds(c, SIZE_INT32);
    case KUInt32 => ReadFixedKeepsBounds(c, SIZE_UINT32);
    case KInt64 => ReadFixedKeepsBounds(c, SIZE_INT64);
    case KUInt64 => ReadFixedKeepsBounds(c, SIZE_UINT64);
  }

  /** `ReadString` keeps the cursor in bounds when the length it reads is not negative. */
  lemma ReadStringKeepsBounds(c: Cursor)
    requires InBounds(c)
    requires ReadInt(c).result.Ok? ==> ReadInt(c).result.value >= 0
    ensures InBounds(ReadString(c).cursor)
  {
    ReadFixedKeepsBounds(c, SIZE_INT32);
    var n := ReadInt(c);
    if n.result.Ok? {
      TakeKeepsBounds(n.cursor, n.result.value);
    }
  }

  /** Any sequence of reads without strings keeps the cursor in bounds. */
  lemma {:induction false} ReadAllKeepsBounds(c: Cursor, kinds: seq<Kind>)
    requires InBounds(c) && forall i :: 0 <= i < |kinds| ==> kinds[i] != KString
    ensures InBounds(ReadAll(c, kinds).cursor)
    decreases |kinds|
  {
    if kinds != [] {
      ReadValueKeepsBounds(c, kinds[0]);
      var r := ReadValue(c, kinds[0]);
      if r.result.Ok? {
        ReadAllKeepsBounds(r.cursor, kinds[1..]);
      }
    }
  }

  /** A read that is refused as overlong leaves the cursor pinned to the end index. */
  lemma OverlongPins(c: Cursor, k: Kind)
    requires ReadValue(c, k).result == Err(Overlong)
    ensures ReadValue(c, k).cursor.readIndex == c.endIndex
  {
    var f := ReadFixed(c, SIZE_INT32);
    if k == KString && f.result.Ok? {
      var n := ReadInt(c);
      assert ReadString(c) == ReadBytes(n.cursor, n.result.value);
    }
  }

  /** On a pinned cursor every read is refused as overlong and leaves the cursor where it is. */
  lemma PinnedReadFails(c: Cursor, k: Kind)
    requires c.readIndex == c.endIndex
    ensures ReadValue(c, k) == Step(c, Err(Overlong))
  {
    assert Take(c, SIZE_INT32) == Step(c, Err(Overlong));
    assert Take(c, SIZE_INT64) == Step(c, Err(Overlong));
  }

  /** After a read refused as overlong, every later read is refused as well. */
  lemma StickyFailure(c: Cursor, k: Kind, later: seq<Kind>)
    requires ReadValue(c, k).result == Err(Overlong) && later != []
    ensures ReadAll(ReadValue(c, k).cursor, later).result == Err(Overlong)
  {
    OverlongPins(c, k);
    var d := ReadValue(c, k).cursor;
    PinnedReadFails(d, later[0]);
  }

  /**
   * Backing bytes whose payload starts at index 4 and is 8 bytes long: the payload size
   * 8, then the string length -8, then four zero bytes.
   */
  function NegativeLengthPickle(): (b: seq<byte>)
    ensures |b| == 12
  {
    Int32Le(8) + Int32Le(-8) + Zeros(4)
  }

  /** The reader over `NegativeLengthPickle`, positioned at the string length. */
  function NegativeLengthCursor(): Cursor
  {
    Cursor(NegativeLengthPickle(), SIZE_UINT32, 0, 8)
  }

  /**
   * The bytes at the read position are `bytes` and lie before the end index; unlike
   * `Holds`, the read index may be negative.
   */
  ghost predicate Under(c: Cursor, bytes: seq<byte>)
  {
    var o := c.payloadOffset + c.readIndex;
    && c.readIndex + |bytes| <= c.endIndex
    && 0 <= o && o + |bytes| <= |c.payload| && c.payload[o..o + |bytes|] == bytes
  }

  /** `ReadInt` where the four bytes at the read position encode `i`. */
  lemma ReadIntAt(c: Cursor, i: int)
    requires -TWO31 <= i < TWO31 && Under(c, Int32Le(i))
    ensures ReadInt(c) == Step(c.(readIndex := c.readIndex + SIZE_INT32), Ok(i))
  {
    var e := Int32Le(i);
    AlignedWidths(e);
    ReadFixedUnder(c, e);
    Int32RoundTrip(i);
  }

  lemma ReadFixedUnder(c: Cursor, bytes: seq<byte>)
    requires Under(c, bytes) && AlignInt(|bytes|, SIZE_UINT32) == |bytes|
    ensures ReadFixed(c, |bytes|) == Step(c.(readIndex := c.readIndex + |bytes|), Ok(bytes))
  {
  }

  /**
   * As written, `ReadString` lets a negative length that is a multiple of 4 through the
   * overlong check and moves the read index back by it before refusing it.
   */
  lemma NegativeLengthMovesBack(c: Cursor)
    requires InBounds(c)
    requires ReadInt(c).result.Ok? && ReadInt(c).result.value < 0 && ReadInt(c).result.value % 4 == 0
    ensures ReadString(c).result == Err(NegativeLength)
    ensures ReadString(c).cursor.readIndex == ReadInt(c).cursor.readIndex + ReadInt(c).result.value
    ensures ReadString(c).cursor.readIndex < c.readIndex + SIZE_INT32
  {
    var n := ReadInt(c);
    ReadFixedKeepsBounds(c, SIZE_INT32);
    AlignFixedIffMultiple(n.result.value);
    assert ReadString(c) == ReadBytes(n.cursor, n.result.value);
  }

  /**
   * On `NegativeLengthCursor` the length read is -8: the read index goes back from 4 to
   * -4, and the next `ReadInt` reads the payload-size field in front of the payload.
   */
  lemma NegativeLengthRewinds()
    ensures var c := NegativeLengthCursor(); var r := ReadString(c);
      && r.result == Err(NegativeLength)
      && r.cursor == c.(readIndex := -4)
      && !InBounds(r.cursor)
      && ReadInt(r.cursor).result == Ok(8)
  {
    NegativeLengthAt(NegativeLengthCursor());
  }

  lemma NegativeLengthAt(c: Cursor)
    requires c.payload == Int32Le(8) + Int32Le(-8) + Zeros(4)
    requires c.payloadOffset == 4 && c.readIndex == 0 && c.endIndex == 8
    ensures var r := ReadString(c);
      && r.result == Err(NegativeLength)
      && r.cursor == c.(readIndex := -4)
      && ReadInt(r.cursor).result == Ok(8)
  {
    NegativeLengthFields(c.payload);
    ReadIntAt(c, -8);
    NegativeLengthMovesBack(c);
    ReadIntAt(c.(readIndex := -4), 8);
  }

  lemma NegativeLengthFields(b: seq<byte>)
    requires b == Int32Le(8) + Int32Le(-8) + Zeros(4)
    ensures |b| == 12 && b[0..4] == Int32Le(8) && b[4..8] == Int32Le(-8)
  {
  }

  /** `GetReadPointerAndAdvance` of the Chromium reader: negative lengths are refused too. */
  function TakeCorrected(c: Cursor, length: int): (r: Step<int>)
    ensures r.result.Err? <==> length < 0 || length > c.endIndex - c.readIndex
    ensures r.result.Err? ==> r.cursor == c.(readIndex := c.endIndex)
    ensures InBounds(c) ==> InBounds(r.cursor)
  {
    if length < 0 || length > c.endIndex - c.readIndex then
      Step(c.(readIndex := c.endIndex), Err(if length < 0 then NegativeLength else Overlong))
    else Step(Advance(c, length), Ok(c.payloadOffset + c.readIndex))
  }

  function ReadBytesCorrected(c: Cursor, length: int): (r: Step<seq<byte>>)
    ensures r.result.Ok? ==> |r.result.value| == length
    ensures InBounds(c) ==> InBounds(r.cursor)
  {
    var t := TakeCorrected(c, length);
    if t.result.Err? then Step(t.cursor, Err(t.result.error))
    else
      var off := t.result.value;
      if off < 0 || off + length > |c.payload| then Step(t.cursor, Err(OutOfRange))
      else Step(t.cursor, Ok(c.payload[off..off + length]))
  }

  function ReadStringCorrected(c: Cursor): Step<seq<byte>>
  {
    var n := ReadInt(c);
    if n.result.Err? then Step(n.cursor, Err(n.result.error))
    else ReadBytesCorrected(n.cursor, n.result.value)
  }

  /** The corrected `ReadString` keeps the cursor in bounds whatever length it reads. */
  lemma ReadStringCorrectedKeepsBounds(c: Cursor)
    requires InBounds(c)
    ensures InBounds(ReadStringCorrected(c).cursor)
  {
    ReadFixedKeepsBounds(c, SIZE_INT32);
  }

  /** Where the length read is not negative, the corrected reader does what the C# code does. */
  lemma CorrectedReadStringAgrees(c: Cursor)
    requires ReadInt(c).result.Ok? ==> ReadInt(c).result.value >= 0
    ensures ReadStringCorrected(c) == ReadString(c)
  {
  }

  /** On the negative length the corrected reader pins the cursor, so the next read fails. */
  lemma CorrectedNegativeLengthPins()
    ensures var c := NegativeLengthCursor(); var r := ReadStringCorrected(c);
      && r.result == Err(NegativeLength)
      && r.cursor == c.(readIndex := c.endIndex)
      && ReadInt(r.cursor).result == Err(Overlong)
  {
    CorrectedPinsAt(NegativeLengthCursor());
  }

  lemma CorrectedPinsAt(c: Cursor)
    requires c.payload == Int32Le(8) + Int32Le(-8) + Zeros(4)
    requires c.payloadOffset == 4 && c.readIndex == 0 && c.endIndex == 8
    ensures var r := ReadStringCorrected(c);
      && r.result == Err(NegativeLength)
      && r.cursor == c.(readIndex := c.endIndex)
      && ReadInt(r.cursor).result == Err(Overlong)
  {
    NegativeLengthFields(c.payload);
    ReadIntAt(c, -8);
    var c1 := c.(readIndex := 4);
    assert ReadStringCorrected(c) == ReadBytesCorrected(c1, -8);
    PinnedReadFails(c.(readIndex := c.endIndex), KInt);
  }
}
