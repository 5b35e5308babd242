/**
 * The reader inverts the writer: what `WriteAll` appends, `ReadAll` reads back, and a
 * header written, turned into a buffer and wrapped again reads back the same values.
 * Also: what the reader keeps of its cursor, and where a negative length rewinds it.
 */
module PickleCodec {
  import opened Wrappers
  import opened Bytes
  import opened PickleSpec
  import opened PickleLaws
  import opened PickleFromBuffer
  import opened PickleReader

  /** The next `|bytes|` bytes of the payload, before the end index, are `bytes`. */
  ghost predicate Holds(c: Cursor, bytes: seq<byte>)
  {
    && 0 <= c.readIndex && c.readIndex + |bytes| <= c.endIndex
    && 0 <= c.payloadOffset && c.payloadOffset + c.endIndex <= |c.payload|
    && c.payload[c.payloadOffset + c.readIndex..c.payloadOffset + c.readIndex + |bytes|] == bytes
  }

  function Skip(c: Cursor, n: int): Cursor { c.(readIndex := c.readIndex + n) }

  lemma HoldsSplit(c: Cursor, a: seq<byte>, b: seq<byte>)
    requires Holds(c, a + b)
    ensures Holds(c, a) && Holds(Skip(c, |a|), b)
  {
    var i := c.payloadOffset + c.readIndex;
    assert c.payload[i..i + |a|] == c.payload[i..i + |a| + |b|][..|a|];
    assert c.payload[i + |a|..i + |a| + |b|] == c.payload[i..i + |a| + |b|][|a|..];
  }

  /** A fixed-width read over bytes that are there returns them and moves past them. */
  lemma ReadFixedInverts(c: Cursor, bytes: seq<byte>)
    requires Holds(c, bytes) && AlignInt(|bytes|, SIZE_UINT32) == |bytes|
    ensures ReadFixed(c, |bytes|) == Step(Skip(c, |bytes|), Ok(bytes))
  {
  }

  lemma AlignedWidths(bs: seq<byte>)
    requires |bs| == 4 || |bs| == 8
    ensures AlignInt(|bs|, SIZE_UINT32) == |bs|
  {
    DivUnique(|bs|, 4, |bs| / 4, 0);
    AlignOfMultiple(|bs|, SIZE_UINT32);
  }

  /** Reading the kind of a value where its encoding lies gives back the value. */
  lemma ReadValueInverts(c: Cursor, v: Value)
    requires InRange(v) && Holds(c, Encoding(v))
    ensures ReadValue(c, KindOf(v)) == Step(Skip(c, |Encoding(v)|), Ok(v))
  {
    match v
    case Bool(b) => ReadIntInverts(c, if b then 1 else 0);
    case Int(i) => ReadIntInverts(c, i);
    case UInt32(u) => ReadUInt32Inverts(c, u);
    case Int64(l) => ReadInt64Inverts(c, l);
    case UInt64(u) => ReadUInt64Inverts(c, u);
    case String(bs) => ReadStringInverts(c, bs);
  }

  lemma ReadUInt32Inverts(c: Cursor, u: nat)
    requires u < TWO32 && Holds(c, UInt32Le(u))
    ensures ReadUInt32(c) == Step(Skip(c, 4), Ok(u))
  {
    AlignedWidths(UInt32Le(u));
    ReadFixedInverts(c, UInt32Le(u));
    UInt32RoundTrip(u);
  }

  lemma ReadInt64Inverts(c: Cursor, l: int)
    requires -TWO63 <= l < TWO63 && Holds(c, Int64Le(l))
    ensures ReadInt64(c) == Step(Skip(c, 8), Ok(l))
  {
    AlignedWidths(Int64Le(l));
    ReadFixedInverts(c, Int64Le(l));
    Int64RoundTrip(l);
  }

  lemma ReadUInt64Inverts(c: Cursor, u: nat)
    requires u < TWO64 && Holds(c, UInt64Le(u))
    ensures ReadUInt64(c) == Step(Skip(c, 8), Ok(u))
  {
    AlignedWidths(UInt64Le(u));
    ReadFixedInverts(c, UInt64Le(u));
    UInt64RoundTrip(u);
  }

  lemma ReadIntInverts(c: Cursor, i: int)
    requires -TWO31 <= i < TWO31 && Holds(c, Int32Le(i))
    ensures ReadInt(c) == Step(Skip(c, 4), Ok(i))
  {
    var e := Int32Le(i);
    AlignedWidths(e);
    ReadFixedInverts(c, e);
    Int32RoundTrip(i);
  }

  lemma ReadStringInverts(c: Cursor, bs: seq<byte>)
    requires |bs| < TWO31 && Holds(c, Encoding(String(bs)))
    ensures ReadString(c) == Step(Skip(c, |Encoding(String(bs))|), Ok(bs))
  {
    var len := Int32Le(|bs|);
    var pad := Zeros(AlignInt(|bs|, SIZE_UINT32) - |bs|);
    assert Encoding(String(bs)) == len + (bs + pad);
    HoldsSplit(c, len, bs + pad);
    ReadIntInverts(c, |bs|);
    var c1 := Skip(c, 4);
    HoldsSplit(c1, bs, pad);
    BytesInverts(c1, bs, |pad|);
    assert ReadString(c) == ReadBytes(c1, |bs|);
  }

  /** A byte read returns the bytes and moves past them and their padding. */
  lemma BytesInverts(c: Cursor, bs: seq<byte>, padding: int)
    requires Holds(c, bs) && padding == AlignInt(|bs|, SIZE_UINT32) - |bs|
    requires c.readIndex + |bs| + padding <= c.endIndex
    ensures ReadBytes(c, |bs|) == Step(Skip(c, |bs| + padding), Ok(bs))
  {
  }

  /** Reading the kinds of a list of values where their encodings lie gives back the list. */
  lemma {:induction false} ReadAllInverts(c: Cursor, vals: seq<Value>)
    requires forall i :: 0 <= i < |vals| ==> InRange(vals[i])
    requires Holds(c, EncodeAll(vals))
    ensures ReadAll(c, KindsOf(vals)) == Step(Skip(c, |EncodeAll(vals)|), Ok(vals))
    decreases |vals|
  {
    if vals != [] {
      var e := Encoding(vals[0]);
      assert EncodeAll(vals) == e + EncodeAll(vals[1..]);
      HoldsSplit(c, e, EncodeAll(vals[1..]));
      ReadValueInverts(c, vals[0]);
      var c1 := Skip(c, |e|);
      ReadAllInverts(c1, vals[1..]);
      assert KindsOf(vals)[1..] == KindsOf(vals[1..]);
      assert [vals[0]] + vals[1..] == vals;
    }
  }

  /**
   * The buffer of a pickle holding `vals`: the payload size, then the encodings. Wrapped
   * by `CreateFromBuffer` and read in the same order it gives back `vals`, and the
   * reader stops exactly at the payload's end.
   */
  lemma ReadBackBuffer(vals: seq<Value>)
    requires forall i :: 0 <= i < |vals| ==> InRange(vals[i])
    requires |EncodeAll(vals)| < TWO31
    ensures var e := EncodeAll(vals); var buf := UInt32Le(|e|) + e;
      && CreateFromBuffer(buf) == Ok(State(buf, SIZE_UINT32, CAPACITY_READ_ONLY, 0))
      && IteratorOf(State(buf, SIZE_UINT32, CAPACITY_READ_ONLY, 0)) == Ok(Cursor(buf, SIZE_UINT32, 0, |e|))
      && ReadAll(Cursor(buf, SIZE_UINT32, 0, |e|), KindsOf(vals))
         == Step(Cursor(buf, SIZE_UINT32, |e|, |e|), Ok(vals))
  {
    var e := EncodeAll(vals);
    SizedBuffer(e);
    ReadFromPayload(UInt32Le(|e|) + e, vals);
  }

  /** A buffer made of a payload-size field and that many bytes wraps into a readable pickle. */
  lemma SizedBuffer(e: seq<byte>)
    requires |e| < TWO31
    ensures var buf := UInt32Le(|e|) + e;
      && |buf| == SIZE_UINT32 + |e| && buf[SIZE_UINT32..] == e
      && CreateFromBuffer(buf) == Ok(State(buf, SIZE_UINT32, CAPACITY_READ_ONLY, 0))
      && IteratorOf(State(buf, SIZE_UINT32, CAPACITY_READ_ONLY, 0)) == Ok(Cursor(buf, SIZE_UINT32, 0, |e|))
  {
    var buf := UInt32Le(|e|) + e;
    SizeFieldOf(|e|, e);
    AfterField(UInt32Le(|e|), e);
    FromBufferOfFourByteHeader(buf);
  }

  lemma AfterField(field: seq<byte>, rest: seq<byte>)
    requires |field| == SIZE_UINT32
    ensures |field + rest| == SIZE_UINT32 + |rest| && (field + rest)[SIZE_UINT32..] == rest
  {
  }

  /** The reader over a payload that starts at index 4 and holds the encodings of `vals`. */
  lemma ReadFromPayload(buf: seq<byte>, vals: seq<Value>)
    requires forall i :: 0 <= i < |vals| ==> InRange(vals[i])
    requires |buf| == SIZE_UINT32 + |EncodeAll(vals)| && buf[SIZE_UINT32..] == EncodeAll(vals)
    ensures var n := |EncodeAll(vals)|;
      ReadAll(Cursor(buf, SIZE_UINT32, 0, n), KindsOf(vals)) == Step(Cursor(buf, SIZE_UINT32, n, n), Ok(vals))
  {
    var e := EncodeAll(vals);
    var c := Cursor(buf, SIZE_UINT32, 0, |e|);
    assert buf[4..4 + |e|] == e;
    ReadAllInverts(c, vals);
  }

  /**
   * The round trip from a fresh pickle: the values it was given to write, read back in
   * the same order from `CreateFromBuffer(ToBuffer())`, come back unchanged, and the
   * reader ends exactly at the payload's end.
   */
  lemma WriteThenRead(vals: seq<Value>)
    requires forall i :: 0 <= i < |vals| ==> InRange(vals[i])
    requires WriteAll(CreateEmpty(), vals).ok && |EncodeAll(vals)| < TWO31 - SIZE_UINT32
    ensures var e := EncodeAll(vals); var buf := UInt32Le(|e|) + e;
      && ToBuffer(WriteAll(CreateEmpty(), vals).state) == Ok(buf)
      && CreateFromBuffer(buf) == Ok(State(buf, SIZE_UINT32, CAPACITY_READ_ONLY, 0))
      && IteratorOf(State(buf, SIZE_UINT32, CAPACITY_READ_ONLY, 0)) == Ok(Cursor(buf, SIZE_UINT32, 0, |e|))
      && ReadAll(Cursor(buf, SIZE_UINT32, 0, |e|), KindsOf(vals))
         == Step(Cursor(buf, SIZE_UINT32, |e|, |e|), Ok(vals))
  {
    WriteAllToBuffer(vals);
    ReadBackBuffer(vals);
  }

  /** From the corrected fresh pickle, the same round trip needs no premise about the writes. */
  lemma CorrectedWriteThenRead(vals: seq<Value>)
    requires forall i :: 0 <= i < |vals| ==> InRange(vals[i])
    requires |EncodeAll(vals)| < TWO31 - SIZE_UINT32
    ensures WriteAll(CreateEmptyCorrected(), vals).ok
    ensures var e := EncodeAll(vals); var buf := UInt32Le(|e|) + e;
      && ToBuffer(WriteAll(CreateEmptyCorrected(), vals).state) == Ok(buf)
      && CreateFromBuffer(buf) == Ok(State(buf, SIZE_UINT32, CAPACITY_READ_ONLY, 0))
      && IteratorOf(State(buf, SIZE_UINT32, CAPACITY_READ_ONLY, 0)) == Ok(Cursor(buf, SIZE_UINT32, 0, |e|))
      && ReadAll(Cursor(buf, SIZE_UINT32, 0, |e|), KindsOf(vals))
         == Step(Cursor(buf, SIZE_UINT32, |e|, |e|), Ok(vals))
  {
    CorrectedWritesSucceed(vals);
    FramedWriteAllToBuffer(CreateEmptyCorrected(), vals);
    ReadBackBuffer(vals);
  }
}
