/**
 * What the pickle writer promises: alignment of every field, the payload-size field,
 * the exact bytes `ToBuffer` returns, and where the freshly created writer runs past
 * its own backing array.
 */
module PickleLaws {
  import opened Wrappers
  import opened Bytes
  import opened PickleSpec

  /** A fresh pickle is 64 zero bytes with header size 4, capacity 64 and nothing written. */
  lemma CreateEmptyIsZeroed()
    ensures CreateEmpty() == State(Zeros(64), SIZE_UINT32, 64, 0)
    ensures ToBuffer(CreateEmpty()) == Ok(Zeros(4))
  {
    CreateEmptyValue();
    ZeroedToBuffer();
  }

  lemma CreateEmptyValue()
    ensures CreateEmpty() == State(Zeros(64), SIZE_UINT32, 64, 0)
  {
    FirstResize();
    ZeroSizeField();
  }

  lemma ZeroedToBuffer()
    ensures ToBuffer(State(Zeros(64), SIZE_UINT32, 64, 0)) == Ok(Zeros(4))
  {
    assert Zeros(64)[..4] == Zeros(4);
    FromLeZeros(4);
    assert GetPayloadSize(Zeros(64)) == 0;
  }

  lemma ResizeEmpty(n: nat)
    ensures Resize(State([], SIZE_UINT32, 0, 0), n)
         == State(Zeros(AlignInt(n, PAYLOAD_UNIT)), SIZE_UINT32, AlignInt(n, PAYLOAD_UNIT), 0)
  {
  }

  lemma FirstResize()
    ensures Resize(State([], SIZE_UINT32, 0, 0), PAYLOAD_UNIT) == State(Zeros(64), SIZE_UINT32, 64, 0)
  {
    ResizeEmpty(64);
    assert AlignInt(64, 64) == 64;
  }

  lemma ZeroSizeField()
    ensures SetPayloadSize(Zeros(64), 0) == Zeros(64)
  {
    LeZero(4);
    assert Wrap(0, 4) == 0;
  }

  /**
   * The shape of every pickle the archive writer builds: a 4-byte header holding the
   * payload size, then `writeOffset` payload bytes, 4-aligned.
   */
  ghost predicate Framed(s: State)
  {
    && s.headerSize == SIZE_UINT32
    && Sane(s)
    && s.writeOffset % 4 == 0
    && SIZE_UINT32 + s.writeOffset <= |s.header|
    && s.header[..4] == UInt32Le(Wrap(s.writeOffset, 4))
  }

  ghost function Payload(s: State): seq<byte>
    requires Framed(s)
  {
    s.header[4..4 + s.writeOffset]
  }

  lemma GrowFramed(s: State, n: int)
    requires Framed(s) && n >= 0
    ensures Framed(Grow(s, n)) && Payload(Grow(s, n)) == Payload(s)
  {
    GrowMakesRoom(s, n);
    var g := Grow(s, n);
    assert g.header[..4] == g.header[..|s.header|][..4];
    assert g.header[4..4 + s.writeOffset] == g.header[..|s.header|][4..4 + s.writeOffset];
  }

  /**
   * A successful `Put` on a framed pickle appends the bytes and their zero padding to the
   * payload, and the header then holds the new, still 4-aligned, payload size.
   */
  lemma {:induction false} PutAppends(s: State, bytes: seq<byte>)
    requires Framed(s) && Put(s, bytes).ok
    ensures Framed(Put(s, bytes).state)
    ensures Put(s, bytes).state.writeOffset == s.writeOffset + AlignInt(|bytes|, SIZE_UINT32)
    ensures Payload(Put(s, bytes).state)
         == Payload(s) + bytes + Zeros(AlignInt(|bytes|, SIZE_UINT32) - |bytes|)
  {
    var at := 4 + s.writeOffset;
    var dl := AlignInt(|bytes|, SIZE_UINT32);
    var h2 := ZeroFill(Splice(s.header, at, bytes), at + |bytes|, at + dl);
    PutStores(s, bytes, h2, s.writeOffset + dl);
    PaddedPayload(s.header, s.writeOffset, bytes, dl, h2);
    AlignedSum(s.writeOffset, dl);
  }

  /** After the splice, the padding and the new size field, the payload is the old one, the bytes and the padding. */
  lemma PaddedPayload(h: seq<byte>, w: nat, bytes: seq<byte>, dl: nat, h2: seq<byte>)
    requires |bytes| <= dl && 4 + w + dl <= |h|
    requires h2 == ZeroFill(Splice(h, 4 + w, bytes), 4 + w + |bytes|, 4 + w + dl)
    ensures var h3 := SetPayloadSize(h2, w + dl);
      && h3[4..4 + w + dl] == h[4..4 + w] + bytes + Zeros(dl - |bytes|)
      && h3[..4] == UInt32Le(Wrap(w + dl, 4))
  {
    var at := 4 + w;
    var h3 := SetPayloadSize(h2, w + dl);
    var expected := h[4..at] + bytes + Zeros(dl - |bytes|);
    forall i | 4 <= i < 4 + w + dl
      ensures h3[i] == expected[i - 4]
    {
      assert h3[i] == h2[i];
      if i < at {
        assert h2[i] == h[i];
      } else if i < at + |bytes| {
        assert h2[i] == bytes[i - at];
      } else {
        assert h2[i] == 0;
      }
    }
    assert h3[4..4 + w + dl] == expected;
  }

  lemma AlignedSum(w: int, dl: int)
    requires w % 4 == 0 && dl % 4 == 0
    ensures (w + dl) % 4 == 0
  {
    assert w == 4 * (w / 4);
    assert dl == 4 * (dl / 4);
    DivUnique(w + dl, 4, w / 4 + dl / 4, 0);
  }

  ghost predicate FixedWidth(bytes: seq<byte>) { |bytes| == 4 || |bytes| == 8 }

  /** The capacity step and then `Put`: the bytes and their padding are appended. */
  lemma GrowPutAppends(s: State, bytes: seq<byte>)
    requires Framed(s) && Put(Grow(s, |bytes|), bytes).ok
    ensures var r := Put(Grow(s, |bytes|), bytes).state;
      && Framed(r)
      && r.writeOffset == s.writeOffset + AlignInt(|bytes|, SIZE_UINT32)
      && Payload(r) == Payload(s) + bytes + Zeros(AlignInt(|bytes|, SIZE_UINT32) - |bytes|)
      && r.writeOffset <= r.capacity
  {
    GrowFramed(s, |bytes|);
    GrowMakesRoom(s, |bytes|);
    PutAppends(Grow(s, |bytes|), bytes);
  }

  /**
   * A fixed-width write advances the write offset by the field's width, stores the new
   * offset as the payload size and appends exactly the field: a 4- or 8-byte field
   * needs no padding.
   */
  lemma WriteFixedAppends(s: State, bytes: seq<byte>)
    requires Framed(s) && FixedWidth(bytes) && WriteFixed(s, bytes).ok
    ensures var r := WriteFixed(s, bytes).state;
      && Framed(r)
      && r.writeOffset == s.writeOffset + |bytes|
      && Payload(r) == Payload(s) + bytes
      && r.writeOffset <= r.capacity
  {
    DivUnique(|bytes|, 4, |bytes| / 4, 0);
    AlignOfMultiple(|bytes|, SIZE_UINT32);
    GrowPutAppends(s, bytes);
    assert Payload(s) + bytes + Zeros(0) == Payload(s) + bytes;
  }

  // The four outcomes of `Put`, one per exit of its body.

  lemma PutOutside(s: State, bytes: seq<byte>)
    requires var at := s.headerSize + s.writeOffset; at < 0 || at + |bytes| > |s.header|
    ensures Put(s, bytes) == Written(false, s)
  {
  }

  lemma PutPadOverruns(s: State, bytes: seq<byte>, h: seq<byte>)
    requires var at := s.headerSize + s.writeOffset;
      && 0 <= at && at + |bytes| <= |s.header| && at + AlignInt(|bytes|, SIZE_UINT32) > |s.header|
      && h == ZeroFill(Splice(s.header, at, bytes), at + |bytes|, |s.header|)
    ensures Put(s, bytes) == Written(false, s.(header := h))
  {
  }

  lemma PutNoSizeField(s: State, bytes: seq<byte>, h: seq<byte>)
    requires var at := s.headerSize + s.writeOffset; var padEnd := at + AlignInt(|bytes|, SIZE_UINT32);
      && 0 <= at && at + |bytes| <= padEnd <= |s.header| && |s.header| < SIZE_UINT32
      && h == ZeroFill(Splice(s.header, at, bytes), at + |bytes|, padEnd)
    ensures Put(s, bytes) == Written(false, s.(header := h))
  {
  }

  lemma PutStores(s: State, bytes: seq<byte>, h: seq<byte>, newSize: int)
    requires var at := s.headerSize + s.writeOffset; var padEnd := at + AlignInt(|bytes|, SIZE_UINT32);
      && 0 <= at && at + |bytes| <= padEnd <= |s.header| && |s.header| >= SIZE_UINT32
      && h == ZeroFill(Splice(s.header, at, bytes), at + |bytes|, padEnd)
      && newSize == s.writeOffset + AlignInt(|bytes|, SIZE_UINT32)
    ensures Put(s, bytes) == Written(true, State(SetPayloadSize(h, newSize), s.headerSize, s.capacity, newSize))
  {
  }

  /** Every value but a string is written as one fixed-width field, its encoding. */
  lemma WriteValueIsFixed(s: State, v: Value)
    requires Sane(s) && !v.String?
    ensures WriteValue(s, v) == WriteFixed(s, Encoding(v)) && FixedWidth(Encoding(v))
  {
  }

  /** A string write appends the length field, the bytes and their padding. */
  lemma WriteStringAppends(s: State, bs: seq<byte>)
    requires Framed(s) && WriteString(s, bs).ok
    ensures var r := WriteString(s, bs).state;
      && Framed(r)
      && r.writeOffset == s.writeOffset + |Encoding(String(bs))|
      && Payload(r) == Payload(s) + Encoding(String(bs))
      && r.writeOffset <= r.capacity
  {
    var w := WriteInt(s, |bs|);
    StringSteps(s, bs);
    WriteFixedAppends(s, Int32Le(|bs|));
    GrowPutAppends(w.state, bs);
    var pad := Zeros(AlignInt(|bs|, SIZE_UINT32) - |bs|);
    assert Encoding(String(bs)) == Int32Le(|bs|) + bs + pad;
    ConcatAssoc4(Payload(s), Int32Le(|bs|), bs, pad);
  }

  lemma ConcatAssoc4(a: seq<byte>, b: seq<byte>, c: seq<byte>, d: seq<byte>)
    ensures a + b + c + d == a + (b + c + d)
  {
  }

  /** A successful string write is the length write and then the capacity step and `Put` of the bytes. */
  lemma StringSteps(s: State, bs: seq<byte>)
    requires Sane(s) && WriteString(s, bs).ok
    ensures WriteInt(s, |bs|) == WriteFixed(s, Int32Le(|bs|)) && WriteInt(s, |bs|).ok
    ensures WriteString(s, bs) == Put(Grow(WriteInt(s, |bs|).state, |bs|), bs)
  {
  }

  /** The bytes `Encoding` gives a value are exactly the bytes its write appends. */
  lemma WriteValueAppends(s: State, v: Value)
    requires Framed(s) && WriteValue(s, v).ok
    ensures var r := WriteValue(s, v).state;
      && Framed(r)
      && r.writeOffset == s.writeOffset + |Encoding(v)|
      && Payload(r) == Payload(s) + Encoding(v)
      && r.writeOffset <= r.capacity
  {
    if v.String? {
      WriteStringAppends(s, v.utf8);
    } else {
      WriteValueIsFixed(s, v);
      WriteFixedAppends(s, Encoding(v));
    }
  }

  /** Writing a list of values to a framed pickle appends their encodings in order. */
  lemma {:induction false} WriteAllAppends(s: State, vals: seq<Value>)
    requires Framed(s) && WriteAll(s, vals).ok
    ensures Framed(WriteAll(s, vals).state)
    ensures Payload(WriteAll(s, vals).state) == Payload(s) + EncodeAll(vals)
    ensures WriteAll(s, vals).state.writeOffset == s.writeOffset + |EncodeAll(vals)|
    decreases |vals|
  {
    if vals != [] {
      var w := WriteValue(s, vals[0]);
      WriteValueAppends(s, vals[0]);
      WriteAllAppends(w.state, vals[1..]);
      assert Payload(s) + Encoding(vals[0]) + EncodeAll(vals[1..]) == Payload(s) + EncodeAll(vals);
    }
  }

  /** A zeroed array of at least four bytes is a framed pickle with nothing written. */
  lemma ZeroedFramed(n: nat, capacity: nat)
    requires n >= SIZE_UINT32
    ensures Framed(State(Zeros(n), SIZE_UINT32, capacity, 0))
    ensures Payload(State(Zeros(n), SIZE_UINT32, capacity, 0)) == []
  {
    LeZero(4);
    assert Wrap(0, 4) == 0;
    assert Zeros(n)[..4] == Zeros(4);
  }

  lemma EmptyFramed()
    ensures Framed(CreateEmpty()) && Payload(CreateEmpty()) == []
  {
    LeZero(4);
  }

  /**
   * `ToBuffer` of a framed pickle is exactly the payload-size field followed by the
   * payload: header size plus payload size bytes, and none of the spare capacity.
   */
  lemma FramedToBuffer(s: State)
    requires Framed(s) && s.writeOffset < TWO31 - SIZE_UINT32
    ensures ToBuffer(s) == Ok(UInt32Le(s.writeOffset) + Payload(s))
    ensures |ToBuffer(s).value| == s.headerSize + s.writeOffset
  {
    Pow256Values();
    Unchecked32Small(s.headerSize + s.writeOffset);
    DivUnique(s.writeOffset, TWO32, 0, s.writeOffset);
    UInt32RoundTrip(s.writeOffset);
    assert s.header[..4] == s.header[..4 + s.writeOffset][..4];
    assert GetPayloadSize(s.header) == s.writeOffset;
    assert s.header[..4 + s.writeOffset] == s.header[..4] + s.header[4..4 + s.writeOffset];
  }

  /**
   * The writer side of the codec round trip: when every write succeeds, the buffer of a
   * fresh pickle is the payload size followed by the encodings of the values, in order.
   */
  lemma WriteAllToBuffer(vals: seq<Value>)
    requires WriteAll(CreateEmpty(), vals).ok && |EncodeAll(vals)| < TWO31 - SIZE_UINT32
    ensures ToBuffer(WriteAll(CreateEmpty(), vals).state)
         == Ok(UInt32Le(|EncodeAll(vals)|) + EncodeAll(vals))
  {
    EmptyFramed();
    FramedWriteAllToBuffer(CreateEmpty(), vals);
  }

  lemma FramedWriteAllToBuffer(s: State, vals: seq<Value>)
    requires Framed(s) && s.writeOffset == 0 && WriteAll(s, vals).ok && |EncodeAll(vals)| < TWO31 - SIZE_UINT32
    ensures ToBuffer(WriteAll(s, vals).state) == Ok(UInt32Le(|EncodeAll(vals)|) + EncodeAll(vals))
  {
    WriteAllAppends(s, vals);
    var r := WriteAll(s, vals).state;
    assert Payload(s) == [];
    assert Payload(r) == EncodeAll(vals);
    FramedToBuffer(r);
  }

  /** After any successful write, the write offset is within the capacity after the header. */
  lemma WriteWithinCapacity(s: State, v: Value)
    requires Sane(s) && WriteValue(s, v).ok
    ensures WriteValue(s, v).state.writeOffset <= WriteValue(s, v).state.capacity
  {
    if v.String? {
      var w := WriteInt(s, |v.utf8|);
      GrowMakesRoom(w.state, |v.utf8|);
    } else {
      WriteValueIsFixed(s, v);
      GrowMakesRoom(s, |Encoding(v)|);
    }
  }

  // ---- The fresh-pickle overrun ----

  /**
   * The in-bounds invariant of the writer: the backing array holds the header and the
   * whole capacity after it.
   */
  ghost predicate Roomy(s: State)
  {
    && SIZE_UINT32 <= s.headerSize
    && Sane(s)
    && s.writeOffset <= s.capacity
    && s.headerSize + s.capacity <= |s.header|
  }

  /** Once the array holds header and capacity, no write runs past it. */
  lemma RoomyPutSucceeds(s: State, bytes: seq<byte>)
    requires Roomy(s) && s.writeOffset + AlignInt(|bytes|, SIZE_UINT32) <= s.capacity
    ensures Put(s, bytes).ok && Roomy(Put(s, bytes).state)
  {
  }

  lemma RoomyGrow(s: State, n: int)
    requires Roomy(s) && n >= 0
    ensures Roomy(Grow(s, n)) && Grow(s, n).writeOffset + AlignInt(n, SIZE_UINT32) <= Grow(s, n).capacity
  {
    GrowMakesRoom(s, n);
  }

  lemma RoomyWriteFixed(s: State, bytes: seq<byte>)
    requires Roomy(s)
    ensures WriteFixed(s, bytes).ok && Roomy(WriteFixed(s, bytes).state)
  {
    RoomyGrow(s, |bytes|);
    RoomyPutSucceeds(Grow(s, |bytes|), bytes);
  }

  /** Every write on a state with the in-bounds invariant succeeds and keeps it. */
  lemma RoomyWriteSucceeds(s: State, v: Value)
    requires Roomy(s)
    ensures WriteValue(s, v).ok && Roomy(WriteValue(s, v).state)
  {
    if v.String? {
      RoomyWriteFixed(s, Int32Le(|v.utf8|));
      var w := WriteInt(s, |v.utf8|);
      RoomyGrow(w.state, |v.utf8|);
      RoomyPutSucceeds(Grow(w.state, |v.utf8|), v.utf8);
    } else {
      WriteValueIsFixed(s, v);
      RoomyWriteFixed(s, Encoding(v));
    }
  }

  lemma {:induction false} RoomyWriteAllSucceeds(s: State, vals: seq<Value>)
    requires Roomy(s)
    ensures WriteAll(s, vals).ok
    decreases |vals|
  {
    if vals != [] {
      RoomyWriteSucceeds(s, vals[0]);
      RoomyWriteAllSucceeds(WriteValue(s, vals[0]).state, vals[1..]);
    }
  }

  /** A resize of a pickle with at least a 4-byte header establishes the in-bounds invariant. */
  lemma ResizeEstablishesRoomy(s: State, newCapacity: int)
    requires Sane(s) && SIZE_UINT32 <= s.headerSize <= |s.header| && s.writeOffset <= newCapacity
    ensures Roomy(Resize(s, newCapacity))
  {
  }

  /** The pickle `CreateEmpty` returns does not have the in-bounds invariant: 4 + 64 > 64. */
  lemma CreateEmptyNotRoomy()
    ensures !Roomy(CreateEmpty())
  {
  }

  /**
   * The shape of a fresh pickle before its first resize: a 64-byte array that is all
   * capacity, with nothing left for the 4-byte header.
   */
  ghost predicate Unresized(s: State)
  {
    && s.headerSize == SIZE_UINT32 && s.capacity == 64 && |s.header| == 64
    && 0 <= s.writeOffset && s.writeOffset % 4 == 0
  }

  lemma FreshUnresized()
    ensures Unresized(CreateEmpty()) && CreateEmpty().writeOffset == 0
  {
  }

  /** Before the first resize a 4-byte write succeeds exactly while the offset is at most 56. */
  lemma UnresizedInt(s: State, v: int)
    requires Unresized(s) && s.writeOffset <= 60
    ensures WriteInt(s, v).ok <==> s.writeOffset <= 56
    ensures WriteInt(s, v).ok ==> Unresized(WriteInt(s, v).state)
    ensures WriteInt(s, v).ok ==> WriteInt(s, v).state.writeOffset == s.writeOffset + 4
  {
    var bytes := Int32Le(v);
    var w := WriteFixed(s, bytes);
    assert WriteInt(s, v) == w;
    AlignFour(bytes);
    UnresizedField(s, bytes);
    assert w.ok <==> s.writeOffset + |bytes| <= 60;
  }

  /** Before the first resize a uint32 write succeeds while the offset is at most 56. */
  lemma UnresizedUInt32Fits(s: State, u: nat)
    requires Unresized(s) && s.writeOffset <= 56
    ensures WriteUInt32(s, u).ok && WriteUInt32(s, u).state.writeOffset == s.writeOffset + 4
  {
    var bytes := UInt32Le(u);
    var w := WriteFixed(s, bytes);
    assert WriteUInt32(s, u) == w;
    AlignFour(bytes);
    UnresizedField(s, bytes);
  }

  /** Before the first resize an aligned fixed-width write needs no resize and fits while it ends by 60. */
  lemma UnresizedField(s: State, bytes: seq<byte>)
    requires Unresized(s) && AlignInt(|bytes|, SIZE_UINT32) == |bytes| && |bytes| % 4 == 0
    requires s.writeOffset + |bytes| <= 64
    ensures WriteFixed(s, bytes).ok <==> s.writeOffset + |bytes| <= 60
    ensures WriteFixed(s, bytes).ok ==> Unresized(WriteFixed(s, bytes).state)
    ensures WriteFixed(s, bytes).ok ==> WriteFixed(s, bytes).state.writeOffset == s.writeOffset + |bytes|
  {
    UnresizedGrowNoop(s, |bytes|);
    UnresizedPut(s, bytes);
  }

  lemma AlignFour(bytes: seq<byte>)
    requires |bytes| == 4
    ensures AlignInt(|bytes|, SIZE_UINT32) == |bytes| && |bytes| % 4 == 0
  {
    DivUnique(4, 4, 1, 0);
    AlignOfMultiple(|bytes|, SIZE_UINT32);
  }

  /**
   * Before the first resize a `Put` of an aligned field fits exactly while it ends within
   * the 60 bytes the array has after the header.
   */
  lemma UnresizedPut(s: State, bytes: seq<byte>)
    requires Unresized(s) && AlignInt(|bytes|, SIZE_UINT32) == |bytes| && |bytes| % 4 == 0
    ensures Put(s, bytes).ok <==> s.writeOffset + |bytes| <= 60
    ensures Put(s, bytes).ok ==> Unresized(Put(s, bytes).state)
    ensures Put(s, bytes).ok ==> Put(s, bytes).state.writeOffset == s.writeOffset + |bytes|
  {
    if Put(s, bytes).ok {
      DivUnique(s.writeOffset, 4, s.writeOffset / 4, 0);
      DivUnique(|bytes|, 4, |bytes| / 4, 0);
      DivUnique(s.writeOffset + |bytes|, 4, s.writeOffset / 4 + |bytes| / 4, 0);
    }
  }

  function Ints(n: nat): (r: seq<Value>)
    ensures |r| == n && forall i :: 0 <= i < n ==> r[i] == Int(0)
  {
    if n == 0 then [] else [Int(0)] + Ints(n - 1)
  }

  lemma {:induction false} UnresizedInts(s: State, n: nat)
    requires Unresized(s) && s.writeOffset + 4 * n <= 60
    ensures WriteAll(s, Ints(n)).ok && Unresized(WriteAll(s, Ints(n)).state)
    ensures WriteAll(s, Ints(n)).state.writeOffset == s.writeOffset + 4 * n
    decreases n
  {
    if n > 0 {
      UnresizedInt(s, 0);
      var w := WriteInt(s, 0);
      assert Ints(n)[0] == Int(0) && Ints(n)[1..] == Ints(n - 1);
      UnresizedInts(w.state, n - 1);
    }
  }

  /**
   * Fifteen `WriteInt`s on a pickle in the fresh shape fit; the sixteenth writes past the
   * 64-byte array, although it is within the capacity.
   */
  lemma SixteenthIntOverruns(s: State)
    requires Unresized(s) && s.writeOffset == 0
    ensures WriteAll(s, Ints(15)).ok
    ensures !WriteInt(WriteAll(s, Ints(15)).state, 0).ok
  {
    UnresizedInts(s, 15);
    UnresizedInt(WriteAll(s, Ints(15)).state, 0);
  }

  lemma UnresizedGrowNoop(s: State, n: nat)
    requires Unresized(s) && s.writeOffset + AlignInt(n, SIZE_UINT32) <= 64
    ensures Grow(s, n) == s
  {
  }

  /**
   * On a pickle in the fresh shape a string write fails exactly for 57 to 60 bytes: the
   * length field and the bytes fit the capacity, so nothing grows, but the bytes end past
   * the 64-byte array. Longer strings trigger a resize and succeed.
   */
  lemma FreshStringWindow(s: State, bs: seq<byte>)
    requires Unresized(s) && s.writeOffset == 0
    ensures WriteString(s, bs).ok <==> !(57 <= |bs| <= 60)
  {
    var n := |bs|;
    UnresizedInt(s, n);
    var w := WriteInt(s, n).state;
    if n <= 56 {
      AlignIntLeast(n, SIZE_UINT32, 56);
      UnresizedGrowNoop(w, n);
    } else if n <= 60 {
      AlignIntLeast(n, SIZE_UINT32, 60);
      UnresizedGrowNoop(w, n);
    } else {
      GrowMakesRoom(w, n);
      ResizeKeeps(w, Max(w.capacity * 2, w.writeOffset + AlignInt(n, SIZE_UINT32)));
    }
  }

  /**
   * The evidently intended fresh pickle: the array holds the 4-byte header and the
   * 64-byte capacity, as Chromium's pickle allocates `header_size + capacity`.
   */
  function CreateEmptyCorrected(): (s: State)
    ensures Roomy(s) && Framed(s) && Payload(s) == []
  {
    ZeroedFramed(68, 64);
    State(Zeros(68), SIZE_UINT32, 64, 0)
  }

  /** With the corrected allocation every sequence of writes succeeds. */
  lemma CorrectedWritesSucceed(vals: seq<Value>)
    ensures WriteAll(CreateEmptyCorrected(), vals).ok
  {
    RoomyWriteAllSucceeds(CreateEmptyCorrected(), vals);
  }
}

/**
 * What `CreateFromBuffer` promises about the header size it derives, the round trip
 * with `ToBuffer`, and where a negative header size gets through.
 */
module PickleFromBuffer {
  import opened Wrappers
  import opened Bytes
  import opened PickleSpec
  import opened PickleLaws

  /**
   * The header size `CreateFromBuffer` derives is at most the buffer's length and is
   * its own 4-alignment; a zero header size drops the bytes, any other keeps them all.
   */
  lemma FromBufferHeader(buffer: seq<byte>)
    requires |buffer| >= SIZE_UINT32
    ensures CreateFromBuffer(buffer).Ok?
    ensures var r := CreateFromBuffer(buffer).value;
      && r.headerSize <= |buffer| && r.headerSize % 4 == 0
      && r.capacity == CAPACITY_READ_ONLY && r.writeOffset == 0
      && (r.headerSize == 0 ==> r.header == [])
      && (r.headerSize != 0 ==> r.header == buffer)
  {
    var hs0 := Unchecked32(|buffer| - GetPayloadSize(buffer));
    var hs1 := if hs0 > |buffer| then 0 else hs0;
    AlignFixedIffMultiple(hs1);
  }

  /** A buffer shorter than the payload-size field is refused. */
  lemma FromShortBuffer(buffer: seq<byte>)
    requires |buffer| < SIZE_UINT32
    ensures CreateFromBuffer(buffer) == Err(ShortBuffer)
  {
  }

  /**
   * Reading back a buffer `ToBuffer` produced from a framed pickle gives a pickle with a
   * 4-byte header over exactly those bytes.
   */
  lemma ToBufferFromBuffer(s: State)
    requires Framed(s) && s.writeOffset < TWO31 - SIZE_UINT32
    ensures ToBuffer(s).Ok?
    ensures CreateFromBuffer(ToBuffer(s).value)
         == Ok(State(ToBuffer(s).value, SIZE_UINT32, CAPACITY_READ_ONLY, 0))
  {
    FramedToBuffer(s);
    var b := ToBuffer(s).value;
    SizeFieldOf(s.writeOffset, Payload(s));
    FromBufferOfFourByteHeader(b);
  }

  /** The size field of `UInt32Le(n) + rest` reads back as `n`. */
  lemma SizeFieldOf(n: int, rest: seq<byte>)
    requires 0 <= n < TWO31
    ensures GetPayloadSize(UInt32Le(n) + rest) == n
  {
    var b := UInt32Le(n) + rest;
    assert b[..4] == UInt32Le(n);
    Pow256Values();
    UInt32RoundTrip(n);
  }

  /** A buffer whose size field counts all bytes after the first four has a 4-byte header. */
  lemma FromBufferOfFourByteHeader(b: seq<byte>)
    requires |b| >= SIZE_UINT32 && GetPayloadSize(b) == |b| - SIZE_UINT32
    ensures CreateFromBuffer(b) == Ok(State(b, SIZE_UINT32, CAPACITY_READ_ONLY, 0))
  {
    Unchecked32Small(SIZE_UINT32);
    assert Unchecked32(|b| - GetPayloadSize(b)) == SIZE_UINT32;
    AlignFixedIffMultiple(SIZE_UINT32);
  }

  /** An eight-byte buffer whose size field claims 12 payload bytes. */
  function Claims12(): (b: seq<byte>)
    ensures |b| == 8
  {
    [12, 0, 0, 0, 0, 0, 0, 0]
  }

  /**
   * The header-size check lets a negative header size through: eight bytes claiming a
   * 12-byte payload give header size -4, which is below the length and equal to its
   * own 4-alignment, and the bytes are kept.
   */
  lemma NegativeHeaderAccepted()
    ensures CreateFromBuffer(Claims12()) == Ok(State(Claims12(), -4, CAPACITY_READ_ONLY, 0))
  {
    var b := Claims12();
    FromLeFour(b[..4]);
    AlignFixedIffMultiple(-4);
  }

  /** An eight-byte buffer whose size field, read as an `int`, is -2^31 + 8. */
  function ClaimsMinInt(): (b: seq<byte>)
    ensures |b| == 8
  {
    [8, 0, 0, 128, 0, 0, 0, 0]
  }

  /**
   * The second road to a negative header size: `8 - (-2^31 + 8)` overflows `int` to
   * -2^31, which passes both checks, and `ToBuffer`'s sum wraps back to 8, so the
   * whole buffer comes out again. The corrected check drops the bytes.
   */
  lemma WrappedHeaderAccepted()
    ensures CreateFromBuffer(ClaimsMinInt()) == Ok(State(ClaimsMinInt(), -TWO31, CAPACITY_READ_ONLY, 0))
    ensures ToBuffer(State(ClaimsMinInt(), -TWO31, CAPACITY_READ_ONLY, 0)) == Ok(ClaimsMinInt())
    ensures CreateFromBufferCorrected(ClaimsMinInt()).value.headerSize == 0
  {
    var b := ClaimsMinInt();
    FromLeFour(b[..4]);
    Pow256Values();
    var p := GetPayloadSize(b);
    assert p == 8 - TWO31;
    DivUnique(8 - p, TWO32, 0, TWO31);
    assert Unchecked32(8 - p) == -TWO31;
    AlignFixedIffMultiple(-TWO31);
    DivUnique(-TWO31 + p, TWO32, -1, 8);
    assert Unchecked32(-TWO31 + p) == 8;
    assert b[..8] == b;
  }

  /**
   * The evidently intended check, as in Chromium's pickle where the header size is
   * unsigned: a header size below zero or above the length is reset to zero.
   */
  function CreateFromBufferCorrected(buffer: seq<byte>): (r: Result<State, PickleError>)
    ensures |buffer| < SIZE_UINT32 <==> r.Err?
    ensures r.Ok? ==> 0 <= r.value.headerSize <= |buffer| && r.value.headerSize % 4 == 0
  {
    if |buffer| < SIZE_UINT32 then Err(ShortBuffer)
    else
      var hs0 := Unchecked32(|buffer| - GetPayloadSize(buffer));
      var hs1 := if hs0 < 0 || hs0 > |buffer| then 0 else hs0;
      AlignFixedIffMultiple(hs1);
      var hs := if hs1 != AlignInt(hs1, SIZE_UINT32) then 0 else hs1;
      Ok(State(if hs == 0 then [] else buffer, hs, CAPACITY_READ_ONLY, 0))
  }

  /** The corrected check agrees with the written one on every buffer whose header size is not negative. */
  lemma CorrectedAgrees(buffer: seq<byte>)
    requires |buffer| >= SIZE_UINT32 && Unchecked32(|buffer| - GetPayloadSize(buffer)) >= 0
    ensures CreateFromBufferCorrected(buffer) == CreateFromBuffer(buffer)
  {
  }

  lemma CorrectedRefusesNegative()
    ensures CreateFromBufferCorrected(Claims12()).value.headerSize == 0
  {
    var b := Claims12();
    FromLeFour(b[..4]);
  }
}
