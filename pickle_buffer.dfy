/**
 * `Pickle` as the C# code has it: a backing byte array that the writers change in place,
 * a header size, a capacity after the header and a write offset. Every method is proved
 * against the transition function of the same name in `PickleSpec`, whose properties
 * `PickleLaws` and `PickleCodec` prove.
 */
module PickleBuffer {
  import opened Wrappers
  import opened Bytes
  import opened PickleSpec
  import opened PickleLaws

  class Pickle {
    var header: array<byte>
    var headerSize: int
    var capacity: int
    var writeOffset: int

    /** The state the fields stand for. */
    function Model(): State
      reads this, header
    {
      State(header[..], headerSize, capacity, writeOffset)
    }

    /** `CreateEmpty`: header size 4, no bytes, then `Resize(64)` and `SetPayloadSize(0)`. */
    constructor CreateEmpty()
      ensures Model() == PickleSpec.CreateEmpty()
    {
      header := new byte[0];
      headerSize := SIZE_UINT32;
      capacity := 0;
      writeOffset := 0;
      new;
      ghost var s0 := Model();
      Resize(PAYLOAD_UNIT);
      ResizeKeeps(s0, PAYLOAD_UNIT);
      SetPayloadSize(0);
    }

    /**
     * The private constructor on a buffer of at least four bytes (a shorter one makes
     * `GetPayloadSize` throw: see `PickleBuffer.CreateFromBuffer`). The pickle keeps
     * the caller's array unless the header size is reset to zero.
     */
    constructor FromBuffer(buffer: array<byte>)
      requires buffer.Length >= SIZE_UINT32
      ensures Model() == PickleSpec.CreateFromBuffer(buffer[..]).value
      ensures headerSize != 0 ==> header == buffer
    {
      header := buffer;
      headerSize := Unchecked32(buffer.Length - GetPayloadSize(buffer[..]));
      capacity := CAPACITY_READ_ONLY;
      writeOffset := 0;
      new;
      if headerSize > buffer.Length {
        headerSize := 0;
      }
      if headerSize != AlignInt(headerSize, SIZE_UINT32) {
        headerSize := 0;
      }
      if headerSize == 0 {
        header := new byte[0];
      }
    }

    /** `ToBuffer`: a copy of the first `headerSize + GetPayloadSize()` bytes. */
    method ToBuffer() returns (r: Result<seq<byte>, PickleError>)
      ensures r == PickleSpec.ToBuffer(Model())
    {
      if header.Length < SIZE_UINT32 {
        return Err(ShortBuffer);
      }
      var size := ReadPayloadSize();
      var resultSize := Unchecked32(headerSize + size);
      if resultSize < 0 || resultSize > header.Length {
        return Err(BadBufferSize);
      }
      return Ok(header[..resultSize]);
    }

    /** `GetPayloadSize`: bytes 0..3 as a `uint`, cast to `int`. */
    method ReadPayloadSize() returns (n: int)
      requires header.Length >= SIZE_UINT32
      ensures n == GetPayloadSize(header[..])
    {
      n := Signed(ToUInt32(header[..4]), 4);
      assert header[..][..4] == header[..4];
    }

    /** `SetPayloadSize`: store the size, cast to `uint`, little-endian in bytes 0..3. */
    method SetPayloadSize(payloadSize: int)
      requires header.Length >= SIZE_UINT32
      modifies header
      ensures header[..] == PickleSpec.SetPayloadSize(old(header[..]), payloadSize)
    {
      var bytes := UInt32Le(Wrap(payloadSize, 4));
      Copy(bytes, 0);
    }

    /** `Array.Copy(src, 0, header, at, |src|)` into a range that fits. */
    method Copy(src: seq<byte>, at: int)
      requires 0 <= at && at + |src| <= header.Length
      modifies header
      ensures header[..] == Splice(old(header[..]), at, src)
    {
      forall i | 0 <= i < |src| {
        header[at + i] := src[i];
      }
      assert header[..] == old(header[..])[..at] + src + old(header[..])[at + |src|..];
    }

    /**
     * The padding loop: zero `[from, to)`. Past the end of the array the C# code throws;
     * `ok` is then false and the bytes from `from` to the end are zero.
     */
    method ZeroPad(from: int, to: int) returns (ok: bool)
      requires 0 <= from <= header.Length && from <= to
      modifies header
      ensures ok <==> to <= header.Length
      ensures header[..] == ZeroFill(old(header[..]), from, if ok then to else header.Length)
    {
      var i := from;
      while i < to
        invariant from <= i <= to && i <= header.Length
        invariant header[..] == ZeroFill(old(header[..]), from, i)
      {
        if i == header.Length {
          return false;
        }
        header[i] := 0;
        assert ZeroFill(old(header[..]), from, i)[i := 0] == ZeroFill(old(header[..]), from, i + 1);
        i := i + 1;
      }
      return true;
    }

    /** `Resize`: a new array `capacity` bytes longer, holding the old bytes first. */
    method Resize(newCapacity: int)
      requires newCapacity >= 0
      modifies this
      ensures Model() == PickleSpec.Resize(old(Model()), newCapacity)
      ensures fresh(header)
    {
      var c := AlignInt(newCapacity, PAYLOAD_UNIT);
      var newHeader := new byte[header.Length + c](_ => 0);
      forall i | 0 <= i < header.Length {
        newHeader[i] := header[i];
      }
      assert newHeader[..] == header[..] + Zeros(c);
      header := newHeader;
      capacity := c;
    }

    /** `EnsureCapacity(n)`, and the same check each writer repeats after it. */
    method EnsureCapacity(n: int)
      requires Sane(Model()) && n >= 0
      modifies this
      ensures Model() == Grow(old(Model()), n)
      ensures header == old(header) || fresh(header)
    {
      var dataLength := AlignInt(n, SIZE_UINT32);
      var newSize := writeOffset + dataLength;
      if newSize > capacity {
        Resize(Max(Unchecked32(capacity * 2), newSize));
      }
    }

    /**
     * The tail every writer shares: copy the field at `headerSize + writeOffset`, pad it
     * with zeros to 4 bytes, store the new payload size, advance the write offset.
     */
    method Put(bytes: seq<byte>) returns (ok: bool)
      modifies this, header
      ensures ok == PickleSpec.Put(old(Model()), bytes).ok
      ensures Model() == PickleSpec.Put(old(Model()), bytes).state
      ensures header == old(header)
    {
      var at := headerSize + writeOffset;
      var endOffset := at + |bytes|;
      if at < 0 || endOffset > header.Length {
        PutOutside(Model(), bytes);
        return false;
      }
      ok := PutAt(bytes, at);
    }

    /** `Put` once the field fits in the array: copy, then pad and store the size. */
    method PutAt(bytes: seq<byte>, at: int) returns (ok: bool)
      requires at == headerSize + writeOffset && 0 <= at && at + |bytes| <= header.Length
      modifies this, header
      ensures ok == PickleSpec.Put(old(Model()), bytes).ok
      ensures Model() == PickleSpec.Put(old(Model()), bytes).state
      ensures header == old(header)
    {
      ghost var s := Model();
      Copy(bytes, at);
      ok := PadAndStore(s, bytes, at);
    }

    /** The rest of `Put` once the field is copied: pad it to 4 bytes, then store the size. */
    method PadAndStore(ghost s: State, bytes: seq<byte>, at: int) returns (ok: bool)
      requires s.headerSize == headerSize && s.capacity == capacity && s.writeOffset == writeOffset
      requires at == headerSize + writeOffset && 0 <= at && at + |bytes| <= |s.header| == header.Length
      requires header[..] == Splice(s.header, at, bytes)
      modifies this, header
      ensures ok == PickleSpec.Put(s, bytes).ok
      ensures Model() == PickleSpec.Put(s, bytes).state
      ensures header == old(header)
    {
      var dataLength := AlignInt(|bytes|, SIZE_UINT32);
      var endOffset := at + |bytes|;
      ghost var h1 := header[..];
      ok := ZeroPad(endOffset, at + dataLength);
      if !ok {
        PutPadOverruns(s, bytes, ZeroFill(h1, endOffset, |h1|));
        return;
      }
      ghost var h2 := header[..];
      if header.Length < SIZE_UINT32 {
        PutNoSizeField(s, bytes, h2);
        return false;
      }
      ok := StoreSize(writeOffset + dataLength);
      PutStores(s, bytes, h2, writeOffset);
    }

    /** The last step of `Put`: store the new payload size and advance the write offset. */
    method StoreSize(newSize: int) returns (ok: bool)
      requires header.Length >= SIZE_UINT32
      modifies this, header
      ensures ok && header == old(header)
      ensures Model() == State(PickleSpec.SetPayloadSize(old(header[..]), newSize), headerSize, capacity, newSize)
      ensures headerSize == old(headerSize) && capacity == old(capacity)
    {
      SetPayloadSize(newSize);
      writeOffset := newSize;
      ok := true;
    }

    /** A fixed-width write: `EnsureCapacity`, the repeated capacity check, then the field. */
    method WriteFixed(bytes: seq<byte>) returns (ok: bool)
      requires Sane(Model())
      modifies this, header
      ensures ok == PickleSpec.WriteFixed(old(Model()), bytes).ok
      ensures Model() == PickleSpec.WriteFixed(old(Model()), bytes).state
      ensures header == old(header) || fresh(header)
    {
      EnsureCapacity(|bytes|);
      EnsureCapacity(|bytes|);
      GrowTwice(old(Model()), |bytes|);
      ok := Put(bytes);
    }

    method WriteInt(value: int) returns (ok: bool)
      requires Sane(Model())
      modifies this, header
      ensures ok == PickleSpec.WriteInt(old(Model()), value).ok
      ensures Model() == PickleSpec.WriteInt(old(Model()), value).state
      ensures header == old(header) || fresh(header)
    {
      ok := WriteFixed(Int32Le(value));
    }

    method WriteBool(value: bool) returns (ok: bool)
      requires Sane(Model())
      modifies this, header
      ensures ok == PickleSpec.WriteBool(old(Model()), value).ok
      ensures Model() == PickleSpec.WriteBool(old(Model()), value).state
      ensures header == old(header) || fresh(header)
    {
      ok := WriteInt(if value then 1 else 0);
    }

    method WriteUInt32(value: nat) returns (ok: bool)
      requires Sane(Model())
      modifies this, header
      ensures ok == PickleSpec.WriteUInt32(old(Model()), value).ok
      ensures Model() == PickleSpec.WriteUInt32(old(Model()), value).state
      ensures header == old(header) || fresh(header)
    {
      ok := WriteFixed(UInt32Le(value));
    }

    method WriteInt64(value: int) returns (ok: bool)
      requires Sane(Model())
      modifies this, header
      ensures ok == PickleSpec.WriteInt64(old(Model()), value).ok
      ensures Model() == PickleSpec.WriteInt64(old(Model()), value).state
      ensures header == old(header) || fresh(header)
    {
      ok := WriteFixed(Int64Le(value));
    }

    method WriteUInt64(value: nat) returns (ok: bool)
      requires Sane(Model())
      modifies this, header
      ensures ok == PickleSpec.WriteUInt64(old(Model()), value).ok
      ensures Model() == PickleSpec.WriteUInt64(old(Model()), value).state
      ensures header == old(header) || fresh(header)
    {
      ok := WriteFixed(UInt64Le(value));
    }

    /**
     * `WriteString` on the UTF-8 bytes: the length, the capacity check (the body of
     * `EnsureCapacity`, written out again in the C# code), then the bytes.
     */
    method WriteString(utf8: seq<byte>) returns (ok: bool)
      requires Sane(Model())
      modifies this, header
      ensures ok == PickleSpec.WriteString(old(Model()), utf8).ok
      ensures Model() == PickleSpec.WriteString(old(Model()), utf8).state
      ensures header == old(header) || fresh(header)
    {
      ok := WriteInt(|utf8|);
      if !ok {
        return;
      }
      EnsureCapacity(|utf8|);
      ok := Put(utf8);
    }
  }

  /** `CreateFromBuffer`: a buffer shorter than the size field makes the C# code throw. */
  method CreateFromBuffer(buffer: array<byte>) returns (r: Result<Pickle, PickleError>)
    ensures r.Ok? <==> PickleSpec.CreateFromBuffer(buffer[..]).Ok?
    ensures r.Ok? ==> fresh(r.value) && r.value.Model() == PickleSpec.CreateFromBuffer(buffer[..]).value
    ensures r.Err? ==> r == Err(ShortBuffer)
  {
    if buffer.Length < SIZE_UINT32 {
      return Err(ShortBuffer);
    }
    var p := new Pickle.FromBuffer(buffer);
    return Ok(p);
  }
}
