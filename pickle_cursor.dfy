/**
 * `PickleIterator` as the C# code has it: a read index that every read moves, over the
 * pickle's own backing array. Every method is proved against the function of the same
 * name in `PickleReader`, whose properties `PickleReaderLaws` and `PickleCodec` prove.
 */
module PickleCursor {
  import opened Wrappers
  import opened Bytes
  import opened PickleSpec
  import opened PickleReader
  import PickleBuffer

  class Iterator {
    const payload: array<byte>
    const payloadOffset: int
    var readIndex: int
    const endIndex: int

    /** The cursor the fields stand for. */
    function Model(): Cursor
      reads this, payload
    {
      Cursor(payload[..], payloadOffset, readIndex, endIndex)
    }

    /** The constructor on a pickle whose backing array holds the payload-size field. */
    constructor (p: PickleBuffer.Pickle)
      requires p.header.Length >= SIZE_UINT32
      ensures Model() == IteratorOf(p.Model()).value
      ensures payload == p.header
    {
      payload := p.header;
      payloadOffset := p.headerSize;
      readIndex := 0;
      endIndex := GetPayloadSize(p.header[..]);
    }

    /** `Advance`: move by the aligned size, or pin to the end when that runs past it. */
    method Advance(size: int)
      modifies this
      ensures Model() == PickleReader.Advance(old(Model()), size)
    {
      var alignedSize := AlignInt(size, SIZE_UINT32);
      if endIndex - readIndex < alignedSize {
        readIndex := endIndex;
      } else {
        readIndex := readIndex + alignedSize;
      }
    }

    /** `GetReadPayloadOffsetAndAdvance`. */
    method GetReadPayloadOffsetAndAdvance(length: int) returns (r: Result<int, ReadError>)
      modifies this
      ensures r == Take(old(Model()), length).result
      ensures Model() == Take(old(Model()), length).cursor
    {
      if length > endIndex - readIndex {
        readIndex := endIndex;
        return Err(Overlong);
      }
      var readPayloadOffset := payloadOffset + readIndex;
      Advance(length);
      return Ok(readPayloadOffset);
    }

    /** `ReadBytes(length, converter)`: the `n` bytes the converter reads at the offset. */
    method ReadFixedBytes(n: nat) returns (r: Result<seq<byte>, ReadError>)
      modifies this
      ensures r == ReadFixed(old(Model()), n).result
      ensures Model() == ReadFixed(old(Model()), n).cursor
    {
      var off :- GetReadPayloadOffsetAndAdvance(n);
      if off < 0 || off + n > payload.Length {
        return Err(OutOfRange);
      }
      return Ok(payload[off..off + n]);
    }

    method ReadInt() returns (r: Result<int, ReadError>)
      modifies this
      ensures r == PickleReader.ReadInt(old(Model())).result
      ensures Model() == PickleReader.ReadInt(old(Model())).cursor
    {
      var bytes :- ReadFixedBytes(SIZE_INT32);
      return Ok(ToInt32(bytes));
    }

    method ReadBool() returns (r: Result<bool, ReadError>)
      modifies this
      ensures r == PickleReader.ReadBool(old(Model())).result
      ensures Model() == PickleReader.ReadBool(old(Model())).cursor
    {
      var i :- ReadInt();
      return Ok(i != 0);
    }

    method ReadUInt32() returns (r: Result<nat, ReadError>)
      modifies this
      ensures r == PickleReader.ReadUInt32(old(Model())).result
      ensures Model() == PickleReader.ReadUInt32(old(Model())).cursor
    {
      var bytes :- ReadFixedBytes(SIZE_UINT32);
      return Ok(ToUInt32(bytes));
    }

    method ReadInt64() returns (r: Result<int, ReadError>)
      modifies this
      ensures r == PickleReader.ReadInt64(old(Model())).result
      ensures Model() == PickleReader.ReadInt64(old(Model())).cursor
    {
      var bytes :- ReadFixedBytes(SIZE_INT64);
      return Ok(ToInt64(bytes));
    }

    method ReadUInt64() returns (r: Result<nat, ReadError>)
      modifies this
      ensures r == PickleReader.ReadUInt64(old(Model())).result
      ensures Model() == PickleReader.ReadUInt64(old(Model())).cursor
    {
      var bytes :- ReadFixedBytes(SIZE_UINT64);
      return Ok(ToUInt64(bytes));
    }

    /** `ReadBytes(length)`: advance first, then allocate and copy `length` bytes. */
    method ReadBytes(length: int) returns (r: Result<seq<byte>, ReadError>)
      modifies this
      ensures r == PickleReader.ReadBytes(old(Model()), length).result
      ensures Model() == PickleReader.ReadBytes(old(Model()), length).cursor
    {
      var off :- GetReadPayloadOffsetAndAdvance(length);
      if length < 0 {
        return Err(NegativeLength);
      }
      if off < 0 || off + length > payload.Length {
        return Err(OutOfRange);
      }
      return Ok(payload[off..off + length]);
    }

    /** `ReadString`: the length, then that many bytes (the UTF-8 of the string). */
    method ReadString() returns (r: Result<seq<byte>, ReadError>)
      modifies this
      ensures r == PickleReader.ReadString(old(Model())).result
      ensures Model() == PickleReader.ReadString(old(Model())).cursor
    {
      var length :- ReadInt();
      r := ReadBytes(length);
    }
  }

  /** `Pickle.CreateIterator`: reading the payload size throws on a short backing array. */
  method CreateIterator(p: PickleBuffer.Pickle) returns (r: Result<Iterator, ReadError>)
    ensures r.Ok? <==> IteratorOf(p.Model()).Ok?
    ensures r.Ok? ==> fresh(r.value) && r.value.Model() == IteratorOf(p.Model()).value
    ensures r.Ok? ==> r.value.payload == p.header
  {
    if p.header.Length < SIZE_UINT32 {
      return Err(NoSizeField);
    }
    var it := new Iterator(p);
    return Ok(it);
  }
}
