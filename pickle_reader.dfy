/**
 * The pickle reader (`PickleIterator`) as values: a cursor over the backing bytes of a
 * pickle, and one function per read that returns the new cursor and the value read or
 * the error the C# code throws. The class `PickleCursor.Iterator` runs the same steps
 * and is proved against these functions.
 */
module PickleReader {
  import opened Wrappers
  import opened Bytes
  import opened PickleSpec

  datatype ReadError =
    | NoSizeField     // the backing bytes are too short to hold the payload-size field
    | Overlong        // the read is longer than what is left before the end index
    | OutOfRange      // the bytes to convert or copy lie outside the backing bytes
    | NegativeLength  // a byte array of negative length was requested

  /** `_payload`, `_payloadOffset`, `_readIndex`, `_endIndex`. */
  datatype Cursor = Cursor(payload: seq<byte>, payloadOffset: int, readIndex: int, endIndex: int)

  /** The outcome of a read: where the cursor is afterwards, and what was read. */
  datatype Step<+T> = Step(cursor: Cursor, result: Result<T, ReadError>)

  /** The constructor: read from index 0 up to the payload size the pickle records. */
  function IteratorOf(p: State): (r: Result<Cursor, ReadError>)
    ensures r.Ok? <==> |p.header| >= SIZE_UINT32
    ensures r.Ok? ==> (r.value.readIndex == 0 && r.value.payload == p.header
                        && r.value.payloadOffset == p.headerSize)
  {
    if |p.header| < SIZE_UINT32 then Err(NoSizeField)
    else Ok(Cursor(p.header, p.headerSize, 0, GetPayloadSize(p.header)))
  }

  /** `Advance`: move by the aligned size, or pin to the end when that runs past it. */
  function Advance(c: Cursor, size: int): (r: Cursor)
    ensures r.payload == c.payload && r.payloadOffset == c.payloadOffset && r.endIndex == c.endIndex
  {
    var alignedSize := AlignInt(size, SIZE_UINT32);
    if c.endIndex - c.readIndex < alignedSize then c.(readIndex := c.endIndex)
    else c.(readIndex := c.readIndex + alignedSize)
  }

  /**
   * `GetReadPayloadOffsetAndAdvance`: refuse a read longer than what is left, pinning
   * the cursor to the end; otherwise return where the read starts and advance.
   */
  function Take(c: Cursor, length: int): (r: Step<int>)
    ensures r.cursor.payload == c.payload && r.cursor.payloadOffset == c.payloadOffset
    ensures r.cursor.endIndex == c.endIndex
    ensures r.result.Err? <==> length > c.endIndex - c.readIndex
    ensures r.result.Ok? ==> r.result.value == c.payloadOffset + c.readIndex
  {
    if length > c.endIndex - c.readIndex then Step(c.(readIndex := c.endIndex), Err(Overlong))
    else Step(Advance(c, length), Ok(c.payloadOffset + c.readIndex))
  }

  /** `BitConverter.ToXxx(_payload, offset)` after `Take`: the `n` bytes at the offset. */
  function ReadFixed(c: Cursor, n: nat): (r: Step<seq<byte>>)
    ensures r.result.Ok? ==> |r.result.value| == n
  {
    var t := Take(c, n);
    if t.result.Err? then Step(t.cursor, Err(t.result.error))
    else
      var off := t.result.value;
      if off < 0 || off + n > |c.payload| then Step(t.cursor, Err(OutOfRange))
      else Step(t.cursor, Ok(c.payload[off..off + n]))
  }

  function ReadInt(c: Cursor): Step<int>
  {
    var r := ReadFixed(c, SIZE_INT32);
    Step(r.cursor, if r.result.Ok? then Ok(ToInt32(r.result.value)) else Err(r.result.error))
  }

  function ReadBool(c: Cursor): Step<bool>
  {
    var r := ReadInt(c);
    Step(r.cursor, if r.result.Ok? then Ok(r.result.value != 0) else Err(r.result.error))
  }

  function ReadUInt32(c: Cursor): Step<nat>
  {
    var r := ReadFixed(c, SIZE_UINT32);
    Step(r.cursor, if r.result.Ok? then Ok(ToUInt32(r.result.value)) else Err(r.result.error))
  }

  function ReadInt64(c: Cursor): Step<int>
  {
    var r := ReadFixed(c, SIZE_INT64);
    Step(r.cursor, if r.result.Ok? then Ok(ToInt64(r.result.value)) else Err(r.result.error))
  }

  function ReadUInt64(c: Cursor): Step<nat>
  {
    var r := ReadFixed(c, SIZE_UINT64);
    Step(r.cursor, if r.result.Ok? then Ok(ToUInt64(r.result.value)) else Err(r.result.error))
  }

  /**
   * `ReadBytes(length)`: `Take` first, so the cursor has moved before the array of
   * `length` bytes is allocated and filled; both of those can still throw.
   */
  function ReadBytes(c: Cursor, length: int): (r: Step<seq<byte>>)
    ensures r.result.Ok? ==> |r.result.value| == length
  {
    var t := Take(c, length);
    if t.result.Err? then Step(t.cursor, Err(t.result.error))
    else
      var off := t.result.value;
      if length < 0 then Step(t.cursor, Err(NegativeLength))
      else if off < 0 || off + length > |c.payload| then Step(t.cursor, Err(OutOfRange))
      else Step(t.cursor, Ok(c.payload[off..off + length]))
  }

  /** `ReadString`: the length as an int, then that many bytes (the UTF-8 of the string). */
  function ReadString(c: Cursor): Step<seq<byte>>
  {
    var n := ReadInt(c);
    if n.result.Err? then Step(n.cursor, Err(n.result.error))
    else ReadBytes(n.cursor, n.result.value)
  }

  /** What the reader is asked to read next. */
  datatype Kind = KBool | KInt | KUInt32 | KInt64 | KUInt64 | KString

  function KindOf(v: Value): Kind
  {
    match v
    case Bool(_) => KBool
    case Int(_) => KInt
    case UInt32(_) => KUInt32
    case Int64(_) => KInt64
    case UInt64(_) => KUInt64
    case String(_) => KString
  }

  function KindsOf(vals: seq<Value>): (r: seq<Kind>)
    ensures |r| == |vals|
  {
    if vals == [] then [] else [KindOf(vals[0])] + KindsOf(vals[1..])
  }

  function ReadValue(c: Cursor, k: Kind): Step<Value>
  {
    match k
    case KBool => var r := ReadBool(c); Step(r.cursor, if r.result.Ok? then Ok(Bool(r.result.value)) else Err(r.result.error))
    case KInt => var r := ReadInt(c); Step(r.cursor, if r.result.Ok? then Ok(Int(r.result.value)) else Err(r.result.error))
    case KUInt32 => var r := ReadUInt32(c); Step(r.cursor, if r.result.Ok? then Ok(UInt32(r.result.value)) else Err(r.result.error))
    case KInt64 => var r := ReadInt64(c); Step(r.cursor, if r.result.Ok? then Ok(Int64(r.result.value)) else Err(r.result.error))
    case KUInt64 => var r := ReadUInt64(c); Step(r.cursor, if r.result.Ok? then Ok(UInt64(r.result.value)) else Err(r.result.error))
    case KString => var r := ReadString(c); Step(r.cursor, if r.result.Ok? then Ok(String(r.result.value)) else Err(r.result.error))
  }

  /** Read values of the given kinds in order, stopping at the first read that throws. */
  function ReadAll(c: Cursor, kinds: seq<Kind>): (r: Step<seq<Value>>)
    ensures r.result.Ok? ==> |r.result.value| == |kinds|
    decreases |kinds|
  {
    if kinds == [] then Step(c, Ok([]))
    else
      var r := ReadValue(c, kinds[0]);
      if r.result.Err? then Step(r.cursor, Err(r.result.error))
      else
        var rest := ReadAll(r.cursor, kinds[1..]);
        Step(rest.cursor, if rest.result.Ok? then Ok([r.result.value] + rest.result.value) else rest.result)
  }
}
