/**
 * The pickle writer that frames the archive header, as values.
 *
 * `State` holds the writer's four fields: the backing bytes, the header size, the
 * capacity after the header and the write offset. Each operation of the writer is a
 * function from the old state to the new one, including the states the writer is left
 * in when a copy runs past the backing array (the C# code throws there). The class
 * `PickleBuffer.Pickle` runs the same steps on an array and is proved against these
 * functions; the lemmas here state what the writer promises.
 */
module PickleSpec {
  import opened Wrappers
  import opened Bytes

  const SIZE_INT32: int := 4
  const SIZE_UINT32: int := 4
  const SIZE_INT64: int := 8
  const SIZE_UINT64: int := 8
  /** Allocation unit of the backing array. */
  const PAYLOAD_UNIT: int := 64
  /** Capacity given to a pickle that wraps an existing buffer. */
  const CAPACITY_READ_ONLY: int := 9007199254740992

  datatype PickleError =
    | ShortBuffer     // fewer than four bytes: the payload-size field cannot be read
    | BadBufferSize   // a negative or too large result size in `ToBuffer`

  function Abs(x: int): nat { if x < 0 then -x else x }

  function Max(a: int, b: int): int { if a >= b then a else b }

  /** C#'s `%`: the remainder has the sign of the dividend. */
  function CsRem(x: int, y: int): (r: int)
    requires y != 0
    ensures x >= 0 ==> r == x % Abs(y)
  {
    if x >= 0 then x % Abs(y) else -((-x) % Abs(y))
  }

  /**
   * `AlignInt`: for a non-negative `i` and a positive alignment, the result is a
   * multiple of the alignment that lies in `[i, i + alignment)`.
   */
  function AlignInt(i: int, alignment: int): (r: int)
    requires alignment != 0
    ensures i >= 0 && alignment > 0 ==> i <= r < i + alignment && r % alignment == 0
  {
    var r := i + CsRem(alignment - CsRem(i, alignment), alignment);
    if i >= 0 && alignment > 0 then AlignNonNegative(i, alignment); r else r
  }

  lemma AlignNonNegative(i: int, a: int)
    requires i >= 0 && a > 0
    ensures var r := i + CsRem(a - CsRem(i, a), a); i <= r < i + a && r % a == 0
  {
    var m := i % a;
    if m == 0 {
      DivUnique(a, a, 1, 0);
      assert CsRem(a - m, a) == 0;
    } else {
      DivUnique(a - m, a, 0, a - m);
      assert i + (a - m) == a * (i / a + 1);
      DivUnique(i + (a - m), a, i / a + 1, 0);
    }
  }

  /** The aligned value is the LEAST multiple of the alignment that is at least `i`. */
  lemma AlignIntLeast(i: int, alignment: int, m: int)
    requires i >= 0 && alignment > 0
    requires m >= i && m % alignment == 0
    ensures AlignInt(i, alignment) <= m
  {
    var r := AlignInt(i, alignment);
    if m < r {
      MultiplesApart(alignment, m, r);
    }
  }

  /** Two different multiples of `a` are at least `a` apart. */
  lemma MultiplesApart(a: int, x: int, y: int)
    requires a > 0 && x % a == 0 && y % a == 0 && x < y
    ensures y - x >= a
  {
    var qx, qy := x / a, y / a;
    assert x == a * qx && y == a * qy;
    assert a * (qy - qx) == y - x;
    MulSign(a, qy - qx);
    MulAtLeast(a, qy - qx);
  }

  lemma MulSign(a: int, k: int)
    requires a > 0 && a * k > 0
    ensures k >= 1
  {
  }

  /** A multiple of the alignment, of either sign, is its own alignment. */
  lemma AlignOfMultiple(i: int, alignment: int)
    requires alignment > 0 && i % alignment == 0
    ensures AlignInt(i, alignment) == i
  {
    if i >= 0 {
      AlignIntLeast(i, alignment, i);
    } else {
      assert i == alignment * (i / alignment);
      assert -i == alignment * (-(i / alignment));
      DivUnique(-i, alignment, -(i / alignment), 0);
      assert CsRem(i, alignment) == 0;
      DivUnique(alignment, alignment, 1, 0);
    }
  }

  /**
   * A value is its own 4-alignment exactly when it is a multiple of 4, negative values
   * included: `AlignInt(-4, 4) == -4`, so the header-size check lets -4 through.
   */
  lemma {:induction false} AlignFixedIffMultiple(i: int)
    ensures AlignInt(i, SIZE_UINT32) == i <==> i % 4 == 0
  {
    if i < 0 {
      var k := (-i) % 4;
      if k == 0 {
        assert CsRem(i, 4) == 0;
        DivUnique(4, 4, 1, 0);
        DivUnique(i, 4, i / 4, 0);
        assert (-i) == 4 * ((-i) / 4);
        DivUnique(i, 4, -((-i) / 4), 0);
      } else {
        assert CsRem(i, 4) == -k;
        DivUnique(4 + k, 4, 1, k);
        assert CsRem(4 - CsRem(i, 4), 4) == k;
        assert (-i) == 4 * ((-i) / 4) + k;
        DivUnique(i, 4, -((-i) / 4) - 1, 4 - k);
      }
    }
  }

  datatype State = State(header: seq<byte>, headerSize: int, capacity: int, writeOffset: int)

  /** The writer's own invariant: it never moves its write offset or capacity below zero. */
  predicate Sane(s: State) { s.writeOffset >= 0 && s.capacity >= 0 }

  /** The outcome of a write: `ok` is false where the C# code throws. */
  datatype Written = Written(ok: bool, state: State)

  /** `Array.Copy(src, 0, h, at, |src|)` into a range that fits. */
  function Splice(h: seq<byte>, at: int, src: seq<byte>): (r: seq<byte>)
    requires 0 <= at && at + |src| <= |h|
    ensures |r| == |h|
  {
    h[..at] + src + h[at + |src|..]
  }

  /** Zero the bytes `[from, to)`. */
  function ZeroFill(h: seq<byte>, from: int, to: int): (r: seq<byte>)
    requires 0 <= from <= to <= |h|
    ensures |r| == |h|
  {
    h[..from] + Zeros(to - from) + h[to..]
  }

  /** `SetPayloadSize`: the size, cast to `uint`, little-endian in bytes 0..3. */
  function SetPayloadSize(h: seq<byte>, payloadSize: int): (r: seq<byte>)
    requires |h| >= SIZE_UINT32
    ensures |r| == |h|
  {
    Splice(h, 0, UInt32Le(Wrap(payloadSize, 4)))
  }

  /** `GetPayloadSize`: bytes 0..3 read as a `uint` and cast to `int`. */
  function GetPayloadSize(h: seq<byte>): int
    requires |h| >= SIZE_UINT32
  {
    Signed(FromLe(h[..4]), 4)
  }

  /** `GetPayloadSize` reads back what `SetPayloadSize` stored, for every size below 2^31. */
  lemma PayloadSizeRoundTrip(h: seq<byte>, payloadSize: int)
    requires |h| >= SIZE_UINT32 && 0 <= payloadSize < TWO31
    ensures GetPayloadSize(SetPayloadSize(h, payloadSize)) == payloadSize
    ensures SetPayloadSize(h, payloadSize)[SIZE_UINT32..] == h[SIZE_UINT32..]
  {
    var r := SetPayloadSize(h, payloadSize);
    assert r[..4] == UInt32Le(Wrap(payloadSize, 4));
    Pow256Values();
    DivUnique(payloadSize, TWO32, 0, payloadSize);
    UInt32RoundTrip(payloadSize);
  }

  /** `Resize`: round the request up to the allocation unit and append that many zero bytes. */
  function Resize(s: State, newCapacity: int): State
    requires newCapacity >= 0
  {
    var c := AlignInt(newCapacity, PAYLOAD_UNIT);
    s.(header := s.header + Zeros(c), capacity := c)
  }

  /**
   * `EnsureCapacity(n)` and the check the writers repeat after it. The doubled capacity
   * is an `int` product, so from 2^30 on it wraps and the request alone decides.
   */
  function Grow(s: State, n: int): State
    requires Sane(s) && n >= 0
  {
    var newSize := s.writeOffset + AlignInt(n, SIZE_UINT32);
    if newSize > s.capacity then Resize(s, Max(Unchecked32(s.capacity * 2), newSize)) else s
  }

  /**
   * `Resize` keeps every existing byte, appends only zeros and sets the capacity to a
   * multiple of 64 that is at least the request.
   */
  lemma ResizeKeeps(s: State, newCapacity: int)
    requires newCapacity >= 0
    ensures var r := Resize(s, newCapacity);
      && r.header[..|s.header|] == s.header
      && (forall i :: |s.header| <= i < |r.header| ==> r.header[i] == 0)
      && r.capacity % PAYLOAD_UNIT == 0 && newCapacity <= r.capacity < newCapacity + PAYLOAD_UNIT
      && |r.header| == |s.header| + r.capacity
      && r.headerSize == s.headerSize && r.writeOffset == s.writeOffset
  {
  }

  /** After the capacity step a write of `n` bytes is inside the capacity. */
  lemma GrowMakesRoom(s: State, n: int)
    requires Sane(s) && n >= 0
    ensures var g := Grow(s, n);
      && Sane(g) && g.capacity >= s.capacity
      && g.writeOffset + AlignInt(n, SIZE_UINT32) <= g.capacity
      && g.header[..|s.header|] == s.header && |g.header| >= |s.header|
      && g.headerSize == s.headerSize && g.writeOffset == s.writeOffset
  {
  }

  /** After one capacity step the second, repeated check leaves the state alone. */
  lemma GrowTwice(s: State, n: int)
    requires Sane(s) && n >= 0
    ensures Grow(Grow(s, n), n) == Grow(s, n)
  {
    GrowMakesRoom(s, n);
  }

  /**
   * Copy `bytes` at `headerSize + writeOffset`, zero-pad to the next 4-byte boundary,
   * store the new payload size and advance the write offset. Where the copy or the
   * padding runs past the backing array the C# code throws; the state is then as far
   * as the C# code got.
   */
  function Put(s: State, bytes: seq<byte>): (w: Written)
    ensures Sane(s) ==> Sane(w.state)
    ensures w.state.headerSize == s.headerSize && w.state.capacity == s.capacity
    ensures w.ok ==> w.state.writeOffset == s.writeOffset + AlignInt(|bytes|, SIZE_UINT32)
    ensures !w.ok ==> w.state.writeOffset == s.writeOffset
    ensures |w.state.header| == |s.header|
    ensures w.ok <==> var at := s.headerSize + s.writeOffset;
      0 <= at && at + AlignInt(|bytes|, SIZE_UINT32) <= |s.header| && SIZE_UINT32 <= |s.header|
  {
    var at := s.headerSize + s.writeOffset;
    var dataLength := AlignInt(|bytes|, SIZE_UINT32);
    var endOffset := at + |bytes|;
    var padEnd := at + dataLength;
    if at < 0 || endOffset > |s.header| then Written(false, s)
    else
      var h1 := Splice(s.header, at, bytes);
      if padEnd > |h1| then Written(false, s.(header := ZeroFill(h1, endOffset, |h1|)))
      else
        var h2 := ZeroFill(h1, endOffset, padEnd);
        var newSize := s.writeOffset + dataLength;
        if |h2| < SIZE_UINT32 then Written(false, s.(header := h2))
        else Written(true, State(SetPayloadSize(h2, newSize), s.headerSize, s.capacity, newSize))
  }

  /** A fixed-width write: the capacity step, then `Put`. */
  function WriteFixed(s: State, bytes: seq<byte>): (w: Written)
    requires Sane(s)
    ensures Sane(w.state)
  {
    Put(Grow(s, |bytes|), bytes)
  }

  function WriteInt(s: State, value: int): (w: Written)
    requires Sane(s)
    ensures Sane(w.state)
  {
    WriteFixed(s, Int32Le(value))
  }

  function WriteBool(s: State, value: bool): (w: Written)
    requires Sane(s)
    ensures Sane(w.state)
  {
    WriteInt(s, if value then 1 else 0)
  }

  function WriteUInt32(s: State, value: nat): (w: Written)
    requires Sane(s)
    ensures Sane(w.state)
  {
    WriteFixed(s, UInt32Le(value))
  }

  function WriteInt64(s: State, value: int): (w: Written)
    requires Sane(s)
    ensures Sane(w.state)
  {
    WriteFixed(s, Int64Le(value))
  }

  function WriteUInt64(s: State, value: nat): (w: Written)
    requires Sane(s)
    ensures Sane(w.state)
  {
    WriteFixed(s, UInt64Le(value))
  }

  /**
   * `WriteString` on the UTF-8 bytes of the string: the length as an int, then the
   * bytes with the capacity step for them.
   */
  function WriteString(s: State, utf8: seq<byte>): (w: Written)
    requires Sane(s)
    ensures Sane(w.state)
  {
    var w := WriteInt(s, |utf8|);
    if !w.ok then w
    else
      Put(Grow(w.state, |utf8|), utf8)
  }


  /** `ToBuffer`: the first `headerSize + GetPayloadSize()` bytes, that sum taken as an `int`. */
  function ToBuffer(s: State): Result<seq<byte>, PickleError>
  {
    if |s.header| < SIZE_UINT32 then Err(ShortBuffer)
    else
      var resultSize := Unchecked32(s.headerSize + GetPayloadSize(s.header));
      if resultSize < 0 || resultSize > |s.header| then Err(BadBufferSize)
      else Ok(s.header[..resultSize])
  }

  /** `CreateEmpty`: header size 4, no backing bytes, then `Resize(64)` and `SetPayloadSize(0)`. */
  function CreateEmpty(): State
  {
    var s1 := Resize(State([], SIZE_UINT32, 0, 0), PAYLOAD_UNIT);
    s1.(header := SetPayloadSize(s1.header, 0))
  }

  /**
   * `CreateFromBuffer`: header size = length - payload size as an `int` (it wraps when
   * the size field is near -2^31), reset to 0 when it exceeds the length or differs
   * from its 4-alignment; a zero header size drops the bytes.
   */
  function CreateFromBuffer(buffer: seq<byte>): Result<State, PickleError>
  {
    if |buffer| < SIZE_UINT32 then Err(ShortBuffer)
    else
      var hs0 := Unchecked32(|buffer| - GetPayloadSize(buffer));
      var hs1 := if hs0 > |buffer| then 0 else hs0;
      var hs := if hs1 != AlignInt(hs1, SIZE_UINT32) then 0 else hs1;
      Ok(State(if hs == 0 then [] else buffer, hs, CAPACITY_READ_ONLY, 0))
  }

  /** The values the writer can append, with the ranges of their C# types. */
  datatype Value =
    | Bool(b: bool)
    | Int(i: int)
    | UInt32(u: nat)
    | Int64(l: int)
    | UInt64(ul: nat)
    | String(utf8: seq<byte>)

  predicate InRange(v: Value)
  {
    match v
    case Bool(_) => true
    case Int(i) => -TWO31 <= i < TWO31
    case UInt32(u) => u < TWO32
    case Int64(l) => -TWO63 <= l < TWO63
    case UInt64(u) => u < TWO64
    case String(bs) => |bs| < TWO31
  }

  function WriteValue(s: State, v: Value): (w: Written)
    requires Sane(s)
    ensures Sane(w.state)
  {
    match v
    case Bool(b) => WriteBool(s, b)
    case Int(i) => WriteInt(s, i)
    case UInt32(u) => WriteUInt32(s, u)
    case Int64(l) => WriteInt64(s, l)
    case UInt64(u) => WriteUInt64(s, u)
    case String(bs) => WriteString(s, bs)
  }



  /** Write the values in order, stopping at the first write that throws. */
  function WriteAll(s: State, vals: seq<Value>): (w: Written)
    requires Sane(s)
    ensures Sane(w.state)
    decreases |vals|
  {
    if vals == [] then Written(true, s)
    else
      var w := WriteValue(s, vals[0]);
      if !w.ok then w else WriteAll(w.state, vals[1..])
  }

  /** The bytes a value occupies in the payload: the field, then zero padding to 4. */
  function Encoding(v: Value): seq<byte>
  {
    match v
    case Bool(b) => Int32Le(if b then 1 else 0)
    case Int(i) => Int32Le(i)
    case UInt32(u) => UInt32Le(u)
    case Int64(l) => Int64Le(l)
    case UInt64(u) => UInt64Le(u)
    case String(bs) => Int32Le(|bs|) + bs + Zeros(AlignInt(|bs|, SIZE_UINT32) - |bs|)
  }

  function EncodeAll(vals: seq<Value>): seq<byte>
  {
    if vals == [] then [] else Encoding(vals[0]) + EncodeAll(vals[1..])
  }
}
