/**
 * Bytes and fixed-width little-endian integers, as the archive code lays them out
 * with `BitConverter` on a little-endian host.
 */
module Bytes {

  newtype byte = x: int | 0 <= x < 256

  const TWO31: int := 0x8000_0000
  const TWO32: int := 0x1_0000_0000
  const TWO63: int := 0x8000_0000_0000_0000
  const TWO64: int := 0x1_0000_0000_0000_0000

  function Pow256(k: nat): (r: nat)
    ensures r > 0
  {
    if k == 0 then 1 else 256 * Pow256(k - 1)
  }

  lemma Pow256Values()
    ensures Pow256(4) == TWO32 && Pow256(8) == TWO64
  {
  }

  function Zeros(n: nat): (r: seq<byte>)
    ensures |r| == n && forall i :: 0 <= i < n ==> r[i] == 0
  {
    seq(n, _ => 0 as byte)
  }

  /** The `n` low-order bytes of `v`, least significant first. */
  function Le(v: nat, n: nat): (r: seq<byte>)
    ensures |r| == n
  {
    if n == 0 then [] else [(v % 256) as byte] + Le(v / 256, n - 1)
  }

  /** The unsigned value of a little-endian byte sequence. */
  function FromLe(bs: seq<byte>): nat
  {
    if |bs| == 0 then 0 else bs[0] as nat + 256 * FromLe(bs[1..])
  }

  /** Byte `k` of the encoding holds `(v >> 8k) & 0xFF`. */
  lemma {:induction false} LeByte(v: nat, n: nat, k: nat)
    requires k < n
    ensures Le(v, n)[k] as int == (v / Pow256(k)) % 256
  {
    if k > 0 {
      LeByte(v / 256, n - 1, k - 1);
      DivDiv(v, 256, Pow256(k - 1));
    }
  }

  lemma MulAtLeast(d: int, k: int)
    requires d > 0 && k >= 1
    ensures d * k >= d
  {
  }

  lemma DivUnique(v: int, d: int, q: int, r: int)
    requires d > 0 && 0 <= r < d && v == d * q + r
    ensures v / d == q && v % d == r
  {
    var q', r' := v / d, v % d;
    assert d * q + r == d * q' + r';
    assert d * (q - q') == r' - r;
    if q > q' {
      MulAtLeast(d, q - q');
    } else if q < q' {
      MulAtLeast(d, q' - q);
    }
  }

  lemma DivDiv(v: nat, a: nat, b: nat)
    requires a > 0 && b > 0
    ensures v / a / b == v / (a * b)
  {
    var q1, r1 := v / a, v % a;
    var q2, r2 := q1 / b, q1 % b;
    var ab := a * b;
    assert v == a * q1 + r1;
    assert q1 == b * q2 + r2;
    assert v == ab * q2 + (a * r2 + r1) by {
      Distrib(a, b, q2, r2);
    }
    assert a * r2 + r1 < ab by {
      MulMono(a, r2, b - 1);
      assert a * (b - 1) == ab - a;
    }
    DivUnique(v, ab, q2, a * r2 + r1);
  }

  lemma Distrib(a: int, b: int, q: int, r: int)
    ensures a * (b * q + r) == (a * b) * q + a * r
  {
  }

  lemma MulMono(a: nat, x: nat, y: nat)
    requires x <= y
    ensures a * x <= a * y
  {
  }

  lemma {:induction false} FromLeBound(bs: seq<byte>)
    ensures FromLe(bs) < Pow256(|bs|)
  {
    if bs != [] {
      FromLeBound(bs[1..]);
    }
  }

  /** Decoding inverts encoding for every value that fits in `n` bytes. */
  lemma {:induction false} FromLeLe(v: nat, n: nat)
    requires v < Pow256(n)
    ensures FromLe(Le(v, n)) == v
  {
    if n > 0 {
      var r := Le(v, n);
      assert r[1..] == Le(v / 256, n - 1);
      FromLeLe(v / 256, n - 1);
    }
  }

  /** Encoding inverts decoding: every byte sequence is the encoding of its value. */
  lemma {:induction false} LeFromLe(bs: seq<byte>)
    ensures Le(FromLe(bs), |bs|) == bs
  {
    if bs != [] {
      LeFromLe(bs[1..]);
      var v := FromLe(bs);
      assert v % 256 == bs[0] as int;
      assert v / 256 == FromLe(bs[1..]);
    }
  }

  /** Zero has the all-zero encoding at every width. */
  lemma {:induction false} LeZero(n: nat)
    ensures Le(0, n) == Zeros(n)
  {
    if n > 0 {
      LeZero(n - 1);
      assert Zeros(n) == [0 as byte] + Zeros(n - 1);
    }
  }

  lemma {:induction false} FromLeZeros(n: nat)
    ensures FromLe(Zeros(n)) == 0
  {
    if n > 0 {
      assert Zeros(n)[1..] == Zeros(n - 1);
      FromLeZeros(n - 1);
    }
  }

  /** The value of four little-endian bytes, written out. */
  lemma FromLeFour(bs: seq<byte>)
    requires |bs| == 4
    ensures FromLe(bs) == bs[0] as int + 256 * (bs[1] as int + 256 * (bs[2] as int + 256 * bs[3] as int))
  {
    var t1 := bs[1..];
    var t2 := t1[1..];
    var t3 := t2[1..];
    assert t3[1..] == [];
    assert FromLe(t3) == bs[3] as int;
    assert FromLe(t2) == bs[2] as int + 256 * bs[3] as int;
  }

  /** Two's-complement wrap of `v` into `n` bytes (a C# unchecked cast to an unsigned type). */
  function Wrap(v: int, n: nat): (r: nat)
    ensures r < Pow256(n)
  {
    v % Pow256(n)
  }

  /** The signed reading of an `n`-byte unsigned value (`BitConverter.ToInt32`/`ToInt64`). */
  function Signed(u: nat, n: nat): int
  {
    if 2 * u >= Pow256(n) then u - Pow256(n) else u
  }

  /** Wrapping then reading signed gives back every value in the signed range. */
  lemma SignedWrap(v: int, n: nat)
    requires 0 - Pow256(n) <= 2 * v < Pow256(n)
    ensures Signed(Wrap(v, n), n) == v
  {
    var p: int := Pow256(n);
    if v < 0 {
      DivUnique(v, p, -1, v + p);
    } else {
      DivUnique(v, p, 0, v);
    }
  }

  /**
   * C#'s unchecked 32-bit `int` arithmetic: the value reduced modulo 2^32 into the
   * signed range, so `int.MaxValue + 1` is `int.MinValue`.
   */
  function Unchecked32(v: int): (r: int)
    ensures -TWO31 <= r < TWO31
    ensures (v - r) % TWO32 == 0
  {
    Pow256Values();
    var u := Wrap(v, 4);
    DivUnique(v, TWO32, v / TWO32, u);
    assert v - u == TWO32 * (v / TWO32);
    if 2 * u >= TWO32 then
      DivUnique(v - (u - TWO32), TWO32, v / TWO32 + 1, 0);
      u - TWO32
    else
      DivUnique(v - u, TWO32, v / TWO32, 0);
      u
  }

  /** A value already in the signed 32-bit range is left as it is. */
  lemma Unchecked32Small(v: int)
    requires -TWO31 <= v < TWO31
    ensures Unchecked32(v) == v
  {
    Pow256Values();
    SignedWrap(v, 4);
  }

  /** The little-endian encoding of a signed value in `n` bytes. */
  function LeSigned(v: int, n: nat): (r: seq<byte>)
    ensures |r| == n
  {
    Le(Wrap(v, n), n)
  }

  function Int32Le(v: int): seq<byte> { LeSigned(v, 4) }
  function UInt32Le(v: nat): seq<byte> { Le(v, 4) }
  function Int64Le(v: int): seq<byte> { LeSigned(v, 8) }
  function UInt64Le(v: nat): seq<byte> { Le(v, 8) }

  /** `BitConverter.ToInt32` on four bytes of a little-endian host. */
  function ToInt32(bs: seq<byte>): int requires |bs| == 4 { Signed(FromLe(bs), 4) }
  function ToUInt32(bs: seq<byte>): nat requires |bs| == 4 { FromLe(bs) }
  function ToInt64(bs: seq<byte>): int requires |bs| == 8 { Signed(FromLe(bs), 8) }
  function ToUInt64(bs: seq<byte>): nat requires |bs| == 8 { FromLe(bs) }

  /** Reading back a signed 32-bit value gives back what was written. */
  lemma Int32RoundTrip(v: int)
    requires -TWO31 <= v < TWO31
    ensures ToInt32(Int32Le(v)) == v
  {
    Pow256Values();
    FromLeLe(Wrap(v, 4), 4);
    SignedWrap(v, 4);
  }

  lemma UInt32RoundTrip(v: nat)
    requires v < TWO32
    ensures ToUInt32(UInt32Le(v)) == v
  {
    Pow256Values();
    FromLeLe(v, 4);
  }

  lemma Int64RoundTrip(v: int)
    requires -TWO63 <= v < TWO63
    ensures ToInt64(Int64Le(v)) == v
  {
    Pow256Values();
    FromLeLe(Wrap(v, 8), 8);
    SignedWrap(v, 8);
  }

  lemma UInt64RoundTrip(v: nat)
    requires v < TWO64
    ensures ToUInt64(UInt64Le(v)) == v
  {
    Pow256Values();
    FromLeLe(v, 8);
  }
}
