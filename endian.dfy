/**
  Byte order of scalar values (`Endian::toHost*` / `Endian::fromHost*`).
  The host is little-endian: the bytes of a scalar in memory are its
  little-endian encoding, and converting to or from another byte order
  reverses them.
*/
module Endian {
  import opened Bytes

  datatype Endian = Big | Little

  const HostEndian: Endian := Little

  /** The integer widths of the format's scalars: u8/s8 up to u64/s64. */
  datatype Width = W8 | W16 | W32 | W64 {
    /** `sizeof` of the scalar, in bytes. */
    function Size(): nat
    {
      match this
      case W8 => 1
      case W16 => 2
      case W32 => 4
      case W64 => 8
    }
  }

  function Pow256(n: nat): (p: nat)
    ensures p >= 1
  {
    if n == 0 then 1 else 256 * Pow256(n - 1)
  }

  /** The unsigned number whose little-endian encoding is `bs`. */
  function LittleValue(bs: seq<byte>): (v: nat)
    ensures v < Pow256(|bs|)
  {
    if bs == [] then 0
    else
      var rest := LittleValue(bs[1..]);
      assert rest + 1 <= Pow256(|bs| - 1);
      bs[0] as nat + 256 * rest
  }

  /** The `n`-byte little-endian encoding of `v` (higher bytes of `v` are cut off). */
  function LittleBytes(v: nat, n: nat): (bs: seq<byte>)
    ensures |bs| == n
  {
    if n == 0 then [] else [ByteOf(v % 256)] + LittleBytes(v / 256, n - 1)
  }

  function Reverse(s: seq<byte>): (r: seq<byte>)
    ensures |r| == |s|
  {
    if s == [] then [] else Reverse(s[1..]) + [s[0]]
  }

  /** `toHost`: the value held by `raw`, the scalar's bytes as read from the wire. */
  function ToHost(e: Endian, raw: seq<byte>): nat
  {
    if e == HostEndian then LittleValue(raw) else LittleValue(Reverse(raw))
  }

  /** `fromHost`: the wire bytes of the `n`-byte scalar `v`. */
  function FromHost(e: Endian, v: nat, n: nat): seq<byte>
  {
    if e == HostEndian then LittleBytes(v, n) else Reverse(LittleBytes(v, n))
  }

  /** Two's complement: the signed value of an `n`-byte pattern. */
  function ToSigned(u: nat, n: nat): int
  {
    if u >= Pow256(n) / 2 then u - Pow256(n) else u
  }

  /** Two's complement: the `n`-byte pattern of a signed value that fits in `n` bytes. */
  function FromSigned(v: int, n: nat): nat
    requires InSignedRange(v, n)
  {
    if v < 0 then v + Pow256(n) else v
  }

  predicate InSignedRange(v: int, n: nat)
  {
    -(Pow256(n) / 2) <= v < Pow256(n) / 2
  }

  lemma {:induction false} ReverseAppend(a: seq<byte>, b: seq<byte>)
    ensures Reverse(a + b) == Reverse(b) + Reverse(a)
  {
    if a == [] {
      assert a + b == b;
    } else {
      assert (a + b)[1..] == a[1..] + b;
      ReverseAppend(a[1..], b);
    }
  }

  lemma {:induction false} ReverseReverse(s: seq<byte>)
    ensures Reverse(Reverse(s)) == s
  {
    if s != [] {
      ReverseAppend(Reverse(s[1..]), [s[0]]);
      assert Reverse([s[0]]) == [s[0]];
      ReverseReverse(s[1..]);
    }
  }

  /** A byte's value converts back to the byte. */
  lemma ByteValue(x: byte)
    ensures x as nat < 256 && (x as nat) as byte == x
  {
  }

  lemma Doubled(h: byte)
    requires h as nat < 128
    ensures (h << 1) as nat == 2 * h as nat
    ensures ((h << 1) | 1) as nat == 2 * h as nat + 1
  {
  }

  /** The byte of value `v`, built bit by bit from the most significant end. */
  function ByteOf(v: nat): (x: byte)
    requires v < 256
    ensures x as nat == v
    decreases v
  {
    if v == 0 then 0
    else
      var h := ByteOf(v / 2);
      Doubled(h);
      if v % 2 == 1 then (h << 1) | 1 else h << 1
  }

  /** Bytes with the same value are equal, so `ByteOf` undoes `as nat`. */
  lemma ByteOfValue(x: byte)
    ensures ByteOf(x as nat) == x
  {
    var y := ByteOf(x as nat);
    ByteValue(x);
    ByteValue(y);
  }

  /** Decoding the encoding of a value that fits gives the value back. */
  lemma {:induction false} LittleValueOfBytes(v: nat, n: nat)
    requires v < Pow256(n)
    ensures LittleValue(LittleBytes(v, n)) == v
  {
    if n > 0 {
      var bs := LittleBytes(v, n);
      assert bs[1..] == LittleBytes(v / 256, n - 1);
      LittleValueOfBytes(v / 256, n - 1);
    }
  }

  lemma DivModByte(b: nat, r: nat)
    requires b < 256
    ensures (b + 256 * r) % 256 == b && (b + 256 * r) / 256 == r
  {
  }

  /** Encoding `x + 256 * r` in `n + 1` bytes puts `x` first and `r` after it. */
  lemma LittleBytesCons(x: byte, r: nat, n: nat)
    ensures LittleBytes(x as nat + 256 * r, n + 1) == [x] + LittleBytes(r, n)
  {
    DivModByte(x as nat, r);
    ByteOfValue(x);
  }

  /** Encoding the value of a byte string gives the byte string back. */
  lemma {:induction false} LittleBytesOfValue(bs: seq<byte>)
    ensures LittleBytes(LittleValue(bs), |bs|) == bs
  {
    if bs != [] {
      var r := LittleValue(bs[1..]);
      assert LittleValue(bs) == bs[0] as nat + 256 * r;
      LittleBytesCons(bs[0], r, |bs| - 1);
      LittleBytesOfValue(bs[1..]);
      assert bs == [bs[0]] + bs[1..];
    }
  }

  /** A scalar written with `fromHost` reads back with `toHost` in the same byte order. */
  lemma ToHostFromHost(e: Endian, v: nat, n: nat)
    requires v < Pow256(n)
    ensures ToHost(e, FromHost(e, v, n)) == v
  {
    LittleValueOfBytes(v, n);
    ReverseReverse(LittleBytes(v, n));
  }

  /** Conversely, wire bytes converted to a value and back are unchanged. */
  lemma FromHostToHost(e: Endian, raw: seq<byte>)
    ensures FromHost(e, ToHost(e, raw), |raw|) == raw
  {
    if e == HostEndian {
      LittleBytesOfValue(raw);
    } else {
      LittleBytesOfValue(Reverse(raw));
      ReverseReverse(raw);
    }
  }

  lemma {:induction false} Pow256Even(n: nat)
    requires n >= 1
    ensures Pow256(n) % 2 == 0
  {
  }

  lemma SignedRoundTrip(v: int, n: nat)
    requires InSignedRange(v, n)
    ensures FromSigned(v, n) < Pow256(n)
    ensures ToSigned(FromSigned(v, n), n) == v
  {
  }

  lemma UnsignedRoundTrip(u: nat, n: nat)
    requires n >= 1 && u < Pow256(n)
    ensures InSignedRange(ToSigned(u, n), n)
    ensures FromSigned(ToSigned(u, n), n) == u
  {
    Pow256Even(n);
  }
}
