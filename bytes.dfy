/** Bytes and the character codes the stream formats test for. */
module Bytes {

  /** One byte of a stream, a C `u8` or `char`. */
  type byte = bv8

  const NUL: byte := 0x00
  const TAB: byte := 0x09
  const LF: byte := 0x0A
  const CR: byte := 0x0D
  const SPACE: byte := 0x20
  const QUOTE: byte := 0x22
  const HASH: byte := 0x23
  const STAR: byte := 0x2A
  const MINUS: byte := 0x2D
  const SLASH: byte := 0x2F
  const ZERO: byte := 0x30
  const ONE: byte := 0x31
  const BACKSLASH: byte := 0x5C
  const LOWER_B: byte := 0x62

  /** `n` NUL bytes. */
  function Zeros(n: nat): (z: seq<byte>)
    ensures |z| == n
    ensures forall i :: 0 <= i < n ==> z[i] == NUL
  {
    seq(n, _ => NUL)
  }

  function Min(a: nat, b: nat): nat
  {
    if a <= b then a else b
  }

  /** Number of bytes a bit field of `bits` bits occupies. */
  function BitBytes(bits: nat): (n: nat)
    ensures 8 * n - 8 < bits <= 8 * n
  {
    (bits + 7) / 8
  }

  /** `0xFF << r` truncated to a byte: the bits of a trailing byte above its low `r` bits. */
  function HighMask(r: nat): byte
    requires r < 8
  {
    match r
    case 0 => 0xFF
    case 1 => 0xFE
    case 2 => 0xFC
    case 3 => 0xF8
    case 4 => 0xF0
    case 5 => 0xE0
    case 6 => 0xC0
    case 7 => 0x80
  }

  /** The trailing destination byte after a bit-field read: its high bits kept, its low `r` bits taken from `b`. */
  function MergeLow(dest: byte, b: byte, r: nat): (m: byte)
    requires r < 8
    ensures m & HighMask(r) == dest & HighMask(r)
    ensures m & !HighMask(r) == b & !HighMask(r)
  {
    (dest & HighMask(r)) | (b & !HighMask(r))
  }
}

/** An optional value, for the results of partial parsers. */
module Optional {
  datatype Option<T> = None | Some(value: T)
}
