/**
  Callers of the two formats: values written to a fresh channel, the
  channel rewound and the values read back with the same format.
*/
module Scenarios {
  import opened Bytes
  import opened Optional
  import opened SafeString
  import opened Channel
  import opened Endian
  import opened Tokenizer
  import opened Decimal
  import opened BitText
  import BinaryFormat
  import opened TextFormat

  /** A signed scalar through the binary format, in either byte order. */
  method BinarySignedThroughChannel(e: Endian, w: Width, v: int) returns (r: int)
    requires InSignedRange(v, w.Size())
    ensures r == v
  {
    var src := new StreamSrc([]);
    BinaryFormat.WriteSigned(src, e, w, v);
    BinaryFormat.Rewind(src);
    BinaryFormat.SignedScalarRoundTrip(e, w, v, []);
    assert src.Remaining() == FromHost(e, FromSigned(v, w.Size()), w.Size()) + [];
    r := BinaryFormat.ReadSigned(src, e, w);
  }

  /** A signed integer through the text format, read with the decimal parser. */
  method TextIntegerThroughChannel(w: Width, v: int) returns (r: int, consumed: nat)
    requires InSignedRange(v, w.Size())
    ensures r == v && consumed == |FormatSigned(v)| + 1
  {
    var src := new StreamSrc([]);
    var fmt := new TextStreamFormat();
    fmt.WriteSigned(src, w, v);
    fmt.Rewind(src);
    Pow256Bound(w);
    IntegerTextRoundTrip(v, []);
    assert src.Remaining() == FormatSigned(v) + [TERMINATOR] + [];
    r := fmt.ReadInteger(src, ParseDecimal);
    consumed := src.pos;
  }

  /** A bit field through the text format, read into a copy of `dest`. */
  method TextBitFieldThroughChannel(data: seq<byte>, dest: seq<byte>, bits: nat) returns (r: seq<byte>)
    requires BitBytes(bits) <= |data| && BitBytes(bits) <= |dest| && bits + 2 < Capacity
    ensures |r| == |dest|
    ensures forall i :: 0 <= i < bits / 8 ==> r[i] == data[i]
    ensures bits % 8 != 0 ==> r[bits / 8] == MergeLow(dest[bits / 8], data[bits / 8], bits % 8)
    ensures forall i :: BitBytes(bits) <= i < |dest| ==> r[i] == dest[i]
  {
    var src := new StreamSrc([]);
    var fmt := new TextStreamFormat();
    var field := new byte[|data|](i requires 0 <= i < |data| => data[i]);
    var out := new byte[|dest|](i requires 0 <= i < |dest| => dest[i]);
    assert field[..] == data && out[..] == dest;
    fmt.WriteBit(src, field, bits);
    fmt.Rewind(src);
    BitFieldTextRoundTrip(data, dest, bits, []);
    assert src.Remaining() == BitToken(data, bits) + [TERMINATOR] + [];
    fmt.ReadBit(src, out, bits);
    r := out[..];
  }

  /** A string with no quote through the text format, read into a 128-byte buffer. */
  method TextStringThroughChannel(str: seq<byte>, size: nat) returns (r: seq<byte>)
    requires NUL !in str
    requires var s := str[..Min(|str|, size)];
      Fits(s) && QUOTE !in s && (|s| < 2 || s[|s| - 1] != BACKSLASH)
    ensures r == str[..Min(|str|, size)]
  {
    var src := new StreamSrc([]);
    var fmt := new TextStreamFormat();
    fmt.WriteString(src, str, size);
    fmt.Rewind(src);
    StringTextRoundTrip(str, size, []);
    assert src.Remaining() == QuotedText(str, size) + [];
    var buf := new byte[Capacity];
    fmt.ReadString(src, buf, size);
    r := CStr(buf[..]);
  }
}
