/**
  `BinaryStreamFormat`: every value as fixed-width bytes on the channel.
  The format object has no state of its own, so its operations are
  methods over the channel.
*/
module BinaryFormat {
  import opened Bytes
  import opened SafeString
  import opened Channel
  import opened Endian

  // ---------------------------------------------------------------------
  // Scalars
  // ---------------------------------------------------------------------

  /**
    The scalar's raw bytes after `read(&rawValue, sizeof(T))` into a
    zero-initialised variable: what the read got, the rest still 0.
  */
  function RawScalar(input: seq<byte>, n: nat): (raw: seq<byte>)
    ensures |raw| == n
    ensures |input| >= n ==> raw == input[..n]
    ensures |input| < n ==> raw == input + Zeros(n - |input|)
  {
    var got := Take(input, 0, n);
    got + Zeros(n - |got|)
  }

  /** `readU8` … `readU64`: `sizeof(T)` bytes converted with `toHost`. */
  method ReadUnsigned(src: StreamSrc, endian: Endian, w: Width) returns (v: nat)
    requires src.Valid()
    modifies src
    ensures src.Valid() && src.data == old(src.data)
    ensures src.pos == old(src.pos) + Min(w.Size(), |old(src.Remaining())|)
    ensures v == ToHost(endian, RawScalar(old(src.Remaining()), w.Size()))
    ensures v < Pow256(w.Size())
  {
    ghost var input := src.Remaining();
    var got := src.Read(w.Size());
    assert got == Take(input, 0, w.Size());
    var raw := got + Zeros(w.Size() - |got|);
    v := ToHost(endian, raw);
  }

  /** `readS8` … `readS64`: the same bytes, taken as two's complement. */
  method ReadSigned(src: StreamSrc, endian: Endian, w: Width) returns (v: int)
    requires src.Valid()
    modifies src
    ensures src.Valid() && src.data == old(src.data)
    ensures src.pos == old(src.pos) + Min(w.Size(), |old(src.Remaining())|)
    ensures v == ToSigned(ToHost(endian, RawScalar(old(src.Remaining()), w.Size())), w.Size())
    ensures InSignedRange(v, w.Size())
  {
    var u := ReadUnsigned(src, endian, w);
    UnsignedRoundTrip(u, w.Size());
    v := ToSigned(u, w.Size());
  }

  /** `writeU8` … `writeU64`: the value converted with `fromHost`, `sizeof(T)` bytes. */
  method WriteUnsigned(src: StreamSrc, endian: Endian, w: Width, v: nat)
    requires src.Valid() && v < Pow256(w.Size())
    modifies src
    ensures src.Valid() && src.pos == old(src.pos)
    ensures src.data == old(src.data) + FromHost(endian, v, w.Size())
    ensures |src.data| == |old(src.data)| + w.Size()
  {
    src.Write(FromHost(endian, v, w.Size()));
  }

  /** `writeS8` … `writeS64`: the two's complement pattern of the value. */
  method WriteSigned(src: StreamSrc, endian: Endian, w: Width, v: int)
    requires src.Valid() && InSignedRange(v, w.Size())
    modifies src
    ensures src.Valid() && src.pos == old(src.pos)
    ensures src.data == old(src.data) + FromHost(endian, FromSigned(v, w.Size()), w.Size())
    ensures |src.data| == |old(src.data)| + w.Size()
  {
    src.Write(FromHost(endian, FromSigned(v, w.Size()), w.Size()));
  }

  /** A scalar written and then read at the same place comes back unchanged. */
  lemma ScalarRoundTrip(e: Endian, w: Width, v: nat, rest: seq<byte>)
    requires v < Pow256(w.Size())
    ensures ToHost(e, RawScalar(FromHost(e, v, w.Size()) + rest, w.Size())) == v
  {
    var n := w.Size();
    assert (FromHost(e, v, n) + rest)[..n] == FromHost(e, v, n);
    ToHostFromHost(e, v, n);
  }

  /** The same for signed scalars. */
  lemma SignedScalarRoundTrip(e: Endian, w: Width, v: int, rest: seq<byte>)
    requires InSignedRange(v, w.Size())
    ensures ToSigned(ToHost(e, RawScalar(FromHost(e, FromSigned(v, w.Size()), w.Size()) + rest, w.Size())), w.Size()) == v
  {
    SignedRoundTrip(v, w.Size());
    ScalarRoundTrip(e, w, FromSigned(v, w.Size()), rest);
  }

  // ---------------------------------------------------------------------
  // Bit fields
  // ---------------------------------------------------------------------

  /**
    What `readBit` leaves in the destination when the channel holds the
    whole field: `bits / 8` bytes copied, then the trailing byte merged.
  */
  function BitFieldRead(dest: seq<byte>, input: seq<byte>, bits: nat): (r: seq<byte>)
    requires BitBytes(bits) <= |dest| && BitBytes(bits) <= |input|
    ensures |r| == |dest|
  {
    var size, rem := bits / 8, bits % 8;
    if rem == 0 then input[..size] + dest[size..]
    else input[..size] + [MergeLow(dest[size], input[size], rem)] + dest[size + 1..]
  }

  /**
    The destination after `readBit` in every case: the first `bits / 8`
    bytes copied as far as the channel has them, then, for a partial byte,
    the trailing byte merged with `last` (the byte read, or whatever the
    uninitialised variable held when the channel was empty).
  */
  function ReadBitResult(dest: seq<byte>, input: seq<byte>, bits: nat, last: byte): (r: seq<byte>)
    requires BitBytes(bits) <= |dest|
    ensures |r| == |dest|
  {
    var got := Take(input, 0, bits / 8);
    var copied := got + dest[|got|..];
    if bits % 8 == 0 then copied else copied[bits / 8 := MergeLow(dest[bits / 8], last, bits % 8)]
  }

  lemma ReadBitResultSteps(dest: seq<byte>, input: seq<byte>, bits: nat, last: byte, copied: seq<byte>, final: seq<byte>)
    requires BitBytes(bits) <= |dest|
    requires copied == Take(input, 0, bits / 8) + dest[|Take(input, 0, bits / 8)|..]
    requires bits % 8 == 0 ==> final == copied
    requires bits % 8 != 0 ==> final == copied[bits / 8 := MergeLow(copied[bits / 8], last, bits % 8)]
    ensures final == ReadBitResult(dest, input, bits, last)
  {
    if bits % 8 != 0 {
      assert copied[bits / 8] == dest[bits / 8];
    }
  }

  /** The bytes the read gets and the bytes it leaves alone. */
  lemma ReadBitCopies(dest: seq<byte>, input: seq<byte>, bits: nat, last: byte)
    requires BitBytes(bits) <= |dest|
    ensures var r, size := ReadBitResult(dest, input, bits, last), bits / 8;
      && (forall i :: 0 <= i < Min(size, |input|) ==> r[i] == input[i])
      && (forall i :: Min(size, |input|) <= i < |dest| && (i != size || bits % 8 == 0) ==> r[i] == dest[i])
  {
  }

  /**
    A partial trailing byte keeps the destination's bits above the field
    and takes the field's low bits from `last` (see `MergeLow`).
  */
  lemma ReadBitTrailing(dest: seq<byte>, input: seq<byte>, bits: nat, last: byte)
    requires BitBytes(bits) <= |dest| && bits % 8 != 0
    ensures ReadBitResult(dest, input, bits, last)[bits / 8] == MergeLow(dest[bits / 8], last, bits % 8)
  {
  }

  /** When the channel holds the whole field, `readBit` gives `BitFieldRead`. */
  lemma ReadBitWhole(dest: seq<byte>, input: seq<byte>, bits: nat, last: byte)
    requires BitBytes(bits) <= |dest| && BitBytes(bits) <= |input|
    requires bits % 8 != 0 ==> last == input[bits / 8]
    ensures ReadBitResult(dest, input, bits, last) == BitFieldRead(dest, input, bits)
  {
    assert Take(input, 0, bits / 8) == input[..bits / 8];
  }

  /** `dataU8[size] &= mask; dataU8[size] |= lastByte & ~mask;` */
  method MergeTrailingByte(data: array<byte>, size: nat, lastByte: byte, rem: nat)
    requires size < data.Length && 0 < rem < 8
    modifies data
    ensures data[..] == old(data[..])[size := MergeLow(old(data[size]), lastByte, rem)]
  {
    var mask := HighMask(rem);
    data[size] := data[size] & mask;
    data[size] := data[size] | (lastByte & !mask);
  }

  /**
    `readBit`. The ghost `last` is the byte merged into a partial trailing
    byte: the byte read, or, when the channel had none left, the
    indeterminate value of the source's uninitialised `lastByte`.
  */
  method ReadBit(src: StreamSrc, data: array<byte>, bits: nat) returns (ghost last: byte)
    requires src.Valid() && BitBytes(bits) <= data.Length
    modifies src, data
    ensures src.Valid() && src.data == old(src.data)
    ensures var input, size := old(src.Remaining()), bits / 8;
      && src.pos == old(src.pos) + Min(size, |input|) + (if bits % 8 != 0 && size < |input| then 1 else 0)
      && (bits % 8 != 0 && size < |input| ==> last == input[size])
    ensures data[..] == ReadBitResult(old(data[..]), old(src.Remaining()), bits, last)
  {
    ghost var input := src.Remaining();
    ghost var before := data[..];
    var size := bits / 8;
    var got := src.Read(size);
    assert got == Take(input, 0, size);
    CopyInto(data, got);
    ghost var copied := data[..];
    // The source subtracts the copied bits from `bits`; what is left is `bits % 8`.
    var rem := bits % 8;
    // An empty read leaves `lastByte` uninitialised in the source.
    var lastByte: byte := *;
    if rem != 0 {
      var got1 := src.Read(1);
      if |got1| == 1 {
        lastByte := got1[0];
        assert lastByte == input[size];
      }
      MergeTrailingByte(data, size, lastByte, rem);
    }
    last := lastByte;
    ReadBitResultSteps(before, input, bits, last, copied, data[..]);
  }

  /**
    What `writeBit` emits: the first `bits / 8` bytes, then the whole next
    byte, unmasked, when `bits` is not a multiple of 8.
  */
  function WriteBitBytes(data: seq<byte>, bits: nat): (w: seq<byte>)
    requires BitBytes(bits) <= |data|
    ensures w == data[..BitBytes(bits)]
  {
    var size := bits / 8;
    if size * 8 == bits then data[..size] else data[..size] + [data[size]]
  }

  /** `writeBit`; the source keeps the byte count in a `u8`, so fields stop short of 2048 bits. */
  method WriteBit(src: StreamSrc, data: array<byte>, bits: nat)
    requires src.Valid() && bits < 2048 && BitBytes(bits) <= data.Length
    modifies src
    ensures src.Valid() && src.pos == old(src.pos)
    ensures src.data == old(src.data) + WriteBitBytes(data[..], bits)
  {
    var size := bits / 8;
    src.Write(data[..size]);
    if size * 8 == bits {
      return;
    }
    src.Write([data[size]]);
  }

  /**
    A bit field written and read back: the destination gets the field's
    whole bytes, its partial byte's low bits merged in (`MergeLow` keeps
    the destination's high bits), and keeps every byte after the field.
  */
  lemma BitFieldRoundTrip(data: seq<byte>, dest: seq<byte>, bits: nat, rest: seq<byte>)
    requires BitBytes(bits) <= |data| && BitBytes(bits) <= |dest|
    ensures var r, size, rem := BitFieldRead(dest, WriteBitBytes(data, bits) + rest, bits), bits / 8, bits % 8;
      && r[..size] == data[..size]
      && (rem != 0 ==> r[size] == MergeLow(dest[size], data[size], rem))
      && r[BitBytes(bits)..] == dest[BitBytes(bits)..]
  {
    var input := WriteBitBytes(data, bits) + rest;
    assert input[..BitBytes(bits)] == data[..BitBytes(bits)];
    var size := bits / 8;
    assert input[..size] == data[..size];
    if bits % 8 != 0 {
      assert input[size] == data[size];
    }
  }

  /**
    As the source is written, `u8 size = bits / 8` wraps for fields of 2048
    bits or more, and then the wrong number of bytes is emitted.
  */
  function WriteBitBytesAsWritten(data: seq<byte>, bits: nat): (w: seq<byte>)
    requires (bits / 8) % 256 <= |data|
    requires (bits / 8) % 256 * 8 != bits ==> (bits / 8) % 256 < |data|
  {
    var size := (bits / 8) % 256;
    if size * 8 == bits then data[..size] else data[..size] + [data[size]]
  }

  /** Below 2048 bits the code as written emits exactly the field's bytes. */
  lemma WriteBitAsWrittenAgrees(data: seq<byte>, bits: nat)
    requires bits < 2048 && BitBytes(bits) <= |data|
    ensures WriteBitBytesAsWritten(data, bits) == WriteBitBytes(data, bits)
  {
  }

  /** A 2048-bit field (256 bytes) is written as the single byte `data[0]`. */
  lemma WriteBitAsWrittenWraps(data: seq<byte>)
    requires |data| == 256
    ensures WriteBitBytesAsWritten(data, 2048) == [data[0]]
    ensures |WriteBitBytes(data, 2048)| == 256
  {
  }

  // ---------------------------------------------------------------------
  // Strings
  // ---------------------------------------------------------------------

  /** The fixed-size field `writeString` emits: the string cut to `size`, NUL padded to `size`. */
  function FixedField(s: seq<byte>, size: nat): (f: seq<byte>)
    ensures |f| == size
  {
    var n := Min(|s|, size);
    s[..n] + Zeros(size - n)
  }

  /** Reading a field back as a C string gives the string, cut to the field. */
  lemma FixedFieldDecodes(s: seq<byte>, size: nat)
    requires NUL !in s
    ensures CStr(FixedField(s, size)) == s[..Min(|s|, size)]
  {
    var n := Min(|s|, size);
    assert NUL !in s[..n] by {
      forall i | 0 <= i < n ensures s[..n][i] != NUL {
        assert s[..n][i] == s[i];
      }
    }
    CStrOfPrefix(s[..n], Zeros(size - n));
  }

  /**
    `writeString`: always exactly `size` bytes. `str` holds the string's
    characters before its terminator, the `calcLength()` that the source counts.
  */
  method WriteString(src: StreamSrc, str: seq<byte>, size: nat)
    requires src.Valid() && NUL !in str
    modifies src
    ensures src.Valid() && src.pos == old(src.pos)
    ensures src.data == old(src.data) + FixedField(str, size)
  {
    var strSize := |str|;
    if strSize > size {
      strSize := size;
    }
    src.Write(str[..strSize]);
    ghost var n := strSize;
    while strSize < size
      invariant src.Valid() && src.pos == old(src.pos)
      invariant n <= strSize <= size
      invariant src.data == old(src.data) + str[..n] + Zeros(strSize - n)
    {
      src.Write([NUL]);
      strSize := strSize + 1;
    }
  }

  /**
    The destination buffer after `readString` of a `size`-byte field into
    a buffer of `|buf|` bytes, as the code is written: at most `|buf|` bytes
    read and a terminator placed, then any rest of the field read over the
    start of the same buffer.
  */
  function ReadStringBuffer(buf: seq<byte>, input: seq<byte>, size: nat): (r: seq<byte>)
    requires |buf| >= 1 && size <= 2 * |buf|
    ensures |r| == |buf|
  {
    var first := Min(size, |buf|);
    var got := Take(input, 0, first);
    var trimmed := (got + buf[|got|..])[if first + 1 < |buf| then first else |buf| - 1 := NUL];
    if size > |buf| then
      var more := Take(input, |got|, size - |buf|);
      more + trimmed[|more|..]
    else trimmed
  }

  /** `ReadStringBuffer` unfolded into the steps the method takes. */
  lemma ReadStringBufferSteps(buf: seq<byte>, input: seq<byte>, size: nat)
    requires |buf| >= 1 && size <= 2 * |buf|
    ensures var first := Min(size, |buf|);
      var got := Take(input, 0, first);
      var trimmed := (got + buf[|got|..])[if first + 1 < |buf| then first else |buf| - 1 := NUL];
      && (size > |buf| ==> ReadStringBuffer(buf, input, size) == Take(input, |got|, size - |buf|) + trimmed[|Take(input, |got|, size - |buf|)|..])
      && (size <= |buf| ==> ReadStringBuffer(buf, input, size) == trimmed)
      && |got| + (if size > |buf| then |Take(input, |got|, size - |buf|)| else 0) == Min(size, |input|)
  {
  }

  /** `readString` into a string buffer whose buffer size is `buf.Length`. */
  method ReadString(src: StreamSrc, buf: array<byte>, size: nat)
    requires src.Valid() && buf.Length >= 1
    requires size <= 2 * buf.Length
    modifies src, buf
    ensures src.Valid() && src.data == old(src.data)
    ensures src.pos == old(src.pos) + Min(size, |old(src.Remaining())|)
    ensures buf[..] == ReadStringBuffer(old(buf[..]), old(src.Remaining()), size)
  {
    ghost var input := src.Remaining();
    ghost var before := buf[..];
    ReadStringBufferSteps(before, input, size);
    var n := size;
    var remainingSize := 0;
    if n > buf.Length {
      remainingSize := n - buf.Length;
      n := buf.Length;
    }
    var got := src.Read(n);
    assert got == Take(input, 0, n);
    CopyInto(buf, got);
    var t := if n + 1 < buf.Length then n else buf.Length - 1;
    buf[t] := NUL;
    ghost var trimmed := buf[..];
    assert trimmed == (got + before[|got|..])[t := NUL];
    if remainingSize != 0 {
      assert src.pos == old(src.pos) + |got| && src.data == old(src.data);
      TakeAfter(src.data, old(src.pos), |got|, remainingSize);
      var more := src.Read(remainingSize);
      assert more == Take(input, |got|, remainingSize);
      CopyInto(buf, more);
      assert buf[..] == more + trimmed[|more|..];
    }
  }

  /**
    A field no longer than the buffer reads back as the written string,
    cut to the field and to the buffer's room for characters.
  */
  lemma StringFieldRoundTrip(s: seq<byte>, size: nat, buf: seq<byte>, rest: seq<byte>)
    requires NUL !in s && 1 <= |buf| && size <= |buf|
    ensures CStr(ReadStringBuffer(buf, FixedField(s, size) + rest, size)) == s[..Min(Min(|s|, size), |buf| - 1)]
  {
    var field := FixedField(s, size);
    var input := field + rest;
    var m := Min(|s|, size);
    var k := Min(m, |buf| - 1);
    var r := ReadStringBuffer(buf, input, size);
    assert Take(input, 0, size) == field;
    var t := if size + 1 < |buf| then size else |buf| - 1;
    assert r[..t] == field[..t];
    assert r[t] == NUL;
    assert r[..k] == s[..k];
    assert NUL !in s[..k] by {
      forall i | 0 <= i < k ensures s[..k][i] != NUL {
        assert s[..k][i] == s[i];
      }
    }
    assert r[k] == NUL;
    assert r == s[..k] + r[k..];
    CStrOfPrefix(s[..k], r[k..]);
  }

  /**
    A field longer than the buffer: the rest of the field is read over the
    string just read. With a 4-byte buffer and the field "abcdefg", the
    string left behind is "efg", not "abc".
  */
  lemma ReadStringDrainOverwrites(buf: seq<byte>)
    requires |buf| == 4
    ensures var input: seq<byte> := [0x61, 0x62, 0x63, 0x64, 0x65, 0x66, 0x67];
      CStr(ReadStringBuffer(buf, input, 7)) == [0x65, 0x66, 0x67]
  {
    var input: seq<byte> := [0x61, 0x62, 0x63, 0x64, 0x65, 0x66, 0x67];
    var got := Take(input, 0, 4);
    assert got == [0x61, 0x62, 0x63, 0x64];
    var trimmed := (got + buf[4..])[3 := NUL];
    assert trimmed == [0x61, 0x62, 0x63, NUL];
    var more := Take(input, 4, 3);
    assert more == [0x65, 0x66, 0x67];
    var r := ReadStringBuffer(buf, input, 7);
    assert r == more + trimmed[3..];
    assert r == [0x65, 0x66, 0x67, NUL];
    CStrOfPrefix([0x65, 0x66, 0x67], [NUL]);
  }

  /**
    The evidently intended `readString`: the rest of a long field is
    consumed without being stored, so the buffer keeps the field's start.
  */
  function ReadStringBufferDiscardingRest(buf: seq<byte>, input: seq<byte>, size: nat): (r: seq<byte>)
    requires |buf| >= 1
    ensures |r| == |buf|
  {
    var first := Min(size, |buf|);
    var got := Take(input, 0, first);
    (got + buf[|got|..])[if first + 1 < |buf| then first else |buf| - 1 := NUL]
  }

  /** With the rest discarded, the string read is the field's first characters, as many as the buffer holds. */
  lemma DiscardingRestKeepsPrefix(buf: seq<byte>, input: seq<byte>, size: nat)
    requires |buf| >= 1 && size <= |input| && NUL !in input[..size]
    ensures CStr(ReadStringBufferDiscardingRest(buf, input, size)) == input[..Min(size, |buf| - 1)]
  {
    var r := ReadStringBufferDiscardingRest(buf, input, size);
    var k := Min(size, |buf| - 1);
    var first := Min(size, |buf|);
    assert Take(input, 0, first) == input[..first];
    assert r[..k] == input[..k];
    assert r[k] == NUL;
    assert NUL !in input[..k] by {
      forall i | 0 <= i < k ensures input[..k][i] != NUL {
        assert input[..k][i] == input[..size][i];
      }
    }
    assert r == input[..k] + r[k..];
    CStrOfPrefix(input[..k], r[k..]);
  }

  // ---------------------------------------------------------------------
  // Memory blocks and the rest of the interface
  // ---------------------------------------------------------------------

  /** `readMemBlock`: up to `size` raw bytes; returns how many were read. */
  method ReadMemBlock(src: StreamSrc, buffer: array<byte>, size: nat) returns (count: nat)
    requires src.Valid() && size <= buffer.Length
    modifies src, buffer
    ensures src.Valid() && src.data == old(src.data)
    ensures count == Min(size, |old(src.Remaining())|) && src.pos == old(src.pos) + count
    ensures buffer[..] == old(src.Remaining())[..count] + old(buffer[..])[count..]
  {
    var got := src.Read(size);
    CopyInto(buffer, got);
    count := |got|;
  }

  /** `writeMemBlock`: the first `size` bytes of the buffer, raw. */
  method WriteMemBlock(src: StreamSrc, buffer: array<byte>, size: nat)
    requires src.Valid() && size <= buffer.Length
    modifies src
    ensures src.Valid() && src.pos == old(src.pos)
    ensures src.data == old(src.data) + buffer[..size]
  {
    src.Write(buffer[..size]);
  }

  /** `writeDecorationText`: nothing in binary form. */
  method WriteDecorationText(src: StreamSrc, text: seq<byte>)
    requires src.Valid()
    ensures src.data == old(src.data) && src.pos == old(src.pos)
  {
  }

  /** `writeNullChar`: nothing in binary form. */
  method WriteNullChar(src: StreamSrc)
    requires src.Valid()
    ensures src.data == old(src.data) && src.pos == old(src.pos)
  {
  }

  /** `skip`: moves the cursor `offset` bytes on. */
  method Skip(src: StreamSrc, offset: nat)
    requires src.Valid()
    modifies src
    ensures src.Valid() && src.data == old(src.data)
    ensures src.pos == old(src.pos) + Min(offset, |old(src.Remaining())|)
  {
    src.Skip(offset);
  }

  /** `flush`: nothing to do. */
  method Flush(src: StreamSrc)
    requires src.Valid()
    ensures src.data == old(src.data) && src.pos == old(src.pos)
  {
  }

  /** `rewind`: back to the start of the channel. */
  method Rewind(src: StreamSrc)
    requires src.Valid()
    modifies src
    ensures src.Valid() && src.data == old(src.data) && src.pos == 0
  {
    src.Rewind();
  }
}
