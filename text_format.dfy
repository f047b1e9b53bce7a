/**
  `TextStreamFormat`: every value as a token of text. Numbers are written
  in decimal, bit fields as "0b" and binary digits, strings between
  double quotes and memory blocks in Base64, each followed by a space.
  Reads go through the shared scratch string `sTextData`, filled one token
  at a time by `getNextData_`.
*/
module TextFormat {
  import opened Bytes
  import opened Optional
  import opened SafeString
  import opened Channel
  import opened Endian
  import opened Tokenizer
  import opened BitText
  import opened Decimal

  // ---------------------------------------------------------------------
  // Strings and Base64 sizes
  // ---------------------------------------------------------------------

  /** What `writeString` emits between the quotes: each quote preceded by a backslash. */
  function Escape(s: seq<byte>): (e: seq<byte>)
    ensures |e| >= |s|
  {
    if s == [] then []
    else Escape(s[..|s| - 1]) + (if s[|s| - 1] == QUOTE then [BACKSLASH, QUOTE] else [s[|s| - 1]])
  }

  /** Undoes `Escape`: a backslash followed by a quote stands for the quote. */
  function Unescape(e: seq<byte>): seq<byte>
  {
    if e == [] then []
    else if |e| >= 2 && e[|e| - 2] == BACKSLASH && e[|e| - 1] == QUOTE then Unescape(e[..|e| - 2]) + [QUOTE]
    else Unescape(e[..|e| - 1]) + [e[|e| - 1]]
  }

  /** An escaped quote at the end unescapes to the quote. */
  lemma UnescapeQuote(p: seq<byte>)
    ensures Unescape(p + [BACKSLASH, QUOTE]) == Unescape(p) + [QUOTE]
  {
    var e := p + [BACKSLASH, QUOTE];
    assert e[..|e| - 2] == p;
  }

  /** Any other character at the end stands for itself. */
  lemma UnescapePlain(p: seq<byte>, c: byte)
    requires c != QUOTE
    ensures Unescape(p + [c]) == Unescape(p) + [c]
  {
    var e := p + [c];
    assert e[..|e| - 1] == p;
  }

  /** Escaping loses nothing: the string comes back from its escaped form. */
  lemma {:induction false} UnescapeEscape(s: seq<byte>)
    ensures Unescape(Escape(s)) == s
  {
    if s != [] {
      var init, c := s[..|s| - 1], s[|s| - 1];
      var e, prev := Escape(s), Escape(init);
      UnescapeEscape(init);
      if c == QUOTE {
        assert e == prev + [BACKSLASH, QUOTE];
        UnescapeQuote(prev);
      } else {
        assert e == prev + [c];
        UnescapePlain(prev, c);
      }
      assert init + [c] == s;
    }
  }

  /** A string with no quote in it is written between the quotes as it is. */
  lemma {:induction false} EscapeWithoutQuotes(s: seq<byte>)
    requires QUOTE !in s
    ensures Escape(s) == s
  {
    if s != [] {
      assert s[|s| - 1] in s;
      var init := s[..|s| - 1];
      assert QUOTE !in init by {
        forall i | 0 <= i < |init| ensures init[i] != QUOTE {
          assert init[i] == s[i];
        }
      }
      EscapeWithoutQuotes(init);
      assert init + [s[|s| - 1]] == s;
    }
  }

  /** What `writeString` emits: a quote, the string cut to `size` and escaped, a quote; no terminator. */
  function QuotedText(str: seq<byte>, size: nat): seq<byte>
  {
    [QUOTE] + Escape(str[..Min(|str|, size)]) + [QUOTE]
  }

  /** `startsWith("0b")`. */
  predicate IsBitToken(t: seq<byte>)
  {
    |t| >= 2 && t[0] == ZERO && t[1] == LOWER_B
  }

  /** The text `writeBit` builds in `sTextData`: "0b" and one digit per bit. */
  function BitToken(data: seq<byte>, bits: nat): (t: seq<byte>)
    requires BitBytes(bits) <= |data|
    ensures |t| == bits + 2 && IsBitToken(t) && t[2..] == BitDigits(data, bits)
  {
    [ZERO, LOWER_B] + BitDigits(data, bits)
  }

  /** The value a read returns: what the parser gives, or the initial 0 when it refuses the token. */
  function ParsedOrZero(p: Option<int>): int
  {
    match p
    case Some(v) => v
    case None => 0
  }

  /**
    The scratch string after `writeMemBlock` let the encoder fill the
    buffer: the encoder's text up to its first NUL, and never past the
    terminator put at `toBase64Size(size)`.
  */
  function EncodedText(enc: seq<byte>, limit: nat): (t: seq<byte>)
    ensures NUL !in t && |t| <= limit && t <= enc
  {
    var c := CStr(enc);
    if |c| <= limit then c else c[..limit]
  }

  /** `toBase64Size`: four characters per started group of three bytes. */
  function ToBase64Size(size: nat): (n: nat)
    ensures n % 4 == 0 && 3 * n >= 4 * size && 3 * n < 4 * size + 12
  {
    var b := size / 3;
    var b' := if size % 3 != 0 then b + 1 else b;
    b' * 4
  }

  /**
    The body of `getNextData_`'s loop for one character `value`, on the
    loop's locals: whether the token ends here (`return`), and otherwise
    the locals the next character sees (`continue` or the loop's end).
  */
  method FeedChar(text: seq<byte>, inToken: int, endChar: byte, inQuotes: bool, value: byte)
    returns (stop: bool, text': seq<byte>, inToken': int, endChar': byte, inQuotes': bool)
    ensures stop ==> text' == text
    ensures Feed(Scanner(text, inToken, endChar, inQuotes), value)
         == if stop then Stop(text) else Next(Scanner(text', inToken', endChar', inQuotes'))
  {
    stop, text', inToken', endChar', inQuotes' := false, text, inToken, endChar, inQuotes;
    var c := value;
    if endChar' != NUL {
      if c != endChar' {
        if endChar' == SLASH {
          endChar' := STAR;
        }
        return;
      }
      if endChar' == STAR {
        endChar' := SLASH;
        return;
      }
      c := TERMINATOR;
    }
    endChar' := c;
    if inQuotes' {
      if c == QUOTE {
        if inToken' < 2 || At(text', inToken' - 1) != BACKSLASH {
          stop := true;
          return;
        }
        text' := Append(text', QUOTE);
        inQuotes' := true;
        inToken' := inToken' - 1;
        endChar' := NUL;
        return;
      }
      text' := Append(text', c);
      inQuotes' := true;
      inToken' := inToken' + 1;
      endChar' := NUL;
      return;
    }
    if inToken' == 0 && c == QUOTE {
      inQuotes' := true;
      endChar' := NUL;
      return;
    }
    if IsDelimiter(c) {
      if text' != [] {
        stop := true;
        return;
      }
      inQuotes' := false;
      endChar' := NUL;
      return;
    }
    text' := Append(text', c);
    var next: byte;
    if inToken' + 1 > 0 && At(text', inToken') == HASH {
      text' := Trim(text', inToken' - 1);
      next := LF;
    } else {
      next := NUL;
      inToken' := inToken' + 1;
    }
    if inToken' > 1 && At(text', inToken' - 2) == SLASH {
      if At(text', inToken' - 1) == SLASH {
        text' := Trim(text', inToken' - 2);
        inQuotes' := false;
        inToken' := inToken' - 2;
        endChar' := LF;
        return;
      }
      if At(text', inToken' - 1) == STAR {
        text' := Trim(text', inToken' - 2);
        inQuotes' := false;
        inToken' := inToken' - 2;
        endChar' := STAR;
        return;
      }
    }
    inQuotes' := false;
    endChar' := next;
  }

  // ---------------------------------------------------------------------
  // The format object
  // ---------------------------------------------------------------------

  class TextStreamFormat {
    /** `sTextData`: the last token read, or the text of the last bit field or block written. */
    var textData: seq<byte>

    ghost predicate Valid()
      reads this
    {
      Fits(textData)
    }

    constructor ()
      ensures Valid() && textData == []
    {
      textData := [];
    }

    /**
      `getNextData_`: reads the next token into `textData`, consuming the
      characters `NextToken` says and no more.
    */
    method GetNextData(src: StreamSrc)
      requires Valid() && src.Valid()
      modifies this, src
      ensures Valid() && src.Valid() && src.data == old(src.data)
      ensures textData == NextToken(old(src.Remaining())).text
      ensures src.pos == old(src.pos) + NextToken(old(src.Remaining())).consumed
    {
      ghost var input := src.Remaining();
      textData := [];
      var got := src.Read(1);
      if |got| == 0 {
        return;
      }
      var value := got[0];
      var inQuotes := false;
      var endChar := NUL;
      var inToken: int := 0;
      ghost var k: nat := 1;
      assert input[k - 1..] == input;
      while true
        invariant src.Valid() && src.data == old(src.data)
        invariant 1 <= k <= |input| && src.pos == old(src.pos) + k
        invariant src.Remaining() == input[k..] && value == input[k - 1]
        invariant Fits(textData)
        invariant NextToken(input) == Shifted(Scan(Scanner(textData, inToken, endChar, inQuotes), input[k - 1..]), k - 1)
        decreases |input| - k
      {
        ghost var st0 := Scanner(textData, inToken, endChar, inQuotes);
        FeedSound(st0, value);
        var stop: bool;
        stop, textData, inToken, endChar, inQuotes := FeedChar(textData, inToken, endChar, inQuotes, value);
        if stop {
          ScanStop(st0, input[k - 1..], textData);
          return;
        }
        ScanNext(st0, input[k - 1..], Scanner(textData, inToken, endChar, inQuotes));
        assert input[k - 1..][1..] == input[k..];
        var more := src.Read(1);
        if |more| == 0 {
          return;
        }
        value := more[0];
        k := k + 1;
      }
    }

    /**
      `readU8` … `readS64`: the next token, given to `parse` (the
      `StringUtil::tryParse*` of the type read, a partial parser that
      refuses text outside the type's range); 0 when it refuses.
    */
    method ReadInteger(src: StreamSrc, parse: seq<byte> -> Option<int>) returns (v: int)
      requires Valid() && src.Valid()
      modifies this, src
      ensures Valid() && src.Valid() && src.data == old(src.data)
      ensures textData == NextToken(old(src.Remaining())).text
      ensures src.pos == old(src.pos) + NextToken(old(src.Remaining())).consumed
      ensures v == ParsedOrZero(parse(textData))
    {
      var tmpValue := 0;
      GetNextData(src);
      var parsed := parse(textData);
      if parsed.Some? {
        tmpValue := parsed.value;
      }
      v := tmpValue;
    }

    /**
      `readBit`: the next token; when it starts with "0b", the digits after
      the prefix are shifted into the destination one bit at a time, whole
      bytes stored as they fill and a trailing partial byte merged under
      `0xFF << remainder`. Any other token leaves the destination alone.
    */
    method ReadBit(src: StreamSrc, data: array<byte>, bits: nat)
      requires Valid() && src.Valid() && BitBytes(bits) <= data.Length
      modifies this, src, data
      ensures Valid() && src.Valid() && src.data == old(src.data)
      ensures textData == NextToken(old(src.Remaining())).text
      ensures src.pos == old(src.pos) + NextToken(old(src.Remaining())).consumed
      ensures IsBitToken(textData) ==> data[..] == UnpackBits(old(data[..]), textData[2..], bits)
      ensures !IsBitToken(textData) ==> data[..] == old(data[..])
    {
      GetNextData(src);
      if IsBitToken(textData) {
        UnpackInto(data, textData[2..], bits);
      }
    }

    /**
      `readString`: the next token copied into the caller's buffer
      (`BufferedSafeString::copy`), cut to the buffer size less one and
      terminated; `size` is not used.
    */
    method ReadString(src: StreamSrc, buf: array<byte>, size: nat)
      requires Valid() && src.Valid() && buf.Length >= 1
      modifies this, src, buf
      ensures Valid() && src.Valid() && src.data == old(src.data)
      ensures textData == NextToken(old(src.Remaining())).text
      ensures src.pos == old(src.pos) + NextToken(old(src.Remaining())).consumed
      ensures var n := Min(|textData|, buf.Length - 1);
        && buf[..] == textData[..n] + [NUL] + old(buf[..])[n + 1..]
        && CStr(buf[..]) == textData[..n]
    {
      GetNextData(src);
      var copyLength := |textData|;
      if copyLength >= buf.Length {
        copyLength := buf.Length - 1;
      }
      CopyInto(buf, textData[..copyLength] + [NUL]);
      assert buf[..] == textData[..copyLength] + ([NUL] + old(buf[..])[copyLength + 1..]);
      assert NUL !in textData[..copyLength] by {
        forall i | 0 <= i < copyLength ensures textData[..copyLength][i] != NUL {
          assert textData[..copyLength][i] == textData[i];
        }
      }
      CStrOfPrefix(textData[..copyLength], [NUL] + old(buf[..])[copyLength + 1..]);
    }

    /**
      `readMemBlock`: the next token given to the Base64 decoder `decode`;
      the first `size` decoded bytes go to the buffer and their count is
      returned.
    */
    method ReadMemBlock(src: StreamSrc, buffer: array<byte>, size: nat, decode: seq<byte> -> seq<byte>)
      returns (readSize: nat)
      requires Valid() && src.Valid() && size <= buffer.Length
      modifies this, src, buffer
      ensures Valid() && src.Valid() && src.data == old(src.data)
      ensures textData == NextToken(old(src.Remaining())).text
      ensures src.pos == old(src.pos) + NextToken(old(src.Remaining())).consumed
      ensures readSize == Min(|decode(textData)|, size)
      ensures buffer[..] == decode(textData)[..readSize] + old(buffer[..])[readSize..]
    {
      GetNextData(src);
      var decoded := decode(textData);
      readSize := Min(|decoded|, size);
      CopyInto(buffer, decoded[..readSize]);
    }

    /** `writeU8` … `writeU64`: the decimal digits (`%u`, `%llu`) and the terminator. */
    method WriteUnsigned(src: StreamSrc, w: Width, v: nat)
      requires src.Valid() && v < Pow256(w.Size())
      modifies src
      ensures src.Valid() && src.pos == old(src.pos)
      ensures src.data == old(src.data) + FormatUnsigned(v) + [TERMINATOR]
    {
      Pow256Bound(w);
      FormatSigned64Length(v);
      var tmp := FormatUnsigned(v);
      assert |tmp| < 32;
      src.Write(tmp);
      src.Write([TERMINATOR]);
    }

    /** `writeS8` … `writeS64`: the decimal text (`%d`, `%lld`) and the terminator. */
    method WriteSigned(src: StreamSrc, w: Width, v: int)
      requires src.Valid() && InSignedRange(v, w.Size())
      modifies src
      ensures src.Valid() && src.pos == old(src.pos)
      ensures src.data == old(src.data) + FormatSigned(v) + [TERMINATOR]
    {
      Pow256Bound(w);
      FormatSigned64Length(v);
      var tmp := FormatSigned(v);
      assert |tmp| < 32;
      src.Write(tmp);
      src.Write([TERMINATOR]);
    }

    /**
      `writeBit`: "0b" and then, byte by byte, the digits of the field's
      bits from the highest down (only the low `bits % 8` bits of a
      trailing partial byte), built in the scratch string and written with
      the terminator.
    */
    method WriteBit(src: StreamSrc, data: array<byte>, bits: nat)
      requires Valid() && src.Valid() && BitBytes(bits) <= data.Length && bits + 2 < Capacity
      modifies this, src
      ensures Valid() && src.Valid() && src.pos == old(src.pos)
      ensures textData == BitToken(data[..], bits)
      ensures src.data == old(src.data) + textData + [TERMINATOR]
    {
      textData := [ZERO, LOWER_B];
      var i := 0;
      while i < (bits + 7) / 8
        invariant 0 <= i <= BitBytes(bits) && unchanged(src)
        invariant textData == [ZERO, LOWER_B] + Groups(data[..], bits, i)
        invariant |textData| == 2 + Min(8 * i, bits)
      {
        var bitsInByte := bits - i * 8;
        if bitsInByte > 8 {
          bitsInByte := 8;
        }
        assert bitsInByte == GroupWidth(bits, i);
        AppendGroup(data[i], bitsInByte);
        i := i + 1;
      }
      BitTokenFits(data[..], bits);
      src.Write(textData[..bits + 2]);
      src.Write([TERMINATOR]);
    }

    /** `writeBit`'s inner loop: the digits of bits `width - 1` down to 0 of `b`, appended. */
    method AppendGroup(b: byte, width: nat)
      requires width <= 8 && |textData| + width < Capacity
      modifies this
      ensures textData == old(textData) + Digits(b, width, 0)
    {
      var j: int := width - 1;
      while j >= 0
        invariant -1 <= j < width
        invariant textData == old(textData) + Digits(b, width, j + 1)
      {
        DigitsStep(b, width, j);
        if b & Bit(j) != 0 {
          textData := Append(textData, ONE);
        } else {
          textData := Append(textData, ZERO);
        }
        j := j - 1;
      }
    }

    /**
      `writeString`: a quote, each of the first `min(length, size)`
      characters with a backslash before a quote, and a closing quote.
      The code's second test for a quote, in the branch where there is
      none, never fires and is not repeated here.
    */
    method WriteString(src: StreamSrc, str: seq<byte>, size: nat)
      requires src.Valid() && NUL !in str
      modifies src
      ensures src.Valid() && src.pos == old(src.pos)
      ensures src.data == old(src.data) + QuotedText(str, size)
    {
      var length := |str|;
      if size <= length {
        length := size;
      }
      src.Write([QUOTE]);
      var i := 0;
      while i < length
        invariant 0 <= i <= length && src.Valid() && src.pos == old(src.pos)
        invariant src.data == old(src.data) + [QUOTE] + Escape(str[..i])
      {
        if str[i] == QUOTE {
          src.Write([BACKSLASH]);
        }
        src.Write([str[i]]);
        assert str[..i + 1][..i] == str[..i];
        i := i + 1;
      }
      src.Write([QUOTE]);
    }

    /**
      `writeMemBlock`: the scratch string is cleared; when the Base64 text
      of `size` bytes and its terminator fit, the encoder `encode` fills
      it and it is written between quotes, with the terminator. Otherwise
      nothing is written.
    */
    method WriteMemBlock(src: StreamSrc, buffer: array<byte>, size: nat, encode: seq<byte> -> seq<byte>)
      requires Valid() && src.Valid() && size <= buffer.Length
      modifies this, src
      ensures Valid() && src.Valid() && src.pos == old(src.pos)
      ensures ToBase64Size(size) + 1 < Capacity ==>
        && textData == EncodedText(encode(buffer[..size]), ToBase64Size(size))
        && src.data == old(src.data) + [QUOTE] + textData + [QUOTE, TERMINATOR]
      ensures ToBase64Size(size) + 1 >= Capacity ==> textData == [] && src.data == old(src.data)
    {
      textData := [];
      if ToBase64Size(size) + 1 < Capacity {
        textData := EncodedText(encode(buffer[..size]), ToBase64Size(size));
        src.Write([QUOTE]);
        src.Write(textData);
        src.Write([QUOTE]);
        src.Write([TERMINATOR]);
      }
    }

    /** `writeDecorationText`: the text before its terminator, as it is, with no terminator after it. */
    method WriteDecorationText(src: StreamSrc, text: seq<byte>)
      requires src.Valid() && NUL !in text
      modifies src
      ensures src.Valid() && src.pos == old(src.pos)
      ensures src.data == old(src.data) + text
    {
      src.Write(text);
    }

    /** `writeNullChar`: one NUL byte. */
    method WriteNullChar(src: StreamSrc)
      requires src.Valid()
      modifies src
      ensures src.Valid() && src.pos == old(src.pos)
      ensures src.data == old(src.data) + [NUL]
    {
      src.Write([NUL]);
    }

    /** `skip`: the offset is ignored; exactly one token is read and dropped. */
    method Skip(src: StreamSrc, offset: nat)
      requires Valid() && src.Valid()
      modifies this, src
      ensures Valid() && src.Valid() && src.data == old(src.data)
      ensures textData == NextToken(old(src.Remaining())).text
      ensures src.pos == old(src.pos) + NextToken(old(src.Remaining())).consumed
    {
      GetNextData(src);
    }

    /** `flush`: nothing to do. */
    method Flush(src: StreamSrc)
      requires src.Valid()
      ensures src.data == old(src.data) && src.pos == old(src.pos)
    {
    }

    /** `rewind`: back to the start of the channel. */
    method Rewind(src: StreamSrc)
      requires src.Valid()
      modifies src
      ensures src.Valid() && src.data == old(src.data) && src.pos == 0
    {
      src.Rewind();
    }
  }

  /**
    `readBit`'s loop and trailing merge: the digits are shifted into
    `currentByte`, which is stored at every eighth bit; a partial last byte
    keeps the destination's bits above the remainder.
  */
  method UnpackInto(data: array<byte>, bitStr: seq<byte>, bits: nat)
    requires BitBytes(bits) <= data.Length
    modifies data
    ensures data[..] == UnpackBits(old(data[..]), bitStr, bits)
  {
    var currentByte: byte := 0;
    var bitCount := 0;
    while bitCount < bits
      invariant bitCount <= bits
      invariant currentByte == PackDigits(bitStr, 8 * (bitCount / 8), bitCount % 8)
      invariant forall i :: 0 <= i < data.Length ==>
        data[i] == if i < bitCount / 8 then PackDigits(bitStr, 8 * i, 8) else old(data[i])
    {
      var bit: byte := if At(bitStr, bitCount) == ONE then 1 else 0;
      assert bit == DigitBit(bitStr, 8 * (bitCount / 8) + bitCount % 8);
      currentByte := (currentByte << 1) | bit;
      if (bitCount + 1) % 8 == 0 {
        data[bitCount / 8] := currentByte;
        currentByte := 0;
      }
      bitCount := bitCount + 1;
    }
    var remainder := bitCount % 8;
    if remainder != 0 {
      var byteIdx := bitCount / 8;
      var mask := HighMask(remainder);
      data[byteIdx] := (data[byteIdx] & mask) | currentByte;
    }
  }

  /** Every width's values are below 2^64. */
  lemma Pow256Bound(w: Width)
    ensures Pow256(w.Size()) <= 0x1_0000_0000_0000_0000
    ensures Pow256(w.Size()) / 2 <= 0x8000_0000_0000_0000
  {
    assert Pow256(1) == 0x100;
    assert Pow256(2) == 0x1_0000;
    assert Pow256(3) == 0x100_0000;
    assert Pow256(4) == 0x1_0000_0000;
    assert Pow256(5) == 0x100_0000_0000;
    assert Pow256(6) == 0x1_0000_0000_0000;
    assert Pow256(7) == 0x100_0000_0000_0000;
    assert Pow256(8) == 0x1_0000_0000_0000_0000;
  }

  /** Every digit of a written bit field is '0' or '1'. */
  lemma BitDigitsBinary(data: seq<byte>, bits: nat, j: nat)
    requires BitBytes(bits) <= |data| && j < bits
    ensures BitDigits(data, bits)[j] == ZERO || BitDigits(data, bits)[j] == ONE
  {
    var i, k := j / 8, j % 8;
    assert 8 * i + k == j;
    FieldDigit(data, bits, i, k);
  }

  /** The bit field's text is a plain bare token that fits the scratch string. */
  lemma BitTokenFits(data: seq<byte>, bits: nat)
    requires BitBytes(bits) <= |data| && bits + 2 < Capacity
    ensures AllPlain(BitToken(data, bits)) && Fits(BitToken(data, bits))
  {
    var t := BitToken(data, bits);
    forall j | 0 <= j < |t| ensures IsPlain(t[j]) {
      if j >= 2 {
        assert t[j] == BitDigits(data, bits)[j - 2];
        BitDigitsBinary(data, bits, j - 2);
      }
    }
    assert NUL !in t by {
      forall j | 0 <= j < |t| ensures t[j] != NUL {
        assert IsPlain(t[j]);
      }
    }
  }

  // ---------------------------------------------------------------------
  // Round trips through the tokenizer
  // ---------------------------------------------------------------------

  /** Decimal text is a plain bare token: digits and a minus sign. */
  lemma FormatPlain(v: int)
    ensures AllPlain(FormatSigned(v))
  {
    var t := FormatSigned(v);
    var u := FormatUnsigned(if v < 0 then -v else v);
    assert AllDigits(u);
    forall i | 0 <= i < |t| ensures IsPlain(t[i]) {
      if v < 0 && i == 0 {
        assert t[i] == MINUS;
      } else {
        var j := if v < 0 then i - 1 else i;
        assert t[i] == u[j];
        assert IsDigit(u[j]);
      }
    }
  }

  /**
    An integer written by `writeU*`/`writeS*` is read back by the next
    token as exactly its decimal text, terminator consumed, and the decimal
    parser gives the value back.
  */
  lemma IntegerTextRoundTrip(v: int, rest: seq<byte>)
    requires -0x8000_0000_0000_0000 <= v < 0x1_0000_0000_0000_0000
    ensures NextToken(FormatSigned(v) + [TERMINATOR] + rest) == Token(FormatSigned(v), |FormatSigned(v)| + 1)
    ensures ParsedOrZero(ParseDecimal(FormatSigned(v))) == v
  {
    FormatSigned64Length(v);
    FormatPlain(v);
    BareWord(FormatSigned(v), TERMINATOR, rest);
    ParseFormatted(v);
  }

  /**
    A bit field written by the text `writeBit` is read back as its whole
    "0b" token; unpacking it restores the field's bytes, merges the low
    bits of a partial trailing byte and leaves later bytes alone.
  */
  lemma BitFieldTextRoundTrip(data: seq<byte>, dest: seq<byte>, bits: nat, rest: seq<byte>)
    requires BitBytes(bits) <= |data| && BitBytes(bits) <= |dest| && bits + 2 < Capacity
    ensures var t := NextToken(BitToken(data, bits) + [TERMINATOR] + rest);
      && t == Token(BitToken(data, bits), bits + 3)
      && IsBitToken(t.text)
      && var r := UnpackBits(dest, t.text[2..], bits);
      && (forall i :: 0 <= i < bits / 8 ==> r[i] == data[i])
      && (bits % 8 != 0 ==> r[bits / 8] == MergeLow(dest[bits / 8], data[bits / 8], bits % 8))
      && (forall i :: BitBytes(bits) <= i < |dest| ==> r[i] == dest[i])
  {
    BitTokenFits(data, bits);
    BareWord(BitToken(data, bits), TERMINATOR, rest);
    BitTextRoundTrip(data, dest, bits);
  }

  /**
    A string written by the text `writeString` comes back as the next
    token, both quotes consumed, when what was written holds no quote and
    does not end in a backslash (a quote would be written as `\"`, which
    the tokenizer keeps with its backslash; see `Tokenizer.EscapedQuoteRunsOn`).
  */
  lemma StringTextRoundTrip(str: seq<byte>, size: nat, rest: seq<byte>)
    requires var s := str[..Min(|str|, size)];
      Fits(s) && QUOTE !in s && (|s| < 2 || s[|s| - 1] != BACKSLASH)
    ensures NextToken(QuotedText(str, size) + rest) == Token(str[..Min(|str|, size)], Min(|str|, size) + 2)
  {
    var s := str[..Min(|str|, size)];
    EscapeWithoutQuotes(s);
    QuotedToken(s, rest);
  }

  /** A memory block written by `writeMemBlock` is read back as its Base64 text, quotes consumed. */
  lemma MemBlockTextRoundTrip(text: seq<byte>, rest: seq<byte>)
    requires Fits(text) && QUOTE !in text && (|text| < 2 || text[|text| - 1] != BACKSLASH)
    ensures NextToken([QUOTE] + text + [QUOTE, TERMINATOR] + rest) == Token(text, |text| + 2)
  {
    QuotedToken(text, [TERMINATOR] + rest);
    assert [QUOTE] + text + [QUOTE, TERMINATOR] + rest == [QUOTE] + text + [QUOTE] + ([TERMINATOR] + rest);
  }

  /** `writeMemBlock` writes something exactly for blocks of at most 93 bytes. */
  lemma MemBlockFits(size: nat)
    ensures ToBase64Size(size) + 1 < Capacity <==> size <= 93
  {
    var n := ToBase64Size(size);
    if size <= 93 {
      assert 3 * n < 384;
    } else {
      assert 3 * n >= 376;
    }
  }

  // ---------------------------------------------------------------------
  // `toBase64Size` in 32-bit arithmetic
  // ---------------------------------------------------------------------

  /** A value cut to a 32-bit signed integer, two's complement. */
  function Wrap32(x: int): (r: int)
    ensures -0x8000_0000 <= r < 0x8000_0000 && (r - x) % 0x1_0000_0000 == 0
  {
    var m := x % 0x1_0000_0000;
    if m >= 0x8000_0000 then m - 0x1_0000_0000 else m
  }

  /** `toBase64Size` as written: the count of groups is an `s32`, and `b * 4` wraps. */
  function ToBase64SizeAsWritten(size: nat): int
    requires size < 0x1_0000_0000
  {
    var b := size / 3;
    var b' := if size % 3 != 0 then b + 1 else b;
    Wrap32(b' * 4)
  }

  /** Up to 1610612733 bytes the 32-bit computation gives the true size. */
  lemma ToBase64SizeAsWrittenAgrees(size: nat)
    requires size <= 1610612733
    ensures ToBase64SizeAsWritten(size) == ToBase64Size(size)
  {
    assert ToBase64Size(size) < 0x8000_0000;
  }

  /**
    A block of 0x6000_0000 bytes: `b * 4` is 2^31, which wraps to the most
    negative `s32`, so the fit test passes and the terminator would be put
    far before the scratch buffer; the true size does not fit.
  */
  lemma ToBase64SizeAsWrittenWraps()
    ensures ToBase64SizeAsWritten(0x6000_0000) == -0x8000_0000
    ensures ToBase64SizeAsWritten(0x6000_0000) + 1 < Capacity
    ensures ToBase64Size(0x6000_0000) + 1 >= Capacity
  {
    assert 0x6000_0000 / 3 == 0x2000_0000;
  }
}
