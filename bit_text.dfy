/**
  The text form of a bit field: "0b" and one binary digit per bit, each
  byte's bits most significant first; a trailing partial byte contributes
  only its low bits. `Groups`/`BitDigits` are what the text `writeBit`
  builds, `UnpackBits` what the text `readBit` stores.
*/
module BitText {
  import opened Bytes

  /** `1 << j` as a byte. */
  function Bit(j: nat): byte
    requires j < 8
  {
    match j
    case 0 => 0x01
    case 1 => 0x02
    case 2 => 0x04
    case 3 => 0x08
    case 4 => 0x10
    case 5 => 0x20
    case 6 => 0x40
    case _ => 0x80
  }

  /** The low `n` bits of a byte. */
  function LowMask(n: nat): byte
  {
    match n
    case 0 => 0x00
    case 1 => 0x01
    case 2 => 0x03
    case 3 => 0x07
    case 4 => 0x0F
    case 5 => 0x1F
    case 6 => 0x3F
    case 7 => 0x7F
    case _ => 0xFF
  }

  /** `x >> m` as a byte; nothing is left after eight or more. */
  function Shr(x: byte, m: nat): byte
  {
    match m
    case 0 => x
    case 1 => x >> 1
    case 2 => x >> 2
    case 3 => x >> 3
    case 4 => x >> 4
    case 5 => x >> 5
    case 6 => x >> 6
    case 7 => x >> 7
    case _ => 0
  }

  /** Bit `j` of `b` as the value 0 or 1. */
  function BitOf(b: byte, j: nat): byte
  {
    Shr(b, j) & 1
  }

  /** Bit `j` of `b` as the character '0' or '1'. */
  function BitChar(b: byte, j: nat): byte
    requires j < 8
  {
    if b & Bit(j) != 0 then ONE else ZERO
  }

  /** The digits of bits `n - 1` down to `m` of `b`. */
  function Digits(b: byte, n: nat, m: nat): (s: seq<byte>)
    requires m <= n <= 8
    ensures |s| == n - m
  {
    seq(n - m, k requires 0 <= k < n - m => BitChar(b, n - 1 - k))
  }

  /** How many bits of byte `i` belong to a field of `bits` bits. */
  function GroupWidth(bits: nat, i: nat): (w: nat)
    requires 8 * i < bits
    ensures 1 <= w <= 8
  {
    if bits - 8 * i >= 8 then 8 else bits - 8 * i
  }

  /** The digits of the first `i` bytes of the field. */
  function Groups(data: seq<byte>, bits: nat, i: nat): (s: seq<byte>)
    requires i <= BitBytes(bits) <= |data|
    ensures |s| == Min(8 * i, bits)
  {
    if i == 0 then [] else Groups(data, bits, i - 1) + Digits(data[i - 1], GroupWidth(bits, i - 1), 0)
  }

  /** The digits of the whole field, one per bit. */
  function BitDigits(data: seq<byte>, bits: nat): (s: seq<byte>)
    requires BitBytes(bits) <= |data|
    ensures |s| == bits
  {
    Groups(data, bits, BitBytes(bits))
  }

  /** The bit a reader takes from position `k` of the digits: 1 for '1', 0 for anything else or past the end. */
  function DigitBit(digits: seq<byte>, k: int): byte
  {
    if 0 <= k < |digits| && digits[k] == ONE then 1 else 0
  }

  /** `currentByte = (currentByte << 1) | bit` over the `n` digits from `start` on. */
  function PackDigits(digits: seq<byte>, start: nat, n: nat): byte
  {
    if n == 0 then 0 else (PackDigits(digits, start, n - 1) << 1) | DigitBit(digits, start + n - 1)
  }

  /** Byte `i` of the destination after reading a `bits`-bit field from `digits`. */
  function UnpackedByte(d: byte, digits: seq<byte>, bits: nat, i: nat): byte
  {
    if i < bits / 8 then PackDigits(digits, 8 * i, 8)
    else if i == bits / 8 && bits % 8 != 0 then (d & HighMask(bits % 8)) | PackDigits(digits, 8 * i, bits % 8)
    else d
  }

  /** The destination after reading a `bits`-bit field from `digits`. */
  function UnpackBits(dest: seq<byte>, digits: seq<byte>, bits: nat): (r: seq<byte>)
    ensures |r| == |dest|
    ensures forall i :: 0 <= i < |dest| ==> r[i] == UnpackedByte(dest[i], digits, bits, i)
  {
    seq(|dest|, i requires 0 <= i < |dest| => UnpackedByte(dest[i], digits, bits, i))
  }

  /** Spelling one more bit, `m`, appends its digit. */
  lemma DigitsStep(b: byte, n: nat, m: nat)
    requires m < n <= 8
    ensures Digits(b, n, m) == Digits(b, n, m + 1) + [BitChar(b, m)]
  {
    var d, e := Digits(b, n, m), Digits(b, n, m + 1) + [BitChar(b, m)];
    assert |d| == |e|;
    forall k | 0 <= k < |d|
      ensures d[k] == e[k]
    {
      if k < n - m - 1 {
        assert e[k] == Digits(b, n, m + 1)[k];
      }
    }
  }

  /** The digits of the first `i + 1` bytes end with the group of byte `i`. */
  lemma GroupsLast(data: seq<byte>, bits: nat, i: nat, k: nat)
    requires i < BitBytes(bits) <= |data| && k < GroupWidth(bits, i)
    ensures 8 * i + k < |Groups(data, bits, i + 1)|
    ensures Groups(data, bits, i + 1)[8 * i + k] == Digits(data[i], GroupWidth(bits, i), 0)[k]
  {
    var prev := Groups(data, bits, i);
    assert |prev| == 8 * i;
  }

  /** Digit `8 * i + k` of the field is digit `k` of byte `i`'s group. */
  lemma {:induction false} GroupsAt(data: seq<byte>, bits: nat, j: nat, i: nat, k: nat)
    requires j <= BitBytes(bits) <= |data| && i < j && k < GroupWidth(bits, i)
    ensures 8 * i + k < |Groups(data, bits, j)|
    ensures Groups(data, bits, j)[8 * i + k] == Digits(data[i], GroupWidth(bits, i), 0)[k]
  {
    if j == i + 1 {
      GroupsLast(data, bits, i, k);
    } else {
      var prev := Groups(data, bits, j - 1);
      var last := Digits(data[j - 1], GroupWidth(bits, j - 1), 0);
      GroupsAt(data, bits, j - 1, i, k);
      assert Groups(data, bits, j) == prev + last;
    }
  }

  lemma LowMaskComplement(n: nat)
    requires n < 8
    ensures LowMask(n) == !HighMask(n)
  {
  }

  /** The digit the writer spells for bit `j` is the bit a reader packs. */
  lemma BitCharAgrees(b: byte, j: nat)
    requires j < 8
    ensures BitOf(b, j) == if BitChar(b, j) == ONE then 1 else 0
  {
  }

  /** The top `n` of the low `w` bits of `b`, shifted in one at a time as a reader does. */
  function TopBits(b: byte, w: nat, n: nat): byte
    requires n <= w
  {
    if n == 0 then 0 else (TopBits(b, w, n - 1) << 1) | BitOf(b, w - n)
  }

  lemma {:induction false} TopBits1(b: byte)
    ensures TopBits(b, 1, 1) == b & 0x01
  {
    assert TopBits(b, 1, 1) == BitOf(b, 0);
  }

  lemma {:induction false} TopBits2(b: byte)
    ensures TopBits(b, 2, 2) == b & 0x03
  {
    assert TopBits(b, 2, 1) == BitOf(b, 1);
    assert TopBits(b, 2, 2) == (TopBits(b, 2, 1) << 1) | BitOf(b, 0);
  }

  lemma {:induction false} TopBits3(b: byte)
    ensures TopBits(b, 3, 3) == b & 0x07
  {
    assert TopBits(b, 3, 1) == BitOf(b, 2);
    assert TopBits(b, 3, 2) == (TopBits(b, 3, 1) << 1) | BitOf(b, 1);
    assert TopBits(b, 3, 3) == (TopBits(b, 3, 2) << 1) | BitOf(b, 0);
  }

  lemma {:induction false} TopBits4(b: byte)
    ensures TopBits(b, 4, 4) == b & 0x0F
  {
    assert TopBits(b, 4, 1) == BitOf(b, 3);
    assert TopBits(b, 4, 2) == (TopBits(b, 4, 1) << 1) | BitOf(b, 2);
    assert TopBits(b, 4, 3) == (TopBits(b, 4, 2) << 1) | BitOf(b, 1);
    assert TopBits(b, 4, 4) == (TopBits(b, 4, 3) << 1) | BitOf(b, 0);
  }

  lemma {:induction false} TopBits5(b: byte)
    ensures TopBits(b, 5, 5) == b & 0x1F
  {
    assert TopBits(b, 5, 1) == BitOf(b, 4);
    assert TopBits(b, 5, 2) == (TopBits(b, 5, 1) << 1) | BitOf(b, 3);
    assert TopBits(b, 5, 3) == (TopBits(b, 5, 2) << 1) | BitOf(b, 2);
    assert TopBits(b, 5, 4) == (TopBits(b, 5, 3) << 1) | BitOf(b, 1);
    assert TopBits(b, 5, 5) == (TopBits(b, 5, 4) << 1) | BitOf(b, 0);
  }

  lemma {:induction false} TopBits6(b: byte)
    ensures TopBits(b, 6, 6) == b & 0x3F
  {
    assert TopBits(b, 6, 1) == BitOf(b, 5);
    assert TopBits(b, 6, 2) == (TopBits(b, 6, 1) << 1) | BitOf(b, 4);
    assert TopBits(b, 6, 3) == (TopBits(b, 6, 2) << 1) | BitOf(b, 3);
    assert TopBits(b, 6, 4) == (TopBits(b, 6, 3) << 1) | BitOf(b, 2);
    assert TopBits(b, 6, 5) == (TopBits(b, 6, 4) << 1) | BitOf(b, 1);
    assert TopBits(b, 6, 6) == (TopBits(b, 6, 5) << 1) | BitOf(b, 0);
  }

  lemma {:induction false} TopBits7(b: byte)
    ensures TopBits(b, 7, 7) == b & 0x7F
  {
    assert TopBits(b, 7, 1) == BitOf(b, 6);
    assert TopBits(b, 7, 2) == (TopBits(b, 7, 1) << 1) | BitOf(b, 5);
    assert TopBits(b, 7, 3) == (TopBits(b, 7, 2) << 1) | BitOf(b, 4);
    assert TopBits(b, 7, 4) == (TopBits(b, 7, 3) << 1) | BitOf(b, 3);
    assert TopBits(b, 7, 5) == (TopBits(b, 7, 4) << 1) | BitOf(b, 2);
    assert TopBits(b, 7, 6) == (TopBits(b, 7, 5) << 1) | BitOf(b, 1);
    assert TopBits(b, 7, 7) == (TopBits(b, 7, 6) << 1) | BitOf(b, 0);
  }

  lemma {:induction false} TopBits8(b: byte)
    ensures TopBits(b, 8, 8) == b & 0xFF
  {
    assert TopBits(b, 8, 1) == BitOf(b, 7);
    assert TopBits(b, 8, 2) == (TopBits(b, 8, 1) << 1) | BitOf(b, 6);
    assert TopBits(b, 8, 3) == (TopBits(b, 8, 2) << 1) | BitOf(b, 5);
    assert TopBits(b, 8, 4) == (TopBits(b, 8, 3) << 1) | BitOf(b, 4);
    assert TopBits(b, 8, 5) == (TopBits(b, 8, 4) << 1) | BitOf(b, 3);
    assert TopBits(b, 8, 6) == (TopBits(b, 8, 5) << 1) | BitOf(b, 2);
    assert TopBits(b, 8, 7) == (TopBits(b, 8, 6) << 1) | BitOf(b, 1);
    assert TopBits(b, 8, 8) == (TopBits(b, 8, 7) << 1) | BitOf(b, 0);
  }

  /** Shifting in all of the low `w` bits of `b`, top first, gives those bits. */
  lemma TopBitsAll(b: byte, w: nat)
    requires 1 <= w <= 8
    ensures TopBits(b, w, w) == b & LowMask(w)
  {
    match w
    case 1 => TopBits1(b);
    case 2 => TopBits2(b);
    case 3 => TopBits3(b);
    case 4 => TopBits4(b);
    case 5 => TopBits5(b);
    case 6 => TopBits6(b);
    case 7 => TopBits7(b);
    case _ => TopBits8(b);
  }

  /** Packing the digits that spell the low `w` bits of `b` shifts in those bits one at a time. */
  lemma {:induction false} PackOfDigits(digits: seq<byte>, start: nat, b: byte, w: nat, n: nat)
    requires n <= w
    requires forall j :: start <= j < start + w ==> DigitBit(digits, j) == BitOf(b, w - 1 - (j - start))
    ensures PackDigits(digits, start, n) == TopBits(b, w, n)
  {
    if n > 0 {
      PackOfDigits(digits, start, b, w, n - 1);
      assert DigitBit(digits, start + n - 1) == BitOf(b, w - n);
    }
  }

  /** Digit `8 * i + k` of the field spells bit `GroupWidth - 1 - k` of byte `i`. */
  lemma FieldDigit(data: seq<byte>, bits: nat, i: nat, k: nat)
    requires BitBytes(bits) <= |data| && 8 * i < bits && k < GroupWidth(bits, i)
    ensures 8 * i + k < bits
    ensures BitDigits(data, bits)[8 * i + k] == BitChar(data[i], GroupWidth(bits, i) - 1 - k)
  {
    GroupsAt(data, bits, BitBytes(bits), i, k);
  }

  /** What a reader takes from digit `j` of the field is the bit the writer spelled there. */
  lemma FieldBit(data: seq<byte>, bits: nat, i: nat, j: nat)
    requires BitBytes(bits) <= |data| && 8 * i < bits && 8 * i <= j < 8 * i + GroupWidth(bits, i)
    ensures DigitBit(BitDigits(data, bits), j) == BitOf(data[i], GroupWidth(bits, i) - 1 - (j - 8 * i))
  {
    FieldDigit(data, bits, i, j - 8 * i);
    assert 8 * i + (j - 8 * i) == j;
    BitCharAgrees(data[i], GroupWidth(bits, i) - 1 - (j - 8 * i));
  }

  /** Reading back byte `i` of the field shifts in the bits the writer spelled for it. */
  lemma PackedGroupBits(data: seq<byte>, bits: nat, i: nat)
    requires BitBytes(bits) <= |data| && 8 * i < bits
    ensures PackDigits(BitDigits(data, bits), 8 * i, GroupWidth(bits, i)) == TopBits(data[i], GroupWidth(bits, i), GroupWidth(bits, i))
  {
    var digits := BitDigits(data, bits);
    var w := GroupWidth(bits, i);
    forall j | 8 * i <= j < 8 * i + w
      ensures DigitBit(digits, j) == BitOf(data[i], w - 1 - (j - 8 * i))
    {
      FieldBit(data, bits, i, j);
    }
    PackOfDigits(digits, 8 * i, data[i], w, w);
  }

  /** Reading back byte `i` of the field packs exactly its low `GroupWidth` bits. */
  lemma PackedGroup(data: seq<byte>, bits: nat, i: nat)
    requires BitBytes(bits) <= |data| && 8 * i < bits
    ensures PackDigits(BitDigits(data, bits), 8 * i, GroupWidth(bits, i)) == data[i] & LowMask(GroupWidth(bits, i))
  {
    PackedGroupBits(data, bits, i);
    TopBitsAll(data[i], GroupWidth(bits, i));
  }

  /** A whole byte of the field is restored. */
  lemma UnpackedWhole(data: seq<byte>, d: byte, bits: nat, i: nat)
    requires BitBytes(bits) <= |data| && i < bits / 8
    ensures UnpackedByte(d, BitDigits(data, bits), bits, i) == data[i]
  {
    PackedGroup(data, bits, i);
    assert GroupWidth(bits, i) == 8;
  }

  /** The trailing partial byte gets the field's low bits and keeps its own high bits. */
  lemma UnpackedPartial(data: seq<byte>, d: byte, bits: nat)
    requires BitBytes(bits) <= |data| && bits % 8 != 0
    ensures UnpackedByte(d, BitDigits(data, bits), bits, bits / 8) == MergeLow(d, data[bits / 8], bits % 8)
  {
    PackedGroup(data, bits, bits / 8);
    assert GroupWidth(bits, bits / 8) == bits % 8;
    LowMaskComplement(bits % 8);
  }

  /**
    Reading back what the writer spelled: every byte of the field is
    restored, a partial trailing byte gets the field's low bits and keeps
    its own high bits, and bytes past the field are untouched.
  */
  lemma BitTextRoundTrip(data: seq<byte>, dest: seq<byte>, bits: nat)
    requires BitBytes(bits) <= |data| && BitBytes(bits) <= |dest|
    ensures var r := UnpackBits(dest, BitDigits(data, bits), bits);
      && (forall i :: 0 <= i < bits / 8 ==> r[i] == data[i])
      && (bits % 8 != 0 ==> r[bits / 8] == MergeLow(dest[bits / 8], data[bits / 8], bits % 8))
      && (forall i :: BitBytes(bits) <= i < |dest| ==> r[i] == dest[i])
  {
    var r := UnpackBits(dest, BitDigits(data, bits), bits);
    forall i | 0 <= i < bits / 8
      ensures r[i] == data[i]
    {
      UnpackedWhole(data, dest[i], bits, i);
    }
    if bits % 8 != 0 {
      UnpackedPartial(data, dest[bits / 8], bits);
    }
  }
}
