/**
  The byte channel the formats read and write (`StreamSrc`): a byte
  sequence and a read cursor. Reads take at most the requested count from
  the cursor on; writes append; skip and rewind move the cursor.
*/
module Channel {
  import opened Bytes

  /** The bytes a read of `n` gets from `s` at `pos`: `n` of them, or all that are left. */
  function Take(s: seq<byte>, pos: nat, n: nat): (r: seq<byte>)
    requires pos <= |s|
    ensures |r| == Min(n, |s| - pos)
    ensures r == s[pos..pos + |r|]
  {
    if n <= |s| - pos then s[pos..pos + n] else s[pos..]
  }

  /** Taking from `pos + q` in `s` is taking from `q` in what is left of `s` after `pos`. */
  lemma TakeAfter(s: seq<byte>, pos: nat, q: nat, n: nat)
    requires pos + q <= |s|
    ensures Take(s, pos + q, n) == Take(s[pos..], q, n)
  {
    var a, b := Take(s, pos + q, n), Take(s[pos..], q, n);
    assert |a| == |b|;
    forall i | 0 <= i < |a| ensures a[i] == b[i] {
      assert a[i] == s[pos + q + i];
    }
  }

  class StreamSrc {
    var data: seq<byte>
    var pos: nat

    ghost predicate Valid()
      reads this
    {
      pos <= |data|
    }

    /** What a read would see from the cursor on. */
    function Remaining(): seq<byte>
      reads this
      requires Valid()
    {
      data[pos..]
    }

    constructor (init: seq<byte>)
      ensures Valid() && data == init && pos == 0
    {
      data := init;
      pos := 0;
    }

    method Read(n: nat) returns (got: seq<byte>)
      requires Valid()
      modifies this
      ensures Valid() && data == old(data)
      ensures got == Take(old(data), old(pos), n)
      ensures pos == old(pos) + |got|
    {
      got := Take(data, pos, n);
      pos := pos + |got|;
    }

    method Write(bytes: seq<byte>)
      requires Valid()
      modifies this
      ensures Valid() && data == old(data) + bytes && pos == old(pos)
    {
      data := data + bytes;
    }

    method Skip(n: nat)
      requires Valid()
      modifies this
      ensures Valid() && data == old(data) && pos == old(pos) + Min(n, |data| - old(pos))
    {
      pos := pos + Min(n, |data| - pos);
    }

    method Rewind()
      requires Valid()
      modifies this
      ensures Valid() && data == old(data) && pos == 0
    {
      pos := 0;
    }
  }

  /** Copies `bytes` over the start of `a` (`StreamSrc::read` into a caller buffer). */
  method CopyInto(a: array<byte>, bytes: seq<byte>)
    requires |bytes| <= a.Length
    modifies a
    ensures a[..] == bytes + old(a[..])[|bytes|..]
  {
    forall i | 0 <= i < |bytes| {
      a[i] := bytes[i];
    }
  }
}
