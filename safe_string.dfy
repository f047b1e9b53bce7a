/**
  The bounded C string behind the text format's scratch token
  (a `FixedSafeString<128>`) and behind caller-supplied string buffers.
  A string is its content without the terminating NUL.
*/
module SafeString {
  import opened Bytes

  /** Buffer size of the scratch token, terminator included. */
  const Capacity: nat := 128

  /** A string that fits the scratch buffer: at most 127 characters, no NUL inside. */
  predicate Fits(s: seq<byte>)
  {
    |s| < Capacity && NUL !in s
  }

  /**
    `append(c)`: the character is stored only while one more character and
    the terminator fit; appending NUL writes a terminator where the old one
    was and so leaves the content as it is.
  */
  function Append(s: seq<byte>, c: byte): seq<byte>
  {
    if c != NUL && |s| + 1 < Capacity then s + [c] else s
  }

  /** Appending keeps a string that fits fitting, and stores the character exactly when there is room. */
  lemma AppendFits(s: seq<byte>, c: byte)
    requires Fits(s)
    ensures Fits(Append(s, c))
    ensures Append(s, c) == s + [c] <==> c != NUL && |s| + 1 < Capacity
    ensures Append(s, c) != s + [c] ==> Append(s, c) == s
  {
    if Append(s, c) == s + [c] {
      assert |s + [c]| == |s| + 1;
    }
  }

  /**
    `trim(n)`: writes a terminator at index `n`; an index at or past the
    buffer size is refused and a negative one is taken as 0.
  */
  function Trim(s: seq<byte>, n: int): seq<byte>
  {
    if n >= Capacity then s
    else if n < 0 then []
    else if n < |s| then s[..n]
    else s
  }

  /** Trimming keeps a prefix, so a string that fits still fits. */
  lemma TrimFits(s: seq<byte>, n: int)
    requires Fits(s)
    ensures Fits(Trim(s, n)) && Trim(s, n) <= s
    ensures |Trim(s, n)| == if 0 <= n < |s| then n else if n < 0 then 0 else |s|
  {
    var r := Trim(s, n);
    assert r == s[..|r|];
    assert NUL !in r by {
      forall i | 0 <= i < |r| ensures r[i] != NUL {
        assert r[i] == s[i];
      }
    }
  }

  /** Indexing: the terminator (NUL) at the length and for any index out of range. */
  function At(s: seq<byte>, i: int): byte
  {
    if 0 <= i < |s| then s[i] else NUL
  }

  /** The C string held by a raw buffer: everything before the first NUL. */
  function CStr(buf: seq<byte>): (r: seq<byte>)
    ensures r <= buf && NUL !in r
    ensures |r| < |buf| ==> buf[|r|] == NUL
  {
    if buf == [] || buf[0] == NUL then [] else [buf[0]] + CStr(buf[1..])
  }

  lemma {:induction false} CStrOfPrefix(s: seq<byte>, tail: seq<byte>)
    requires NUL !in s
    requires tail == [] || tail[0] == NUL
    ensures CStr(s + tail) == s
  {
    if s != [] {
      assert (s + tail)[1..] == s[1..] + tail;
      CStrOfPrefix(s[1..], tail);
    } else {
      assert s + tail == tail;
    }
  }
}
