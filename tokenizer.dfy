/**
  The text format's tokenizer (`getNextData_`), as functions over the
  bytes a read would see. One call reads a character at a time into the
  scratch string until a token ends or the channel is exhausted.

  The scratch string and the counter `inToken` are kept apart: the counter
  is what the code indexes the string with, and several paths (an escaped
  quote, a `#`) move one without the other.
*/
module Tokenizer {
  import opened Bytes
  import opened SafeString

  /** `mEntryTerminator[0]`: what the text format writes after an entry. */
  const TERMINATOR: byte := SPACE

  /** `mEntryTerminator.include(c) || c == '\0'`: the characters that end a bare token. */
  predicate IsDelimiter(c: byte)
  {
    c == SPACE || c == TAB || c == CR || c == LF || c == NUL
  }

  /**
    The tokenizer's local state between two characters. `endChar` is NUL
    outside comments, LF in a line comment, `*` in a block comment waiting
    for its star and `/` when the star was just seen.
  */
  datatype Scanner = Scanner(text: seq<byte>, inToken: int, endChar: byte, inQuotes: bool)

  /** The state after `sTextData.clear()` and before the first character. */
  const Start: Scanner := Scanner([], 0, NUL, false)

  /** What one call returns: the token and how many bytes it consumed. */
  datatype Token = Token(text: seq<byte>, consumed: nat)

  /** The same token, with `n` more bytes consumed before it. */
  function Shifted(r: Token, n: nat): Token
  {
    Token(r.text, r.consumed + n)
  }

  /** One character either ends the token (`return`) or leads to the next state (`continue` or the loop's end). */
  datatype Step = Next(state: Scanner) | Stop(token: seq<byte>)

  predicate Sound(st: Scanner)
  {
    Fits(st.text)
  }

  /** Inside a comment: the comment goes on, or, at its last character, the character to go on with. */
  datatype Filtered = Skip(endChar: byte) | Pass(value: byte)

  /** The comment filter at the top of the loop body. */
  function FilterComment(endChar: byte, value: byte): (f: Filtered)
    requires endChar != NUL
    ensures f.Pass? ==> f.value == TERMINATOR && value == endChar
  {
    if value != endChar then
      if endChar == SLASH then Skip(STAR) else Skip(endChar)
    else if endChar == STAR then Skip(SLASH)
    else Pass(TERMINATOR)
  }

  /** A character inside quotes: a closing quote ends the token unless a backslash precedes it. */
  function QuotedStep(st: Scanner, value: byte): Step
  {
    if value == QUOTE then
      if st.inToken < 2 || At(st.text, st.inToken - 1) != BACKSLASH then Stop(st.text)
      else Next(Scanner(Append(st.text, QUOTE), st.inToken - 1, NUL, true))
    else Next(Scanner(Append(st.text, value), st.inToken + 1, NUL, true))
  }

  /** A bare character after it was appended: a `#` at `inToken` cuts the token and starts a line comment. */
  function HashCheck(text: seq<byte>, inToken: int): Scanner
  {
    if inToken + 1 > 0 && At(text, inToken) == HASH then Scanner(Trim(text, inToken - 1), inToken, LF, false)
    else Scanner(text, inToken + 1, NUL, false)
  }

  /** The last two characters, two slashes or a slash and a star, are cut off and the comment begins. */
  function CommentCheck(h: Scanner): Scanner
  {
    if h.inToken > 1 && At(h.text, h.inToken - 2) == SLASH && At(h.text, h.inToken - 1) == SLASH then
      Scanner(Trim(h.text, h.inToken - 2), h.inToken - 2, LF, false)
    else if h.inToken > 1 && At(h.text, h.inToken - 2) == SLASH && At(h.text, h.inToken - 1) == STAR then
      Scanner(Trim(h.text, h.inToken - 2), h.inToken - 2, STAR, false)
    else h
  }

  /** A character outside quotes and comments. */
  function BareStep(st: Scanner, value: byte): (r: Step)
    ensures r.Stop? ==> r.token == st.text && r.token != [] && IsDelimiter(value)
  {
    if st.inToken == 0 && value == QUOTE then Next(Scanner(st.text, st.inToken, NUL, true))
    else if IsDelimiter(value) then
      if st.text != [] then Stop(st.text) else Next(Scanner(st.text, st.inToken, NUL, false))
    else
      Next(CommentCheck(HashCheck(Append(st.text, value), st.inToken)))
  }

  /** The loop body for one character. */
  function Feed(st: Scanner, value: byte): (r: Step)
    ensures r.Stop? ==> r.token == st.text && (r.token != [] || st.inQuotes)
  {
    if st.endChar != NUL && FilterComment(st.endChar, value).Skip? then
      Next(st.(endChar := FilterComment(st.endChar, value).endChar))
    else
      var c := if st.endChar != NUL then TERMINATOR else value;
      if st.inQuotes then QuotedStep(st, c) else BareStep(st, c)
  }

  /**
    Feeding the characters of `s` one by one from `st`: the token and how
    many characters were consumed. The character that ends a token is
    consumed with it; at the end of the input the token is whatever has
    accumulated.
  */
  function Scan(st: Scanner, s: seq<byte>): (r: Token)
    ensures r.consumed <= |s| && (s != [] ==> r.consumed >= 1)
    decreases |s|
  {
    if s == [] then Token(st.text, 0)
    else match Feed(st, s[0])
      case Stop(t) => Token(t, 1)
      case Next(st') => Shifted(Scan(st', s[1..]), 1)
  }

  /** `getNextData_` on the bytes `s` a read would see: the token and the number of bytes consumed. */
  function NextToken(s: seq<byte>): (r: Token)
    ensures r.consumed <= |s|
    ensures s != [] ==> r.consumed >= 1
    ensures s == [] ==> r == Token([], 0)
  {
    Scan(Start, s)
  }

  /** One character that does not end the token: the scan goes on from the next state. */
  lemma ScanNext(st: Scanner, s: seq<byte>, st': Scanner)
    requires s != [] && Feed(st, s[0]) == Next(st')
    ensures Scan(st, s) == Shifted(Scan(st', s[1..]), 1)
  {
  }

  /** One character that ends the token. */
  lemma ScanStop(st: Scanner, s: seq<byte>, t: seq<byte>)
    requires s != [] && Feed(st, s[0]) == Stop(t)
    ensures Scan(st, s) == Token(t, 1)
  {
  }

  /** A step from a state whose string fits leads to a state whose string fits. */
  lemma FeedSound(st: Scanner, c: byte)
    requires Sound(st)
    ensures Feed(st, c).Next? ==> Sound(Feed(st, c).state)
  {
    var v := if st.endChar != NUL then TERMINATOR else c;
    AppendFits(st.text, v);
    AppendFits(st.text, QUOTE);
    var a := Append(st.text, v);
    TrimFits(a, st.inToken - 1);
    var h := HashCheck(a, st.inToken);
    TrimFits(h.text, h.inToken - 2);
  }

  /** The token returned fits the scratch buffer. */
  lemma {:induction false} ScanFits(st: Scanner, s: seq<byte>)
    requires Sound(st)
    ensures Fits(Scan(st, s).text)
    decreases |s|
  {
    if s != [] {
      FeedSound(st, s[0]);
      if Feed(st, s[0]).Next? {
        ScanFits(Feed(st, s[0]).state, s[1..]);
      }
    }
  }

  lemma TokenFits(s: seq<byte>)
    ensures Fits(NextToken(s).text)
  {
    ScanFits(Start, s);
  }

  // ---------------------------------------------------------------------
  // Bare tokens
  // ---------------------------------------------------------------------

  /** A character that goes into a bare token unchanged and starts nothing. */
  predicate IsPlain(c: byte)
  {
    !IsDelimiter(c) && c != QUOTE && c != HASH && c != SLASH
  }

  predicate AllPlain(w: seq<byte>)
  {
    forall i :: 0 <= i < |w| ==> IsPlain(w[i])
  }

  /** The state after a bare token `w` was read with nothing unusual in it. */
  function InWord(w: seq<byte>): Scanner
  {
    Scanner(w, |w|, NUL, false)
  }

  /** A plain character extends the bare token by one. */
  lemma FeedPlain(w: seq<byte>, c: byte)
    requires |w| + 1 < Capacity && AllPlain(w) && IsPlain(c)
    ensures Feed(InWord(w), c) == Next(InWord(w + [c]))
  {
    var text := w + [c];
    assert At(text, |w|) == c;
    if |w| >= 1 {
      assert At(text, |w| - 1) == w[|w| - 1];
    }
  }

  lemma AllPlainSnoc(w: seq<byte>, c: byte)
    requires AllPlain(w) && IsPlain(c)
    ensures AllPlain(w + [c])
  {
    forall i | 0 <= i < |w| + 1 ensures IsPlain((w + [c])[i]) {
      if i < |w| {
        assert (w + [c])[i] == w[i];
      }
    }
  }

  /** Reading on from a bare token through a run of plain characters. */
  lemma {:induction false} ScanPlain(w: seq<byte>, u: seq<byte>, rest: seq<byte>)
    requires |w| + |u| < Capacity && AllPlain(w) && AllPlain(u)
    ensures Scan(InWord(w), u + rest) == Shifted(Scan(InWord(w + u), rest), |u|)
    decreases |u|
  {
    if u != [] {
      var s := u + rest;
      assert s[0] == u[0];
      FeedPlain(w, u[0]);
      ScanNext(InWord(w), s, InWord(w + [u[0]]));
      assert s[1..] == u[1..] + rest;
      AllPlainSnoc(w, u[0]);
      ScanPlain(w + [u[0]], u[1..], rest);
      assert w + [u[0]] + u[1..] == w + u;
    } else {
      assert u + rest == rest;
      assert w + u == w;
    }
  }

  /**
    A bare token of plain characters ends at the first delimiter, which is
    consumed with it; the rest of the input is not looked at.
  */
  lemma BareWord(w: seq<byte>, d: byte, rest: seq<byte>)
    requires 1 <= |w| < Capacity && AllPlain(w) && IsDelimiter(d)
    ensures NextToken(w + [d] + rest) == Token(w, |w| + 1)
  {
    ScanPlain([], w, [d] + rest);
    assert w + [d] + rest == w + ([d] + rest);
    assert InWord([]) == Start;
    assert ([] + w) == w;
  }

  /** At the end of the input a bare token is returned as it stands. */
  lemma BareWordAtEnd(w: seq<byte>)
    requires |w| < Capacity && AllPlain(w)
    ensures NextToken(w) == Token(w, |w|)
  {
    ScanPlain([], w, []);
    assert w + [] == w;
    assert InWord([]) == Start;
    assert ([] + w) == w;
  }

  /** Delimiters before a token are skipped and counted as consumed. */
  lemma LeadingDelimiter(d: byte, s: seq<byte>)
    requires IsDelimiter(d)
    ensures NextToken([d] + s) == Shifted(NextToken(s), 1)
  {
    assert Feed(Start, d) == Next(Start);
    assert ([d] + s)[1..] == s;
  }


  // ---------------------------------------------------------------------
  // Comments
  // ---------------------------------------------------------------------

  /** A slash after a bare token is kept for now. */
  lemma FeedSlash(w: seq<byte>)
    requires |w| + 1 < Capacity && AllPlain(w)
    ensures Feed(InWord(w), SLASH) == Next(Scanner(w + [SLASH], |w| + 1, NUL, false))
  {
    var t := w + [SLASH];
    assert At(t, |w|) == SLASH;
    if |w| >= 1 {
      assert At(t, |w| - 1) == w[|w| - 1];
    }
  }

  /**
    A second slash, or a star, after that slash: both characters are cut
    off and a line comment, or a block comment, begins.
  */
  lemma FeedCommentOpen(w: seq<byte>, c: byte)
    requires |w| + 2 < Capacity && (c == SLASH || c == STAR)
    ensures Feed(Scanner(w + [SLASH], |w| + 1, NUL, false), c)
         == Next(Scanner(w, |w|, if c == SLASH then LF else STAR, false))
  {
    var t := w + [SLASH] + [c];
    assert At(t, |w| + 1) == c && At(t, |w|) == SLASH;
    assert t[..|w|] == w;
  }

  /** The comment opener read after a bare token `w` (possibly empty). */
  lemma ScanCommentOpen(w: seq<byte>, c: byte, rest: seq<byte>)
    requires |w| + 2 < Capacity && AllPlain(w) && (c == SLASH || c == STAR)
    ensures var st := Scanner(w, |w|, if c == SLASH then LF else STAR, false);
      Scan(InWord(w), [SLASH, c] + rest) == Shifted(Scan(st, rest), 2)
  {
    var s := [SLASH, c] + rest;
    FeedSlash(w);
    ScanNext(InWord(w), s, Scanner(w + [SLASH], |w| + 1, NUL, false));
    FeedCommentOpen(w, c);
    assert s[1..] == [c] + rest;
    ScanNext(Scanner(w + [SLASH], |w| + 1, NUL, false), s[1..], Scanner(w, |w|, if c == SLASH then LF else STAR, false));
    assert s[1..][1..] == rest;
  }

  /** A run of characters a comment skips, the state unchanged. */
  lemma {:induction false} ScanSkipped(st: Scanner, c: seq<byte>, rest: seq<byte>)
    requires st.endChar != NUL
    requires forall i :: 0 <= i < |c| ==> Feed(st, c[i]) == Next(st)
    ensures Scan(st, c + rest) == Shifted(Scan(st, rest), |c|)
    decreases |c|
  {
    if c != [] {
      assert (c + rest)[0] == c[0];
      ScanNext(st, c + rest, st);
      assert (c + rest)[1..] == c[1..] + rest;
      ScanSkipped(st, c[1..], rest);
    } else {
      assert c + rest == rest;
    }
  }

  /** After a bare token (possibly empty), the comment's end acts as a terminator. */
  lemma CommentEnd(t: seq<byte>, k: int, endChar: byte)
    requires endChar == LF || endChar == SLASH
    ensures Feed(Scanner(t, k, endChar, false), endChar)
         == if t != [] then Stop(t) else Next(Scanner([], k, NUL, false))
  {
  }

  /** The rest of a line comment, up to and with its line end, after the token `t`. */
  lemma LineCommentTail(t: seq<byte>, k: int, c: seq<byte>, rest: seq<byte>)
    requires t != [] && LF !in c
    ensures Scan(Scanner(t, k, LF, false), c + ([LF] + rest)) == Token(t, |c| + 1)
  {
    var st := Scanner(t, k, LF, false);
    forall i | 0 <= i < |c| ensures Feed(st, c[i]) == Next(st) {
      assert c[i] != LF;
    }
    ScanSkipped(st, c, [LF] + rest);
    CommentEnd(t, k, LF);
    ScanStop(st, [LF] + rest, t);
  }

  /** The rest of a block comment without a star in its body, after the token `t`. */
  lemma BlockCommentTail(t: seq<byte>, k: int, body: seq<byte>, rest: seq<byte>)
    requires t != [] && STAR !in body
    ensures Scan(Scanner(t, k, STAR, false), body + ([STAR, SLASH] + rest)) == Token(t, |body| + 2)
  {
    var st := Scanner(t, k, STAR, false);
    forall i | 0 <= i < |body| ensures Feed(st, body[i]) == Next(st) {
      assert body[i] != STAR;
    }
    ScanSkipped(st, body, [STAR, SLASH] + rest);
    var e := Scanner(t, k, SLASH, false);
    var s2 := [STAR, SLASH] + rest;
    assert s2[0] == STAR;
    assert FilterComment(STAR, STAR) == Skip(SLASH);
    assert Feed(st, STAR) == Next(e);
    ScanNext(st, s2, e);
    assert s2[1..] == [SLASH] + rest;
    CommentEnd(t, k, SLASH);
    assert ([SLASH] + rest)[0] == SLASH;
    ScanStop(e, [SLASH] + rest, t);
  }

  /** A bare token `w` of plain characters and then `tail`. */
  lemma ScanWord(w: seq<byte>, tail: seq<byte>)
    requires |w| < Capacity && AllPlain(w)
    ensures NextToken(w + tail) == Shifted(Scan(InWord(w), tail), |w|)
  {
    assert InWord([]) == Start && [] + w == w;
    ScanPlain([], w, tail);
  }

  /**
    `//` ends a bare token: the comment is skipped to its line end, which
    acts as a terminator, so the token is the text before the slashes.
  */
  lemma LineComment(w: seq<byte>, c: seq<byte>, rest: seq<byte>)
    requires 1 <= |w| && |w| + 2 < Capacity && AllPlain(w) && LF !in c
    ensures NextToken(w + [SLASH, SLASH] + c + [LF] + rest) == Token(w, |w| + 3 + |c|)
  {
    var body := c + ([LF] + rest);
    assert w + [SLASH, SLASH] + c + [LF] + rest == w + ([SLASH, SLASH] + body);
    ScanWord(w, [SLASH, SLASH] + body);
    ScanCommentOpen(w, SLASH, body);
    LineCommentTail(w, |w|, c, rest);
  }

  /**
    A block comment after a bare token ends the token like a terminator
    does; its body must hold no star (a star not followed by a slash sends
    the comment back to waiting for a star, so "**" then "/" does not close it).
  */
  lemma BlockComment(w: seq<byte>, body: seq<byte>, rest: seq<byte>)
    requires 1 <= |w| && |w| + 2 < Capacity && AllPlain(w) && STAR !in body
    ensures NextToken(w + [SLASH, STAR] + body + [STAR, SLASH] + rest) == Token(w, |w| + 4 + |body|)
  {
    var after := body + ([STAR, SLASH] + rest);
    assert w + [SLASH, STAR] + body + [STAR, SLASH] + rest == w + ([SLASH, STAR] + after);
    ScanWord(w, [SLASH, STAR] + after);
    ScanCommentOpen(w, STAR, after);
    BlockCommentTail(w, |w|, body, rest);
  }

  /** In a block comment a star not followed by a slash goes back to waiting for a star. */
  lemma StarWithoutSlash(st: Scanner, c: byte)
    requires st.endChar == SLASH && c != SLASH
    ensures Feed(st, c) == Next(st.(endChar := STAR))
  {
  }

  /**
    A line comment before any token is skipped like a delimiter: the
    token is the one after it, and the comment counts as consumed.
  */
  lemma LeadingLineComment(c: seq<byte>, rest: seq<byte>)
    requires LF !in c && rest != []
    ensures NextToken([SLASH, SLASH] + c + [LF] + rest) == Shifted(NextToken(rest), 3 + |c|)
  {
    assert [SLASH, SLASH] + c + [LF] + rest == [SLASH, SLASH] + (c + ([LF] + rest));
    assert InWord([]) == Start;
    ScanCommentOpen([], SLASH, c + ([LF] + rest));
    var st := Scanner([], 0, LF, false);
    forall i | 0 <= i < |c| ensures Feed(st, c[i]) == Next(st) {
      assert c[i] != LF;
    }
    ScanSkipped(st, c, [LF] + rest);
    CommentEnd([], 0, LF);
    ScanNext(st, [LF] + rest, Start);
    assert ([LF] + rest)[1..] == rest;
  }

  /**
    Two words with a line comment between them, as in `foo // comment`, a
    line end and `bar`: the first call gives the first word and consumes
    its terminator, the second skips the comment and gives the second word.
  */
  lemma CommentBetweenWords(w: seq<byte>, c: seq<byte>, v: seq<byte>)
    requires 1 <= |w| < Capacity && AllPlain(w) && LF !in c && 1 <= |v| < Capacity && AllPlain(v)
    ensures NextToken(w + [SPACE] + ([SLASH, SLASH] + c + [LF] + v)) == Token(w, |w| + 1)
    ensures NextToken([SLASH, SLASH] + c + [LF] + v) == Token(v, 3 + |c| + |v|)
  {
    BareWord(w, SPACE, [SLASH, SLASH] + c + [LF] + v);
    LeadingLineComment(c, v);
    BareWordAtEnd(v);
  }

  // ---------------------------------------------------------------------
  // Quoted tokens
  // ---------------------------------------------------------------------

  /** Inside quotes, `q` read so far and the counter at `k`. */
  function Quoted(q: seq<byte>, k: int): Scanner
  {
    Scanner(q, k, NUL, true)
  }

  /** Inside quotes, any character but a quote (and NUL) is appended and counted. */
  lemma FeedQuoted(q: seq<byte>, k: int, c: byte)
    requires |q| + 1 < Capacity && c != NUL && c != QUOTE
    ensures Feed(Quoted(q, k), c) == Next(Quoted(q + [c], k + 1))
  {
  }

  lemma ScanQuotedStep(q: seq<byte>, k: int, u: seq<byte>, rest: seq<byte>)
    requires u != [] && |q| + 1 < Capacity && u[0] != NUL && u[0] != QUOTE
    ensures Scan(Quoted(q, k), u + rest) == Shifted(Scan(Quoted(q + [u[0]], k + 1), u[1..] + rest), 1)
  {
    var s := u + rest;
    assert s[0] == u[0];
    FeedQuoted(q, k, u[0]);
    ScanNext(Quoted(q, k), s, Quoted(q + [u[0]], k + 1));
    assert s[1..] == u[1..] + rest;
  }

  /** Reading a run of characters with no quote inside quotes: each is appended and counted. */
  lemma {:induction false} ScanQuoted(q: seq<byte>, k: int, u: seq<byte>, rest: seq<byte>)
    requires |q| + |u| < Capacity && NUL !in u && QUOTE !in u
    ensures Scan(Quoted(q, k), u + rest) == Shifted(Scan(Quoted(q + u, k + |u|), rest), |u|)
    decreases |u|
  {
    if u != [] {
      assert u[0] in u;
      ScanQuotedStep(q, k, u, rest);
      assert q + [u[0]] + u[1..] == q + u;
      ScanQuoted(q + [u[0]], k + 1, u[1..], rest);
    } else {
      assert u + rest == rest;
      assert q + u == q;
    }
  }

  /** The text of a quoted token up to and with its closing quote. */
  lemma QuotedBody(q: seq<byte>, rest: seq<byte>)
    requires Fits(q) && QUOTE !in q
    requires |q| < 2 || q[|q| - 1] != BACKSLASH
    ensures Scan(Quoted([], 0), q + ([QUOTE] + rest)) == Token(q, |q| + 1)
  {
    ScanQuoted([], 0, q, [QUOTE] + rest);
    assert [] + q == q;
    if |q| >= 2 {
      assert At(q, |q| - 1) == q[|q| - 1];
    }
    assert ([QUOTE] + rest)[0] == QUOTE;
    ScanStop(Quoted(q, |q|), [QUOTE] + rest, q);
  }

  /**
    A quoted token with no quote inside, whose last character is not a
    backslash (or which is one character long), is returned without its
    quotes, and both quotes are consumed.
  */
  lemma QuotedToken(q: seq<byte>, rest: seq<byte>)
    requires Fits(q) && QUOTE !in q
    requires |q| < 2 || q[|q| - 1] != BACKSLASH
    ensures NextToken([QUOTE] + q + [QUOTE] + rest) == Token(q, |q| + 2)
  {
    var s := [QUOTE] + q + [QUOTE] + rest;
    assert s[0] == QUOTE;
    assert Feed(Start, QUOTE) == Next(Quoted([], 0));
    ScanNext(Start, s, Quoted([], 0));
    assert s[1..] == q + ([QUOTE] + rest);
    QuotedBody(q, rest);
  }

  /**
    A quote after a backslash (at the counter's position) is appended and
    the counter steps back, so it no longer matches the string's length.
  */
  lemma EscapedQuote(q: seq<byte>, k: int, rest: seq<byte>)
    requires |q| + 1 < Capacity && k >= 2 && At(q, k - 1) == BACKSLASH
    ensures Feed(Quoted(q, k), QUOTE) == Next(Quoted(q + [QUOTE], k - 1))
    ensures Scan(Quoted(q, k), [QUOTE] + rest)
         == Shifted(Scan(Quoted(q + [QUOTE], k - 1), rest), 1)
  {
    ScanNext(Quoted(q, k), [QUOTE] + rest, Quoted(q + [QUOTE], k - 1));
    assert ([QUOTE] + rest)[1..] == rest;
  }

  /** The token `a\"b" 42` read so far, as the last example ends. */
  const RunOn: seq<byte> := [0x61, BACKSLASH, QUOTE, 0x62, QUOTE, SPACE, 0x34, 0x32]

  /** From just after the first escaped quote of the example below. */
  lemma RunOnTail()
    ensures Scan(Quoted([0x61, BACKSLASH, QUOTE], 1), [0x62, QUOTE, SPACE, 0x34, 0x32]) == Token(RunOn, 5)
  {
    var t3: seq<byte> := [0x61, BACKSLASH, QUOTE];
    var t4: seq<byte> := [0x61, BACKSLASH, QUOTE, 0x62];
    var t5: seq<byte> := [0x61, BACKSLASH, QUOTE, 0x62, QUOTE];
    assert [0x62, QUOTE, SPACE, 0x34, 0x32] == [0x62] + [QUOTE, SPACE, 0x34, 0x32];
    assert t3 + [0x62] == t4;
    ScanQuoted(t3, 1, [0x62], [QUOTE, SPACE, 0x34, 0x32]);
    assert At(t4, 1) == BACKSLASH;
    assert [QUOTE, SPACE, 0x34, 0x32] == [QUOTE] + [SPACE, 0x34, 0x32];
    EscapedQuote(t4, 2, [SPACE, 0x34, 0x32]);
    assert t4 + [QUOTE] == t5;
    assert [SPACE, 0x34, 0x32] == [SPACE, 0x34, 0x32] + [];
    ScanQuoted(t5, 1, [SPACE, 0x34, 0x32], []);
    assert t5 + [SPACE, 0x34, 0x32] == RunOn;
  }

  /** From just after the opening quote's backslash of the example below. */
  lemma RunOnMiddle()
    ensures Scan(Quoted([0x61, BACKSLASH], 2), [QUOTE, 0x62, QUOTE, SPACE, 0x34, 0x32]) == Token(RunOn, 6)
  {
    var t2: seq<byte> := [0x61, BACKSLASH];
    assert At(t2, 1) == BACKSLASH;
    assert [QUOTE, 0x62, QUOTE, SPACE, 0x34, 0x32] == [QUOTE] + [0x62, QUOTE, SPACE, 0x34, 0x32];
    EscapedQuote(t2, 2, [0x62, QUOTE, SPACE, 0x34, 0x32]);
    assert t2 + [QUOTE] == [0x61, BACKSLASH, QUOTE];
    RunOnTail();
  }

  /**
    The escaped quote is kept with its backslash, and the counter falls
    behind the string; the closing quote is then taken for another escaped
    quote, so the input `"a\"b" 42` is one token, `a\"b" 42`, that runs
    to the end of the input.
  */
  lemma EscapedQuoteRunsOn()
    ensures NextToken([QUOTE, 0x61, BACKSLASH, QUOTE, 0x62, QUOTE, SPACE, 0x34, 0x32]) == Token(RunOn, 9)
  {
    var s: seq<byte> := [QUOTE, 0x61, BACKSLASH, QUOTE, 0x62, QUOTE, SPACE, 0x34, 0x32];
    assert s[0] == QUOTE;
    assert Feed(Start, QUOTE) == Next(Quoted([], 0));
    ScanNext(Start, s, Quoted([], 0));
    var t2: seq<byte> := [0x61, BACKSLASH];
    var s3: seq<byte> := [QUOTE, 0x62, QUOTE, SPACE, 0x34, 0x32];
    assert s[1..] == t2 + s3;
    ScanQuoted([], 0, t2, s3);
    assert [] + t2 == t2;
    RunOnMiddle();
  }

  /**
    `ab"` as written, `"ab\""`: the escaped quote is kept with its
    backslash; the counter has stepped back, so the closing quote is
    tested against the `b` rather than the backslash and ends the token
    `ab\"`.
  */
  lemma EscapedQuoteKept(rest: seq<byte>)
    ensures NextToken([QUOTE, 0x61, 0x62, BACKSLASH, QUOTE, QUOTE] + rest)
         == Token([0x61, 0x62, BACKSLASH, QUOTE], 6)
  {
    var s := [QUOTE, 0x61, 0x62, BACKSLASH, QUOTE, QUOTE] + rest;
    assert s[0] == QUOTE;
    assert Feed(Start, QUOTE) == Next(Quoted([], 0));
    ScanNext(Start, s, Quoted([], 0));
    var u: seq<byte> := [0x61, 0x62, BACKSLASH];
    var tail := [QUOTE] + rest;
    assert s[1..] == u + ([QUOTE] + tail);
    ScanQuoted([], 0, u, [QUOTE] + tail);
    assert [] + u == u;
    assert At(u, 2) == BACKSLASH;
    EscapedQuote(u, 3, tail);
    var t := u + [QUOTE];
    assert At(t, 1) == 0x62;
    assert tail[0] == QUOTE;
    ScanStop(Quoted(t, 2), tail, t);
  }

  /**
    `"xy` as written, `"\"xy"`: the counter is 1 at the escaped quote, too
    small for the backslash test, so that quote ends the token, which is
    the lone backslash.
  */
  lemma EscapedQuoteFirstEnds(rest: seq<byte>)
    ensures NextToken([QUOTE, BACKSLASH, QUOTE, 0x78, 0x79, QUOTE] + rest) == Token([BACKSLASH], 3)
  {
    var s := [QUOTE, BACKSLASH, QUOTE, 0x78, 0x79, QUOTE] + rest;
    assert s[0] == QUOTE;
    assert Feed(Start, QUOTE) == Next(Quoted([], 0));
    ScanNext(Start, s, Quoted([], 0));
    var tail := [QUOTE, 0x78, 0x79, QUOTE] + rest;
    assert s[1..] == [BACKSLASH] + tail;
    ScanQuoted([], 0, [BACKSLASH], tail);
    assert [] + [BACKSLASH] == [BACKSLASH];
    assert tail[0] == QUOTE;
    ScanStop(Quoted([BACKSLASH], 1), tail, [BACKSLASH]);
  }

  // ---------------------------------------------------------------------
  // The line-comment character `#`
  // ---------------------------------------------------------------------

  /**
    A `#` after a bare token of two or more characters: the string is cut
    one character before the `#` (at `inToken - 1`), the counter stays,
    and a line comment begins.
  */
  lemma FeedHash(w: seq<byte>)
    requires 1 <= |w| && |w| + 1 < Capacity && AllPlain(w)
    ensures Feed(InWord(w), HASH) == Next(Scanner(w[..|w| - 1], |w|, LF, false))
  {
    var t := w + [HASH];
    assert At(t, |w|) == HASH;
    assert Trim(t, |w| - 1) == w[..|w| - 1];
    var cut := w[..|w| - 1];
    if |w| >= 2 {
      assert At(cut, |w| - 2) == w[|w| - 2];
    }
  }

  /**
    `#` in a bare token of at least two characters: the token loses the
    character before the `#` as well, and the rest of the line is skipped.
    So `ab#c` and a line end give the token `a`.
  */
  lemma HashComment(w: seq<byte>, c: seq<byte>, rest: seq<byte>)
    requires 2 <= |w| && |w| + 2 < Capacity && AllPlain(w) && LF !in c
    ensures NextToken(w + [HASH] + c + [LF] + rest) == Token(w[..|w| - 1], |w| + 2 + |c|)
  {
    var after := c + ([LF] + rest);
    assert w + [HASH] + c + [LF] + rest == w + ([HASH] + after);
    ScanWord(w, [HASH] + after);
    FeedHash(w);
    var cut := w[..|w| - 1];
    ScanNext(InWord(w), [HASH] + after, Scanner(cut, |w|, LF, false));
    assert ([HASH] + after)[1..] == after;
    LineCommentTail(cut, |w|, c, rest);
  }

  /** The example: `ab#c`, a line end and `d` give the token `a` after five characters. */
  lemma HashCutsBeforeIt()
    ensures NextToken([0x61, 0x62, HASH, 0x63, LF, 0x64]) == Token([0x61], 5)
  {
    var w: seq<byte> := [0x61, 0x62];
    assert [0x61, 0x62, HASH, 0x63, LF, 0x64] == w + [HASH] + [0x63] + [LF] + [0x64];
    HashComment(w, [0x63], [0x64]);
    assert w[..1] == [0x61];
  }
}
