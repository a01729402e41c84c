/// The quote- and escape-aware line tokenizer of src/detail.cpp
/// (`handle_escape`, `copy_raw_string`, `copy_cooked_string`, `string_to_argv`),
/// which implements `split_token` of include/CLI++/detail.hpp.
///
/// The first half is a functional specification: `Tokenize(line)` reads the
/// line as the C string that `strdup` copies and describes, character by
/// character, the words the tokenizer produces and its error result.  The
/// second half is the tokenizer itself, rewriting one `array<char>` in place
/// with a read index `scan` and a write index `dest`, proved equal to
/// `Tokenize`.
module Tokenizer {
  import opened Detail

  const BEL: char := 7 as char    // '\a'
  const BS: char := 8 as char     // '\b'
  const VT: char := 11 as char    // '\v'
  const FF: char := 12 as char    // '\f'

  /// The characters that end an unquoted token: the `isspace` set and backspace.
  predicate IsDelimiter(c: char) {
    IsSpace(c) || c == BS
  }

  /// The character at index `k` of the C string `s`, whose terminator sits at `|s|`.
  function At(s: string, k: nat): char {
    if k < |s| then s[k] else NUL
  }

  /// What `strdup(str.data())` copies: the characters before the first NUL.
  function CStr(s: string): (r: string)
    ensures |r| <= |s| && r == s[..|r|]
    ensures NulFree(r)
    ensures |r| < |s| ==> s[|r|] == NUL
  {
    if s == [] || s[0] == NUL then [] else [s[0]] + CStr(s[1..])
  }

  /// `handle_escape`: the character an escape stands for inside double quotes.
  /// `\a \b \t \n \v \f \r` give control characters; any other character
  /// stands for itself (the backslash is dropped).
  function HandleEscape(c: char): (r: char)
    ensures r == NUL <==> c == NUL
    ensures r == c <==> c !in "abtnvfr"
  {
    if c == 'a' then BEL
    else if c == 'b' then BS
    else if c == 't' then '\t'
    else if c == 'n' then '\n'
    else if c == 'v' then VT
    else if c == 'f' then FF
    else if c == 'r' then '\r'
    else c
  }

  // ---------------------------------------------------------------------------
  // Functional specification
  // ---------------------------------------------------------------------------

  /// The text copied out of one quoted segment, the index just past the last
  /// character read, and whether the closing quote was found.
  datatype Segment = Segment(text: string, next: nat, closed: bool)

  function PrependSegment(x: string, r: Segment): Segment {
    r.(text := x + r.text)
  }

  /// What a backslash followed by `c` stands for inside single quotes.
  function RawEscape(c: char): string {
    if c == '\\' || c == '\'' then [c] else ['\\', c]
  }

  /// `copy_raw_string`: the segment after an opening `'`, starting at index `i`.
  /// `\\` and `\'` stand for `\` and `'`; any other `\x` is kept as the two
  /// characters `\x`; the end of the string before a closing `'` (also just
  /// after a backslash) leaves the segment open.
  function RawSegment(s: string, i: nat): (r: Segment)
    requires i <= |s|
    ensures i < r.next <= |s| + 1
    ensures r.closed ==> r.next <= |s|
    ensures |r.text| < r.next - i
    decreases |s| - i
  {
    if i == |s| then Segment([], i + 1, false)
    else if s[i] == '\'' then Segment([], i + 1, true)
    else if s[i] == '\\' then
      if i + 1 == |s| then Segment([], i + 2, false)
      else PrependSegment(RawEscape(s[i + 1]), RawSegment(s, i + 2))
    else PrependSegment([s[i]], RawSegment(s, i + 1))
  }

  /// `copy_cooked_string`: the segment after an opening `"`, starting at index
  /// `i`; every backslash escape goes through `HandleEscape`.
  function CookedSegment(s: string, i: nat): (r: Segment)
    requires i <= |s|
    ensures i < r.next <= |s| + 1
    ensures r.closed ==> r.next <= |s|
    ensures |r.text| < r.next - i
    decreases |s| - i
  {
    if i == |s| then Segment([], i + 1, false)
    else if s[i] == '"' then Segment([], i + 1, true)
    else if s[i] == '\\' then
      if i + 1 == |s| then Segment([], i + 2, false)
      else PrependSegment([HandleEscape(s[i + 1])], CookedSegment(s, i + 2))
    else PrependSegment([s[i]], CookedSegment(s, i + 1))
  }

  /// How a token ended: at a delimiter, at the end of the string, or inside
  /// an unterminated quote.
  datatype Stop = Delimited | EndOfInput | Unterminated

  /// One token's text, the index just past the last character read, and how it ended.
  datatype Scan = Scan(text: string, next: nat, stop: Stop)

  function PrependScan(x: string, r: Scan): Scan {
    r.(text := x + r.text)
  }

  /// The inner loop of `string_to_argv`: the token that starts at index `i`.
  /// Unquoted characters are copied, a backslash copies the next character
  /// verbatim (and at the very end adds nothing), quoted segments are joined
  /// to the surrounding text, and a delimiter ends the token.
  function ScanToken(s: string, i: nat): (r: Scan)
    requires i <= |s|
    ensures i < r.next <= |s| + 1
    ensures r.stop == Delimited ==> r.next <= |s|
    ensures |r.text| < r.next - i
    decreases |s| - i
  {
    if i == |s| then Scan([], i + 1, EndOfInput)
    else if s[i] == '\\' then
      if i + 1 == |s| then Scan([], i + 2, EndOfInput)
      else PrependScan([s[i + 1]], ScanToken(s, i + 2))
    else if s[i] == '\'' then
      var seg := RawSegment(s, i + 1);
      if seg.closed then PrependScan(seg.text, ScanToken(s, seg.next))
      else Scan(seg.text, seg.next, Unterminated)
    else if s[i] == '"' then
      var seg := CookedSegment(s, i + 1);
      if seg.closed then PrependScan(seg.text, ScanToken(s, seg.next))
      else Scan(seg.text, seg.next, Unterminated)
    else if IsDelimiter(s[i]) then Scan([], i + 1, Delimited)
    else PrependScan([s[i]], ScanToken(s, i + 1))
  }

  /// The text of a segment or token of a NUL-free string is NUL-free: the
  /// terminator is never copied into it.
  lemma {:induction false} RawSegmentNulFree(s: string, i: nat)
    requires i <= |s| && NulFree(s)
    ensures NulFree(RawSegment(s, i).text)
    decreases |s| - i
  {
    if i < |s| && s[i] != '\'' {
      if s[i] == '\\' {
        if i + 1 < |s| { RawSegmentNulFree(s, i + 2); }
      } else {
        RawSegmentNulFree(s, i + 1);
      }
    }
  }

  lemma {:induction false} CookedSegmentNulFree(s: string, i: nat)
    requires i <= |s| && NulFree(s)
    ensures NulFree(CookedSegment(s, i).text)
    decreases |s| - i
  {
    if i < |s| && s[i] != '"' {
      if s[i] == '\\' {
        if i + 1 < |s| { CookedSegmentNulFree(s, i + 2); }
      } else {
        CookedSegmentNulFree(s, i + 1);
      }
    }
  }

  lemma {:induction false} ScanTokenNulFree(s: string, i: nat)
    requires i <= |s| && NulFree(s)
    ensures NulFree(ScanToken(s, i).text)
    decreases |s| - i
  {
    if i == |s| || IsDelimiter(s[i]) {
    } else if s[i] == '\\' {
      if i + 1 < |s| { ScanTokenNulFree(s, i + 2); }
    } else if s[i] == '\'' {
      var seg := RawSegment(s, i + 1);
      RawSegmentNulFree(s, i + 1);
      if seg.closed { ScanTokenNulFree(s, seg.next); }
    } else if s[i] == '"' {
      var seg := CookedSegment(s, i + 1);
      CookedSegmentNulFree(s, i + 1);
      if seg.closed { ScanTokenNulFree(s, seg.next); }
    } else {
      ScanTokenNulFree(s, i + 1);
    }
  }

  /// The first index at or after `i` that does not hold an `isspace` character.
  function SkipSpaces(s: string, i: nat): (j: nat)
    requires i <= |s|
    ensures i <= j <= |s|
    ensures forall k :: i <= k < j ==> IsSpace(s[k])
    ensures j < |s| ==> !IsSpace(s[j])
    decreases |s| - i
  {
    if i < |s| && IsSpace(s[i]) then SkipSpaces(s, i + 1) else i
  }

  /// The tokens and the error result of a tokenizer run.
  datatype Lex = Lex(tokens: seq<string>, err: ErrorType)

  function PrependLex(ts: seq<string>, r: Lex): Lex {
    r.(tokens := ts + r.tokens)
  }

  /// The outer loop of `string_to_argv`: the tokens from index `i` on.  Every
  /// token that was started is kept, including the partial token of an
  /// unterminated quote, after which scanning stops.
  function TokensFrom(s: string, i: nat): (r: Lex)
    requires i <= |s|
    decreases |s| - i
  {
    var j := SkipSpaces(s, i);
    if j == |s| then Lex([], Ok)
    else
      var t := ScanToken(s, j);
      match t.stop
      case Delimited => PrependLex([t.text], TokensFrom(s, t.next))
      case EndOfInput => Lex([t.text], Ok)
      case Unterminated => Lex([t.text], UnbalancedQuote)
  }

  /// `split_token(line)`: the words of `line` and the error kind.
  function Tokenize(line: string): Lex {
    TokensFrom(CStr(line), 0)
  }

  // ---------------------------------------------------------------------------
  // The in-place tokenizer
  // ---------------------------------------------------------------------------

  /// The part of `buf` from `scan` on still holds the C string `s` and its
  /// terminator: everything the tokenizer writes lies before `scan`.
  ghost predicate Unread(buf: array<char>, s: string, scan: nat)
    reads buf
  {
    && buf.Length == |s| + 1
    && NulFree(s)
    && scan <= |s| + 1
    && forall k :: scan <= k < buf.Length ==> buf[k] == At(s, k)
  }

  /// The C string of `s` is its prefix up to the first terminator.
  lemma {:induction false} CStrPrefix(s: string, m: nat)
    requires m <= |s| && (m == |s| || s[m] == NUL)
    requires forall k :: 0 <= k < m ==> s[k] != NUL
    ensures CStr(s) == s[..m]
  {
    if m > 0 {
      assert s[0] != NUL;
      CStrPrefix(s[1..], m - 1);
      assert s[..m] == [s[0]] + s[1..][..m - 1];
    }
  }

  /// `strdup(str.data())`: a fresh buffer holding the C string of `str` and
  /// its terminator.
  method Strdup(str: string) returns (buf: array<char>)
    ensures fresh(buf)
    ensures buf[..] == CStr(str) + [NUL]
  {
    var src := new char[|str| + 1]((i: int) => if 0 <= i < |str| then str[i] else NUL);
    assert src[|str|] == NUL;
    var n := Strlen(src, 0);
    buf := new char[n + 1];
    forall i | 0 <= i <= n {
      buf[i] := src[i];
    }
    assert n < |str| ==> str[n] == src[n];
    forall k | 0 <= k < n ensures str[k] != NUL {
      assert src[k] == str[k];
    }
    CStrPrefix(str, n);
    assert buf[..] == str[..n] + [NUL] by {
      forall k | 0 <= k <= n
        ensures buf[k] == (str[..n] + [NUL])[k]
      {
        if k < n { assert src[k] == str[k]; }
      }
    }
  }

  /// `buf` holds `text` from index `from` on.
  ghost predicate Holds(buf: array<char>, from: nat, text: string)
    reads buf
  {
    from + |text| <= buf.Length && forall k :: 0 <= k < |text| ==> buf[from + k] == text[k]
  }

  lemma HoldsAppend(buf: array<char>, from: nat, a: string, b: string)
    requires Holds(buf, from, a) && Holds(buf, from + |a|, b)
    ensures Holds(buf, from, a + b)
  {
  }

  lemma PrependSegmentTwice(a: string, b: string, r: Segment)
    ensures PrependSegment(a, PrependSegment(b, r)) == PrependSegment(a + b, r)
  {
    assert a + (b + r.text) == (a + b) + r.text;
  }

  lemma PrependScanTwice(a: string, b: string, r: Scan)
    ensures PrependScan(a, PrependScan(b, r)) == PrependScan(a + b, r)
  {
    assert a + (b + r.text) == (a + b) + r.text;
  }

  /// One `*dest++ = ch` (or a terminator written without advancing): the
  /// write lands just after the `out` already copied to `token` and before
  /// everything still unread.
  method Emit(buf: array<char>, dest: nat, ch: char, ghost s: string,
              ghost token: nat, ghost out: string, ghost scan: nat)
    requires Unread(buf, s, scan) && dest == token + |out| && dest < scan
    requires Holds(buf, token, out)
    modifies buf
    ensures Unread(buf, s, scan) && Holds(buf, token, out + [ch])
    ensures Holds(buf, token, out) && buf[dest] == ch
  {
    buf[dest] := ch;
    HoldsAppend(buf, token, out, [ch]);
  }

  /// One turn of the loop of `copy_raw_string`: reads the character (or the
  /// escape) at `scan`.  Either it copies the `piece` that stands for it,
  /// or the segment is `finished` at a closing quote or at the end of the
  /// string, with nothing more copied.
  method RawStep(buf: array<char>, dest: nat, scan: nat, ghost s: string,
                 ghost token: nat, ghost out: string)
    returns (err: ErrorType, dest': nat, scan': nat, finished: bool, ghost piece: string)
    requires Unread(buf, s, scan) && dest < scan <= |s|
    requires dest == token + |out| && Holds(buf, token, out)
    modifies buf
    ensures Unread(buf, s, scan') && scan < scan'
    ensures finished ==>
      && RawSegment(s, scan) == Segment([], scan', err == Ok)
      && dest' == dest && Holds(buf, token, out)
    ensures !finished ==>
      && err == Ok && scan' <= |s| && dest' == dest + |piece| < scan'
      && Holds(buf, token, out + piece)
      && RawSegment(s, scan) == PrependSegment(piece, RawSegment(s, scan'))
  {
    dest', scan' := dest, scan + 1;
    err, finished, piece := Ok, false, [];
    var ch := buf[scan];
    if ch == NUL {
      return UnbalancedQuote, dest', scan', true, piece;
    } else if ch == '\'' {
      Emit(buf, dest', NUL, s, token, out, scan');
      return Ok, dest', scan', true, piece;
    }
    piece := [ch];
    if ch == '\\' {
      ch := buf[scan'];
      scan' := scan' + 1;
      if ch == NUL {
        assert RawSegment(s, scan) == Segment([], scan + 2, false);
        return UnbalancedQuote, dest', scan', true, [];
      }
      piece := RawEscape(ch);
      if ch != '\\' && ch != '\'' {
        // unknown escape: the backslash is copied too
        Emit(buf, dest', '\\', s, token, out, scan');
        dest' := dest' + 1;
        Emit(buf, dest', ch, s, token, out + ['\\'], scan');
        assert out + ['\\'] + [ch] == out + piece;
      } else {
        Emit(buf, dest', ch, s, token, out, scan');
      }
    } else {
      Emit(buf, dest', ch, s, token, out, scan');
    }
    dest' := dest' + 1;
  }

  /// `copy_raw_string`: copies the segment after an opening `'` from `scan`
  /// to `dest` and returns the advanced indices (the C code updates the
  /// caller's pointers).  On the closing quote it writes a terminator at
  /// `dest` without advancing it.  The ghost `out` is what the token at
  /// `token` already holds; the segment is appended to it.
  method CopyRawString(buf: array<char>, dest: nat, scan: nat, ghost s: string,
                       ghost token: nat, ghost out: string)
    returns (err: ErrorType, dest': nat, scan': nat)
    requires Unread(buf, s, scan) && dest < scan <= |s|
    requires dest == token + |out| && Holds(buf, token, out)
    modifies buf
    ensures var seg := RawSegment(s, scan);
      && scan' == seg.next
      && (err == Ok <==> seg.closed)
      && dest' == dest + |seg.text| < scan'
      && Holds(buf, token, out + seg.text)
    ensures Unread(buf, s, scan')
  {
    dest', scan' := dest, scan;
    ghost var cur: string := [];
    while true
      invariant Unread(buf, s, scan') && dest <= dest' < scan' <= |s|
      invariant dest' == token + |out + cur| && Holds(buf, token, out + cur)
      invariant RawSegment(s, scan) == PrependSegment(cur, RawSegment(s, scan'))
      decreases |s| - scan'
    {
      var finished;
      ghost var piece;
      err, dest', scan', finished, piece := RawStep(buf, dest', scan', s, token, out + cur);
      if finished {
        assert cur + [] == cur;
        return;
      }
      assert out + cur + piece == out + (cur + piece);
      PrependSegmentTwice(cur, piece, RawSegment(s, scan'));
      cur := cur + piece;
    }
  }

  /// One turn of the loop of `copy_cooked_string`: copies the character at
  /// `scan`, or the one an escape stands for, or finishes the segment at a
  /// closing quote or at the end of the string.
  method CookedStep(buf: array<char>, dest: nat, scan: nat, ghost s: string,
                    ghost token: nat, ghost out: string)
    returns (err: ErrorType, dest': nat, scan': nat, finished: bool, ghost piece: string)
    requires Unread(buf, s, scan) && dest < scan <= |s|
    requires dest == token + |out| && Holds(buf, token, out)
    modifies buf
    ensures Unread(buf, s, scan') && scan < scan'
    ensures finished ==>
      && CookedSegment(s, scan) == Segment([], scan', err == Ok)
      && dest' == dest && Holds(buf, token, out)
    ensures !finished ==>
      && err == Ok && scan' <= |s| && dest' == dest + |piece| < scan'
      && Holds(buf, token, out + piece)
      && CookedSegment(s, scan) == PrependSegment(piece, CookedSegment(s, scan'))
  {
    dest', scan' := dest, scan + 1;
    err, finished, piece := Ok, false, [];
    var ch := buf[scan];
    if ch == NUL {
      return UnbalancedQuote, dest', scan', true, piece;
    } else if ch == '"' {
      Emit(buf, dest', NUL, s, token, out, scan');
      return Ok, dest', scan', true, piece;
    }
    if ch == '\\' {
      ch := HandleEscape(buf[scan']);
      scan' := scan' + 1;
      if ch == NUL {
        assert CookedSegment(s, scan) == Segment([], scan + 2, false);
        return UnbalancedQuote, dest', scan', true, piece;
      }
    }
    Emit(buf, dest', ch, s, token, out, scan');
    dest' := dest' + 1;
    piece := [ch];
  }

  /// `copy_cooked_string`: copies the segment after an opening `"`,
  /// translating escapes with `HandleEscape`.
  method CopyCookedString(buf: array<char>, dest: nat, scan: nat, ghost s: string,
                          ghost token: nat, ghost out: string)
    returns (err: ErrorType, dest': nat, scan': nat)
    requires Unread(buf, s, scan) && dest < scan <= |s|
    requires dest == token + |out| && Holds(buf, token, out)
    modifies buf
    ensures var seg := CookedSegment(s, scan);
      && scan' == seg.next
      && (err == Ok <==> seg.closed)
      && dest' == dest + |seg.text| < scan'
      && Holds(buf, token, out + seg.text)
    ensures Unread(buf, s, scan')
  {
    dest', scan' := dest, scan;
    ghost var cur: string := [];
    while true
      invariant Unread(buf, s, scan') && dest <= dest' < scan' <= |s|
      invariant dest' == token + |out + cur| && Holds(buf, token, out + cur)
      invariant CookedSegment(s, scan) == PrependSegment(cur, CookedSegment(s, scan'))
      decreases |s| - scan'
    {
      var finished;
      ghost var piece;
      err, dest', scan', finished, piece := CookedStep(buf, dest', scan', s, token, out + cur);
      if finished {
        assert cur + [] == cur;
        return;
      }
      assert out + cur + piece == out + (cur + piece);
      PrependSegmentTwice(cur, piece, CookedSegment(s, scan'));
      cur := cur + piece;
    }
  }

  /// What the inner loop of `string_to_argv` leaves behind for the token `t`
  /// that starts at `token`: the text lies at `buf[token..]`, followed by the
  /// terminator that a trailing backslash copies into it; `scan` is just past
  /// the last character read; and the flags record how the token ended.
  ghost predicate TokenCopied(t: Scan, buf: array<char>, token: nat, dest: nat, scan: nat,
                              done: bool, err: ErrorType)
    reads buf
  {
    && scan == t.next && token <= dest < scan <= buf.Length
    && Holds(buf, token, t.text)
    && (|| dest == token + |t.text|
        || (t.stop == EndOfInput && dest == token + |t.text| + 1 && buf[token + |t.text|] == NUL))
    && (t.stop == Delimited <==> !done && err == Ok)
    && (t.stop == EndOfInput <==> done && err == Ok)
    && (t.stop == Unterminated <==> err == UnbalancedQuote)
  }

  /// The state of the inner loop while a token is being copied: `cur` is
  /// the text copied so far, and the rest of the token is still unread.
  ghost predicate Copying(buf: array<char>, s: string, token: nat, dest: nat, scan: nat, cur: string)
    reads buf
  {
    && Unread(buf, s, scan) && token <= dest <= scan <= |s|
    && dest == token + |cur| && Holds(buf, token, cur)
    && ScanToken(s, token) == PrependScan(cur, ScanToken(s, scan))
  }

  /// One turn of the inner loop of `string_to_argv`: the `switch` on the
  /// character at `scan`.  Either the token goes on, or it is finished and
  /// `done` and `err` report how.
  method CopyStep(buf: array<char>, token: nat, dest: nat, scan: nat, ghost s: string, ghost cur: string)
    returns (dest': nat, scan': nat, tokenDone: bool, done: bool, err: ErrorType, ghost cur': string)
    requires Copying(buf, s, token, dest, scan, cur)
    modifies buf
    ensures scan < scan' <= |s| + 1
    ensures !tokenDone && err == Ok ==> Copying(buf, s, token, dest', scan', cur')
    ensures tokenDone || err != Ok ==>
      TokenCopied(ScanToken(s, token), buf, token, dest', scan', done, err) && Unread(buf, s, scan')
  {
    dest', scan' := dest, scan + 1;
    tokenDone, done, err := false, false, Ok;
    cur' := cur;
    var ch := buf[scan];
    assert ch == NUL <==> scan == |s|;
    if ch == NUL {
      assert ScanToken(s, scan) == Scan([], scan + 1, EndOfInput);
      assert cur + [] == cur;
      tokenDone, done := true, true;
    } else if ch == '\\' {
      var next := buf[scan'];
      assert next == NUL <==> scan' == |s|;
      Emit(buf, dest', next, s, token, cur, scan');
      dest', scan' := dest' + 1, scan' + 1;
      if next == NUL {
        assert ScanToken(s, scan) == Scan([], scan + 2, EndOfInput);
        assert cur + [] == cur;
        tokenDone, done := true, true;
      } else {
        PrependScanTwice(cur, [next], ScanToken(s, scan'));
        cur' := cur + [next];
      }
    } else if ch == '\'' {
      ghost var seg := RawSegment(s, scan');
      err, dest', scan' := CopyRawString(buf, dest', scan', s, token, cur);
      if err == Ok {
        PrependScanTwice(cur, seg.text, ScanToken(s, scan'));
        cur' := cur + seg.text;
      }
    } else if ch == '"' {
      ghost var seg := CookedSegment(s, scan');
      err, dest', scan' := CopyCookedString(buf, dest', scan', s, token, cur);
      if err == Ok {
        PrependScanTwice(cur, seg.text, ScanToken(s, scan'));
        cur' := cur + seg.text;
      }
    } else if IsDelimiter(ch) {
      assert ScanToken(s, scan) == Scan([], scan + 1, Delimited);
      assert cur + [] == cur;
      tokenDone := true;
    } else {
      Emit(buf, dest', ch, s, token, cur, scan');
      dest' := dest' + 1;
      PrependScanTwice(cur, [ch], ScanToken(s, scan'));
      cur' := cur + [ch];
    }
  }

  /// The inner `while (!token_done && err == OK)` loop of `string_to_argv`:
  /// copies the token that starts at `token` to the front of its own
  /// characters and reports, through `done` and `err`, how it ended.
  method CopyToken(buf: array<char>, token: nat, ghost s: string)
    returns (dest: nat, scan: nat, done: bool, err: ErrorType)
    requires Unread(buf, s, token) && token < |s|
    modifies buf
    ensures TokenCopied(ScanToken(s, token), buf, token, dest, scan, done, err)
    ensures Unread(buf, s, scan)
  {
    dest, scan := token, token;
    done, err := false, Ok;
    var tokenDone := false;
    ghost var cur: string := [];
    while !tokenDone && err == Ok
      invariant scan <= |s| + 1
      invariant !tokenDone && err == Ok ==> Copying(buf, s, token, dest, scan, cur)
      invariant tokenDone || err != Ok ==>
        TokenCopied(ScanToken(s, token), buf, token, dest, scan, done, err) && Unread(buf, s, scan)
      decreases |s| + 1 - scan
    {
      dest, scan, tokenDone, done, err, cur := CopyStep(buf, token, dest, scan, s, cur);
    }
  }

  /// `std::string(token)` after the terminator is written: the C string at
  /// `token` is exactly the NUL-free text held there.
  lemma CStringAt(text: string, buf: array<char>, token: nat, len: nat)
    requires Holds(buf, token, text) && NulFree(text)
    requires token + |text| < buf.Length && buf[token + |text|] == NUL
    requires token + len < buf.Length && buf[token + len] == NUL
    requires forall k :: token <= k < token + len ==> buf[k] != NUL
    ensures len == |text| && buf[token..token + len] == text
  {
    forall k | token <= k < token + |text| ensures buf[k] != NUL {
      assert buf[token + (k - token)] == text[k - token];
    }
    assert len == |text|;
    assert forall k :: 0 <= k < len ==> buf[token..token + len][k] == text[k];
  }

  /// A fresh copy of the C string has nothing read yet.
  lemma CopyUnread(buf: array<char>, s: string)
    requires buf[..] == s + [NUL] && NulFree(s)
    ensures Unread(buf, s, 0)
  {
    forall k | 0 <= k < buf.Length ensures buf[k] == At(s, k) {
      assert buf[k] == buf[..][k];
    }
  }

  /// `while (isspace(*scan)) scan++;`
  method SkipWhite(buf: array<char>, scan: nat, ghost s: string) returns (scan': nat)
    requires Unread(buf, s, scan) && scan <= |s|
    ensures scan' == SkipSpaces(s, scan) && Unread(buf, s, scan')
  {
    scan' := scan;
    while IsSpace(buf[scan'])
      invariant Unread(buf, s, scan') && scan <= scan' <= |s|
      invariant SkipSpaces(s, scan) == SkipSpaces(s, scan')
      decreases |s| - scan'
    {
      scan' := scan' + 1;
    }
  }

  /// The body of the outer loop of `string_to_argv` once a token starts at
  /// `token`: the inner loop, the terminator `*dest = STR_TERMINATE`, and
  /// `std::string(token)`, which reads the C string back from `token`.
  method TakeToken(buf: array<char>, token: nat, ghost s: string)
    returns (word: string, scan: nat, done: bool, err: ErrorType)
    requires Unread(buf, s, token) && token < |s|
    modifies buf
    ensures var t := ScanToken(s, token);
      && word == t.text && scan == t.next
      && (t.stop == Delimited <==> !done && err == Ok)
      && (t.stop == EndOfInput <==> done && err == Ok)
      && (t.stop == Unterminated <==> err == UnbalancedQuote)
    ensures Unread(buf, s, scan)
  {
    ghost var t := ScanToken(s, token);
    var dest;
    dest, scan, done, err := CopyToken(buf, token, s);
    buf[dest] := NUL;
    var len := Strlen(buf, token);
    ScanTokenNulFree(s, token);
    CStringAt(t.text, buf, token, len);
    word := buf[token..token + len];
  }

  /// The words still to come from index `i`, after the words `ret` already
  /// taken: nothing when only white space is left, otherwise the next token
  /// and, if it ended at a delimiter, the words after it.
  lemma NextWords(ret: seq<string>, s: string, i: nat)
    requires i <= |s|
    ensures var j := SkipSpaces(s, i);
      var r := PrependLex(ret, TokensFrom(s, i));
      && (j == |s| ==> r == Lex(ret, Ok))
      && (j < |s| ==>
        var t := ScanToken(s, j);
        && (t.stop == Delimited ==> r == PrependLex(ret + [t.text], TokensFrom(s, t.next)))
        && (t.stop == EndOfInput ==> r == Lex(ret + [t.text], Ok))
        && (t.stop == Unterminated ==> r == Lex(ret + [t.text], UnbalancedQuote)))
  {
    var j := SkipSpaces(s, i);
    if j == |s| {
      assert ret + [] == ret;
    } else {
      var t := ScanToken(s, j);
      if t.stop == Delimited {
        assert ret + ([t.text] + TokensFrom(s, t.next).tokens) == (ret + [t.text]) + TokensFrom(s, t.next).tokens;
      }
    }
  }

  /// `split_token` / `string_to_argv`: splits `cmd` into words in one pass
  /// over a private copy, returning the words and the syntax error (whose
  /// quote character this implementation never sets).
  method SplitToken(cmd: string) returns (ret: seq<string>, err: CliSyntaxError)
    ensures Lex(ret, err.kind) == Tokenize(cmd)
    ensures err.quote == NUL
  {
    var kind := Ok;
    ret := [];
    var buf := Strdup(cmd);
    ghost var s := CStr(cmd);
    ghost var goal := TokensFrom(s, 0);
    CopyUnread(buf, s);

    var scan := SkipWhite(buf, 0, s);
    assert goal == TokensFrom(s, scan);

    var done := false;
    while !done && kind == Ok
      invariant Unread(buf, s, scan)
      invariant !done && kind == Ok ==> scan <= |s| && goal == PrependLex(ret, TokensFrom(s, scan))
      invariant done || kind != Ok ==> goal == Lex(ret, kind)
      decreases |s| + 1 - scan
    {
      NextWords(ret, s, scan);
      scan := SkipWhite(buf, scan, s);
      if buf[scan] == NUL {
        break;
      }
      var word;
      word, scan, done, kind := TakeToken(buf, scan, s);
      ret := ret + [word];
    }

    err := CliSyntaxError(kind, NUL);
  }
}
