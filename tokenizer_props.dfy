/// What the tokenizer of src/detail.cpp promises about whole lines, stated
/// on its functional specification `Tokenize` (which `SplitToken` computes):
/// blank lines have no words, words separated by spaces come back as they
/// were, any argument survives quoting, an open quote keeps the partial
/// word, the only error comes from quotes, and the words always fit in the
/// buffer they are rewritten into.
module TokenizerProps {
  import opened Detail
  import opened Tokenizer

  // ---------------------------------------------------------------------------
  // Encodings of words as command-line text
  // ---------------------------------------------------------------------------

  /// A character that stands for itself outside quotes.
  predicate Ordinary(c: char) {
    c != NUL && !IsDelimiter(c) && c != '\\' && c != '\'' && c != '"'
  }

  /// A word that needs no quoting.
  predicate PlainWord(w: string) {
    |w| > 0 && forall k :: 0 <= k < |w| ==> Ordinary(w[k])
  }

  /// `x` with `\` and `"` escaped by a backslash, for use inside `"…"`.
  function EscapeCooked(x: string): string {
    if x == [] then []
    else (if x[0] == '\\' || x[0] == '"' then ['\\', x[0]] else [x[0]]) + EscapeCooked(x[1..])
  }

  /// `x` with `\` and `'` escaped by a backslash, for use inside `'…'`.
  function EscapeRaw(x: string): string {
    if x == [] then []
    else (if x[0] == '\\' || x[0] == '\'' then ['\\', x[0]] else [x[0]]) + EscapeRaw(x[1..])
  }

  function QuoteCooked(x: string): string {
    ['"'] + EscapeCooked(x) + ['"']
  }

  function QuoteRaw(x: string): string {
    ['\''] + EscapeRaw(x) + ['\'']
  }

  /// How a word is written on a command line: as is when it needs no
  /// quoting, in double quotes otherwise (also when it is empty).
  function Encode(x: string): string {
    if PlainWord(x) then x else QuoteCooked(x)
  }

  function EncodeAll(xs: seq<string>): (r: seq<string>)
    ensures |r| == |xs|
    ensures forall k :: 0 <= k < |xs| ==> r[k] == Encode(xs[k])
  {
    if xs == [] then [] else [Encode(xs[0])] + EncodeAll(xs[1..])
  }

  /// The words joined by single spaces.
  function Unwords(ws: seq<string>): string {
    if |ws| == 0 then []
    else if |ws| == 1 then ws[0]
    else ws[0] + [' '] + Unwords(ws[1..])
  }

  /// `p` occurs in `s` at index `i`.
  predicate Infix(s: string, i: nat, p: string) {
    i + |p| <= |s| && s[i..i + |p|] == p
  }

  lemma InfixSplit(s: string, i: nat, a: string, b: string)
    requires Infix(s, i, a + b)
    ensures Infix(s, i, a) && Infix(s, i + |a|, b)
  {
    assert s[i..i + |a|] == s[i..i + |a + b|][..|a|];
    assert s[i + |a|..i + |a| + |b|] == s[i..i + |a + b|][|a|..];
  }

  // ---------------------------------------------------------------------------
  // One token at a time
  // ---------------------------------------------------------------------------

  /// Ordinary characters are copied one by one into the current token.
  lemma {:induction false} ScanOrdinary(s: string, i: nat, w: string)
    requires Infix(s, i, w)
    requires forall k :: 0 <= k < |w| ==> Ordinary(w[k])
    ensures ScanToken(s, i) == PrependScan(w, ScanToken(s, i + |w|))
    decreases |w|
  {
    if w == [] {
      assert [] + ScanToken(s, i).text == ScanToken(s, i).text;
    } else {
      assert [w[0]] + w[1..] == w;
      InfixSplit(s, i, [w[0]], w[1..]);
      ScanOrdinary(s, i + 1, w[1..]);
      PrependScanTwice([w[0]], w[1..], ScanToken(s, i + |w|));
    }
  }

  /// The body of a double-quoted segment written with `EscapeCooked` reads
  /// back as the original text, and the closing quote closes it.
  lemma {:induction false} CookedSegmentEscaped(s: string, i: nat, x: string)
    requires Infix(s, i, EscapeCooked(x) + ['"'])
    ensures CookedSegment(s, i) == Segment(x, i + |EscapeCooked(x)| + 1, true)
    decreases |x|
  {
    if x != [] {
      var head := if x[0] == '\\' || x[0] == '"' then ['\\', x[0]] else [x[0]];
      var rest := EscapeCooked(x[1..]) + ['"'];
      var n := i + |head|;
      assert EscapeCooked(x) == head + EscapeCooked(x[1..]);
      assert EscapeCooked(x) + ['"'] == head + rest;
      InfixSplit(s, i, head, rest);
      assert s[i] == s[i..n][0] == head[0];
      if |head| == 2 {
        assert s[i + 1] == s[i..n][1] == x[0];
        assert HandleEscape(x[0]) == x[0];
      }
      CookedSegmentEscaped(s, n, x[1..]);
      assert CookedSegment(s, i) == PrependSegment([x[0]], CookedSegment(s, n));
      assert [x[0]] + x[1..] == x;
    }
  }

  /// The same for a single-quoted segment written with `EscapeRaw`.
  lemma {:induction false} RawSegmentEscaped(s: string, i: nat, x: string)
    requires Infix(s, i, EscapeRaw(x) + ['\''])
    ensures RawSegment(s, i) == Segment(x, i + |EscapeRaw(x)| + 1, true)
    decreases |x|
  {
    if x != [] {
      var head := if x[0] == '\\' || x[0] == '\'' then ['\\', x[0]] else [x[0]];
      var rest := EscapeRaw(x[1..]) + ['\''];
      var n := i + |head|;
      assert EscapeRaw(x) == head + EscapeRaw(x[1..]);
      assert EscapeRaw(x) + ['\''] == head + rest;
      InfixSplit(s, i, head, rest);
      assert s[i] == s[i..n][0] == head[0];
      if |head| == 2 {
        assert s[i + 1] == s[i..n][1] == x[0];
        assert RawEscape(x[0]) == [x[0]];
      }
      RawSegmentEscaped(s, n, x[1..]);
      assert RawSegment(s, i) == PrependSegment([x[0]], RawSegment(s, n));
      assert [x[0]] + x[1..] == x;
    }
  }

  /// What may follow the escaped text of a segment that is never closed:
  /// nothing, or a lone backslash at the very end.
  predicate OpenTail(tail: string) {
    tail == [] || tail == ['\\']
  }

  /// A double-quoted segment that runs to the end of the string stays open
  /// and still yields everything typed inside it.
  lemma {:induction false} CookedSegmentOpen(s: string, i: nat, x: string, tail: string)
    requires OpenTail(tail)
    requires i <= |s| && s[i..] == EscapeCooked(x) + tail
    ensures CookedSegment(s, i) == Segment(x, |s| + 1, false)
    decreases |x|
  {
    if x == [] {
      SegmentOpenAtEnd(s, i, tail);
    } else {
      var head := if x[0] == '\\' || x[0] == '"' then ['\\', x[0]] else [x[0]];
      var rest := EscapeCooked(x[1..]) + tail;
      assert s[i..] == head + rest;
      assert s[i] == s[i..][0] == head[0];
      if |head| == 2 {
        assert s[i + 1] == s[i..][1] == x[0];
      }
      assert s[i + |head|..] == s[i..][|head|..] == rest;
      CookedSegmentOpen(s, i + |head|, x[1..], tail);
      assert [x[0]] + x[1..] == x;
    }
  }

  /// A segment whose only remaining input is nothing or a lone backslash
  /// stays open, in either kind of quotes.
  lemma SegmentOpenAtEnd(s: string, i: nat, tail: string)
    requires OpenTail(tail) && i <= |s| && s[i..] == tail
    ensures CookedSegment(s, i) == Segment([], |s| + 1, false)
    ensures RawSegment(s, i) == Segment([], |s| + 1, false)
  {
    if tail != [] {
      assert s[i] == s[i..][0] == '\\' && i + 1 == |s|;
    }
  }

  /// The same for a single-quoted segment.
  lemma {:induction false} RawSegmentOpen(s: string, i: nat, x: string, tail: string)
    requires OpenTail(tail)
    requires i <= |s| && s[i..] == EscapeRaw(x) + tail
    ensures RawSegment(s, i) == Segment(x, |s| + 1, false)
    decreases |x|
  {
    if x == [] {
      SegmentOpenAtEnd(s, i, tail);
    } else {
      var head := if x[0] == '\\' || x[0] == '\'' then ['\\', x[0]] else [x[0]];
      var rest := EscapeRaw(x[1..]) + tail;
      assert s[i..] == head + rest;
      assert s[i] == s[i..][0] == head[0];
      if |head| == 2 {
        assert s[i + 1] == s[i..][1] == x[0];
      }
      assert s[i + |head|..] == s[i..][|head|..] == rest;
      RawSegmentOpen(s, i + |head|, x[1..], tail);
      assert [x[0]] + x[1..] == x;
    }
  }

  /// An encoded word is read back as one token's worth of text.
  lemma ScanEncoded(s: string, i: nat, x: string)
    requires Infix(s, i, Encode(x))
    ensures ScanToken(s, i) == PrependScan(x, ScanToken(s, i + |Encode(x)|))
  {
    if PlainWord(x) {
      assert Encode(x) == x;
      ScanOrdinary(s, i, x);
    } else {
      assert Encode(x) == QuoteCooked(x);
      ScanQuoted(s, i, x);
    }
  }

  /// A double-quoted segment written with `EscapeCooked` is read back as
  /// the original text, and the word goes on after the closing quote.
  lemma ScanQuoted(s: string, i: nat, x: string)
    requires Infix(s, i, QuoteCooked(x))
    ensures ScanToken(s, i) == PrependScan(x, ScanToken(s, i + |QuoteCooked(x)|))
  {
    QuoteCookedParts(s, i, x);
    CookedSegmentEscaped(s, i + 1, x);
    ScanAtCookedQuote(s, i);
  }

  /// An infix written by `QuoteCooked` opens with a double quote that is
  /// followed by the escaped text and the closing quote.
  lemma QuoteCookedParts(s: string, i: nat, x: string)
    requires Infix(s, i, QuoteCooked(x))
    ensures i < |s| && s[i] == '"'
    ensures Infix(s, i + 1, EscapeCooked(x) + ['"'])
    ensures |QuoteCooked(x)| == |EscapeCooked(x)| + 2
  {
    var body := EscapeCooked(x) + ['"'];
    assert QuoteCooked(x) == ['"'] + body;
    InfixSplit(s, i, ['"'], body);
    assert s[i] == s[i..i + 1][0];
  }

  /// A token that reaches a closed double-quoted segment goes on after it.
  lemma ScanAtCookedQuote(s: string, i: nat)
    requires i < |s| && s[i] == '"'
    ensures var seg := CookedSegment(s, i + 1);
            seg.closed ==> ScanToken(s, i) == PrependScan(seg.text, ScanToken(s, seg.next))
  {
  }

  /// A single-quoted segment written with `EscapeRaw` is read back as the
  /// original text, and the word goes on after the closing quote.
  lemma ScanRawQuoted(s: string, i: nat, x: string)
    requires Infix(s, i, QuoteRaw(x))
    ensures ScanToken(s, i) == PrependScan(x, ScanToken(s, i + |QuoteRaw(x)|))
  {
    QuoteRawParts(s, i, x);
    RawSegmentEscaped(s, i + 1, x);
    ScanAtRawQuote(s, i);
  }

  lemma QuoteRawParts(s: string, i: nat, x: string)
    requires Infix(s, i, QuoteRaw(x))
    ensures i < |s| && s[i] == '\''
    ensures Infix(s, i + 1, EscapeRaw(x) + ['\''])
    ensures |QuoteRaw(x)| == |EscapeRaw(x)| + 2
  {
    var body := EscapeRaw(x) + ['\''];
    assert QuoteRaw(x) == ['\''] + body;
    InfixSplit(s, i, ['\''], body);
    assert s[i] == s[i..i + 1][0];
  }

  /// A token that reaches a closed single-quoted segment goes on after it.
  lemma ScanAtRawQuote(s: string, i: nat)
    requires i < |s| && s[i] == '\''
    ensures var seg := RawSegment(s, i + 1);
            seg.closed ==> ScanToken(s, i) == PrependScan(seg.text, ScanToken(s, seg.next))
  {
  }

  // ---------------------------------------------------------------------------
  // Whole lines
  // ---------------------------------------------------------------------------

  /// A NUL-free line is its own C string.
  lemma CStrOfNulFree(line: string)
    requires NulFree(line)
    ensures CStr(line) == line
  {
    CStrPrefix(line, |line|);
  }

  lemma EncodeNulFree(x: string)
    requires NulFree(x)
    ensures NulFree(Encode(x))
  {
    if !PlainWord(x) { EscapeCookedNulFree(x); }
  }

  lemma {:induction false} UnwordsNulFree(ws: seq<string>)
    requires forall k :: 0 <= k < |ws| ==> NulFree(ws[k])
    ensures NulFree(Unwords(ws))
    decreases |ws|
  {
    if |ws| > 1 {
      UnwordsNulFree(ws[1..]);
    }
  }

  lemma EncodedNulFree(xs: seq<string>)
    requires forall k :: 0 <= k < |xs| ==> NulFree(xs[k])
    ensures NulFree(Unwords(EncodeAll(xs)))
  {
    forall k | 0 <= k < |xs| ensures NulFree(EncodeAll(xs)[k]) {
      EncodeNulFree(xs[k]);
    }
    UnwordsNulFree(EncodeAll(xs));
  }

  lemma {:induction false} EscapeCookedNulFree(x: string)
    requires NulFree(x)
    ensures NulFree(EscapeCooked(x))
    decreases |x|
  {
    if x != [] {
      EscapeCookedNulFree(x[1..]);
    }
  }

  lemma {:induction false} EscapeRawNulFree(x: string)
    requires NulFree(x)
    ensures NulFree(EscapeRaw(x))
    decreases |x|
  {
    if x != [] {
      EscapeRawNulFree(x[1..]);
    }
  }

  /// An encoded word is never empty and never starts with white space.
  lemma EncodedStartsWord(x: string)
    ensures |Encode(x)| > 0 && !IsSpace(Encode(x)[0])
  {
    if PlainWord(x) {
      assert Ordinary(x[0]);
    } else {
      assert QuoteCooked(x)[0] == '"';
    }
  }

  /// The first of the encoded words starting at `i` is read back as one
  /// token, which ends at `j`, where the encoded word does.
  lemma FirstEncoded(s: string, i: nat, xs: seq<string>) returns (j: nat)
    requires |xs| > 0 && i <= |s| && s[i..] == Unwords(EncodeAll(xs))
    ensures i < j <= |s| && SkipSpaces(s, i) == i
    ensures ScanToken(s, i) == PrependScan(xs[0], ScanToken(s, j))
    ensures |xs| == 1 ==> j == |s|
    ensures |xs| > 1 ==> j < |s| && s[j] == ' ' && s[j + 1..] == Unwords(EncodeAll(xs[1..]))
  {
    var es := EncodeAll(xs);
    var e := es[0];
    j := i + |e|;
    var rest := if |xs| == 1 then [] else [' '] + Unwords(es[1..]);
    assert s[i..] == e + rest;
    assert Infix(s, i, e) by {
      assert (e + rest)[..|e|] == e;
      assert s[i..i + |e|] == s[i..][..|e|];
    }
    EncodedStartsWord(xs[0]);
    assert s[i] == s[i..][0] == e[0];
    ScanEncoded(s, i, xs[0]);
    if |xs| > 1 {
      assert s[j] == s[i..][|e|];
      assert s[j + 1..] == s[i..][|e| + 1..];
      assert es[1..] == EncodeAll(xs[1..]);
    }
  }

  /// The first encoded word is read back as the first word, and reading
  /// goes on at `next`, after the space that follows it, if any.
  lemma TokenEncoded(s: string, i: nat, xs: seq<string>) returns (next: nat)
    requires |xs| > 0 && i <= |s| && s[i..] == Unwords(EncodeAll(xs))
    ensures |xs| == 1 ==> TokensFrom(s, i) == Lex([xs[0]], Ok)
    ensures |xs| > 1 ==> next <= |s| && s[next..] == Unwords(EncodeAll(xs[1..]))
    ensures |xs| > 1 ==> TokensFrom(s, i) == PrependLex([xs[0]], TokensFrom(s, next))
  {
    var j := FirstEncoded(s, i, xs);
    next := j + 1;
    assert xs[0] + [] == xs[0];
    if |xs| == 1 {
      assert ScanToken(s, j) == Scan([], j + 1, EndOfInput);
      assert ScanToken(s, i) == Scan(xs[0], next, EndOfInput);
    } else {
      assert ScanToken(s, j) == Scan([], j + 1, Delimited);
      assert ScanToken(s, i) == Scan(xs[0], next, Delimited);
    }
  }

  lemma ConsLex(a: Lex, b: Lex, xs: seq<string>)
    requires |xs| > 0 && a == PrependLex([xs[0]], b) && b == Lex(xs[1..], Ok)
    ensures a == Lex(xs, Ok)
  {
    assert [xs[0]] + xs[1..] == xs;
  }

  /// The words of a line made of encoded words separated by single spaces.
  lemma {:induction false} TokensFromEncoded(s: string, i: nat, xs: seq<string>)
    requires i <= |s| && s[i..] == Unwords(EncodeAll(xs))
    ensures TokensFrom(s, i) == Lex(xs, Ok)
    decreases |xs|
  {
    if |xs| == 0 {
      assert i == |s|;
      assert SkipSpaces(s, i) == |s|;
      assert TokensFrom(s, i) == Lex([], Ok);
    } else {
      var next := TokenEncoded(s, i, xs);
      if |xs| == 1 {
        assert [xs[0]] == xs;
      } else {
        TokensFromEncoded(s, next, xs[1..]);
        ConsLex(TokensFrom(s, i), TokensFrom(s, next), xs);
      }
    }
  }

  /// Round trip: writing any NUL-free arguments as encoded words separated
  /// by spaces and tokenizing the line gives the arguments back, without
  /// error.  Empty arguments and arguments holding spaces, quotes or
  /// backslashes survive because they are written in double quotes.
  lemma EncodedLineRoundTrip(xs: seq<string>)
    requires forall k :: 0 <= k < |xs| ==> NulFree(xs[k])
    ensures Tokenize(Unwords(EncodeAll(xs))) == Lex(xs, Ok)
  {
    var line := Unwords(EncodeAll(xs));
    EncodedNulFree(xs);
    CStrOfNulFree(line);
    TokensFromEncoded(line, 0, xs);
  }

  /// Words that need no quoting, separated by single spaces, come back as
  /// they were.
  lemma PlainWordsRoundTrip(ws: seq<string>)
    requires forall k :: 0 <= k < |ws| ==> PlainWord(ws[k])
    ensures Tokenize(Unwords(ws)) == Lex(ws, Ok)
  {
    assert EncodeAll(ws) == ws;
    forall k | 0 <= k < |ws| ensures NulFree(ws[k]) {
      assert forall m :: 0 <= m < |ws[k]| ==> Ordinary(ws[k][m]);
    }
    EncodedLineRoundTrip(ws);
  }

  /// Any NUL-free text in single quotes with `\` and `'` escaped is read
  /// back as one word.
  lemma RawQuoteRoundTrip(x: string)
    requires NulFree(x)
    ensures Tokenize(QuoteRaw(x)) == Lex([x], Ok)
  {
    var line := QuoteRaw(x);
    EscapeRawNulFree(x);
    CStrOfNulFree(line);
    InfixSplit(line, 0, ['\''], EscapeRaw(x) + ['\'']);
    RawSegmentEscaped(line, 1, x);
    assert line[0] == '\'';
    assert SkipSpaces(line, 0) == 0;
    assert ScanToken(line, 0) == PrependScan(x, ScanToken(line, |line|));
    assert x + [] == x;
  }

  /// An encoded word followed by a space is read back as one word, and
  /// reading goes on with what follows the space.
  lemma EncodedThenSpace(s: string, i: nat, x: string, rest: string)
    requires i <= |s| && s[i..] == Encode(x) + [' '] + rest
    ensures TokensFrom(s, i) == PrependLex([x], TokensFrom(s, |s| - |rest|))
  {
    var e := Encode(x);
    var j := i + |e|;
    assert Infix(s, i, e) by {
      assert s[i..j] == s[i..][..|e|];
    }
    EncodedStartsWord(x);
    assert s[i] == s[i..][0] == e[0];
    assert SkipSpaces(s, i) == i;
    ScanEncoded(s, i, x);
    assert s[j] == s[i..][|e|] == ' ';
    assert ScanToken(s, j) == Scan([], j + 1, Delimited);
    assert x + [] == x;
    assert ScanToken(s, i) == Scan(x, j + 1, Delimited);
  }

  /// Encoded words separated by single spaces, followed by one more word
  /// `w` of any shape, are read back as the words before `w`; what `w`
  /// gives is read from where it starts.
  lemma {:induction false} EncodedWordsThen(s: string, i: nat, xs: seq<string>, w: string)
    requires i <= |s| && s[i..] == Unwords(EncodeAll(xs) + [w])
    ensures |w| <= |s| && s[|s| - |w|..] == w
    ensures TokensFrom(s, i) == PrependLex(xs, TokensFrom(s, |s| - |w|))
    decreases |xs|
  {
    if xs == [] {
      assert EncodeAll(xs) + [w] == [w];
      var r := TokensFrom(s, i);
      assert [] + r.tokens == r.tokens;
    } else {
      var rest := Unwords(EncodeAll(xs[1..]) + [w]);
      UnwordsCons(xs, w);
      EncodedThenSpace(s, i, xs[0], rest);
      var next := |s| - |rest|;
      SuffixAfter(s, i, Encode(xs[0]) + [' '], rest);
      EncodedWordsThen(s, next, xs[1..], w);
      PrependLexCons(xs, TokensFrom(s, |s| - |w|));
    }
  }

  lemma UnwordsCons(xs: seq<string>, w: string)
    requires |xs| > 0
    ensures Unwords(EncodeAll(xs) + [w])
            == Encode(xs[0]) + [' '] + Unwords(EncodeAll(xs[1..]) + [w])
  {
    var e := Encode(xs[0]);
    var more := EncodeAll(xs[1..]) + [w];
    assert EncodeAll(xs) == [e] + EncodeAll(xs[1..]);
    ConsAppend(e, EncodeAll(xs[1..]), [w]);
    UnwordsOfCons(e, more);
  }

  lemma ConsAppend(e: string, b: seq<string>, c: seq<string>)
    ensures [e] + b + c == [e] + (b + c)
  {
  }

  lemma UnwordsOfCons(e: string, more: seq<string>)
    requires |more| > 0
    ensures Unwords([e] + more) == e + [' '] + Unwords(more)
  {
    var ws := [e] + more;
    assert ws[0] == e && ws[1..] == more;
  }

  lemma SuffixAfter(s: string, i: nat, p: string, rest: string)
    requires i <= |s| && s[i..] == p + rest
    ensures |rest| <= |s| && s[|s| - |rest|..] == rest
  {
    assert s[|s| - |rest|..] == s[i..][|p|..];
  }

  lemma PrependLexCons(xs: seq<string>, r: Lex)
    requires |xs| > 0
    ensures PrependLex([xs[0]], PrependLex(xs[1..], r)) == PrependLex(xs, r)
  {
    assert [xs[0]] + (xs[1..] + r.tokens) == xs + r.tokens by {
      assert [xs[0]] + xs[1..] == xs;
    }
  }

  /// Where text `a` is followed by the quote character `c`, the rest `e`
  /// of the quoted text and `tail`: the token starts at `a`, and the quote
  /// sits right after it.
  lemma QuotedAfterText(s: string, n: nat, a: string, c: char, e: string, tail: string)
    requires OrdinaryText(a) && (c == '"' || c == '\'')
    requires n <= |s| && s[n..] == a + [c] + e + tail
    ensures Infix(s, n, a) && SkipSpaces(s, n) == n
    ensures n + |a| < |s| && s[n + |a|] == c && s[n + |a| + 1..] == e + tail
  {
    var q := n + |a|;
    assert s[n..] == a + ([c] + (e + tail));
    assert s[n..q] == s[n..][..|a|];
    assert s[q] == s[n..][|a|];
    assert s[q + 1..] == s[n..][|a| + 1..];
    if |a| > 0 {
      assert s[n] == s[n..][0] == a[0] && Ordinary(a[0]);
    }
  }

  /// A token that reaches a double quote never closed stops there.
  lemma ScanAtOpenCookedQuote(s: string, q: nat)
    requires q < |s| && s[q] == '"' && !CookedSegment(s, q + 1).closed
    ensures ScanToken(s, q) == Scan(CookedSegment(s, q + 1).text, CookedSegment(s, q + 1).next, Unterminated)
  {
  }

  /// A token that reaches a single quote never closed stops there.
  lemma ScanAtOpenRawQuote(s: string, q: nat)
    requires q < |s| && s[q] == '\'' && !RawSegment(s, q + 1).closed
    ensures ScanToken(s, q) == Scan(RawSegment(s, q + 1).text, RawSegment(s, q + 1).next, Unterminated)
  {
  }

  /// A token that starts at `n` and is never finished is the last word.
  lemma UnterminatedToken(s: string, n: nat, a: string, t: Scan)
    requires n < |s| && SkipSpaces(s, n) == n
    requires t.stop == Unterminated && ScanToken(s, n) == PrependScan(a, t)
    ensures TokensFrom(s, n) == Lex([a + t.text], UnbalancedQuote)
  {
  }

  /// Ordinary text followed by a quote never closed is the last word.
  lemma TextThenOpen(s: string, n: nat, a: string)
    requires OrdinaryText(a) && Infix(s, n, a) && SkipSpaces(s, n) == n
    requires n + |a| < |s| && ScanToken(s, n + |a|).stop == Unterminated
    ensures TokensFrom(s, n) == Lex([a + ScanToken(s, n + |a|).text], UnbalancedQuote)
  {
    ScanOrdinary(s, n, a);
    UnterminatedToken(s, n, a, ScanToken(s, n + |a|));
  }

  /// Ordinary text that runs into a double quote never closed makes one
  /// last word, with `UnbalancedQuote`.
  lemma OpenCookedWord(s: string, n: nat, a: string, x: string, tail: string)
    requires OrdinaryText(a) && OpenTail(tail)
    requires n <= |s| && s[n..] == a + ['"'] + EscapeCooked(x) + tail
    ensures TokensFrom(s, n) == Lex([a + x], UnbalancedQuote)
  {
    var q := n + |a|;
    QuotedAfterText(s, n, a, '"', EscapeCooked(x), tail);
    CookedSegmentOpen(s, q + 1, x, tail);
    ScanAtOpenCookedQuote(s, q);
    TextThenOpen(s, n, a);
  }

  /// Ordinary text that runs into a single quote never closed makes one
  /// last word, with `UnbalancedQuote`.
  lemma OpenRawWord(s: string, n: nat, a: string, x: string, tail: string)
    requires OrdinaryText(a) && OpenTail(tail)
    requires n <= |s| && s[n..] == a + ['\''] + EscapeRaw(x) + tail
    ensures TokensFrom(s, n) == Lex([a + x], UnbalancedQuote)
  {
    var q := n + |a|;
    QuotedAfterText(s, n, a, '\'', EscapeRaw(x), tail);
    RawSegmentOpen(s, q + 1, x, tail);
    ScanAtOpenRawQuote(s, q);
    TextThenOpen(s, n, a);
  }

  /// An unterminated double quote ends the line with `UnbalancedQuote`, and
  /// every word before it, together with the partial word it opens (and the
  /// text just before it), is still returned; so it is when the line ends
  /// in a backslash inside the quote.
  lemma UnterminatedQuoteKeepsWord(xs: seq<string>, a: string, x: string, tail: string)
    requires forall k :: 0 <= k < |xs| ==> NulFree(xs[k])
    requires OrdinaryText(a) && NulFree(x) && OpenTail(tail)
    ensures Tokenize(Unwords(EncodeAll(xs) + [a + ['"'] + EscapeCooked(x) + tail]))
            == Lex(xs + [a + x], UnbalancedQuote)
  {
    var w := a + ['"'] + EscapeCooked(x) + tail;
    var line := Unwords(EncodeAll(xs) + [w]);
    EscapeCookedNulFree(x);
    OpenLineNulFree(xs, a, ['"'], EscapeCooked(x), tail);
    CStrOfNulFree(line);
    EncodedWordsThen(line, 0, xs, w);
    OpenCookedWord(line, |line| - |w|, a, x, tail);
  }

  /// The same for an unterminated single quote.
  lemma UnterminatedRawQuoteKeepsWord(xs: seq<string>, a: string, x: string, tail: string)
    requires forall k :: 0 <= k < |xs| ==> NulFree(xs[k])
    requires OrdinaryText(a) && NulFree(x) && OpenTail(tail)
    ensures Tokenize(Unwords(EncodeAll(xs) + [a + ['\''] + EscapeRaw(x) + tail]))
            == Lex(xs + [a + x], UnbalancedQuote)
  {
    var w := a + ['\''] + EscapeRaw(x) + tail;
    var line := Unwords(EncodeAll(xs) + [w]);
    EscapeRawNulFree(x);
    OpenLineNulFree(xs, a, ['\''], EscapeRaw(x), tail);
    CStrOfNulFree(line);
    EncodedWordsThen(line, 0, xs, w);
    OpenRawWord(line, |line| - |w|, a, x, tail);
  }

  /// Such a line is NUL-free when the words and the quoted text are.
  lemma OpenLineNulFree(xs: seq<string>, a: string, q: string, e: string, tail: string)
    requires forall k :: 0 <= k < |xs| ==> NulFree(xs[k])
    requires OrdinaryText(a) && (q == ['"'] || q == ['\''])
    requires NulFree(e) && OpenTail(tail)
    ensures NulFree(Unwords(EncodeAll(xs) + [a + q + e + tail]))
  {
    OpenWordNulFree(a, q, e, tail);
    LastWordNulFree(xs, a + q + e + tail);
  }

  /// Encoded NUL-free words and a last NUL-free word make a NUL-free line.
  lemma {:induction false} LastWordNulFree(xs: seq<string>, w: string)
    requires forall k :: 0 <= k < |xs| ==> NulFree(xs[k])
    requires NulFree(w)
    ensures NulFree(Unwords(EncodeAll(xs) + [w]))
    decreases |xs|
  {
    if xs == [] {
      assert EncodeAll(xs) + [w] == [w];
    } else {
      UnwordsCons(xs, w);
      EncodeNulFree(xs[0]);
      LastWordNulFree(xs[1..], w);
      SpaceJoinNulFree(Encode(xs[0]), Unwords(EncodeAll(xs[1..]) + [w]));
    }
  }

  lemma SpaceJoinNulFree(e: string, rest: string)
    requires NulFree(e) && NulFree(rest)
    ensures NulFree(e + [' '] + rest)
  {
    var s := e + [' '] + rest;
    forall k | 0 <= k < |s| ensures s[k] != NUL {
      if k < |e| {
        assert s[k] == e[k];
      } else if k > |e| {
        assert s[k] == rest[k - |e| - 1];
      }
    }
  }


  lemma OpenWordNulFree(a: string, q: string, e: string, tail: string)
    requires OrdinaryText(a) && (q == ['"'] || q == ['\''])
    requires NulFree(e) && OpenTail(tail)
    ensures NulFree(a + q + e + tail)
  {
    OrdinaryTextNulFree(a);
    var w := a + q + e + tail;
    var n := |a| + 1;
    forall k | 0 <= k < |w| ensures w[k] != NUL {
      if k < |a| {
        assert w[k] == a[k];
      } else if k == |a| {
        assert w[k] == q[0];
      } else if k < n + |e| {
        assert w[k] == e[k - n];
      } else {
        assert w[k] == tail[k - n - |e|];
      }
    }
  }

  /// A line that opens with a double quote never closed is one word and
  /// `UnbalancedQuote`.
  lemma OpenCookedLine(line: string)
    requires NulFree(line) && |line| > 0 && line[0] == '"'
    requires !CookedSegment(line, 1).closed
    ensures Tokenize(line) == Lex([CookedSegment(line, 1).text], UnbalancedQuote)
  {
    CStrOfNulFree(line);
    assert SkipSpaces(line, 0) == 0;
    ScanAtOpenCookedQuote(line, 0);
    var t := ScanToken(line, 0);
    assert PrependScan([], t) == t by {
      assert [] + t.text == t.text;
    }
    UnterminatedToken(line, 0, [], t);
    assert [] + t.text == t.text;
  }

  /// A line that opens with a single quote never closed is one word and
  /// `UnbalancedQuote`.
  lemma OpenRawLine(line: string)
    requires NulFree(line) && |line| > 0 && line[0] == '\''
    requires !RawSegment(line, 1).closed
    ensures Tokenize(line) == Lex([RawSegment(line, 1).text], UnbalancedQuote)
  {
    CStrOfNulFree(line);
    assert SkipSpaces(line, 0) == 0;
    ScanAtOpenRawQuote(line, 0);
    var t := ScanToken(line, 0);
    assert PrependScan([], t) == t by {
      assert [] + t.text == t.text;
    }
    UnterminatedToken(line, 0, [], t);
    assert [] + t.text == t.text;
  }

  /// A line of white space only has no words and no error; and a NUL-free
  /// line has no words exactly when it is blank (`is_empty_string`).
  lemma BlankLineHasNoWords(line: string)
    ensures IsEmptyString(line) ==> Tokenize(line) == Lex([], Ok)
    ensures NulFree(line) ==> (Tokenize(line).tokens == [] <==> IsEmptyString(line))
  {
    var s := CStr(line);
    if IsEmptyString(line) {
      forall k | 0 <= k < |s| ensures IsSpace(s[k]) {
        assert s[k] == line[k];
      }
      assert SkipSpaces(s, 0) == |s|;
    }
    if NulFree(line) {
      CStrOfNulFree(line);
      if SkipSpaces(line, 0) == |line| {
        assert IsEmptyString(line);
      } else {
        assert Tokenize(line).tokens != [];
      }
    }
  }

  /// No quote character, no error: `UnbalancedQuote` only comes from a quote.
  lemma {:induction false} ScanWithoutQuotes(s: string, i: nat)
    requires i <= |s|
    requires forall k :: i <= k < |s| ==> s[k] != '\'' && s[k] != '"'
    ensures ScanToken(s, i).stop != Unterminated
    decreases |s| - i
  {
    if i < |s| && !IsDelimiter(s[i]) {
      if s[i] == '\\' {
        if i + 1 < |s| { ScanWithoutQuotes(s, i + 2); }
      } else {
        ScanWithoutQuotes(s, i + 1);
      }
    }
  }

  lemma {:induction false} TokensWithoutQuotes(s: string, i: nat)
    requires i <= |s|
    requires forall k :: i <= k < |s| ==> s[k] != '\'' && s[k] != '"'
    ensures TokensFrom(s, i).err == Ok
    decreases |s| - i
  {
    var j := SkipSpaces(s, i);
    if j < |s| {
      ScanWithoutQuotes(s, j);
      var t := ScanToken(s, j);
      if t.stop == Delimited {
        TokensWithoutQuotes(s, t.next);
      }
    }
  }

  lemma NoQuoteNoError(line: string)
    requires forall k :: 0 <= k < |line| ==> line[k] != '\'' && line[k] != '"'
    ensures Tokenize(line).err == Ok
  {
    var s := CStr(line);
    forall k | 0 <= k < |s| ensures s[k] != '\'' && s[k] != '"' {
      assert s[k] == line[k];
    }
    TokensWithoutQuotes(s, 0);
  }

  /// The room the words take when each is followed by its terminator.
  function Footprint(ts: seq<string>): nat {
    if ts == [] then 0 else |ts[0]| + 1 + Footprint(ts[1..])
  }

  /// The number of characters in all the words together.
  function TotalLength(ts: seq<string>): nat {
    if ts == [] then 0 else |ts[0]| + TotalLength(ts[1..])
  }

  /// The room the words take is their characters plus one terminator each.
  lemma {:induction false} FootprintSplits(ts: seq<string>)
    ensures Footprint(ts) == TotalLength(ts) + |ts|
  {
    if ts != [] {
      FootprintSplits(ts[1..]);
    }
  }

  /// The words, each with its terminator, fit in the characters they were
  /// read from plus the final terminator: the in-place rewrite never writes
  /// past the copy of the line.  No word contains a NUL, so `std::string`
  /// reads every word whole.
  lemma {:induction false} TokensFit(s: string, i: nat)
    requires i <= |s| && NulFree(s)
    ensures Footprint(TokensFrom(s, i).tokens) <= |s| + 1 - i
    ensures forall k :: 0 <= k < |TokensFrom(s, i).tokens| ==> NulFree(TokensFrom(s, i).tokens[k])
    decreases |s| - i
  {
    var j := SkipSpaces(s, i);
    if j < |s| {
      var t := ScanToken(s, j);
      ScanTokenNulFree(s, j);
      var r := TokensFrom(s, i);
      if t.stop == Delimited {
        TokensFit(s, t.next);
        assert r.tokens[1..] == TokensFrom(s, t.next).tokens;
      } else {
        assert r.tokens[1..] == [];
      }
    }
  }

  /// Every word is read from at least one character of its own, so there
  /// are no more words than characters from `i` on.
  lemma {:induction false} TokensCount(s: string, i: nat)
    requires i <= |s|
    ensures |TokensFrom(s, i).tokens| <= |s| - i
    decreases |s| - i
  {
    var j := SkipSpaces(s, i);
    if j < |s| {
      var t := ScanToken(s, j);
      if t.stop == Delimited {
        TokensCount(s, t.next);
        assert |TokensFrom(s, i).tokens| == 1 + |TokensFrom(s, t.next).tokens|;
      }
    }
  }

  /// The words of a line: no more of them than characters in the C string
  /// of the line, no more characters in all of them together than in that
  /// string, and room for a terminator after each within the copy.
  lemma WordsFitInLine(line: string)
    ensures Footprint(Tokenize(line).tokens) <= |CStr(line)| + 1
    ensures |Tokenize(line).tokens| <= |CStr(line)| <= |line|
    ensures TotalLength(Tokenize(line).tokens) <= |CStr(line)|
    ensures forall k :: 0 <= k < |Tokenize(line).tokens| ==> NulFree(Tokenize(line).tokens[k])
  {
    var ts := Tokenize(line).tokens;
    TokensFit(CStr(line), 0);
    TokensCount(CStr(line), 0);
    FootprintSplits(ts);
  }

  // ---------------------------------------------------------------------------
  // Quirks of this implementation
  // ---------------------------------------------------------------------------

  /// Inside single quotes a backslash before anything but `\` or `'` is
  /// kept together with the character after it.
  lemma RawQuoteKeepsUnknownEscape(c: char)
    requires c != NUL && c != '\\' && c != '\''
    ensures Tokenize(['\'', '\\', c, '\'']) == Lex([['\\', c]], Ok)
  {
    var s := ['\'', '\\', c, '\''];
    CStrOfNulFree(s);
    assert SkipSpaces(s, 0) == 0;
    assert RawSegment(s, 1) == Segment(['\\', c], 4, true);
    assert ScanToken(s, 4) == Scan([], 5, EndOfInput);
    assert ScanToken(s, 0) == Scan(['\\', c], 5, EndOfInput);
  }

  /// Inside double quotes every escape goes through `HandleEscape`.
  lemma CookedQuoteTranslatesEscape(c: char)
    requires c != NUL
    ensures Tokenize(['"', '\\', c, '"']) == Lex([[HandleEscape(c)]], Ok)
  {
    var s := ['"', '\\', c, '"'];
    CStrOfNulFree(s);
    assert SkipSpaces(s, 0) == 0;
    assert CookedSegment(s, 1) == Segment([HandleEscape(c)], 4, true);
    assert ScanToken(s, 4) == Scan([], 5, EndOfInput);
    assert ScanToken(s, 0) == Scan([HandleEscape(c)], 5, EndOfInput);
  }

  /// A backslash at the very end of the line adds nothing to the last word
  /// and raises no error; on its own it makes one empty word.
  lemma TrailingBackslashAddsNothing(w: string)
    requires PlainWord(w)
    ensures Tokenize(w + ['\\']) == Lex([w], Ok)
    ensures Tokenize(['\\']) == Lex([[]], Ok)
  {
    var s := w + ['\\'];
    assert NulFree(s);
    CStrOfNulFree(s);
    assert s[0] == w[0];
    assert SkipSpaces(s, 0) == 0;
    assert Infix(s, 0, w) by { assert s[..|w|] == w; }
    ScanOrdinary(s, 0, w);
    assert ScanToken(s, |w|) == Scan([], |w| + 2, EndOfInput);
    assert w + [] == w;
    CStrOfNulFree(['\\']);
  }

  /// A backslash that starts the last word and ends the line makes that
  /// word empty, after all the words before it, without error.
  lemma LoneBackslashMakesEmptyWord(xs: seq<string>)
    requires forall k :: 0 <= k < |xs| ==> NulFree(xs[k])
    ensures Tokenize(Unwords(EncodeAll(xs) + [['\\']])) == Lex(xs + [[]], Ok)
  {
    var w := ['\\'];
    var line := Unwords(EncodeAll(xs) + [w]);
    LastWordNulFree(xs, w);
    CStrOfNulFree(line);
    EncodedWordsThen(line, 0, xs, w);
    LoneBackslashAtEnd(line);
  }

  lemma LoneBackslashAtEnd(s: string)
    requires |s| > 0 && s[|s| - 1..] == ['\\']
    ensures TokensFrom(s, |s| - 1) == Lex([[]], Ok)
  {
    var n := |s| - 1;
    assert s[n] == s[n..][0] == '\\';
    assert SkipSpaces(s, n) == n;
    assert ScanToken(s, n) == Scan([], n + 2, EndOfInput);
  }

  /// Backspace ends a word like white space does, but is not skipped as
  /// white space before a word, so a leading backspace makes an empty word.
  lemma BackspaceIsNotWhiteSpace(w: string)
    requires PlainWord(w)
    ensures Tokenize([BS] + w) == Lex([[], w], Ok)
    ensures Tokenize([' '] + w) == Lex([w], Ok)
  {
    var s := [BS] + w;
    assert NulFree(s);
    CStrOfNulFree(s);
    assert SkipSpaces(s, 0) == 0;
    assert ScanToken(s, 0) == Scan([], 1, Delimited);
    assert s[1..] == Unwords(EncodeAll([w]));
    TokensFromEncoded(s, 1, [w]);
    var t := [' '] + w;
    assert NulFree(t);
    CStrOfNulFree(t);
    assert SkipSpaces(t, 0) == SkipSpaces(t, 1);
    assert t[1..] == Unwords(EncodeAll([w]));
    TokensFromEncoded(t, 1, [w]);
  }

  /// Each delimiter, `\b` included, ends the word before it.
  lemma DelimiterEndsWord(a: string, d: char, b: string)
    requires PlainWord(a) && PlainWord(b) && IsDelimiter(d)
    ensures Tokenize(a + [d] + b) == Lex([a, b], Ok)
  {
    var s := a + [d] + b;
    DelimitedNulFree(a, d, b);
    CStrOfNulFree(s);
    assert s[0] == a[0] && Ordinary(a[0]);
    assert SkipSpaces(s, 0) == 0;
    InfixThree(a, [d], b);
    ScanOrdinary(s, 0, a);
    assert ScanToken(s, |a|) == Scan([], |a| + 1, Delimited);
    assert a + [] == a;
    assert s[|a| + 1..] == b;
    assert EncodeAll([b]) == [b];
    TokensFromEncoded(s, |a| + 1, [b]);
    assert TokensFrom(s, 0) == PrependLex([a], TokensFrom(s, |a| + 1));
  }

  lemma DelimitedNulFree(a: string, d: char, b: string)
    requires PlainWord(a) && PlainWord(b) && IsDelimiter(d)
    ensures NulFree(a + [d] + b)
  {
    var s := a + [d] + b;
    forall k | 0 <= k < |s| ensures s[k] != NUL {
      if k < |a| { assert Ordinary(a[k]); }
      else if k > |a| { assert s[k] == b[k - |a| - 1] && Ordinary(b[k - |a| - 1]); }
    }
  }

  /// Text without quotes, escapes or delimiters.
  predicate OrdinaryText(w: string) {
    forall k :: 0 <= k < |w| ==> Ordinary(w[k])
  }

  lemma OrdinaryTextNulFree(w: string)
    requires OrdinaryText(w)
    ensures NulFree(w)
  {
    forall k | 0 <= k < |w| ensures w[k] != NUL {
      assert Ordinary(w[k]);
    }
  }

  /// Outside quotes a backslash takes the next character literally,
  /// whatever it is: white space, a quote or another backslash.
  lemma BackslashTakesNextLiterally(a: string, c: char, b: string)
    requires OrdinaryText(a) && OrdinaryText(b) && c != NUL
    ensures Tokenize(a + ['\\', c] + b) == Lex([a + [c] + b], Ok)
  {
    var s := a + ['\\', c] + b;
    var n := |a| + 2;
    assert NulFree(s) by {
      OrdinaryTextNulFree(a);
      OrdinaryTextNulFree(b);
      forall k | 0 <= k < |s| ensures s[k] != NUL {
        if k >= n { assert s[k] == b[k - n]; }
      }
    }
    CStrOfNulFree(s);
    assert SkipSpaces(s, 0) == 0 by {
      if |a| > 0 { assert s[0] == a[0] && Ordinary(a[0]); }
    }
    assert Infix(s, 0, a) by { assert s[..|a|] == a; }
    ScanOrdinary(s, 0, a);
    assert Infix(s, n, b) by { assert s[n..n + |b|] == b; }
    ScanOrdinary(s, n, b);
    assert ScanToken(s, |s|) == Scan([], |s| + 1, EndOfInput);
    assert ScanToken(s, |a|) == PrependScan([c], ScanToken(s, n));
    assert b + [] == b;
    assert ScanToken(s, 0) == Scan(a + ([c] + b), |s| + 1, EndOfInput);
    assert a + ([c] + b) == a + [c] + b;
  }

  /// A double-quoted segment joins the text around it into one word.
  lemma QuotesJoinAdjacentText(a: string, x: string, b: string)
    requires OrdinaryText(a) && OrdinaryText(b) && NulFree(x)
    ensures Tokenize(a + QuoteCooked(x) + b) == Lex([a + x + b], Ok)
  {
    QuotedJoins(a, x, b, false);
  }

  /// A single-quoted segment joins the text around it into one word too.
  lemma RawQuotesJoinAdjacentText(a: string, x: string, b: string)
    requires OrdinaryText(a) && OrdinaryText(b) && NulFree(x)
    ensures Tokenize(a + QuoteRaw(x) + b) == Lex([a + x + b], Ok)
  {
    QuotedJoins(a, x, b, true);
  }

  /// `x` in single quotes when `raw`, in double quotes otherwise.
  function Quote(raw: bool, x: string): string {
    if raw then QuoteRaw(x) else QuoteCooked(x)
  }

  lemma QuotedJoins(a: string, x: string, b: string, raw: bool)
    requires OrdinaryText(a) && OrdinaryText(b) && NulFree(x)
    ensures Tokenize(a + Quote(raw, x) + b) == Lex([a + x + b], Ok)
  {
    var q := Quote(raw, x);
    var s := a + q + b;
    JoinedNulFree(a, x, b, raw);
    CStrOfNulFree(s);
    assert SkipSpaces(s, 0) == 0 by {
      if |a| > 0 { assert s[0] == a[0] && Ordinary(a[0]); } else { assert s[0] == q[0]; }
    }
    JoinedScan(a, x, b, raw);
    assert TokensFrom(s, 0) == Lex([a + x + b], Ok);
  }

  /// The token read from ordinary text, a quoted segment of either kind and
  /// more ordinary text runs to the end of the line and holds all three
  /// texts.
  lemma JoinedScan(a: string, x: string, b: string, raw: bool)
    requires OrdinaryText(a) && OrdinaryText(b)
    ensures var s := a + Quote(raw, x) + b;
            ScanToken(s, 0) == Scan(a + x + b, |s| + 1, EndOfInput)
  {
    var q := Quote(raw, x);
    var s := a + q + b;
    var n := |a| + |q|;
    JoinedParts(a, x, b, raw);
    var e := ScanToken(s, |s|);
    assert e == Scan([], |s| + 1, EndOfInput);
    PrependScanThrice(a, x, b, e);
  }

  lemma JoinedParts(a: string, x: string, b: string, raw: bool)
    requires OrdinaryText(a) && OrdinaryText(b)
    ensures var s := a + Quote(raw, x) + b;
            var n := |a| + |Quote(raw, x)|;
            && n + |b| == |s|
            && ScanToken(s, 0) == PrependScan(a, ScanToken(s, |a|))
            && ScanToken(s, |a|) == PrependScan(x, ScanToken(s, n))
            && ScanToken(s, n) == PrependScan(b, ScanToken(s, |s|))
  {
    var q := Quote(raw, x);
    var s := a + q + b;
    var n := |a| + |q|;
    InfixThree(a, q, b);
    ScanOrdinary(s, 0, a);
    ScanQuote(s, |a|, x, raw);
    ScanOrdinary(s, n, b);
  }

  lemma ScanQuote(s: string, i: nat, x: string, raw: bool)
    requires Infix(s, i, Quote(raw, x))
    ensures ScanToken(s, i) == PrependScan(x, ScanToken(s, i + |Quote(raw, x)|))
  {
    if raw {
      ScanRawQuoted(s, i, x);
    } else {
      ScanQuoted(s, i, x);
    }
  }

  lemma InfixThree(a: string, q: string, b: string)
    ensures var s := a + q + b;
            Infix(s, 0, a) && Infix(s, |a|, q) && Infix(s, |a| + |q|, b)
  {
    var s := a + q + b;
    var n := |a| + |q|;
    assert s[..|a|] == a;
    assert s[|a|..n] == q;
    assert s[n..n + |b|] == b;
  }

  lemma PrependScanThrice(a: string, x: string, b: string, e: Scan)
    requires e.text == []
    ensures PrependScan(a, PrependScan(x, PrependScan(b, e))) == e.(text := a + x + b)
  {
    PrependScanTwice(x, b, e);
    PrependScanTwice(a, x + b, e);
    assert (a + (x + b)) + [] == a + x + b;
  }

  lemma JoinedNulFree(a: string, x: string, b: string, raw: bool)
    requires OrdinaryText(a) && OrdinaryText(b) && NulFree(x)
    ensures NulFree(a + Quote(raw, x) + b)
  {
    var q := Quote(raw, x);
    var s := a + q + b;
    OrdinaryTextNulFree(a);
    OrdinaryTextNulFree(b);
    if raw { EscapeRawNulFree(x); } else { EscapeCookedNulFree(x); }
    forall k | 0 <= k < |s| ensures s[k] != NUL {
      if k < |a| {
      } else if k < |a| + |q| {
        assert s[k] == q[k - |a|];
      } else {
        assert s[k] == b[k - |a| - |q|];
      }
    }
  }

  /// `''` and `""` on their own each make one empty word.
  lemma EmptyQuotesMakeEmptyWord()
    ensures Tokenize("''") == Lex([""], Ok)
    ensures Tokenize("\"\"") == Lex([""], Ok)
  {
    assert QuoteRaw([]) == "''";
    RawQuoteRoundTrip([]);
    assert [] + QuoteCooked([]) + [] == "\"\"";
    QuotesJoinAdjacentText([], [], []);
  }

  /// `||` is made of ordinary characters: the line is not split into a
  /// pipeline here.
  lemma PipeSymbolsAreOrdinary()
    ensures Tokenize("echo 1||echo 2") == Lex(["echo", "1||echo", "2"], Ok)
  {
    var ws := ["echo", "1||echo", "2"];
    assert PlainWord(ws[0]) && PlainWord(ws[1]) && PlainWord(ws[2]);
    assert Unwords(ws[2..]) == "2";
    assert Unwords(ws[1..]) == "1||echo 2";
    assert Unwords(ws) == "echo 1||echo 2";
    PlainWordsRoundTrip(ws);
  }
}
