/// Helpers declared in include/CLI++/detail.hpp: the syntax-error value type
/// returned by the tokenizer, the blank-line test and a C-string length.
module Detail {

  /// The C string terminator (`STR_TERMINATE`).
  const NUL: char := 0 as char

  /// `std::isspace` in the "C" locale: space, `\t`, `\n`, `\v`, `\f`, `\r`.
  /// Backspace is not one of them.
  predicate IsSpace(c: char) {
    c == ' ' || c == '\t' || c == '\n' || c == '\U{000B}' || c == '\U{000C}' || c == '\r'
  }

  predicate NulFree(s: string) {
    forall i :: 0 <= i < |s| ==> s[i] != NUL
  }

  /// `is_empty_string`: the string is empty, or every character is white space.
  predicate IsEmptyString(s: string) {
    |s| == 0 || forall i :: 0 <= i < |s| ==> IsSpace(s[i])
  }

  /// `CliSyntaxError::Type` (the same enumeration as `String2ArgvErr`).
  datatype ErrorType = Ok | UnbalancedQuote

  /// `CliSyntaxError`: an error kind and the quote character that was open.
  datatype CliSyntaxError = CliSyntaxError(kind: ErrorType, quote: char)

  /// The default constructor: no error, no quote character.
  function DefaultSyntaxError(): (e: CliSyntaxError)
    ensures e.kind == Ok && e.quote == NUL
  {
    CliSyntaxError(Ok, NUL)
  }

  /// `CliSyntaxError::operator==(Type)`.
  predicate IsKind(e: CliSyntaxError, t: ErrorType) {
    e.kind == t
  }

  /// Comparing against a kind never looks at the quote character.
  lemma IsKindIgnoresQuote(e: CliSyntaxError, q: char, t: ErrorType)
    ensures IsKind(e.(quote := q), t) == IsKind(e, t)
    ensures IsKind(DefaultSyntaxError(), t) <==> t == Ok
  {
  }

  /// `strlen` applied to the C string that starts at `str[start]`: counts the
  /// characters before the first NUL.
  method Strlen(str: array<char>, start: nat) returns (len: nat)
    requires exists k :: start <= k < str.Length && str[k] == NUL
    ensures start + len < str.Length && str[start + len] == NUL
    ensures forall k :: start <= k < start + len ==> str[k] != NUL
  {
    ghost var end :| start <= end < str.Length && str[end] == NUL;
    len := 0;
    while str[start + len] != NUL
      invariant start + len <= end
      invariant forall k :: start <= k < start + len ==> str[k] != NUL
      decreases end - start - len
    {
      len := len + 1;
    }
  }
}
