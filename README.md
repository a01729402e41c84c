# CLIPP core in Dafny

A verified model of three parts of CLIPP, a C++ library for interactive
command-line shells:

- **The line tokenizer.** `split_token` / `string_to_argv` splits one input
  line into words. It honours backslash escapes, raw `'…'` segments and
  cooked `"…"` segments, and reports `OK` or `UNBALANCED_QUOTE`. The code
  rewrites a `strdup`'d copy of the line in place, with a read pointer
  `scan` and a write pointer `dest`.
  - `tokenizer.dfy` has two halves. The first is a functional
    specification: `Tokenize`, built from `ScanToken`, `RawSegment`,
    `CookedSegment`, `SkipSpaces` and `TokensFrom`. The second is the
    in-place algorithm on an `array<char>`, with the same loops, flags and
    step structure as the C code. `SplitToken` is proved to compute
    `Tokenize`.
  - `tokenizer_props.dfy` proves what the tokenizer promises about
    `Tokenize`: round trips, escape rules, error cases, joining of quoted
    text, and size bounds.
- **The command registry and its orderings** (`interactive.dfy`).
  - `CLI` holds a map from command names to commands. `insertCommand` and
    `take` update it in place.
  - The equality and ordering of `CLICommand::OptionType` and of
    `CLICommand`.
- **Option names** (`argument_parser.dfy`).
  - `validateLongName`.
  - The long-name and short-name bookkeeping of `Option<T>`, of the flag
    specialisation `Option<bool>` (here `Flag`) and of
    `PositionalArgument<T>`.
- **Helpers** (`detail.dfy`): `CliSyntaxError`, `is_empty_string` and
  `strlen`.

Where the library's documentation and its code disagree, the model follows
the code:

- **The open quote is not recorded.** The error type has a quote field, but
  the tokenizer never says which quote was left open. `SplitToken` always
  returns quote `'\0'`.
- **No operators.** `|`, `||`, `&` and `&&` are ordinary characters. They
  are never split off into operator tokens
  (`TokenizerProps.PipeSymbolsAreOrdinary`).
- **Single quotes still unescape.** Inside `'…'`, `\\` and `\'` are
  unescaped; any other `\x` is kept as the two characters `\x`.
- **A trailing backslash is not an error.** A backslash at the end of the
  line, outside quotes, ends tokenizing with `OK`. It adds nothing to the
  word it ends; on its own it makes one empty word.
- **`split_token` is `string_to_argv`.** `split_token` is declared in
  include/CLI++/detail.hpp, but its body is not part of this model. It is
  modelled by the body of `string_to_argv`, and `String2ArgvErr` is taken
  to be the `CliSyntaxError::Type` enumeration. The definition of
  `String2ArgvErr` is not part of this model.

Characters are Dafny `char`s. `isspace` is the "C" locale set (space,
`\t`, `\n`, `\v`, `\f`, `\r`). The terminator is `'\0'`, so the tokenizer
reads a line only up to its first NUL, as `strdup` does.

## Model

| member | source | states |
|---|---|---|
| Detail.IsSpace | src/detail.cpp:100 | the `isspace` set of the "C" locale: space, `\t`, `\n`, `\v`, `\f` and `\r` (defined, no contract) |
| Detail.IsEmptyString | include/CLI++/detail.hpp:86-90 | `is_empty_string`: the string is empty or all its characters are `isspace` (defined, no contract) |
| Detail.IsKind | include/CLI++/detail.hpp:45 | `operator==(Type)`: the error's kind equals the given kind (defined, no contract) |
| Detail.DefaultSyntaxError | include/CLI++/detail.hpp:39 | a default-constructed syntax error has kind `OK` and quote `'\0'` |
| Detail.IsKindIgnoresQuote | include/CLI++/detail.hpp:45 | comparing an error with a kind ignores its quote character; the default error compares equal to `OK` and to nothing else |
| Detail.Strlen | include/CLI++/detail.hpp:98-105 | the count is the index of the first NUL from the start, and every earlier character is non-NUL |
| Tokenizer.CStr | src/detail.cpp:97 | the copy `strdup` makes is the prefix before the first NUL: NUL-free, and followed by a NUL when shorter than the input |
| Tokenizer.HandleEscape | src/detail.cpp:18-32 | an escape yields NUL exactly for NUL; it changes the character exactly for `a b t n v f r` |
| Tokenizer.RawEscape | src/detail.cpp:44-62 | inside `'…'`, `\\` and `\'` stand for the second character, any other `\x` for both characters (defined, no contract) |
| Tokenizer.IsDelimiter | src/detail.cpp:140-147 | the characters that end a token: the `isspace` set and `\b` (defined, no contract) |
| Tokenizer.RawSegment | src/detail.cpp:33-66 | a single-quoted segment reads at least one character and never copies more characters than it reads; a closed segment ends inside the string |
| Tokenizer.CookedSegment | src/detail.cpp:67-88 | the same bounds for a double-quoted segment |
| Tokenizer.ScanToken | src/detail.cpp:113-152 | a token reads at least one character and copies fewer than it reads; a token ended by a delimiter ends inside the string |
| Tokenizer.RawSegmentNulFree | src/detail.cpp:33-66 | the text of a raw segment of a NUL-free string is NUL-free |
| Tokenizer.CookedSegmentNulFree | src/detail.cpp:67-88 | the text of a cooked segment of a NUL-free string is NUL-free |
| Tokenizer.ScanTokenNulFree | src/detail.cpp:113-152 | the text of a token of a NUL-free string is NUL-free |
| Tokenizer.SkipSpaces | src/detail.cpp:107 | the result is the first index from `i` that does not hold an `isspace` character |
| Tokenizer.TokensFrom | src/detail.cpp:105-155 | the outer loop: skip white space; stop at the end; otherwise push the next token, and go on only if a delimiter ended it, with `UNBALANCED_QUOTE` after an unterminated one (defined, no contract) |
| Tokenizer.Tokenize | src/detail.cpp:90-161 | `split_token`: the words of the line's C string, and the error kind (defined, no contract) |
| Tokenizer.CStrPrefix | src/detail.cpp:97 | the C string of a line is its prefix up to the first terminator |
| Tokenizer.Strdup | include/CLI++/detail.hpp:114-127 | the fresh buffer holds the C string of the input followed by one terminator |
| Tokenizer.Emit | src/detail.cpp:150 | a write at `dest` lands after the text already copied, extends it by one character, and leaves the unread part intact |
| Tokenizer.RawStep | src/detail.cpp:36-64 | one turn of the raw-copy loop either copies the piece that the next character or escape stands for, or finishes the segment |
| Tokenizer.CopyRawString | src/detail.cpp:33-66 | the copy reads exactly `RawSegment` and returns OK iff it found the closing quote; `dest` stays behind `scan` |
| Tokenizer.CookedStep | src/detail.cpp:70-86 | one turn of the cooked-copy loop, with escapes translated by `HandleEscape` |
| Tokenizer.CopyCookedString | src/detail.cpp:67-88 | the copy reads exactly `CookedSegment` and returns OK iff it found the closing quote; `dest` stays behind `scan` |
| Tokenizer.CopyStep | src/detail.cpp:116-151 | one pass through the `switch` either keeps the token going, with its copied prefix, or finishes it as `ScanToken` says |
| Tokenizer.CopyToken | src/detail.cpp:113-152 | the inner loop copies `ScanToken`'s text to the token's start, and `done`/`err` report how the token ended |
| Tokenizer.CStringAt | src/detail.cpp:153-154 | after the terminator is written, `std::string(token)` reads back exactly the copied text |
| Tokenizer.CopyUnread | src/detail.cpp:97-98 | a fresh copy of the line has nothing overwritten yet |
| Tokenizer.SkipWhite | src/detail.cpp:107 | the skip loop stops where `SkipSpaces` says |
| Tokenizer.TakeToken | src/detail.cpp:111-154 | the word pushed is the token's text; the flags are `Delimited` ⇔ neither done nor error, end of input ⇔ done with OK, unterminated ⇔ `UNBALANCED_QUOTE` |
| Tokenizer.NextWords | src/detail.cpp:105-155 | after the words taken so far come nothing at a blank rest, or the next token followed by the rest only if a delimiter ended it |
| Tokenizer.SplitToken | src/detail.cpp:90-161 | the words and error kind are exactly `Tokenize(cmd)`, and the quote field is `'\0'` |
| TokenizerProps.ScanOrdinary | src/detail.cpp:149-150 | ordinary characters are copied unchanged into the current token |
| TokenizerProps.CookedSegmentEscaped | src/detail.cpp:67-88 | text written inside `"…"` with `\` and `"` escaped reads back as the original text, closed |
| TokenizerProps.RawSegmentEscaped | src/detail.cpp:33-66 | text written inside `'…'` with `\` and `'` escaped reads back as the original text, closed |
| TokenizerProps.SegmentOpenAtEnd | src/detail.cpp:39-49 | a segment whose remaining input is nothing or a lone backslash is left open, in either kind of quotes |
| TokenizerProps.CookedSegmentOpen | src/detail.cpp:72-81 | a double-quoted segment that runs out (also just after a backslash) is open and still holds all the text before |
| TokenizerProps.RawSegmentOpen | src/detail.cpp:39-49 | the same for a single-quoted segment |
| TokenizerProps.ScanQuoted | src/detail.cpp:136-137 | a double-quoted segment contributes exactly its unescaped text, and the token goes on after the closing quote |
| TokenizerProps.ScanRawQuoted | src/detail.cpp:132-134 | a single-quoted segment contributes exactly its unescaped text, and the token goes on after the closing quote |
| TokenizerProps.ScanEncoded | src/detail.cpp:132-150 | an encoded word contributes exactly the word to the token, which goes on after it |
| TokenizerProps.CStrOfNulFree | src/detail.cpp:97 | a NUL-free line is copied whole |
| TokenizerProps.FirstEncoded | src/detail.cpp:107-152 | on a line of encoded words the first token is the first word, and is followed by a space and the rest |
| TokenizerProps.TokenEncoded | src/detail.cpp:105-155 | the outer loop takes the first encoded word, then continues on the rest of the line |
| TokenizerProps.TokensFromEncoded | src/detail.cpp:105-155 | a line of encoded words tokenizes back to the same words, with OK |
| TokenizerProps.EncodedLineRoundTrip | src/detail.cpp:90-161 | encoding any NUL-free words (quoting where needed) and tokenizing gives back exactly those words, with OK |
| TokenizerProps.PlainWordsRoundTrip | src/detail.cpp:90-161 | words without special characters, joined by spaces, tokenize back to the same words |
| TokenizerProps.RawQuoteRoundTrip | src/detail.cpp:33-66 | a single-quoted word with `\` and `'` escaped tokenizes to the original word |
| TokenizerProps.EncodedThenSpace | src/detail.cpp:105-155 | an encoded word and a space give that word, and reading goes on after the space |
| TokenizerProps.EncodedWordsThen | src/detail.cpp:105-155 | encoded words before a last word of any shape come back in order, followed by whatever the last word gives |
| TokenizerProps.TextThenOpen | src/detail.cpp:111-154 | ordinary text that runs into a quote never closed is the last word, with `UNBALANCED_QUOTE` |
| TokenizerProps.OpenCookedWord | src/detail.cpp:72-81 | ordinary text, `"` and escaped text up to the end of the line (or a final backslash) give one word, the text and the unescaped text, with `UNBALANCED_QUOTE` |
| TokenizerProps.OpenRawWord | src/detail.cpp:39-49 | the same for `'` |
| TokenizerProps.UnterminatedQuoteKeepsWord | src/detail.cpp:105-155 | on any line of encoded words followed by a word with an unterminated `"` (also one ending in a backslash), all words come back, the last one partial, with `UNBALANCED_QUOTE` |
| TokenizerProps.UnterminatedRawQuoteKeepsWord | src/detail.cpp:105-155 | the same with an unterminated `'` |
| TokenizerProps.OpenCookedLine | src/detail.cpp:136-154 | a line whose `"` is never closed yields its one partial word and `UNBALANCED_QUOTE` |
| TokenizerProps.OpenRawLine | src/detail.cpp:132-154 | a line whose `'` is never closed yields its one partial word and `UNBALANCED_QUOTE` |
| TokenizerProps.BlankLineHasNoWords | src/detail.cpp:100-109 | a blank line (`is_empty_string`) has no words and no error; a NUL-free line has no words iff it is blank |
| TokenizerProps.ScanWithoutQuotes | src/detail.cpp:113-152 | a token without quote characters never ends unterminated |
| TokenizerProps.TokensWithoutQuotes | src/detail.cpp:105-155 | text without quote characters never gives an error |
| TokenizerProps.NoQuoteNoError | src/detail.cpp:90-161 | a line without quote characters tokenizes with OK |
| TokenizerProps.FootprintSplits | src/detail.cpp:150-153 | the room the words take in the buffer is their characters plus one terminator each |
| TokenizerProps.TokensFit | src/detail.cpp:97-155 | the words with one terminator each fit in what is left of the line, and are NUL-free |
| TokenizerProps.TokensCount | src/detail.cpp:105-155 | there are no more words than characters left in the line |
| TokenizerProps.WordsFitInLine | src/detail.cpp:97-155 | there are at most as many words as characters in the line's C string, their characters together are at most that many, with a terminator each they fit in the copy, and all are NUL-free |
| TokenizerProps.RawQuoteKeepsUnknownEscape | src/detail.cpp:51-54 | inside `'…'` an escape other than `\\` or `\'` is kept as both characters |
| TokenizerProps.CookedQuoteTranslatesEscape | src/detail.cpp:78-84 | inside `"…"` an escape stands for `HandleEscape` of its character |
| TokenizerProps.TrailingBackslashAddsNothing | src/detail.cpp:124-130 | a backslash at the end of the line adds nothing to the word it ends and gives no error; on its own it makes one empty word |
| TokenizerProps.LoneBackslashMakesEmptyWord | src/detail.cpp:124-130 | after any encoded words, a backslash that starts the last word at the end of the line adds one empty word, without error |
| TokenizerProps.BackspaceIsNotWhiteSpace | src/detail.cpp:140-147 | a leading backspace is not skipped like white space: it ends an empty first word |
| TokenizerProps.DelimiterEndsWord | src/detail.cpp:140-148 | each delimiter, backspace included, splits two words |
| TokenizerProps.BackslashTakesNextLiterally | src/detail.cpp:124-130 | outside quotes a backslash copies the next character literally, whatever it is |
| TokenizerProps.QuotesJoinAdjacentText | src/detail.cpp:132-138 | a double-quoted segment joins the text around it into one word |
| TokenizerProps.RawQuotesJoinAdjacentText | src/detail.cpp:132-138 | a single-quoted segment joins the text around it into one word |
| TokenizerProps.QuotedJoins | src/detail.cpp:132-138 | text, a quoted segment of either kind and more text tokenize to one word holding all three texts, with OK |
| TokenizerProps.JoinedScan | src/detail.cpp:132-138 | the token of text, a quoted segment of either kind and more text holds all three texts and runs to the end |
| TokenizerProps.EmptyQuotesMakeEmptyWord | src/detail.cpp:132-154 | `''` and `""` on their own each give one empty word |
| TokenizerProps.PipeSymbolsAreOrdinary | include/CLI++/detail.hpp:79-82 | operator symbols glued to text are not split off: the header's own example line gives its three words, the middle one keeping the double pipe |
| Interactive.StrLess | include/CLI++/CLI++.hpp:107 | `std::string`'s `<`: lexicographic order on characters, a proper prefix first (defined, no contract) |
| Interactive.OptionEq | include/CLI++/CLI++.hpp:101-105 | options are equal when their names are, or their short names are equal and not `'\0'` (defined, no contract) |
| Interactive.OptionLess | include/CLI++/CLI++.hpp:106-107 | options are ordered by name (defined, no contract) |
| Interactive.CommandEq | include/CLI++/CLI++.hpp:120 | commands are equal when their names are (defined, no contract) |
| Interactive.CommandLess | include/CLI++/CLI++.hpp:121 | commands are ordered by name (defined, no contract) |
| Interactive.StrLessIrreflexive | include/CLI++/CLI++.hpp:107 | no name is less than itself |
| Interactive.StrLessAsymmetric | include/CLI++/CLI++.hpp:107 | the name order is asymmetric |
| Interactive.StrLessTransitive | include/CLI++/CLI++.hpp:107 | the name order is transitive |
| Interactive.StrLessTotal | include/CLI++/CLI++.hpp:107 | any two different names are ordered one way or the other |
| Interactive.OptionEqByName | include/CLI++/CLI++.hpp:101-105 | options with the same name are equal; with a `'\0'` short name, equality is exactly equal names; equality is symmetric |
| Interactive.OptionEqNotTransitive | include/CLI++/CLI++.hpp:101-105 | option equality is not transitive (witnesses given) |
| Interactive.OptionLessStrictWeak | include/CLI++/CLI++.hpp:106-107 | the option order is a strict weak order, and two options are unordered iff they have the same name |
| Interactive.OptionEqDisagreesWithOrder | include/CLI++/CLI++.hpp:101-107 | options can be equal by short name yet ordered apart (witnesses given) |
| Interactive.CLICommand.constructor | include/CLI++/CLI++.hpp:27-28 | a new command has the given name and description and no options or sub commands |
| Interactive.CommandOrderMatchesEquality | include/CLI++/CLI++.hpp:120-121 | commands are equal iff neither is less than the other, and the order is asymmetric |
| Interactive.CLI.Contains | include/CLI++/CLI++.hpp:265 | the name is a key of the map (defined, no contract) |
| Interactive.CLI.Command | include/CLI++/CLI++.hpp:286-297 | the result is null iff the name is not contained; otherwise it is a stored command, the one with that name |
| Interactive.CLI.Take | include/CLI++/CLI++.hpp:273-280 | an absent name gives null and changes nothing; a present name gives the stored command and removes exactly that key |
| Interactive.CLI.InsertCommand | include/CLI++/CLI++.hpp:253-259 | the command is stored under its name and other names are unchanged; any old entry is deleted, so re-inserting the stored command leaves a deleted command stored |
| Interactive.CLI.InsertCommandChecked | include/CLI++/CLI++.hpp:253-259 | the same update; exactly the different command stored before under the name, if any, is deleted, and the registry never holds a deleted command |
| Interactive.CLI.InsertNewCommand | include/CLI++/CLI++.hpp:241-246 | a newly wrapped command is stored under its name; exactly the command stored before under that name, if any, is deleted, and the registry never holds a deleted command |
| Interactive.ReinsertSameCommand | include/CLI++/CLI++.hpp:253-259 | inserting the same command twice leaves the registry holding a deleted command |
| ArgumentParser.FindFirstNotSpace | include/CLI++/ArgumentParser.hpp:71 | the index of the first character other than `' '`, or the length |
| ArgumentParser.FindFirstSpace | include/CLI++/ArgumentParser.hpp:76 | the index of the first `' '`, or the length |
| ArgumentParser.ValidateLongName | include/CLI++/ArgumentParser.hpp:69-80 | it throws "empyt name" iff the name is empty or all spaces; otherwise it returns the non-empty, space-free run after the leading spaces, up to the next space or the end |
| ArgumentParser.ValidateLongNameExact | include/CLI++/ArgumentParser.hpp:69-80 | leading spaces, a word, and then nothing or a space-led rest validate to exactly that word |
| ArgumentParser.ValidateLongNameIdempotent | include/CLI++/ArgumentParser.hpp:69-80 | validating a validated name gives the same name |
| ArgumentParser.ValidateLongNameIdentity | include/CLI++/ArgumentParser.hpp:69-80 | a non-empty name without spaces is its own validation |
| ArgumentParser.ValidateLongNameKeepsTabs | include/CLI++/ArgumentParser.hpp:71-78 | only `' '` separates: tabs stay inside the name |
| ArgumentParser.FindLongName | include/CLI++/ArgumentParser.hpp:128-131 | the search answers true iff the name is among the long names |
| ArgumentParser.Option.Init | include/CLI++/ArgumentParser.hpp:98-104 | a new option has exactly one long name, the validated one, and the given short name, value and description, not required |
| ArgumentParser.Option.Create | include/CLI++/ArgumentParser.hpp:98-104 | construction throws iff the name does not validate; otherwise the only long name is the validated name |
| ArgumentParser.Option.Name | include/CLI++/ArgumentParser.hpp:125 | `name()` is a long name that validates to itself |
| ArgumentParser.Option.CheckName | include/CLI++/ArgumentParser.hpp:126-132 | true iff the name is one of the long names |
| ArgumentParser.Option.CheckShortName | include/CLI++/ArgumentParser.hpp:143 | always false without a short name, otherwise true iff the characters are equal |
| ArgumentParser.Option.AddLongName | include/CLI++/ArgumentParser.hpp:137-141 | the validated name is appended, or nothing changes when validation throws; `name()` stays the same |
| ArgumentParser.Option.SetRequired | include/CLI++/ArgumentParser.hpp:111-115 | sets the required flag only and returns the option itself |
| ArgumentParser.Option.SetDescription | include/CLI++/ArgumentParser.hpp:116-120 | sets the description only and returns the option itself |
| ArgumentParser.Flag.Init | include/CLI++/ArgumentParser.hpp:164-167 | a new flag has exactly one long name, the validated one, and the given short name, value and description |
| ArgumentParser.Flag.Create | include/CLI++/ArgumentParser.hpp:164-167 | construction throws iff the name does not validate; otherwise the only long name is the validated name |
| ArgumentParser.Flag.Name | include/CLI++/ArgumentParser.hpp:189 | `name()` is a long name that validates to itself |
| ArgumentParser.Flag.CheckName | include/CLI++/ArgumentParser.hpp:190-196 | true iff the name is one of the long names |
| ArgumentParser.Flag.CheckShortName | include/CLI++/ArgumentParser.hpp:207 | always false without a short name, otherwise true iff the characters are equal |
| ArgumentParser.Flag.AddLongName | include/CLI++/ArgumentParser.hpp:201-205 | the validated name is appended, or nothing changes when validation throws; `name()` stays the same |
| ArgumentParser.Flag.SetStoreFalse | include/CLI++/ArgumentParser.hpp:184 | sets `store_false` only and returns the flag itself |
| ArgumentParser.Flag.SetRequired | include/CLI++/ArgumentParser.hpp:174-178 | sets the required flag only and returns the flag itself |
| ArgumentParser.Flag.SetDescription | include/CLI++/ArgumentParser.hpp:179-183 | sets the description only and returns the flag itself |
| ArgumentParser.PositionalArgument.Init | include/CLI++/ArgumentParser.hpp:228-231 | a new argument has the validated name, the given value and description, not required |
| ArgumentParser.PositionalArgument.Create | include/CLI++/ArgumentParser.hpp:228-231 | construction throws iff the name does not validate; otherwise the name is the validated name |
| ArgumentParser.PositionalArgument.Name | include/CLI++/ArgumentParser.hpp:236 | `name()` validates to itself and is accepted by `checkName` |
| ArgumentParser.PositionalArgument.CheckName | include/CLI++/ArgumentParser.hpp:237 | true iff the name equals the argument's name |
| ArgumentParser.PositionalArgument.SetRequired | include/CLI++/ArgumentParser.hpp:239-243 | sets the required flag only and returns the argument itself |
| ArgumentParser.PositionalArgument.SetDescription | include/CLI++/ArgumentParser.hpp:244-248 | sets the description only and returns the argument itself |

## Left out

- Pipeline parsing and execution are not modelled: `Pipeline`, and `CLI::parse`, `execute`, `runPipeline` and `exec`. Only their declarations are in the headers, and they work on `std::iostream` objects.
- Console I/O is not modelled: `CLI::print`, `get`, `getline` and `printStderr`.
- src/CLI++.cpp is not part of this model: the readline main loop, the completion callbacks and the global instance.
- The regular-expression tokenizer is not modelled: `str_to_argv` in src/StringHelper.cpp, and the `__REGEX_SPLIT` variant of `string_to_argv`. It is a wrapper over `std::regex`.
- Styled output through `fmt` is not modelled: `StyledArg`, its formatter and `styled`.
- Runtime helpers are not modelled: `convert_str` (`mbstowcs`), `type_name` (ABI demangling), `ScopeGuard` and `operator""_S`. Wide characters (`CharType` as `wchar_t`) are not modelled either.
- Type-based access is not modelled: `LexicalCast`, `OptionBase::get<T>`, the `get()` accessors, `storedTypeInfo` and `storedTypeName`. They rely on RTTI and stream conversion.
- `OptionBase::type()` is not modelled. It reads `opt_type`, which the constructor never initialises.
- `ArgParser` is not modelled. Its `parse` is only declared, and `addOption` builds an `Option<bool>` for every `T`.
- The `CLICommand` members whose bodies are not in the headers are not modelled: `match`, `usage`, `addOption`/`removeOption` and `addSubCommand`/`removeSubCommand`. Neither is `CLI::updateHelp`, the `CLI` constructor, destructor or `setPrompt`, nor the command's call operator or `CLICommandGeneric`'s stored function.
- The `operator==` overloads of `Option` and `PositionalArgument` are not modelled separately. They are `checkName` and `checkShortName` under another name.
- Interactive.CLI.InsertCommand: the call to `updateHelp` that follows the insertion is not modelled, because its body is not in the headers.
- Interactive.CLI.InsertCommand: `delete` is modelled by adding the command to the ghost set `freed`; a destructor's effects are not modelled.
- Interactive.CLICommand.constructor: the name is a `const` field, so the non-const `name()` accessor, which could rename a stored command, is not modelled.
- Interactive.CLI.Command: the map `std::map<StringView, CLICommand*>` keys each command by a view of the command's own name string (include/CLI++/CLI++.hpp:401, 257). The model keys by the name's value, so it does not capture that a key dangles once its command is deleted, as after re-inserting the stored command. The key order of `std::map` is not modelled either.
- Tokenizer.Strdup: allocation failure (`malloc` returning null) is not modelled.
- Tokenizer.SplitToken: the `err` out-pointer being null is not modelled; the error is always returned.
- ArgumentParser.Flag.Init: `store_false` is left indeterminate, because the constructor does not initialise it.
- ArgumentParser.Option.Create: a thrown exception is modelled as a `Failure` result carrying its message.

## Findings

| source | as written | input that shows it | evidently intended | confidence | as-written member | corrected member |
|---|---|---|---|---|---|---|
| include/CLI++/CLI++.hpp:253-259 | `insertCommand(c)` takes and deletes whatever is stored under `c`'s name, then stores `c` under a view of `c`'s name | inserting the same command `c` twice: the second call takes out `c`, deletes it, then reads the deleted `c`'s name for the key and stores the dangling pointer | re-inserting the stored command should keep it, not delete it | medium, not executed | Interactive.ReinsertSameCommand | Interactive.CLI.InsertCommandChecked |
