# Basic C Shell front end in Dafny

This project models the string-processing front end of a small C++ shell. It covers the following, and proves what each promises.

- **Argument tokenizer.** `populateArguments` in src/helpers.h is a character-level state machine. It approximates the quoting rules of section 2.2 of the POSIX Shell Command Language: escape character, single quotes and double quotes. The helper `nextIsSpecialChar` uses the set of section 2.2.3.
- **Command-line splitter.** `parseCommand` in src/Command.h takes the first word as the command name, using the quote-aware `_handleQuotedCmdName` when the word starts with a quote. It hands the text after the first unquoted space to the tokenizer.
- **PATH search.** `getPath` tries `entry + slash + name` and then the same path with `.exe` for each PATH entry, and returns the first that exists.
- **Builtins.** Membership in the builtin list, the exit code of `exit`, and the lines `echo` and `type` print.

Modules, one per source concern:

| file | module | models |
|---|---|---|
| results.dfy | `Results` | `Option`, and `Result` with the ways C++ code leaves its normal path |
| strings.dfy | `Strings` | C `isspace`, first occurrence, split and join at a separator, words |
| tokenizer.dfy | `Tokenizer` | `nextIsSpecialChar`; `populateArguments` as a specification (`Step`, `Scan`, `Flush`, `Tokenize`) and as the in-place loop (`PopulateArguments`) |
| tokenizer_lemmas.dfy | `TokenizerProperties` | invariants, bounds, failure cases and quoting behaviour of the tokenizer |
| tokenizer_examples.dfy | `TokenizerExamples` | families of inputs and concrete inputs with their tokens |
| path_search.dfy | `PathSearch` | `getPath` |
| command.dfy | `CommandParser` | `Command`, `_handleQuotedCmdName`, `populateCommandName`, `parseCommand` |
| builtins.dfy | `Builtins` | `isBuiltin`, `atoi`, `handleExitCommand`, `handleEchoCommand`, `handleTypeCommand` |

The loops of the source are methods proved equal to specification functions:
- `PopulateArguments` computes `Tokenize`.
- `HandleQuotedCmdName` computes `QuotedCmdName`.
- `GetPath` computes `PathLookup`.
- `HandleEchoCommand` prints `Join(args, ' ') + "\n"`.

The lemmas then state what the source promises about those functions.

Failures of the C++ code are explicit results:
- An `at` call past the end throws `std::out_of_range`. This is `OutOfRange`.
- `_handleQuotedCmdName` can reach its end without a `return`. This is `FellOffEnd`.
- `populateCommandName` reads `input[0]` of an empty input. This is `EmptyInput`.

Indices are `size_t`. `npos` is 2^64 - 1, and `npos + 1` wraps to 0 (`SizeSucc`).

Where the code departs from POSIX quoting or from what a shell user would expect, the model follows the code:
- Adjacent quoted segments are not merged: `'it''s'` gives `["it", "s"]`.
- Input made only of spaces gives a command with an empty name and no arguments. It does not give an error.
- Tabs and other whitespace are ordinary characters for the tokenizer. Only the space character separates tokens. Only the `"` rule consults `isspace`.

## Model

| member | source | states |
|---|---|---|
| Strings.Split | src/helpers.h:231-233 | successive `getline` calls with a delimiter always yield at least one field, even on an empty string |
| Strings.JoinSplit | src/helpers.h:231-233 | the fields `getline` yields, empty ones included, join back at the delimiter into the input, and no field holds the delimiter |
| Strings.SplitJoin | src/helpers.h:231-233 | splitting undoes joining when no field holds the separator |
| Strings.IndexOf | src/Command.h:83 | `find` of a character present in the string: an index holding it, with no occurrence before it |
| Strings.Words | src/helpers.h:116-133 | splitting at spaces and dropping empty fields leaves only non-empty words without spaces |
| Tokenizer.NextIsSpecialChar | src/helpers.h:12-16 | fails with out-of-range exactly when there is no character after `idx`; otherwise true exactly when that character is `$`, backquote, backslash, newline or `"` |
| Tokenizer.Step | src/helpers.h:37-152 | one iteration of the loop; it fails only with out-of-range, on a backslash that is the last character, inside double quotes with no escape pending |
| Tokenizer.Scan | src/helpers.h:31-153 | the loop from a position and state to the end of the input; its properties are the `Scan…` lemmas of `TokenizerProperties` |
| Tokenizer.Flush | src/helpers.h:155-161 | the end of input keeps the emitted tokens and adds exactly the non-empty ones of the double-quoted buffer and the unquoted buffer, in that order; the single-quoted buffer is never added |
| Tokenizer.Tokenize | src/helpers.h:19-164 | `populateArguments` as a function: the loop then the flush; its properties are the `Tokenize…` lemmas and the examples |
| Tokenizer.PopulateArguments | src/helpers.h:19-164 | the in-place loop over three buffers and three flags returns exactly `Tokenize(cmd)`, including its failure; it keeps "never both quote modes", "a quote buffer is empty while its mode is off" and "no escape inside single quotes" as loop invariants |
| TokenizerProperties.ScanKeepsConsistent | src/helpers.h:31-153 | from a consistent state, the loop only reaches consistent states |
| TokenizerProperties.ScanHeldBound | src/helpers.h:31-153 | the characters held in tokens and buffers grow by at most one per character consumed |
| TokenizerProperties.ScanStep | src/helpers.h:31-153 | after one successful iteration the loop continues from the state that iteration produced |
| TokenizerProperties.StepKeepsConsistent | src/helpers.h:37-153 | one iteration from a consistent state gives a consistent state |
| TokenizerProperties.StepHoldsAtMostOneMore | src/helpers.h:37-153 | one iteration adds at most one character to the tokens and buffers |
| TokenizerProperties.FlushBounded | src/helpers.h:155-161 | the final flush emits no more characters than the state holds |
| TokenizerProperties.ScanFailsOnlyAtTrailingBackslash | src/helpers.h:12-87 | a failing run of the loop fails with out-of-range, at a backslash that ends the input |
| TokenizerProperties.TokenizeBounded | src/helpers.h:19-164 | the total length of the tokens never exceeds the length of the input, and the final state is consistent |
| TokenizerProperties.TokenizeFailsOnlyAtTrailingBackslash | src/helpers.h:77-87 | the tokenizer fails only with out-of-range, and only when the input ends in a backslash |
| TokenizerProperties.WordRun | src/helpers.h:138-152 | outside quotes, a run of characters other than quotes, backslash and space is appended to the unquoted buffer |
| TokenizerProperties.StepOrdinary | src/helpers.h:115-152 | outside quotes a space emits a non-empty unquoted buffer or is skipped, and any other ordinary character extends the buffer |
| TokenizerProperties.ScanOrdinary | src/helpers.h:31-161 | over input without quotes or backslashes the loop succeeds, and the tokens are those emitted so far followed by the words of the unquoted buffer and the rest of the input |
| TokenizerProperties.ScanSpaceEmits | src/helpers.h:124-130 | a space after a non-empty unquoted buffer emits it as a word, consistent with splitting at spaces |
| TokenizerProperties.ScanSpaceSkips | src/helpers.h:124-132 | a space with an empty unquoted buffer emits nothing, as an empty field is dropped |
| TokenizerProperties.TokenizeOrdinary | src/helpers.h:116-161 | input without `'`, `"` or backslash yields its words: split on the space character, empty fields dropped, in order |
| TokenizerProperties.TokenizeWord | src/helpers.h:138-161 | one plain word is one token |
| TokenizerProperties.TokenizeJoin | src/helpers.h:116-161 | plain words joined by single spaces tokenize back to the same words |
| TokenizerProperties.SingleRun | src/helpers.h:137-142 | inside single quotes every character up to the next `'` is literal |
| TokenizerProperties.SingleQuotedSegment | src/helpers.h:51-65 | a closing `'` emits the quoted text as its own token, even when empty |
| TokenizerProperties.UnterminatedSingleQuote | src/helpers.h:155-161 | an unterminated single-quoted segment is discarded at the end of input |
| TokenizerProperties.DoubleRun | src/helpers.h:144-149 | inside double quotes characters other than `"` and backslash go to the double-quote buffer |
| TokenizerProperties.DoubleQuotedSegment | src/helpers.h:90-113 | a `"` followed by whitespace or the end of input closes the quote and emits its text as a token |
| TokenizerProperties.QuoteBeforeNonSpaceDropped | src/helpers.h:93 | inside double quotes a `"` before a non-whitespace character is dropped and the quote stays open |
| TokenizerProperties.UnterminatedDoubleQuote | src/helpers.h:155-161 | an unterminated double-quoted segment is emitted at the end, before the unquoted buffer that preceded it |
| TokenizerProperties.UnquotedEscape | src/helpers.h:37-48 | outside quotes a backslash is dropped and the next character is appended literally |
| TokenizerProperties.DanglingBackslash | src/helpers.h:77-87 | a final unquoted backslash is dropped |
| TokenizerProperties.DoubleQuotedEscape | src/helpers.h:77-87 | inside double quotes a backslash before a special character is dropped and that character is kept literally |
| TokenizerProperties.DoubleQuotedBackslashKept | src/helpers.h:77-87 | inside double quotes a backslash before any other character is kept |
| TokenizerProperties.DoubleQuotedTrailingBackslash | src/helpers.h:12-16 | a backslash ending the input inside double quotes fails with out-of-range |
| TokenizerExamples.EscapedSpace | src/helpers.h:37-48 | `a\ b` gives `["a b"]` |
| TokenizerExamples.EscapedSingleQuote | src/helpers.h:37-48 | `\'` gives `["'"]`; no quote opens |
| TokenizerExamples.EscapedDoubleQuoteInside | src/helpers.h:37-110 | for any `a` and `b` without `"` or backslash, `"a\"b"` gives the one token `a"b`: the escaped quote neither closes nor is dropped |
| TokenizerExamples.BackslashKeptInsideDoubleQuotes | src/helpers.h:77-148 | for any such `a` and `b` with `b` not starting with a special character, `"a\b"` gives the one token `a\b`: the backslash is kept |
| TokenizerExamples.EmptySingleQuotes | src/helpers.h:51-65 | `''` gives `[""]` |
| TokenizerExamples.SingleQuoteThenWord | src/helpers.h:51-65 | `'a'b` gives `["a", "b"]` |
| TokenizerExamples.AdjacentSingleQuotedSegments | src/helpers.h:51-65 | for any quote-free `a` and `b`, `'a''b'` gives the two tokens `a` and `b` (`'it''s'` gives `it`, `s`): segments never merge |
| TokenizerExamples.SingleQuotedSpace | src/helpers.h:51-133 | for any quote-free `q`, spaces included, and plain word `w`, `'q' w` gives the tokens `q` and `w` (`'a b' c` gives `a b`, `c`) |
| TokenizerExamples.TrailingWord | src/helpers.h:115-161 | a space and then a plain word running to the end leave exactly that word in the unquoted buffer |
| TokenizerExamples.ClosingDoubleQuote | src/helpers.h:102-110 | a closing `"` at the end of the input emits the double-quoted text as a token |
| TokenizerExamples.DoubleQuoteGluedToWord | src/helpers.h:89-157 | for any `a` and `b` without `"` or backslash, `b` not empty and not starting with whitespace, `"a"b` gives the one token `ab` (`"foo"bar` gives `foobar`): the quote is dropped and the flush emits the open quote's text |
| TokenizerExamples.OutOfOrderFlush | src/helpers.h:155-161 | `ab"cd` gives `["cd", "ab"]` |
| TokenizerExamples.UnterminatedSingleQuoteDiscarded | src/helpers.h:155-161 | `ab 'cd` gives `["ab"]` |
| TokenizerExamples.TrailingBackslashInsideDoubleQuotes | src/helpers.h:12-16 | `"a\` fails with out-of-range |
| PathSearch.Candidate | src/helpers.h:234-235 | the path tried is the entry, the separator, then the command name |
| PathSearch.Candidates | src/helpers.h:231-249 | per entry, in PATH order, the plain path and then the path with `.exe` |
| PathSearch.FirstExisting | src/helpers.h:237-249 | the result is empty or an existing candidate with no existing candidate before it; when no candidate is empty, it is empty exactly when no candidate exists |
| PathSearch.PathLookup | src/helpers.h:208-251 | with PATH unset nothing is found; anything found exists; the rest is `SearchSpec` over the PATH entries |
| PathSearch.GetPath | src/helpers.h:208-251 | the `getline` loop with early returns computes the first existing candidate over the PATH entries, or the empty string, and the empty string when PATH is unset |
| PathSearch.SearchSpec | src/helpers.h:231-250 | a found path exists; it is the plain candidate of some entry, or its `.exe` candidate when the plain one does not exist; no earlier entry has an existing candidate; nothing is found exactly when no entry has one |
| PathSearch.UnsetPathFindsNothing | src/helpers.h:214-216 | with PATH unset the result is the empty string |
| PathSearch.EmptyPathTriesRoot | src/helpers.h:225-235 | an empty PATH is one empty entry, so `slash + name` is tried |
| PathSearch.TrailingDelimiterAddsEmptyEntry | src/helpers.h:231-233 | a trailing delimiter adds one empty entry after all others |
| CommandParser.SizeSucc | src/Command.h:100 | `idx + 1` in `size_t`: modulo 2^64, zero exactly for `npos` |
| CommandParser.ScanName | src/Command.h:25-67 | a reported index lies in the part of the input still to scan and holds a space; the name grows by at most one character per character scanned; a throw is out-of-range and happens only when the input ends in a backslash |
| CommandParser.StartScan | src/Command.h:18-25 | the scan starts after the opening character, so a reported space is at index 1 or later and the name is shorter than that index; that the name is `input[1..k]` when the quote closes at `k` is stated by `SingleQuoteCloses` and `DoubleQuoteCloses` |
| CommandParser.QuotedCmdName | src/Command.h:18-68 | a returned index is a space after the opening quote; otherwise the function falls off its end or `at` throws on a trailing backslash |
| CommandParser.HandleQuotedCmdName | src/Command.h:18-68 | the loop with its early returns computes `QuotedCmdName` |
| CommandParser.PopulateCommandName | src/Command.h:71-93 | empty input is an error; an unquoted name is the text before the first space and the index is that space, or the whole input with `npos` when there is no space |
| CommandParser.WithArguments | src/Command.h:100 | the command holds the name and the tokens of the argument text, or the tokenizer's failure |
| CommandParser.ParseCommand | src/Command.h:96-101 | empty input is the only `EmptyInput` error; an out-of-range failure comes from a trailing backslash |
| CommandParser.LiteralRun | src/Command.h:36-66 | once no quote is open, characters up to the next space are appended literally |
| CommandParser.AfterCloseIsLiteral | src/Command.h:25-67 | after the opening quote closes, the name continues literally to the next space; quote mode is never re-entered |
| CommandParser.SingleQuotedRun | src/Command.h:43-66 | inside a single quote, `"` and backslash are literal |
| CommandParser.DoubleQuotedRun | src/Command.h:50-66 | inside a double quote, characters other than `"` and backslash are literal, spaces included |
| CommandParser.SingleQuoteCloses | src/Command.h:25-47 | inside single quotes every character up to the first closing `'` is appended literally, and the scan leaves quote mode after it |
| CommandParser.QuotedNameAfterClose | src/Command.h:25-68 | once the quote has closed, the result is the name so far plus the text up to the next space and that space's index, or falling off the end when no space follows |
| CommandParser.SingleQuotedName | src/Command.h:18-68 | for a name opened by `'` and closed at `k`: the quoted text plus what follows the closing quote up to the first space, and that space's index; with no space after it the function falls off its end |
| CommandParser.UnterminatedSingleQuotedName | src/Command.h:18-68 | a `'` that never closes makes the scan run to the end of the input with the rest as name, and the function falls off its end |
| CommandParser.DoubleQuoteCloses | src/Command.h:25-63 | inside double quotes without a backslash every character up to the closing `"` is appended literally, and the scan leaves quote mode after it |
| CommandParser.DoubleQuotedName | src/Command.h:18-68 | the same as for `'` when the name opens with `"` and has no backslash inside the quotes |
| CommandParser.UnterminatedDoubleQuotedName | src/Command.h:18-68 | a `"` that never closes, with no backslash, runs to the end of the input and the function falls off its end |
| CommandParser.EscapeInDoubleQuotedName | src/Command.h:57-63 | inside a double quote a backslash before a special character is dropped and that character appended |
| CommandParser.BackslashKeptInDoubleQuotedName | src/Command.h:57-66 | inside a double quote a backslash before another character is kept |
| CommandParser.TrailingBackslashInDoubleQuotedName | src/Command.h:59 | a backslash ending the input inside a double quote makes `at` throw |
| CommandParser.ParseUnquoted | src/Command.h:96-101 | for an unquoted name followed by a space, the arguments are the tokens after that space |
| CommandParser.ParseBlank | src/Command.h:83-100 | input made only of spaces gives an empty name and no arguments |
| CommandParser.BlankTokenize | src/helpers.h:116-133 | spaces alone give no tokens |
| CommandParser.QuotedNameAloneFallsOffEnd | src/Command.h:25-68 | `"ls"` makes `_handleQuotedCmdName` fall off its end |
| CommandParser.QuotedCmdNameCorrected | src/Command.h:25-68 | with the missing return supplied as the name and `npos`, it agrees with the source wherever the source returns and fails only on a trailing backslash |
| CommandParser.QuotedNameAloneCorrected | src/Command.h:96-101 | with the corrections, `"ls"` is the command `ls` with no arguments |
| CommandParser.ParseWithoutSpace | src/Command.h:86-100 | a plain word with no space becomes both the name and the only argument |
| CommandParser.UnquotedWithoutSpace | src/Command.h:86-100 | any input without a space that does not open with a quote is both the name and, because `npos + 1` wraps to 0, the text tokenized as the arguments |
| CommandParser.QuoteInNameWithoutSpace | src/Command.h:86-100 | `a"b` has the name `a"b` and the arguments `b`, `a`: the whole line is tokenized again, and the quote's text is flushed first |
| CommandParser.EchoAloneEchoesItsName | src/Command.h:86-100 | `echo` parses to name `echo` with argument `echo` |
| CommandParser.ParseCommandCorrected | src/Command.h:96-101 | reading `npos` as "no arguments", the only failures are empty input and a trailing backslash |
| CommandParser.ParseCorrectedWords | src/Command.h:96-101 | with the correction, a line of plain words gives the first word as the name and the remaining words as the arguments |
| Builtins.Find | src/Builtins.h:15 | `std::find`: the first index holding the value, or the length when there is none |
| Builtins.IsBuiltin | src/Builtins.h:12-20 | true exactly for `exit`, `echo`, `type`, `pwd` and `cd` |
| Builtins.NatToString | src/Builtins.h:38 | a decimal numeral whose digit value is the number |
| Builtins.AtoiNatToString | src/Builtins.h:38 | `atoi` reads back the numeral of a natural number |
| Builtins.AtoiNegated | src/Builtins.h:38 | `atoi` reads a minus sign followed by a numeral as its negation |
| Builtins.AtoiStopsAtNonDigit | src/Builtins.h:38 | `atoi` stops at the first non-digit |
| Builtins.AtoiWithoutDigits | src/Builtins.h:38 | without leading digits after whitespace and a sign, `atoi` gives 0 |
| Builtins.AtoiSkipsSpace | src/Builtins.h:38 | leading whitespace does not change `atoi` |
| Builtins.SkipSpace | src/Builtins.h:38 | `atoi` skips exactly the leading whitespace: a suffix of the input that does not start with whitespace, after only whitespace |
| Builtins.DigitPrefix | src/Builtins.h:38 | `atoi` reads exactly the longest run of digits: all digits, followed by a non-digit or the end |
| Builtins.Atoi | src/Builtins.h:38 | `std::atoi` on a representable numeral; what it reads is stated by the `Atoi…` lemmas and `SkipSpace`/`DigitPrefix` |
| Builtins.IntToString | src/Builtins.h:38 | every integer has a numeral that `atoi` reads as it |
| Builtins.HandleExitCommand | src/Builtins.h:23-39 | no argument exits with 0 silently; more than one prints the diagnostic and exits with 1; one argument exits silently with its `atoi` value; the code always fits in an `int` |
| Builtins.ExitWithCode | src/Builtins.h:37-38 | `exit N` exits with N and prints nothing |
| Builtins.ExitReadsLeadingDigits | src/Builtins.h:37-38 | an argument made of digits and then a non-digit (`12abc`) exits with the value of the digits |
| Builtins.ExitWithoutDigits | src/Builtins.h:37-38 | an argument with no digits after whitespace and a sign (`abc`) exits with 0 |
| Builtins.ExitTooManyArguments | src/Builtins.h:31-35 | `exit 1 2` prints the diagnostic and exits with 1, whatever the arguments |
| Builtins.HandleEchoCommand | src/Builtins.h:42-52 | the loop prints the arguments joined by single spaces, with no trailing space, then a newline |
| Builtins.EchoSplitsBack | src/Builtins.h:42-52 | the printed line, without its newline, splits back at the spaces into arguments that hold no space |
| Builtins.HandleTypeCommand | src/Builtins.h:55-83 | the text ends with a newline; it is the usage line for any count other than one; for one argument it begins with the argument (the exact lines are `TypeAnswers`) |
| Builtins.TypeIgnoresLookup | src/Builtins.h:58-73 | the PATH search is not consulted for a wrong argument count or a builtin |
| Builtins.TypeAnswers | src/Builtins.h:64-82 | `X is a shell builtin`, `X is P` for a found path P, `X: not found` otherwise |

## Left out

- `getOsName`, `getPATHDelim`, `getOSSlash` (src/helpers.h:167-194): platform detection by the preprocessor. The PATH delimiter and the directory separator are parameters of `GetPath`.
- `getenv` and `std::filesystem::exists`: the value of PATH is an `Option` parameter, and the existence test is a function parameter. Errors reported by the file system are not modelled.
- `getUserHomeDir`, `getCWD`, `handleCdCommand`: they read or change the process's working directory and home directory. This is file-system state outside the model.
- `invokeCommand` and `handleUnknownCommand`: they launch a process with `std::system`.
- Output streams: what `exit`, `echo` and `type` print is a returned string, with `std::endl` as a newline. Flushing and interleaving with standard error are not modelled.
- HandleExitCommand: requires the numeral to fit in an `int`, because `atoi` overflow is undefined behaviour.
- HandleTypeCommand: takes the PATH search as a function parameter. `lookup` stands for `getPath`, whose result is `PathSearch.PathLookup`, which `GetPath` is proved to compute.
- PopulateCommandName: requires the input to be shorter than `npos`, which every `std::string_view` is. Reading `input[0]` of an empty input is undefined behaviour; it is reported as `EmptyInput` instead.
- src/main.cpp is not part of this model. It is a one-line stub that does not call the core.
- Characters: strings are sequences of Unicode characters, while the source works on the bytes of a `std::string`. Every special character is ASCII, so the tokens agree up to encoding. `std::isspace` on a negative `char` is undefined behaviour and is modelled as false for non-ASCII, and `TokenizeBounded` counts characters, not bytes.

## Findings

| source | as written | input that shows it | evidently intended | confidence | as-written member | corrected member |
|---|---|---|---|---|---|---|
| src/Command.h:25-68 | `_handleQuotedCmdName` has no `return` after its loop, so a quoted name with no unquoted space after it reaches the end of a value-returning function | `"ls"` | return the name and `npos`, as the unquoted branch of `populateCommandName` does, so the command has no arguments | medium, not executed | CommandParser.QuotedNameAloneFallsOffEnd | CommandParser.QuotedCmdNameCorrected |
| src/Command.h:86-100 | with no space, the index is `npos`, and `npos + 1` wraps to 0, so the whole line, command name included, becomes the arguments | `echo` gives the argument `echo` | no arguments when the line has no space | medium, not executed | CommandParser.EchoAloneEchoesItsName | CommandParser.ParseCorrectedWords |
