/** The command-line splitter of src/Command.h: the first word becomes the
    command name (`populateCommandName`, with the quote-aware scanner
    `_handleQuotedCmdName`), and the text after the first unquoted space is
    handed to the argument tokenizer (`parseCommand`).

    Indices are `size_t` in the source. `std::string::npos` is the largest
    `size_t`, and `npos + 1` wraps to 0; both are written out here. */
module CommandParser {
  import opened Results
  import opened Strings
  import opened Tokenizer
  import opened TokenizerProperties

  /** `std::string::npos`, the largest 64-bit `size_t`. */
  const NPOS: nat := 0xFFFF_FFFF_FFFF_FFFF
  /** Arithmetic on `size_t` is modulo 2^64. */
  const SIZE_MODULUS: nat := 0x1_0000_0000_0000_0000

  /** `idx + 1` on `size_t`: wraps from `npos` to 0. */
  function SizeSucc(idx: nat): (r: nat)
    requires idx <= NPOS
    ensures r == (idx + 1) % SIZE_MODULUS
    ensures r == 0 <==> idx == NPOS
  {
    if idx == NPOS then 0 else idx + 1
  }

  /** A parsed command line: a name and zero or more arguments. */
  datatype Command = Command(name: string, arguments: seq<string>)

  /** Where the scan of a quoted command name stops: at an unquoted space
      (with the name so far and the space's index), at the end of the input
      (with the name so far), or at a throwing `at` call. */
  datatype NameScan = AtSpace(name: string, index: nat) | AtEnd(name: string) | Threw(failure: Failure)

  /** The loop of `_handleQuotedCmdName` from position `i`, with the quote and
      escape flags and the name collected so far. */
  function ScanName(input: string, i: nat, inSingle: bool, inDouble: bool, escaping: bool, name: string): (r: NameScan)
    requires i <= |input|
    ensures r.AtSpace? ==> i <= r.index < |input| && input[r.index] == ' '
    ensures r.AtSpace? ==> |r.name| <= |name| + (r.index - i)
    ensures r.Threw? ==> r.failure == OutOfRange && |input| > 0 && input[|input| - 1] == '\\'
    decreases |input| - i
  {
    if i == |input| then AtEnd(name)
    else
      var c := input[i];
      if escaping then ScanName(input, i + 1, inSingle, inDouble, false, name + [c])
      else if c == ' ' && !inSingle && !inDouble then AtSpace(name, i)
      else if c == '\'' && inSingle then ScanName(input, i + 1, false, inDouble, escaping, name)
      else if c == '"' && inDouble then ScanName(input, i + 1, inSingle, false, escaping, name)
      else if c == '\\' && inDouble then
        match NextIsSpecialChar(input, i)
        case Err(f) => Threw(f)
        case Ok(special) =>
          if special then ScanName(input, i + 1, inSingle, inDouble, true, name)
          else ScanName(input, i + 1, inSingle, inDouble, escaping, name + [c])
      else ScanName(input, i + 1, inSingle, inDouble, escaping, name + [c])
  }

  /** The scan `_handleQuotedCmdName` starts: after the opening quote, in the
      quote mode that character opens. */
  function StartScan(input: string): (r: NameScan)
    requires |input| > 0
    ensures r.AtSpace? ==> 1 <= r.index < |input| && input[r.index] == ' '
    ensures r.AtSpace? ==> |r.name| < r.index
  {
    ScanName(input, 1, input[0] == '\'', input[0] == '"', false, [])
  }

  /** `_handleQuotedCmdName` as written: reaching the end of the input falls
      off the end of the function without a return. */
  function QuotedCmdName(input: string): (r: Result<(string, nat)>)
    requires |input| > 0
    ensures r.Ok? ==> 1 <= r.value.1 < |input| && input[r.value.1] == ' '
    ensures r.Err? ==> r.failure == FellOffEnd || (r.failure == OutOfRange && input[|input| - 1] == '\\')
  {
    match StartScan(input)
    case AtSpace(name, index) => Ok((name, index))
    case AtEnd(_) => Err(FellOffEnd)
    case Threw(f) => Err(f)
  }

  /** `_handleQuotedCmdName`: the loop of the source over the input after its
      first character. */
  method HandleQuotedCmdName(input: string) returns (r: Result<(string, nat)>)
    requires |input| > 0
    ensures r == QuotedCmdName(input)
  {
    var inSingleQuote := input[0] == '\'';
    var inDoubleQuote := input[0] == '"';
    var escaping := false;
    var cmdName: string := [];

    for i := 1 to |input|
      invariant ScanName(input, i, inSingleQuote, inDoubleQuote, escaping, cmdName) == StartScan(input)
    {
      var character := input[i];

      if escaping {
        cmdName := cmdName + [character];
        escaping := false;
        continue;
      }

      if character == ' ' && !inSingleQuote && !inDoubleQuote {
        return Ok((cmdName, i));
      }

      if character == '\'' && inSingleQuote {
        inSingleQuote := false;
        continue;
      }

      if character == '"' && inDoubleQuote {
        inDoubleQuote := false;
        continue;
      }

      if character == '\\' && inDoubleQuote {
        if i + 1 >= |input| {
          // `at(i + 1)` inside nextIsSpecialChar throws
          return Err(OutOfRange);
        }
        if IsSpecialChar(input[i + 1]) {
          escaping := true;
          continue;
        }
      }

      cmdName := cmdName + [character];
    }
    // control reaches the end of the function without a return
    return Err(FellOffEnd);
  }

  /** `populateCommandName`: a quoted first word goes to the quote scanner;
      otherwise the name is everything before the first space and the index
      is that space, or the whole input with index `npos` when there is no
      space. Reading `input[0]` of an empty input is undefined behaviour,
      reported as `EmptyInput`. A `string_view` is shorter than `npos`. */
  function PopulateCommandName(input: string): (r: Result<(string, nat)>)
    requires |input| < NPOS
    ensures |input| == 0 <==> r == Err(EmptyInput)
    ensures r.Ok? ==> r.value.1 == NPOS || (r.value.1 < |input| && input[r.value.1] == ' ')
    ensures |input| > 0 && input[0] != '\'' && input[0] != '"' ==>
              && r.Ok?
              && (r.value.1 == NPOS <==> ' ' !in input)
              && (r.value.1 == NPOS ==> r.value.0 == input)
              && (r.value.1 != NPOS ==> input == r.value.0 + input[r.value.1..] && ' ' !in r.value.0)
  {
    if |input| == 0 then Err(EmptyInput)
    else if input[0] == '\'' || input[0] == '"' then QuotedCmdName(input)
    else if ' ' in input then
      var k := IndexOf(input, ' ');
      assert input == input[..k] + input[k..];
      Ok((input[..k], k))
    else Ok((input, NPOS))
  }

  /** `parseCommand`: the name from `populateCommandName`, and as arguments the
      tokens of the input after position `idx + 1`, computed in `size_t`, so
      that `npos + 1` is 0. */
  function ParseCommand(input: string): (r: Result<Command>)
    requires |input| < NPOS
    ensures |input| == 0 <==> r == Err(EmptyInput)
    ensures r.Err? && r.failure == OutOfRange ==> input[|input| - 1] == '\\'
  {
    match PopulateCommandName(input)
    case Err(f) => Err(f)
    case Ok((name, idx)) =>
      var text := input[SizeSucc(idx)..];
      var r := WithArguments(name, text);
      assert r.Err? ==> r.failure == OutOfRange && input[|input| - 1] == '\\' by {
        if r.Err? {
          TokenizeFailsOnlyAtTrailingBackslash(text);
          assert text[|text| - 1] == input[|input| - 1];
        }
      }
      r
  }

  // ---------------------------------------------------------------------
  // The quoted-name scanner

  /** Outside quotes, characters up to the next space are appended literally,
      quote characters included. */
  lemma {:induction false} LiteralRun(input: string, i: nat, j: nat, name: string)
    requires i <= j <= |input|
    requires forall k :: i <= k < j ==> input[k] != ' '
    ensures ScanName(input, i, false, false, false, name)
            == ScanName(input, j, false, false, false, name + input[i..j])
    decreases j - i
  {
    if i == j {
      assert name + input[i..j] == name;
    } else {
      LiteralRun(input, i + 1, j, name + [input[i]]);
      assert name + [input[i]] + input[i + 1..j] == name + input[i..j];
    }
  }

  /** Once the opening quote has closed, no quote mode is entered again: the
      rest of the name is the text up to the next space, taken literally; with
      no space left, the scan reaches the end of the input. */
  lemma AfterCloseIsLiteral(input: string, i: nat, name: string)
    requires i <= |input|
    ensures ' ' in input[i..] ==>
              var e := i + IndexOf(input[i..], ' ');
              ScanName(input, i, false, false, false, name) == AtSpace(name + input[i..e], e)
    ensures ' ' !in input[i..] ==>
              ScanName(input, i, false, false, false, name) == AtEnd(name + input[i..])
  {
    if ' ' in input[i..] {
      var e := i + IndexOf(input[i..], ' ');
      forall k | i <= k < e
        ensures input[k] != ' '
      {
        assert input[k] == input[i..][..e - i][k - i];
      }
      LiteralRun(input, i, e, name);
    } else {
      forall k | i <= k < |input|
        ensures input[k] != ' '
      {
        assert input[k] == input[i..][k - i];
      }
      LiteralRun(input, i, |input|, name);
      assert input[i..|input|] == input[i..];
    }
  }

  /** Inside single quotes every character up to the closing quote is literal,
      double quotes and backslashes included. */
  lemma {:induction false} SingleQuotedRun(input: string, i: nat, j: nat, name: string)
    requires i <= j <= |input|
    requires forall k :: i <= k < j ==> input[k] != '\''
    ensures ScanName(input, i, true, false, false, name)
            == ScanName(input, j, true, false, false, name + input[i..j])
    decreases j - i
  {
    if i == j {
      assert name + input[i..j] == name;
    } else {
      SingleQuotedRun(input, i + 1, j, name + [input[i]]);
      assert name + [input[i]] + input[i + 1..j] == name + input[i..j];
    }
  }

  /** Inside double quotes, characters other than `"` and backslash are
      appended literally, spaces included. */
  lemma {:induction false} DoubleQuotedRun(input: string, i: nat, j: nat, name: string)
    requires i <= j <= |input|
    requires forall k :: i <= k < j ==> input[k] != '"' && input[k] != '\\'
    ensures ScanName(input, i, false, true, false, name)
            == ScanName(input, j, false, true, false, name + input[i..j])
    decreases j - i
  {
    if i == j {
      assert name + input[i..j] == name;
    } else {
      DoubleQuotedRun(input, i + 1, j, name + [input[i]]);
      assert name + [input[i]] + input[i + 1..j] == name + input[i..j];
    }
  }

  /** A single quote closing at `k`: the name so far is the quoted text. */
  lemma SingleQuoteCloses(input: string, k: nat)
    requires 1 <= k < |input| && input[0] == '\'' && input[k] == '\''
    requires forall m :: 1 <= m < k ==> input[m] != '\''
    ensures StartScan(input) == ScanName(input, k + 1, false, false, false, input[1..k])
  {
    SingleQuotedRun(input, 1, k, []);
    assert [] + input[1..k] == input[1..k];
  }

  /** Once the opening quote has closed before `i`, the rest of the name is
      the literal text up to the next space. */
  lemma QuotedNameAfterClose(input: string, i: nat, name: string)
    requires 0 < i <= |input|
    requires StartScan(input) == ScanName(input, i, false, false, false, name)
    ensures QuotedCmdName(input) ==
              if ' ' in input[i..] then
                var e := i + IndexOf(input[i..], ' ');
                Ok((name + input[i..e], e))
              else Err(FellOffEnd)
  {
    AfterCloseIsLiteral(input, i, name);
  }

  /** A name in single quotes closing at `k`: the quoted text, then whatever
      follows the closing quote up to the first space; the index is that
      space. Without a space after the closing quote the function falls off
      its end. */
  lemma SingleQuotedName(input: string, k: nat)
    requires 1 <= k < |input| && input[0] == '\'' && input[k] == '\''
    requires forall m :: 1 <= m < k ==> input[m] != '\''
    ensures QuotedCmdName(input) ==
              if ' ' in input[k + 1..] then
                var e := k + 1 + IndexOf(input[k + 1..], ' ');
                Ok((input[1..k] + input[k + 1..e], e))
              else Err(FellOffEnd)
  {
    SingleQuoteCloses(input, k);
    QuotedNameAfterClose(input, k + 1, input[1..k]);
  }

  /** A single quote that never closes runs to the end of the input, and the
      function falls off its end. */
  lemma UnterminatedSingleQuotedName(input: string)
    requires |input| > 0 && input[0] == '\''
    requires forall m :: 1 <= m < |input| ==> input[m] != '\''
    ensures StartScan(input) == AtEnd(input[1..])
    ensures QuotedCmdName(input) == Err(FellOffEnd)
  {
    SingleQuotedRun(input, 1, |input|, []);
    assert [] + input[1..|input|] == input[1..];
  }

  /** A double quote closing at `k`, with no backslash before it: the name so
      far is the quoted text. */
  lemma DoubleQuoteCloses(input: string, k: nat)
    requires 1 <= k < |input| && input[0] == '"' && input[k] == '"'
    requires forall m :: 1 <= m < k ==> input[m] != '"' && input[m] != '\\'
    ensures StartScan(input) == ScanName(input, k + 1, false, false, false, input[1..k])
  {
    DoubleQuotedRun(input, 1, k, []);
    assert [] + input[1..k] == input[1..k];
  }

  /** A name in double quotes closing at `k`, with no backslash inside the
      quotes: as for single quotes. */
  lemma DoubleQuotedName(input: string, k: nat)
    requires 1 <= k < |input| && input[0] == '"' && input[k] == '"'
    requires forall m :: 1 <= m < k ==> input[m] != '"' && input[m] != '\\'
    ensures QuotedCmdName(input) ==
              if ' ' in input[k + 1..] then
                var e := k + 1 + IndexOf(input[k + 1..], ' ');
                Ok((input[1..k] + input[k + 1..e], e))
              else Err(FellOffEnd)
  {
    DoubleQuoteCloses(input, k);
    QuotedNameAfterClose(input, k + 1, input[1..k]);
  }

  /** A double quote that never closes, with no backslash, runs to the end of
      the input, and the function falls off its end. */
  lemma UnterminatedDoubleQuotedName(input: string)
    requires |input| > 0 && input[0] == '"'
    requires forall m :: 1 <= m < |input| ==> input[m] != '"' && input[m] != '\\'
    ensures StartScan(input) == AtEnd(input[1..])
    ensures QuotedCmdName(input) == Err(FellOffEnd)
  {
    DoubleQuotedRun(input, 1, |input|, []);
    assert [] + input[1..|input|] == input[1..];
  }

  /** Inside double quotes a backslash before a special character is dropped
      and that character is appended literally, even a `"` or a space. */
  lemma EscapeInDoubleQuotedName(input: string, i: nat, name: string)
    requires i + 2 <= |input| && input[i] == '\\' && IsSpecialChar(input[i + 1])
    ensures ScanName(input, i, false, true, false, name)
            == ScanName(input, i + 2, false, true, false, name + [input[i + 1]])
  {
  }

  /** Inside double quotes a backslash before any other character is kept. */
  lemma BackslashKeptInDoubleQuotedName(input: string, i: nat, name: string)
    requires i + 2 <= |input| && input[i] == '\\' && !IsSpecialChar(input[i + 1])
    ensures ScanName(input, i, false, true, false, name)
            == ScanName(input, i + 1, false, true, false, name + ['\\'])
  {
  }

  /** A backslash ending the input inside double quotes makes `at` throw. */
  lemma TrailingBackslashInDoubleQuotedName(input: string, name: string)
    requires |input| > 0 && input[|input| - 1] == '\\'
    ensures ScanName(input, |input| - 1, false, true, false, name) == Threw(OutOfRange)
  {
  }

  // ---------------------------------------------------------------------
  // parseCommand

  /** The command `parseCommand` builds from a name and the argument text. */
  function WithArguments(name: string, text: string): (r: Result<Command>)
    ensures r.Ok? <==> Tokenize(text).Ok?
    ensures r.Ok? ==> r.value.name == name && r.value.arguments == Tokenize(text).value
    ensures r.Err? ==> r.failure == Tokenize(text).failure
  {
    match Tokenize(text)
    case Err(f) => Err(f)
    case Ok(arguments) => Ok(Command(name, arguments))
  }

  /** An unquoted name followed by a space: the arguments are the tokens of
      the text after that space. */
  lemma ParseUnquoted(input: string)
    requires |input| < NPOS
    requires |input| > 0 && input[0] != '\'' && input[0] != '"' && ' ' in input
    ensures var k := IndexOf(input, ' ');
            ParseCommand(input) == WithArguments(input[..k], input[k + 1..])
  {
    var k := IndexOf(input, ' ');
    assert PopulateCommandName(input) == Ok((input[..k], k));
    assert SizeSucc(k) == k + 1;
  }

  /** An input with only spaces gives an empty name and no arguments. */
  lemma ParseBlank(input: string)
    requires 0 < |input| < NPOS
    requires forall k :: 0 <= k < |input| ==> input[k] == ' '
    ensures ParseCommand(input) == Ok(Command([], []))
  {
    var rest := input[1..];
    assert forall k :: 0 <= k < |rest| ==> rest[k] == ' ' by {
      forall k | 0 <= k < |rest| ensures rest[k] == ' ' { assert rest[k] == input[k + 1]; }
    }
    BlankTokenize(rest);
  }

  /** A string of spaces has no tokens. */
  lemma {:induction false} BlankTokenize(s: string)
    requires forall k :: 0 <= k < |s| ==> s[k] == ' '
    ensures Tokenize(s) == Ok([])
  {
    BlankScan(s, 0);
    assert Flush(Start) == [];
  }

  lemma {:induction false} BlankScan(s: string, i: nat)
    requires i <= |s|
    requires forall k :: 0 <= k < |s| ==> s[k] == ' '
    ensures Scan(s, i, Start) == Ok(Start)
    decreases |s| - i
  {
    if i < |s| {
      assert Step(s, i, Start) == Ok(Start);
      BlankScan(s, i + 1);
    }
  }

  // ---------------------------------------------------------------------
  // Findings: a quoted name with nothing after it, and a name with no space

  /** As written, a quoted name that is the whole input, such as `"ls"`, makes
      `_handleQuotedCmdName` fall off its end. */
  lemma QuotedNameAloneFallsOffEnd()
    ensures QuotedCmdName("\"ls\"") == Err(FellOffEnd)
  {
    var input := "\"ls\"";
    assert input[4..] == [];
    DoubleQuotedName(input, 3);
  }

  /** `_handleQuotedCmdName` with the missing return supplied as the unquoted
      branch of `populateCommandName` does it: the name and `npos`. It agrees
      with the source wherever the source returns, and otherwise fails only
      where `at` throws. */
  function QuotedCmdNameCorrected(input: string): (r: Result<(string, nat)>)
    requires |input| > 0
    ensures r.Ok? ==> r.value.1 == NPOS || (1 <= r.value.1 < |input| && input[r.value.1] == ' ')
    ensures r.Err? ==> r.failure == OutOfRange && input[|input| - 1] == '\\'
    ensures QuotedCmdName(input).Ok? ==> r == QuotedCmdName(input)
    ensures QuotedCmdName(input) == Err(FellOffEnd) ==> r.Ok? && r.value.1 == NPOS
  {
    match StartScan(input)
    case AtSpace(name, index) => Ok((name, index))
    case AtEnd(name) => Ok((name, NPOS))
    case Threw(f) => Err(f)
  }

  /** With the correction, `"ls"` is the command `ls` with no arguments. */
  lemma QuotedNameAloneCorrected()
    ensures ParseCommandCorrected("\"ls\"") == Ok(Command("ls", []))
  {
    var input := "\"ls\"";
    DoubleQuotedRun(input, 1, 3, []);
    assert [] + input[1..3] == "ls";
    assert ScanName(input, 3, false, true, false, "ls") == ScanName(input, 4, false, false, false, "ls");
    assert StartScan(input) == AtEnd("ls");
  }

  /** As written, an input without a space gets index `npos`, `npos + 1` wraps
      to 0, and the whole input, command name included, is tokenized as the
      arguments: `echo` has the argument `echo`. */
  lemma ParseWithoutSpace(input: string)
    requires 0 < |input| < NPOS && ' ' !in input && AllOrdinary(input)
    ensures ParseCommand(input) == Ok(Command(input, [input]))
  {
    assert PopulateCommandName(input) == Ok((input, NPOS));
    assert input[0..] == input;
    TokenizeWord(input);
  }

  /** As written, any input without a space whose first character is not a
      quote is both the name and the text that is tokenized as the arguments. */
  lemma UnquotedWithoutSpace(input: string)
    requires 0 < |input| < NPOS && ' ' !in input
    requires input[0] != '\'' && input[0] != '"'
    ensures ParseCommand(input) == WithArguments(input, input)
  {
    assert PopulateCommandName(input) == Ok((input, NPOS));
    assert input[0..] == input;
  }

  /** `a"b`: the name is `a"b`, and tokenizing the whole line again gives the
      arguments `b` (the unterminated quote's text) and `a`, in that order. */
  lemma QuoteInNameWithoutSpace(a: string, b: string)
    requires a != []
    requires forall k :: 0 <= k < |a| ==> Ordinary(a[k]) && a[k] != ' '
    requires forall k :: 0 <= k < |b| ==> b[k] != '"' && b[k] != '\\' && b[k] != ' '
    requires |a| + |b| + 1 < NPOS
    ensures ParseCommand(a + "\"" + b) == Ok(Command(a + "\"" + b, if b != [] then [b, a] else [a]))
  {
    var c := a + "\"" + b;
    var i := |a|;
    assert c[..i] == a && c[i] == '"' && c[i + 1..] == b;
    assert ' ' !in c by {
      forall k | 0 <= k < |c| ensures c[k] != ' ' {
        if k < i { assert c[k] == a[k]; } else if k > i { assert c[k] == b[k - i - 1]; }
      }
    }
    forall k | i < k < |c| ensures c[k] != '"' && c[k] != '\\' {
      assert c[k] == b[k - i - 1];
    }
    UnquotedWithoutSpace(c);
    WordRun(c, 0, i, Start);
    assert Start.normal + c[0..i] == a;
    var st := Start.(normal := a);
    UnterminatedDoubleQuote(c, i, st);
    var tokens := if b != [] then [b, a] else [a];
    assert Flush(Scan(c, i, st).value) == tokens;
    assert Tokenize(c) == Ok(tokens);
  }

  lemma EchoAloneEchoesItsName()
    ensures ParseCommand("echo") == Ok(Command("echo", ["echo"]))
  {
    ParseWithoutSpace("echo");
  }

  /** `parseCommand` with index `npos` read as "no arguments" instead of being
      incremented, and with the corrected quoted-name scanner. */
  function ParseCommandCorrected(input: string): (r: Result<Command>)
    requires |input| < NPOS
    ensures |input| == 0 <==> r == Err(EmptyInput)
    ensures r.Err? && r.failure != EmptyInput ==> r.failure == OutOfRange && input[|input| - 1] == '\\'
  {
    if |input| == 0 then Err(EmptyInput)
    else
      var named := if input[0] == '\'' || input[0] == '"' then QuotedCmdNameCorrected(input)
                   else PopulateCommandName(input);
      match named
      case Err(f) => Err(f)
      case Ok((name, idx)) =>
        if idx == NPOS then Ok(Command(name, []))
        else
          var r := WithArguments(name, input[idx + 1..]);
          assert r.Err? ==> r.failure == OutOfRange && input[|input| - 1] == '\\' by {
            if r.Err? {
              var text := input[idx + 1..];
              TokenizeFailsOnlyAtTrailingBackslash(text);
              assert text[|text| - 1] == input[|input| - 1];
            }
          }
          r
  }

  /** With the correction, a line of plain words splits into the first word as
      the name and the remaining words as the arguments. */
  lemma ParseCorrectedWords(input: string)
    requires 0 < |input| < NPOS && AllOrdinary(input) && input[0] != ' '
    ensures |Words(input)| >= 1
    ensures ParseCommandCorrected(input) == Ok(Command(Words(input)[0], Words(input)[1..]))
  {
    if ' ' in input {
      var k := IndexOf(input, ' ');
      var a, b := input[..k], input[k + 1..];
      assert input == a + [' '] + b;
      assert a != [];
      WordsAfterSpace(a, b);
      assert AllOrdinary(b) by {
        forall m | 0 <= m < |b| ensures Ordinary(b[m]) { assert b[m] == input[k + 1 + m]; }
      }
      TokenizeOrdinary(b);
      assert PopulateCommandName(input) == Ok((a, k));
    } else {
      WordsWithoutSpace(input);
    }
  }
}
