/** The argument tokenizer of src/helpers.h: `nextIsSpecialChar` and the
    character-level state machine `populateArguments`, which approximates
    the quoting rules of section 2.2 of the POSIX Shell Command Language
    (escape character, single quotes, double quotes).

    `Step`, `Scan` and `Tokenize` specify the state machine one character at a
    time; the method `PopulateArguments` is the in-place loop of the source,
    proved to compute `Tokenize`. What the tokenizer promises is proved about
    `Tokenize` in module TokenizerProperties. */
module Tokenizer {
  import opened Results
  import opened Strings

  /** The characters a backslash escapes inside double quotes (section 2.2.3
      of the POSIX Shell Command Language): dollar, backquote, backslash,
      newline and double quote. */
  predicate IsSpecialChar(c: char) {
    c == '$' || c == '`' || c == '\\' || c == '\n' || c == '"'
  }

  /** Whether the character after position `idx` is special. The source reads
      it with `at`, which throws when there is no such character. */
  function NextIsSpecialChar(cmd: string, idx: nat): (r: Result<bool>)
    ensures r.Err? <==> idx + 1 >= |cmd|
    ensures r.Err? ==> r.failure == OutOfRange
    ensures r.Ok? ==> (r.value <==> cmd[idx + 1] in {'$', '`', '\\', '\n', '"'})
  {
    if idx + 1 < |cmd| then Ok(IsSpecialChar(cmd[idx + 1])) else Err(OutOfRange)
  }

  /** The tokenizer's state: the tokens emitted so far, the three buffers
      (unquoted, single-quoted, double-quoted) and the three mode flags. */
  datatype Lexer = Lexer(
    out: seq<string>,
    normal: string,
    single: string,
    double: string,
    singleQuoting: bool,
    doubleQuoting: bool,
    escaping: bool)

  const Start := Lexer([], [], [], [], false, false, false)

  /** The state invariant the loop keeps: never in both quote modes, a quote
      buffer is empty while its mode is off, and no escape is pending inside
      single quotes. */
  ghost predicate Consistent(st: Lexer) {
    && !(st.singleQuoting && st.doubleQuoting)
    && (!st.singleQuoting ==> st.single == [])
    && (!st.doubleQuoting ==> st.double == [])
    && (st.escaping ==> !st.singleQuoting)
  }

  /** Number of characters held in emitted tokens and in the three buffers. */
  function Held(st: Lexer): nat {
    TotalLength(st.out) + |st.normal| + |st.single| + |st.double|
  }

  /** An ordinary character goes to the active buffer: the single-quote
      buffer, else the double-quote buffer, else the unquoted one. */
  function AppendToActive(st: Lexer, c: char): Lexer {
    if st.singleQuoting then st.(single := st.single + [c])
    else if st.doubleQuoting then st.(double := st.double + [c])
    else st.(normal := st.normal + [c])
  }

  /** One iteration of the loop of `populateArguments`, on character `cmd[i]`;
      the rules are tried in the order the source tries them. */
  function Step(cmd: string, i: nat, st: Lexer): (r: Result<Lexer>)
    requires i < |cmd|
    ensures r.Err? ==> r == Err(OutOfRange) && i == |cmd| - 1 && cmd[i] == '\\'
                       && st.doubleQuoting && !st.escaping
  {
    var c := cmd[i];
    if st.escaping then
      // the escaped character is literal; inside single quotes (never reached) it is lost
      Ok(st.(double := if st.doubleQuoting then st.double + [c] else st.double,
             normal := if !st.doubleQuoting && !st.singleQuoting then st.normal + [c] else st.normal,
             escaping := false))
    else if c == '\'' && !st.doubleQuoting then
      if st.singleQuoting then Ok(st.(singleQuoting := false, out := st.out + [st.single], single := []))
      else Ok(st.(singleQuoting := true))
    else if c == '\'' then
      Ok(st.(double := st.double + [c]))
    else if c == '\\' && !st.singleQuoting && !st.doubleQuoting then
      Ok(st.(escaping := true))
    else if c == '\\' && st.doubleQuoting then
      match NextIsSpecialChar(cmd, i)
      case Err(f) => Err(f)
      case Ok(special) => if special then Ok(st.(escaping := true)) else Ok(AppendToActive(st, c))
    else if c == '"' then
      if st.doubleQuoting && i + 1 < |cmd| && !IsSpace(cmd[i + 1]) then Ok(st)
      else if st.singleQuoting then Ok(st.(single := st.single + [c]))
      else if st.doubleQuoting then Ok(st.(doubleQuoting := false, out := st.out + [st.double], double := []))
      else Ok(st.(doubleQuoting := true))
    else if c == ' ' then
      if st.singleQuoting then Ok(st.(single := st.single + [c]))
      else if st.doubleQuoting then Ok(st.(double := st.double + [c]))
      else if st.normal != [] then Ok(st.(out := st.out + [st.normal], normal := []))
      else Ok(st)
    else Ok(AppendToActive(st, c))
  }

  /** Runs the loop from position `i` in state `st` to the end of `cmd`. */
  function Scan(cmd: string, i: nat, st: Lexer): Result<Lexer>
    requires i <= |cmd|
    decreases |cmd| - i
  {
    if i == |cmd| then Ok(st)
    else match Step(cmd, i, st)
      case Err(f) => Err(f)
      case Ok(next) => Scan(cmd, i + 1, next)
  }

  /** End of input: a non-empty double-quote buffer is emitted, then a
      non-empty unquoted buffer; the single-quote buffer is dropped. */
  function Flush(st: Lexer): (tokens: seq<string>)
    ensures |st.out| <= |tokens| <= |st.out| + 2 && tokens[..|st.out|] == st.out
    ensures forall k :: |st.out| <= k < |tokens| ==>
              tokens[k] != [] && (tokens[k] == st.double || tokens[k] == st.normal)
    ensures |tokens| == |st.out| + (if st.double != [] then 1 else 0) + (if st.normal != [] then 1 else 0)
    ensures st.double != [] && st.normal != [] ==> tokens[|st.out|..] == [st.double, st.normal]
  {
    st.out
    + (if st.double != [] then [st.double] else [])
    + (if st.normal != [] then [st.normal] else [])
  }

  /** The tokens `populateArguments` returns for `cmd`, or the failure of the
      `at` call that throws. */
  function Tokenize(cmd: string): Result<seq<string>> {
    match Scan(cmd, 0, Start)
    case Err(f) => Err(f)
    case Ok(st) => Ok(Flush(st))
  }

  /** `populateArguments`: one left-to-right pass that pushes characters into
      three buffers, toggles three flags and emits tokens in place. It fails
      only where the source's `at` throws: a backslash as the last character
      while double-quoting. */
  method PopulateArguments(cmd: string) returns (r: Result<seq<string>>)
    ensures r == Tokenize(cmd)
  {
    var exploded: seq<string> := [];
    var normalBuffer: string := [];
    var singleQuoteBuffer: string := [];
    var doubleQuoteBuffer: string := [];
    var singleQuoting := false;
    var doubleQuoting := false;
    var escaping := false;

    for i := 0 to |cmd|
      invariant !(singleQuoting && doubleQuoting)
      invariant !singleQuoting ==> singleQuoteBuffer == []
      invariant !doubleQuoting ==> doubleQuoteBuffer == []
      invariant escaping ==> !singleQuoting
      invariant Scan(cmd, i, Lexer(exploded, normalBuffer, singleQuoteBuffer, doubleQuoteBuffer,
                                   singleQuoting, doubleQuoting, escaping))
                == Scan(cmd, 0, Start)
    {
      var character := cmd[i];

      if escaping {
        if doubleQuoting {
          doubleQuoteBuffer := doubleQuoteBuffer + [character];
        }
        if !doubleQuoting && !singleQuoting {
          normalBuffer := normalBuffer + [character];
        }
        escaping := false;
        continue;
      }

      if character == '\'' && !doubleQuoting {
        singleQuoting := !singleQuoting;
        if !singleQuoting {
          exploded := exploded + [singleQuoteBuffer];
          singleQuoteBuffer := [];
        }
        continue;
      }

      if character == '\'' && doubleQuoting {
        doubleQuoteBuffer := doubleQuoteBuffer + [character];
        continue;
      }

      if character == '\\' {
        if !singleQuoting && !doubleQuoting {
          escaping := true;
          continue;
        }
        if doubleQuoting {
          if i + 1 >= |cmd| {
            // `at(i + 1)` throws
            assert Scan(cmd, 0, Start) == Err(OutOfRange);
            return Err(OutOfRange);
          }
          if IsSpecialChar(cmd[i + 1]) {
            escaping := true;
            continue;
          }
        }
      }

      if character == '"' {
        if doubleQuoting && i + 1 < |cmd| && !IsSpace(cmd[i + 1]) {
          continue;
        }
        if singleQuoting {
          singleQuoteBuffer := singleQuoteBuffer + [character];
          continue;
        }
        doubleQuoting := !doubleQuoting;
        if !doubleQuoting {
          exploded := exploded + [doubleQuoteBuffer];
          doubleQuoteBuffer := [];
        }
        continue;
      }

      if character == ' ' {
        if singleQuoting {
          singleQuoteBuffer := singleQuoteBuffer + [character];
        } else if doubleQuoting {
          doubleQuoteBuffer := doubleQuoteBuffer + [character];
        } else if normalBuffer != [] {
          exploded := exploded + [normalBuffer];
          normalBuffer := [];
        }
        continue;
      }

      if singleQuoting {
        singleQuoteBuffer := singleQuoteBuffer + [character];
        continue;
      }
      if doubleQuoting {
        doubleQuoteBuffer := doubleQuoteBuffer + [character];
        continue;
      }
      normalBuffer := normalBuffer + [character];
    }

    ghost var final := Lexer(exploded, normalBuffer, singleQuoteBuffer, doubleQuoteBuffer,
                             singleQuoting, doubleQuoting, escaping);
    if doubleQuoteBuffer != [] {
      exploded := exploded + [doubleQuoteBuffer];
    }
    if normalBuffer != [] {
      exploded := exploded + [normalBuffer];
    }
    assert Flush(final) == exploded;
    r := Ok(exploded);
  }
}
