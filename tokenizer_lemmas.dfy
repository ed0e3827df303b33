/** What `populateArguments` (src/helpers.h) promises, proved about its
    specification `Tokenizer.Tokenize`: plain input splits on spaces, quoted
    segments and escapes behave as the source's rules say (including where
    they deviate from POSIX quoting), the end-of-input flush order, the
    state invariant, the length bound, and the one way it fails. */
module TokenizerProperties {
  import opened Results
  import opened Strings
  import opened Tokenizer

  /** A character with no quoting role outside quotes. */
  predicate Ordinary(c: char) {
    c != '\'' && c != '"' && c != '\\'
  }

  predicate AllOrdinary(s: string) {
    forall k :: 0 <= k < |s| ==> Ordinary(s[k])
  }

  /** Outside every quote, no escape pending, quote buffers empty. */
  predicate Unquoted(st: Lexer) {
    !st.singleQuoting && !st.doubleQuoting && !st.escaping && st.single == [] && st.double == []
  }

  /** One character of progress: the scan continues from the state the step gives. */
  lemma ScanStep(cmd: string, i: nat, st: Lexer, next: Lexer)
    requires i < |cmd| && Step(cmd, i, st) == Ok(next)
    ensures Scan(cmd, i, st) == Scan(cmd, i + 1, next)
  {
  }

  // ---------------------------------------------------------------------
  // The state invariant and the length bound

  lemma StepKeepsConsistent(cmd: string, i: nat, st: Lexer)
    requires i < |cmd| && Consistent(st)
    ensures Step(cmd, i, st).Ok? ==> Consistent(Step(cmd, i, st).value)
  {
  }

  /** Every state the loop reaches from a consistent one is consistent: the
      two quote modes are never both on, and a quote buffer is empty whenever
      its mode is off. */
  lemma {:induction false} ScanKeepsConsistent(cmd: string, i: nat, st: Lexer)
    requires i <= |cmd| && Consistent(st)
    ensures Scan(cmd, i, st).Ok? ==> Consistent(Scan(cmd, i, st).value)
    decreases |cmd| - i
  {
    if i < |cmd| {
      StepKeepsConsistent(cmd, i, st);
      match Step(cmd, i, st)
      case Err(_) =>
      case Ok(next) => ScanKeepsConsistent(cmd, i + 1, next);
    }
  }

  lemma StepHoldsAtMostOneMore(cmd: string, i: nat, st: Lexer)
    requires i < |cmd|
    ensures Step(cmd, i, st).Ok? ==> Held(Step(cmd, i, st).value) <= Held(st) + 1
  {
    TotalLengthPush(st.out, st.single);
    TotalLengthPush(st.out, st.double);
    TotalLengthPush(st.out, st.normal);
  }

  /** Emitted tokens plus buffers never hold more characters than were consumed. */
  lemma {:induction false} ScanHeldBound(cmd: string, i: nat, st: Lexer)
    requires i <= |cmd|
    ensures Scan(cmd, i, st).Ok? ==> Held(Scan(cmd, i, st).value) <= Held(st) + (|cmd| - i)
    decreases |cmd| - i
  {
    if i < |cmd| {
      StepHoldsAtMostOneMore(cmd, i, st);
      match Step(cmd, i, st)
      case Err(_) =>
      case Ok(next) => ScanHeldBound(cmd, i + 1, next);
    }
  }

  /** The tokens together are never longer than the input, and the final
      state keeps the invariant. */
  lemma TokenizeBounded(cmd: string)
    ensures Tokenize(cmd).Ok? ==> TotalLength(Tokenize(cmd).value) <= |cmd|
    ensures Scan(cmd, 0, Start).Ok? ==> Consistent(Scan(cmd, 0, Start).value)
  {
    ScanKeepsConsistent(cmd, 0, Start);
    if Scan(cmd, 0, Start).Ok? {
      var st := Scan(cmd, 0, Start).value;
      assert Held(st) <= |cmd| by {
        ScanHeldBound(cmd, 0, Start);
        assert TotalLength(Start.out) == 0;
      }
      assert TotalLength(Flush(st)) <= Held(st) by {
        FlushBounded(st);
      }
      assert Tokenize(cmd) == Ok(Flush(st));
    }
  }

  lemma FlushBounded(st: Lexer)
    ensures TotalLength(Flush(st)) <= Held(st)
  {
    var withDouble := st.out + (if st.double != [] then [st.double] else []);
    assert TotalLength(withDouble) <= TotalLength(st.out) + |st.double| by {
      if st.double != [] { TotalLengthPush(st.out, st.double); } else { assert withDouble == st.out; }
    }
    assert Flush(st) == withDouble + (if st.normal != [] then [st.normal] else []);
    if st.normal != [] { TotalLengthPush(withDouble, st.normal); } else { assert Flush(st) == withDouble; }
  }

  // ---------------------------------------------------------------------
  // The one failure

  /** The loop fails only at the last character, a backslash, where `at`
      reads past the end. */
  lemma {:induction false} ScanFailsOnlyAtTrailingBackslash(cmd: string, i: nat, st: Lexer)
    requires i <= |cmd|
    ensures Scan(cmd, i, st).Err? ==>
              Scan(cmd, i, st).failure == OutOfRange && |cmd| > 0 && cmd[|cmd| - 1] == '\\'
    decreases |cmd| - i
  {
    if i < |cmd| {
      match Step(cmd, i, st)
      case Err(_) =>
      case Ok(next) => ScanFailsOnlyAtTrailingBackslash(cmd, i + 1, next);
    }
  }

  lemma TokenizeFailsOnlyAtTrailingBackslash(cmd: string)
    ensures Tokenize(cmd).Err? ==> Tokenize(cmd).failure == OutOfRange && cmd[|cmd| - 1] == '\\'
  {
    ScanFailsOnlyAtTrailingBackslash(cmd, 0, Start);
  }

  // ---------------------------------------------------------------------
  // Input with no quote or backslash: split on spaces

  lemma WordsWithoutSpace(a: string)
    requires ' ' !in a
    ensures Words(a) == if a != [] then [a] else []
  {
    assert Split(a, ' ') == [a];
    assert [a][1..] == [];
  }

  lemma WordsAfterSpace(a: string, b: string)
    requires ' ' !in a
    ensures Words(a + [' '] + b) == (if a != [] then [a] else []) + Words(b)
  {
    SplitAtFirst(a, ' ', b);
    var fields := [a] + Split(b, ' ');
    assert fields[1..] == Split(b, ' ');
  }

  /** One ordinary character outside quotes: a space ends the unquoted word,
      anything else extends it. */
  lemma StepOrdinary(cmd: string, i: nat, st: Lexer)
    requires i < |cmd| && Unquoted(st) && Ordinary(cmd[i])
    ensures Step(cmd, i, st) == Ok(
              if cmd[i] != ' ' then st.(normal := st.normal + [cmd[i]])
              else if st.normal != [] then st.(out := st.out + [st.normal], normal := [])
              else st)
  {
  }

  /** Ordinary non-space characters outside quotes extend the unquoted buffer. */
  lemma {:induction false} WordRun(cmd: string, i: nat, j: nat, st: Lexer)
    requires i <= j <= |cmd|
    requires Unquoted(st)
    requires forall k :: i <= k < j ==> Ordinary(cmd[k]) && cmd[k] != ' '
    ensures Scan(cmd, i, st) == Scan(cmd, j, st.(normal := st.normal + cmd[i..j]))
    decreases j - i
  {
    if i == j {
      assert st.normal + cmd[i..j] == st.normal;
    } else {
      var next := st.(normal := st.normal + [cmd[i]]);
      StepOrdinary(cmd, i, st);
      ScanStep(cmd, i, st, next);
      WordRun(cmd, i + 1, j, next);
      assert next.normal + cmd[i + 1..j] == st.normal + cmd[i..j];
    }
  }

  /** Over input without quotes or backslashes the loop succeeds, and the
      tokens are those already emitted, then the words of the unquoted buffer
      followed by the rest of the input. */
  lemma {:induction false} ScanOrdinary(cmd: string, i: nat, st: Lexer)
    requires i <= |cmd|
    requires Unquoted(st) && ' ' !in st.normal
    requires forall k :: i <= k < |cmd| ==> Ordinary(cmd[k])
    ensures Scan(cmd, i, st).Ok?
    ensures Flush(Scan(cmd, i, st).value) == st.out + Words(st.normal + cmd[i..])
    decreases |cmd| - i, 1
  {
    if i == |cmd| {
      assert st.normal + cmd[i..] == st.normal;
      WordsWithoutSpace(st.normal);
    } else if cmd[i] == ' ' && st.normal != [] {
      ScanSpaceEmits(cmd, i, st);
    } else if cmd[i] == ' ' {
      ScanSpaceSkips(cmd, i, st);
    } else {
      var next := st.(normal := st.normal + [cmd[i]]);
      StepOrdinary(cmd, i, st);
      ScanStep(cmd, i, st, next);
      ScanOrdinary(cmd, i + 1, next);
      assert next.normal + cmd[i + 1..] == st.normal + cmd[i..];
    }
  }

  /** A space outside quotes: the words of the unquoted word so far followed
      by the rest are that word, if any, then the words of the rest. */
  lemma WordsAtSpace(normal: string, cmd: string, i: nat)
    requires i < |cmd| && cmd[i] == ' ' && ' ' !in normal
    ensures Words(normal + cmd[i..]) == (if normal != [] then [normal] else []) + Words(cmd[i + 1..])
  {
    assert normal + cmd[i..] == normal + [' '] + cmd[i + 1..];
    WordsAfterSpace(normal, cmd[i + 1..]);
  }

  /** Emitting a word at a space keeps the tokens still to come in order. */
  lemma EmitWordAtSpace(out: seq<string>, normal: string, cmd: string, i: nat)
    requires i < |cmd| && cmd[i] == ' ' && ' ' !in normal && normal != []
    ensures (out + [normal]) + Words(cmd[i + 1..]) == out + Words(normal + cmd[i..])
  {
    WordsAtSpace(normal, cmd, i);
    assert Words(normal + cmd[i..]) == [normal] + Words(cmd[i + 1..]);
  }

  /** A space after an unquoted word emits the word. */
  lemma {:induction false} ScanSpaceEmits(cmd: string, i: nat, st: Lexer)
    requires i < |cmd| && cmd[i] == ' '
    requires Unquoted(st) && ' ' !in st.normal && st.normal != []
    requires forall k :: i <= k < |cmd| ==> Ordinary(cmd[k])
    ensures Scan(cmd, i, st).Ok?
    ensures Flush(Scan(cmd, i, st).value) == st.out + Words(st.normal + cmd[i..])
    decreases |cmd| - i, 0
  {
    var next := st.(out := st.out + [st.normal], normal := []);
    StepOrdinary(cmd, i, st);
    ScanStep(cmd, i, st, next);
    ScanOrdinary(cmd, i + 1, next);
    assert next.normal + cmd[i + 1..] == cmd[i + 1..];
    EmitWordAtSpace(st.out, st.normal, cmd, i);
  }

  /** A space with no unquoted word pending changes nothing. */
  lemma {:induction false} ScanSpaceSkips(cmd: string, i: nat, st: Lexer)
    requires i < |cmd| && cmd[i] == ' '
    requires Unquoted(st) && st.normal == []
    requires forall k :: i <= k < |cmd| ==> Ordinary(cmd[k])
    ensures Scan(cmd, i, st).Ok?
    ensures Flush(Scan(cmd, i, st).value) == st.out + Words(st.normal + cmd[i..])
    decreases |cmd| - i, 0
  {
    StepOrdinary(cmd, i, st);
    ScanStep(cmd, i, st, st);
    ScanOrdinary(cmd, i + 1, st);
    assert st.normal + cmd[i + 1..] == cmd[i + 1..];
    WordsAtSpace(st.normal, cmd, i);
    assert [] + Words(cmd[i + 1..]) == Words(cmd[i + 1..]);
  }

  /** With no `'`, `"` or backslash, the tokens are the input split on the
      space character with empty fields dropped, in order; tabs and other
      whitespace stay inside tokens. */
  lemma TokenizeOrdinary(cmd: string)
    requires AllOrdinary(cmd)
    ensures Tokenize(cmd) == Ok(Words(cmd))
  {
    assert Scan(cmd, 0, Start).Ok? && Flush(Scan(cmd, 0, Start).value) == Words(cmd) by {
      ScanOrdinary(cmd, 0, Start);
      assert Start.normal + cmd[0..] == cmd;
      assert Start.out == [];
    }
  }

  /** Tokenizing a plain word gives back that one word. */
  lemma TokenizeWord(w: string)
    requires w != [] && ' ' !in w && AllOrdinary(w)
    ensures Tokenize(w) == Ok([w])
  {
    TokenizeOrdinary(w);
    WordsWithoutSpace(w);
  }

  lemma {:induction false} JoinAllOrdinary(words: seq<string>)
    requires forall i :: 0 <= i < |words| ==> AllOrdinary(words[i])
    ensures AllOrdinary(Join(words, ' '))
  {
    if |words| > 1 {
      JoinAllOrdinary(words[1..]);
      var s := Join(words, ' ');
      assert s == words[0] + [' '] + Join(words[1..], ' ');
      forall k | 0 <= k < |s|
        ensures Ordinary(s[k])
      {
        if k < |words[0]| {
          assert s[k] == words[0][k];
        } else if k > |words[0]| {
          assert s[k] == Join(words[1..], ' ')[k - |words[0]| - 1];
        }
      }
    }
  }

  /** Tokenizing plain words joined by single spaces (what `echo` prints)
      gives back the words. */
  lemma TokenizeJoin(words: seq<string>)
    requires forall i :: 0 <= i < |words| ==> words[i] != [] && ' ' !in words[i] && AllOrdinary(words[i])
    ensures Tokenize(Join(words, ' ')) == Ok(words)
  {
    JoinAllOrdinary(words);
    TokenizeOrdinary(Join(words, ' '));
    if words == [] {
      assert Split([], ' ') == [[]];
      assert NonEmpty([[]]) == [];
    } else {
      SplitJoin(words, ' ');
      NonEmptyKeepsNonEmpty(words);
    }
  }

  // ---------------------------------------------------------------------
  // Single quotes

  /** Inside single quotes every character up to the next `'` is literal:
      backslash, double quote and space included. */
  lemma {:induction false} SingleRun(cmd: string, i: nat, j: nat, st: Lexer)
    requires i <= j <= |cmd|
    requires st.singleQuoting && !st.doubleQuoting && !st.escaping
    requires forall k :: i <= k < j ==> cmd[k] != '\''
    ensures Scan(cmd, i, st) == Scan(cmd, j, st.(single := st.single + cmd[i..j]))
    decreases j - i
  {
    if i == j {
      assert st.single + cmd[i..j] == st.single;
    } else {
      SingleRun(cmd, i + 1, j, st.(single := st.single + [cmd[i]]));
      assert st.single + [cmd[i]] + cmd[i + 1..j] == st.single + cmd[i..j];
    }
  }

  /** A single-quoted segment `'...'` becomes a token of its own holding the
      literal text between the quotes, even when that text is empty; the
      unquoted buffer is left as it was, so the segment never merges with
      adjacent text. */
  lemma SingleQuotedSegment(cmd: string, i: nat, j: nat, st: Lexer)
    requires i < j < |cmd| && cmd[i] == '\'' && cmd[j] == '\''
    requires forall k :: i < k < j ==> cmd[k] != '\''
    requires !st.singleQuoting && !st.doubleQuoting && !st.escaping && st.single == []
    ensures Scan(cmd, i, st) == Scan(cmd, j + 1, st.(out := st.out + [cmd[i + 1..j]]))
  {
    var open := st.(singleQuoting := true);
    var filled := open.(single := cmd[i + 1..j]);
    var closed := st.(out := st.out + [cmd[i + 1..j]]);
    assert Step(cmd, i, st) == Ok(open);
    ScanStep(cmd, i, st, open);
    SingleRun(cmd, i + 1, j, open);
    assert open.single + cmd[i + 1..j] == filled.single;
    assert Step(cmd, j, filled) == Ok(closed);
    ScanStep(cmd, j, filled, closed);
  }

  /** A single quote that is never closed discards everything after it: the
      tokens are those the state already had at the quote. */
  lemma UnterminatedSingleQuote(cmd: string, i: nat, st: Lexer)
    requires i < |cmd| && cmd[i] == '\''
    requires forall k :: i < k < |cmd| ==> cmd[k] != '\''
    requires !st.singleQuoting && !st.doubleQuoting && !st.escaping && st.single == []
    ensures Scan(cmd, i, st).Ok? && Flush(Scan(cmd, i, st).value) == Flush(st)
  {
    var open := st.(singleQuoting := true);
    ScanStep(cmd, i, st, open);
    SingleRun(cmd, i + 1, |cmd|, open);
  }

  // ---------------------------------------------------------------------
  // Double quotes

  /** Inside double quotes, text with no `"` and no backslash is literal. */
  lemma {:induction false} DoubleRun(cmd: string, i: nat, j: nat, st: Lexer)
    requires i <= j <= |cmd|
    requires st.doubleQuoting && !st.singleQuoting && !st.escaping
    requires forall k :: i <= k < j ==> cmd[k] != '"' && cmd[k] != '\\'
    ensures Scan(cmd, i, st) == Scan(cmd, j, st.(double := st.double + cmd[i..j]))
    decreases j - i
  {
    if i == j {
      assert st.double + cmd[i..j] == st.double;
    } else {
      DoubleRun(cmd, i + 1, j, st.(double := st.double + [cmd[i]]));
      assert st.double + [cmd[i]] + cmd[i + 1..j] == st.double + cmd[i..j];
    }
  }

  /** A double-quoted segment whose closing `"` is followed by whitespace or
      the end of input becomes a token of its own holding the text between the
      quotes, even when empty; the unquoted buffer is left as it was. */
  lemma DoubleQuotedSegment(cmd: string, i: nat, j: nat, st: Lexer)
    requires i < j < |cmd| && cmd[i] == '"' && cmd[j] == '"'
    requires j + 1 == |cmd| || IsSpace(cmd[j + 1])
    requires forall k :: i < k < j ==> cmd[k] != '"' && cmd[k] != '\\'
    requires !st.singleQuoting && !st.doubleQuoting && !st.escaping && st.double == []
    ensures Scan(cmd, i, st) == Scan(cmd, j + 1, st.(out := st.out + [cmd[i + 1..j]]))
  {
    var open := st.(doubleQuoting := true);
    ScanStep(cmd, i, st, open);
    DoubleRun(cmd, i + 1, j, open);
    var filled := open.(double := cmd[i + 1..j]);
    assert open.double + cmd[i + 1..j] == filled.double;
    ScanStep(cmd, j, filled, st.(out := st.out + [cmd[i + 1..j]]));
  }

  /** Inside double quotes, a `"` followed by a non-whitespace character is
      dropped and double-quote mode stays on. */
  lemma QuoteBeforeNonSpaceDropped(cmd: string, i: nat, st: Lexer)
    requires i + 1 < |cmd| && cmd[i] == '"' && !IsSpace(cmd[i + 1])
    requires st.doubleQuoting && !st.escaping
    ensures Scan(cmd, i, st) == Scan(cmd, i + 1, st)
  {
  }

  /** An unterminated double quote: at the end of input its text is emitted
      first and the unquoted buffer from before the quote after it, so the
      tokens come out of order. */
  lemma UnterminatedDoubleQuote(cmd: string, i: nat, st: Lexer)
    requires i < |cmd| && cmd[i] == '"'
    requires forall k :: i < k < |cmd| ==> cmd[k] != '"' && cmd[k] != '\\'
    requires !st.singleQuoting && !st.doubleQuoting && !st.escaping && st.double == []
    ensures Scan(cmd, i, st).Ok?
    ensures Flush(Scan(cmd, i, st).value)
            == st.out
               + (if cmd[i + 1..] != [] then [cmd[i + 1..]] else [])
               + (if st.normal != [] then [st.normal] else [])
  {
    var open := st.(doubleQuoting := true);
    ScanStep(cmd, i, st, open);
    DoubleRun(cmd, i + 1, |cmd|, open);
    assert open.double + cmd[i + 1..|cmd|] == cmd[i + 1..];
  }

  // ---------------------------------------------------------------------
  // Backslash

  /** Outside quotes a backslash is dropped and the next character, whatever
      it is, is appended literally to the unquoted buffer. */
  lemma UnquotedEscape(cmd: string, i: nat, st: Lexer)
    requires i + 1 < |cmd| && cmd[i] == '\\'
    requires !st.singleQuoting && !st.doubleQuoting && !st.escaping
    ensures Scan(cmd, i, st) == Scan(cmd, i + 2, st.(normal := st.normal + [cmd[i + 1]]))
  {
  }

  /** A backslash at the very end, outside quotes, is dropped. */
  lemma DanglingBackslash(cmd: string, st: Lexer)
    requires |cmd| > 0 && cmd[|cmd| - 1] == '\\'
    requires !st.singleQuoting && !st.doubleQuoting && !st.escaping
    ensures Scan(cmd, |cmd| - 1, st).Ok? && Flush(Scan(cmd, |cmd| - 1, st).value) == Flush(st)
  {
  }

  /** Inside double quotes a backslash before a special character is dropped
      and that character is kept literally (it does not close the quote). */
  lemma DoubleQuotedEscape(cmd: string, i: nat, st: Lexer)
    requires i + 1 < |cmd| && cmd[i] == '\\' && IsSpecialChar(cmd[i + 1])
    requires st.doubleQuoting && !st.singleQuoting && !st.escaping
    ensures Scan(cmd, i, st) == Scan(cmd, i + 2, st.(double := st.double + [cmd[i + 1]]))
  {
  }

  /** Inside double quotes a backslash before any other character is kept. */
  lemma DoubleQuotedBackslashKept(cmd: string, i: nat, st: Lexer)
    requires i + 1 < |cmd| && cmd[i] == '\\' && !IsSpecialChar(cmd[i + 1])
    requires st.doubleQuoting && !st.singleQuoting && !st.escaping
    ensures Scan(cmd, i, st) == Scan(cmd, i + 1, st.(double := st.double + ['\\']))
  {
  }

  /** Inside double quotes a backslash as the last character makes `at` throw. */
  lemma DoubleQuotedTrailingBackslash(cmd: string, st: Lexer)
    requires |cmd| > 0 && cmd[|cmd| - 1] == '\\'
    requires st.doubleQuoting && !st.singleQuoting && !st.escaping
    ensures Scan(cmd, |cmd| - 1, st) == Err(OutOfRange)
  {
  }
}
