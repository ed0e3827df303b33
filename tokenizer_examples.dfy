/** Concrete inputs and the tokens `populateArguments` (src/helpers.h)
    returns for them, each derived from the general lemmas of
    TokenizerProperties. Several show where the tokenizer departs from POSIX
    quoting: closing quotes end a token, a `"` inside double quotes before a
    non-space is dropped, and the end-of-input flush reorders tokens. */
module TokenizerExamples {
  import opened Results
  import opened Strings
  import opened Tokenizer
  import opened TokenizerProperties

  /** `a\ b`: the escaped space does not split. */
  lemma EscapedSpace()
    ensures Tokenize("a\\ b") == Ok(["a b"])
  {
    var c := "a\\ b";
    assert c[0..1] == "a" && c[3..4] == "b";
    assert Start.normal + "a" == "a";
    assert "a" + [c[2]] == "a ";
    assert "a " + "b" == "a b";
    WordRun(c, 0, 1, Start);
    UnquotedEscape(c, 1, Start.(normal := "a"));
    WordRun(c, 3, 4, Start.(normal := "a "));
    assert Scan(c, 0, Start) == Ok(Start.(normal := "a b"));
    assert Flush(Start.(normal := "a b")) == ["a b"];
  }

  /** `\'`: an escaped single quote opens no quote. */
  lemma EscapedSingleQuote()
    ensures Tokenize("\\'") == Ok(["'"])
  {
    var c := "\\'";
    UnquotedEscape(c, 0, Start);
    assert Start.normal + [c[1]] == "'";
    assert Scan(c, 0, Start) == Ok(Start.(normal := "'"));
    assert Flush(Start.(normal := "'")) == ["'"];
  }

  /** Where the parts of `"a` m `b"` sit in the input. */
  lemma DoubleQuotedLayout(a: string, m: string, b: string)
    ensures var c := "\"" + a + m + b + "\"";
            var j := |a| + 1 + |m|;
            && |c| == j + |b| + 1
            && c[0] == '"' && c[|c| - 1] == '"'
            && (forall k :: 0 < k < |a| + 1 ==> c[k] == a[k - 1])
            && (forall k :: |a| + 1 <= k < j ==> c[k] == m[k - |a| - 1])
            && (forall k :: j <= k < |c| - 1 ==> c[k] == b[k - j])
            && c[1..|a| + 1] == a && c[j..|c| - 1] == b
  {
    var c := "\"" + a + m + b + "\"";
    var j := |a| + 1 + |m|;
    assert c[..|a| + 1] == "\"" + a;
    assert c[1..|a| + 1] == ("\"" + a)[1..];
    assert c[..j + |b|] == "\"" + a + m + b;
    assert c[j..|c| - 1] == ("\"" + a + m + b)[j..];
  }

  /** Text without `"` or backslash. */
  predicate Plain(s: string) {
    forall k :: 0 <= k < |s| ==> s[k] != '"' && s[k] != '\\'
  }

  /** The closing `"` as the last character emits the double-quoted text. */
  lemma ClosingDoubleQuote(c: string, d: string)
    requires |c| > 0 && c[|c| - 1] == '"'
    ensures Scan(c, |c| - 1, Start.(doubleQuoting := true, double := d)) == Ok(Start.(out := [d]))
  {
    var st := Start.(doubleQuoting := true, double := d);
    assert st.out + [d] == [d];
    ScanStep(c, |c| - 1, st, Start.(out := [d]));
  }

  /** `"a\"b"` for plain `a` and `b` (`"a\"b"`, say): inside double quotes a
      backslash escapes `"`, which then stays in the token. */
  lemma EscapedDoubleQuoteInside(a: string, b: string)
    requires Plain(a) && Plain(b)
    ensures Tokenize("\"" + a + "\\\"" + b + "\"") == Ok([a + "\"" + b])
  {
    var c := "\"" + a + "\\\"" + b + "\"";
    DoubleQuotedLayout(a, "\\\"", b);
    var j := |a| + 1;
    var s := Start.(doubleQuoting := true);
    ScanStep(c, 0, Start, s);
    forall k | 1 <= k < j
      ensures c[k] != '"' && c[k] != '\\'
    {
      assert c[k] == a[k - 1];
    }
    DoubleRun(c, 1, j, s);
    assert s.double + a == a;
    assert c[j] == '\\' && c[j + 1] == '"';
    DoubleQuotedEscape(c, j, s.(double := a));
    forall k | j + 2 <= k < |c| - 1
      ensures c[k] != '"' && c[k] != '\\'
    {
      assert c[k] == b[k - j - 2];
    }
    DoubleRun(c, j + 2, |c| - 1, s.(double := a + ['"']));
    assert a + ['"'] + b == a + "\"" + b;
    ClosingDoubleQuote(c, a + "\"" + b);
    assert Flush(Start.(out := [a + "\"" + b])) == [a + "\"" + b];
  }

  /** `"a\b"` for plain `a` and `b` where `b` does not start with a special
      character (`"a\nb"`, say): inside double quotes that backslash is kept. */
  lemma BackslashKeptInsideDoubleQuotes(a: string, b: string)
    requires Plain(a) && Plain(b)
    requires b != [] && !IsSpecialChar(b[0])
    ensures Tokenize("\"" + a + "\\" + b + "\"") == Ok([a + "\\" + b])
  {
    var c := "\"" + a + "\\" + b + "\"";
    DoubleQuotedLayout(a, "\\", b);
    var j := |a| + 1;
    var s := Start.(doubleQuoting := true);
    ScanStep(c, 0, Start, s);
    forall k | 1 <= k < j
      ensures c[k] != '"' && c[k] != '\\'
    {
      assert c[k] == a[k - 1];
    }
    DoubleRun(c, 1, j, s);
    assert s.double + a == a;
    assert c[j] == '\\' && c[j + 1] == b[0];
    DoubleQuotedBackslashKept(c, j, s.(double := a));
    forall k | j + 1 <= k < |c| - 1
      ensures c[k] != '"' && c[k] != '\\'
    {
      assert c[k] == b[k - j - 1];
    }
    DoubleRun(c, j + 1, |c| - 1, s.(double := a + ['\\']));
    assert a + ['\\'] + b == a + "\\" + b;
    ClosingDoubleQuote(c, a + "\\" + b);
    assert Flush(Start.(out := [a + "\\" + b])) == [a + "\\" + b];
  }

  /** `''`: an empty single-quoted segment is an empty token. */
  lemma EmptySingleQuotes()
    ensures Tokenize("''") == Ok([""])
  {
    var c := "''";
    SingleQuotedSegment(c, 0, 1, Start);
    assert c[1..1] == "";
    assert [] + [c[1..1]] == [""];
    assert Scan(c, 0, Start) == Ok(Start.(out := [""]));
    assert Flush(Start.(out := [""])) == [""];
  }

  /** `'a'b`: the closing quote ends the token; no merging. */
  lemma SingleQuoteThenWord()
    ensures Tokenize("'a'b") == Ok(["a", "b"])
  {
    var c := "'a'b";
    SingleQuotedSegment(c, 0, 2, Start);
    assert c[1..2] == "a" && c[3..4] == "b";
    assert [] + [c[1..2]] == ["a"];
    var s := Start.(out := ["a"]);
    WordRun(c, 3, 4, s);
    assert s.normal + c[3..4] == "b";
    assert Scan(c, 0, Start) == Ok(s.(normal := "b"));
    assert Flush(s.(normal := "b")) == ["a", "b"];
  }

  /** `'a''b'` for any quote-free `a` and `b` (`'it''s'`, say): two adjacent
      single-quoted segments stay two tokens. */
  lemma AdjacentSingleQuotedSegments(a: string, b: string)
    requires '\'' !in a && '\'' !in b
    ensures Tokenize("'" + a + "''" + b + "'") == Ok([a, b])
  {
    var c := "'" + a + "''" + b + "'";
    var n := |a| + 2;
    var e := |c| - 1;
    forall k | 0 < k < n - 1
      ensures c[k] != '\''
    {
      assert c[k] == a[k - 1];
    }
    forall k | n < k < e
      ensures c[k] != '\''
    {
      assert c[k] == b[k - n - 1];
    }
    assert c[1..n - 1] == a && c[n + 1..e] == b;
    var first := Start.(out := [a]);
    SingleQuotedSegment(c, 0, n - 1, Start);
    assert Start.out + [a] == [a];
    SingleQuotedSegment(c, n, e, first);
    assert first.out + [b] == [a, b];
    assert Scan(c, e + 1, first.(out := [a, b])) == Ok(first.(out := [a, b]));
    assert Flush(first.(out := [a, b])) == [a, b];
  }

  /** Where the parts of `'q' w` sit in the input. */
  lemma QuotedThenWordLayout(q: string, w: string)
    ensures var c := "'" + q + "' " + w;
            && |c| == |q| + 3 + |w|
            && c[0] == '\'' && c[|q| + 1] == '\'' && c[|q| + 2] == ' '
            && c[1..|q| + 1] == q && c[|q| + 3..] == w
            && (forall k :: 0 < k < |q| + 1 ==> c[k] == q[k - 1])
            && (forall k :: |q| + 3 <= k < |c| ==> c[k] == w[k - |q| - 3])
  {
    var c := "'" + q + "' " + w;
    assert c[..|q| + 1] == "'" + q;
    assert c[1..|q| + 1] == ("'" + q)[1..];
  }

  /** A space and then a plain word running to the end of the input: the word
      is what the unquoted buffer holds at the end. */
  lemma TrailingWord(c: string, i: nat, st: Lexer)
    requires i < |c| && c[i] == ' ' && Unquoted(st) && st.normal == []
    requires forall k :: i < k < |c| ==> Ordinary(c[k]) && c[k] != ' '
    ensures Scan(c, i, st) == Ok(st.(normal := c[i + 1..]))
  {
    StepOrdinary(c, i, st);
    ScanStep(c, i, st, st);
    WordRun(c, i + 1, |c|, st);
    assert st.normal + c[i + 1..|c|] == c[i + 1..];
  }

  /** `'q' w` for any quote-free `q` (`'a b' c`, say) and plain word `w`:
      whitespace inside the quotes stays in the token. */
  lemma SingleQuotedSpace(q: string, w: string)
    requires '\'' !in q
    requires w != [] && forall k :: 0 <= k < |w| ==> Ordinary(w[k]) && w[k] != ' '
    ensures Tokenize("'" + q + "' " + w) == Ok([q, w])
  {
    var c := "'" + q + "' " + w;
    QuotedThenWordLayout(q, w);
    forall k | 0 < k < |q| + 1
      ensures c[k] != '\''
    {
      assert c[k] == q[k - 1];
    }
    SingleQuotedSegment(c, 0, |q| + 1, Start);
    assert Start.out + [q] == [q];
    var s := Start.(out := [q]);
    forall k | |q| + 2 < k < |c|
      ensures Ordinary(c[k]) && c[k] != ' '
    {
      assert c[k] == w[k - |q| - 3];
    }
    TrailingWord(c, |q| + 2, s);
    assert Flush(s.(normal := w)) == [q, w];
  }

  /** `"a"b` for `a` and `b` without `"` or backslash, `b` not starting with
      whitespace (`"foo"bar`, say): the `"` before `b` is dropped and the quote
      stays open, so one token `ab` comes out. */
  lemma DoubleQuoteGluedToWord(a: string, b: string)
    requires Plain(a) && Plain(b)
    requires b != [] && !IsSpace(b[0])
    ensures Tokenize("\"" + a + "\"" + b) == Ok([a + b])
  {
    var c := "\"" + a + "\"" + b;
    var j := |a| + 1;
    forall k | 1 <= k < j
      ensures c[k] != '"' && c[k] != '\\'
    {
      assert c[k] == a[k - 1];
    }
    forall k | j + 1 <= k < |c|
      ensures c[k] != '"' && c[k] != '\\'
    {
      assert c[k] == b[k - j - 1];
    }
    assert c[1..j] == a && c[j + 1..|c|] == b && c[j + 1] == b[0];
    var s := Start.(doubleQuoting := true);
    ScanStep(c, 0, Start, s);
    DoubleRun(c, 1, j, s);
    assert s.double + a == a;
    QuoteBeforeNonSpaceDropped(c, j, s.(double := a));
    DoubleRun(c, j + 1, |c|, s.(double := a));
    assert Flush(s.(double := a + b)) == [a + b];
  }

  /** `ab"cd`: the unterminated quote's text is flushed before the unquoted
      word that preceded it. */
  lemma OutOfOrderFlush()
    ensures Tokenize("ab\"cd") == Ok(["cd", "ab"])
  {
    var c := "ab\"cd";
    WordRun(c, 0, 2, Start);
    assert Start.normal + c[0..2] == "ab";
    UnterminatedDoubleQuote(c, 2, Start.(normal := "ab"));
    assert c[3..] == "cd";
    assert [] + ["cd"] + ["ab"] == ["cd", "ab"];
  }

  /** `ab 'cd`: an unterminated single quote is discarded. */
  lemma UnterminatedSingleQuoteDiscarded()
    ensures Tokenize("ab 'cd") == Ok(["ab"])
  {
    var c := "ab 'cd";
    WordRun(c, 0, 2, Start);
    assert Start.normal + c[0..2] == "ab";
    var s := Start.(out := ["ab"]);
    assert [] + ["ab"] == ["ab"];
    ScanStep(c, 2, Start.(normal := "ab"), s);
    UnterminatedSingleQuote(c, 3, s);
    assert Flush(s) == ["ab"];
  }

  /** `"a\`: a backslash ending the input inside double quotes makes `at` throw. */
  lemma TrailingBackslashInsideDoubleQuotes()
    ensures Tokenize("\"a\\") == Err(OutOfRange)
  {
    var c := "\"a\\";
    var s := Start.(doubleQuoting := true);
    ScanStep(c, 0, Start, s);
    assert c[1..2] == "a";
    assert s.double + "a" == "a";
    DoubleRun(c, 1, 2, s);
    DoubleQuotedTrailingBackslash(c, s.(double := "a"));
  }
}
