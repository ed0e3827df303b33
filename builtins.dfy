/** The builtins of src/Builtins.h that decide something from their arguments:
    membership in the builtin list, the exit code of `exit`, and the line
    `echo` and `type` print. What the source writes to standard output is
    returned as a string here (`std::endl` is a newline); the PATH search
    `type` consults is a parameter. */
module Builtins {
  import opened Strings

  /** The commands the shell handles itself, in the order of the source. */
  const BuiltinNames: seq<string> := ["exit", "echo", "type", "pwd", "cd"]

  /** `std::find`: the index of the first element equal to `x`, or the length
      of `s` (the end iterator) when there is none. */
  function Find(s: seq<string>, x: string): (k: nat)
    ensures k <= |s|
    ensures k < |s| ==> s[k] == x
    ensures forall j :: 0 <= j < k ==> s[j] != x
  {
    if s == [] then 0
    else if s[0] == x then 0
    else 1 + Find(s[1..], x)
  }

  /** `isBuiltin`: whether `find` over the builtin list stops before its end. */
  function IsBuiltin(cmd: string): (b: bool)
    ensures b <==> cmd == "exit" || cmd == "echo" || cmd == "type" || cmd == "pwd" || cmd == "cd"
  {
    var k := Find(BuiltinNames, cmd);
    assert k == |BuiltinNames| ==> forall j :: 0 <= j < 5 ==> BuiltinNames[j] != cmd;
    k != |BuiltinNames|
  }

  // ---------------------------------------------------------------------
  // std::atoi

  predicate IsDigit(c: char) {
    '0' <= c <= '9'
  }

  function DigitValue(c: char): nat
    requires IsDigit(c)
  {
    c as int - '0' as int
  }

  function DigitChar(d: nat): (c: char)
    requires d < 10
    ensures IsDigit(c) && DigitValue(c) == d
  {
    ('0' as int + d) as char
  }

  /** The value of a string of decimal digits, most significant first. */
  function DigitsValue(s: string): nat
    requires forall k :: 0 <= k < |s| ==> IsDigit(s[k])
  {
    if s == [] then 0 else 10 * DigitsValue(s[..|s| - 1]) + DigitValue(s[|s| - 1])
  }

  /** The length of the longest prefix of `s` made of digits. */
  function DigitPrefix(s: string): (n: nat)
    ensures n <= |s|
    ensures forall k :: 0 <= k < n ==> IsDigit(s[k])
    ensures n < |s| ==> !IsDigit(s[n])
  {
    if s != [] && IsDigit(s[0]) then 1 + DigitPrefix(s[1..]) else 0
  }

  /** `s` without its leading `isspace` characters. */
  function SkipSpace(s: string): (t: string)
    ensures |t| <= |s| && t == s[|s| - |t|..]
    ensures t != [] ==> !IsSpace(t[0])
    ensures forall k :: 0 <= k < |s| - |t| ==> IsSpace(s[k])
  {
    if s != [] && IsSpace(s[0]) then SkipSpace(s[1..]) else s
  }

  /** `std::atoi` on a numeral it can represent: leading whitespace is
      skipped, one optional sign is read, then the longest run of decimal
      digits; no digits gives 0. */
  function Atoi(s: string): int
  {
    var t := SkipSpace(s);
    var negative := t != [] && t[0] == '-';
    var u := if t != [] && (t[0] == '-' || t[0] == '+') then t[1..] else t;
    var value: int := DigitsValue(u[..DigitPrefix(u)]);
    if negative then -value else value
  }

  /** The decimal numeral of `n`, without sign or leading zeros. */
  function NatToString(n: nat): (s: string)
    ensures s != [] && forall k :: 0 <= k < |s| ==> IsDigit(s[k])
    ensures DigitsValue(s) == n
  {
    if n < 10 then [DigitChar(n)]
    else
      var front := NatToString(n / 10);
      var s := front + [DigitChar(n % 10)];
      assert s[..|s| - 1] == front;
      s
  }

  /** Digits followed by a non-digit: `atoi` reads the digits only. */
  lemma AtoiStopsAtNonDigit(digits: string, rest: string)
    requires forall k :: 0 <= k < |digits| ==> IsDigit(digits[k])
    requires digits != [] && (rest == [] || !IsDigit(rest[0]))
    ensures Atoi(digits + rest) == DigitsValue(digits)
  {
    var s := digits + rest;
    assert !IsSpace(s[0]) && s[0] != '-' && s[0] != '+';
    assert SkipSpace(s) == s;
    DigitPrefixOf(digits, rest);
    assert s[..|digits|] == digits;
  }

  lemma {:induction false} DigitPrefixOf(digits: string, rest: string)
    requires forall k :: 0 <= k < |digits| ==> IsDigit(digits[k])
    requires rest == [] || !IsDigit(rest[0])
    ensures DigitPrefix(digits + rest) == |digits|
    decreases |digits|
  {
    if digits == [] {
      assert digits + rest == rest;
    } else {
      assert (digits + rest)[1..] == digits[1..] + rest;
      DigitPrefixOf(digits[1..], rest);
    }
  }

  /** `atoi` reads back the numeral of any natural number. */
  lemma AtoiNatToString(n: nat)
    ensures Atoi(NatToString(n)) == n
  {
    var s := NatToString(n);
    AtoiStopsAtNonDigit(s, []);
    assert s + [] == s;
  }

  /** With a minus sign in front, `atoi` reads back the negation. */
  lemma AtoiNegated(n: nat)
    ensures Atoi("-" + NatToString(n)) == -(n as int)
  {
    var s := NatToString(n);
    var m := "-" + s;
    assert SkipSpace(m) == m;
    assert m[1..] == s;
    DigitPrefixOf(s, []);
    assert s + [] == s;
    assert s[..|s|] == s;
  }

  /** A string that does not start, after whitespace and a sign, with a digit
      gives 0. */
  lemma AtoiWithoutDigits(s: string)
    requires var t := SkipSpace(s);
             var u := if t != [] && (t[0] == '-' || t[0] == '+') then t[1..] else t;
             u == [] || !IsDigit(u[0])
    ensures Atoi(s) == 0
  {
    var t := SkipSpace(s);
    var u := if t != [] && (t[0] == '-' || t[0] == '+') then t[1..] else t;
    assert u[..DigitPrefix(u)] == [];
  }

  /** Leading whitespace does not change the result. */
  lemma AtoiSkipsSpace(c: char, s: string)
    requires IsSpace(c)
    ensures Atoi([c] + s) == Atoi(s)
  {
    assert ([c] + s)[1..] == s;
  }

  // ---------------------------------------------------------------------
  // exit

  const TooManyExitArguments := "Too many arguments for exit command. Exiting with error\n"

  /** The exit code `exit` returns and what it prints before returning. */
  datatype ExitOutcome = ExitOutcome(code: int, printed: string)

  predicate IsInt32(x: int) {
    -0x8000_0000 <= x < 0x8000_0000
  }

  /** `handleExitCommand`: no argument exits with 0; more than one prints a
      diagnostic and exits with 1; one argument exits with its `atoi` value,
      which must be representable, since `atoi` overflow is undefined. */
  function HandleExitCommand(args: seq<string>): (r: ExitOutcome)
    requires |args| == 1 ==> IsInt32(Atoi(args[0]))
    ensures IsInt32(r.code)
    ensures r.printed != [] <==> |args| > 1
    ensures args == [] ==> r.code == 0
    ensures |args| > 1 ==> r == ExitOutcome(1, TooManyExitArguments)
    ensures |args| == 1 ==> r == ExitOutcome(Atoi(args[0]), [])
  {
    if |args| == 0 then ExitOutcome(0, [])
    else if |args| > 1 then ExitOutcome(1, TooManyExitArguments)
    else ExitOutcome(Atoi(args[0]), [])
  }

  /** The numeral `atoi` reads as `n`: its decimal digits, after a minus sign
      when `n` is negative. */
  function IntToString(n: int): (s: string)
    ensures Atoi(s) == n
  {
    if n < 0 then
      AtoiNegated(-n);
      "-" + NatToString(-n)
    else
      AtoiNatToString(n);
      NatToString(n)
  }

  /** `exit N` with a representable numeral exits with N, silently. */
  lemma ExitWithCode(n: int)
    requires IsInt32(n)
    ensures HandleExitCommand([IntToString(n)]) == ExitOutcome(n, [])
  {
  }

  /** `exit 12abc` exits with 12: with one argument, digits followed by
      anything else exit with the value of the digits. */
  lemma ExitReadsLeadingDigits(digits: string, rest: string)
    requires forall k :: 0 <= k < |digits| ==> IsDigit(digits[k])
    requires digits != [] && (rest == [] || !IsDigit(rest[0]))
    requires IsInt32(DigitsValue(digits))
    ensures Atoi(digits + rest) == DigitsValue(digits)
    ensures HandleExitCommand([digits + rest]) == ExitOutcome(DigitsValue(digits), [])
  {
    AtoiStopsAtNonDigit(digits, rest);
  }

  /** `exit abc` exits with 0: an argument without leading digits after
      whitespace and a sign exits with 0. */
  lemma ExitWithoutDigits(s: string)
    requires var t := SkipSpace(s);
             var u := if t != [] && (t[0] == '-' || t[0] == '+') then t[1..] else t;
             u == [] || !IsDigit(u[0])
    ensures Atoi(s) == 0
    ensures HandleExitCommand([s]) == ExitOutcome(0, [])
  {
    AtoiWithoutDigits(s);
  }

  /** `exit 1 2` prints the diagnostic and exits with 1. */
  lemma ExitTooManyArguments(a: string, b: string)
    ensures HandleExitCommand([a, b]) == ExitOutcome(1, TooManyExitArguments)
  {
  }

  // ---------------------------------------------------------------------
  // echo

  lemma JoinPush(fields: seq<string>, w: string, sep: char)
    ensures Join(fields + [w], sep) == if fields == [] then w else Join(fields, sep) + [sep] + w
    decreases |fields|
  {
    if |fields| > 1 {
      assert (fields + [w])[1..] == fields[1..] + [w];
      JoinPush(fields[1..], w, sep);
    } else if |fields| == 1 {
      assert fields + [w] == [fields[0], w];
    }
  }

  /** `handleEchoCommand`: each argument is printed, followed by a space
      unless it is the last one, then the line ends. */
  method HandleEchoCommand(args: seq<string>) returns (printed: string)
    ensures printed == Join(args, ' ') + "\n"
  {
    printed := [];
    for i := 0 to |args|
      invariant printed == if i == 0 then [] else Join(args[..i], ' ') + (if i < |args| then " " else "")
    {
      JoinPush(args[..i], args[i], ' ');
      assert args[..i + 1] == args[..i] + [args[i]];
      if i == |args| - 1 {
        printed := printed + args[i];
      } else {
        printed := printed + args[i] + " ";
      }
    }
    assert args[..|args|] == args;
    printed := printed + "\n";
  }

  /** What `echo` prints for arguments without spaces splits back into those
      arguments at the spaces. */
  lemma EchoSplitsBack(args: seq<string>)
    requires |args| >= 1
    requires forall i :: 0 <= i < |args| ==> ' ' !in args[i]
    ensures var line := Join(args, ' ') + "\n";
            Split(line[..|line| - 1], ' ') == args
  {
    var line := Join(args, ' ') + "\n";
    assert line[..|line| - 1] == Join(args, ' ');
    SplitJoin(args, ' ');
  }

  // ---------------------------------------------------------------------
  // type

  const TypeNeedsOneArgument := "type command needs exactly one argument\n"

  /** `handleTypeCommand`, given the PATH search as `lookup` (the empty string
      for "not found"): one line saying that the argument is a builtin, where
      it was found, or that it was not found; any other number of arguments
      gets a usage line. */
  function HandleTypeCommand(args: seq<string>, lookup: string -> string): (line: string)
    ensures |line| > 0 && line[|line| - 1] == '\n'
    ensures |args| != 1 ==> line == TypeNeedsOneArgument
    ensures |args| == 1 ==> |line| > |args[0]| && line[..|args[0]|] == args[0]
  {
    if |args| != 1 then TypeNeedsOneArgument
    else
      var argument := args[0];
      if IsBuiltin(argument) then argument + " is a shell builtin\n"
      else
        var path := lookup(argument);
        if path != [] then argument + " is " + path + "\n"
        else argument + ": not found\n"
  }

  /** The PATH search is consulted only for one argument that is not a
      builtin: otherwise any two searches give the same line. */
  lemma TypeIgnoresLookup(args: seq<string>, lookup1: string -> string, lookup2: string -> string)
    requires |args| != 1 || IsBuiltin(args[0])
    ensures HandleTypeCommand(args, lookup1) == HandleTypeCommand(args, lookup2)
  {
  }

  /** The three answers for one argument `x`. */
  lemma TypeAnswers(x: string, lookup: string -> string)
    ensures IsBuiltin(x) ==> HandleTypeCommand([x], lookup) == x + " is a shell builtin\n"
    ensures !IsBuiltin(x) && lookup(x) != [] ==> HandleTypeCommand([x], lookup) == x + " is " + lookup(x) + "\n"
    ensures !IsBuiltin(x) && lookup(x) == [] ==> HandleTypeCommand([x], lookup) == x + ": not found\n"
  {
  }
}
