/** The launcher's quoting of arguments, and its inverse: the argument rules of the Microsoft C
    runtime (the ones CommandLineToArgvW applies after the program name). */
module WindowsCommandLine {
  const QUOTE := '"'
  const BACKSLASH := '\\'
  const NUL := '\0'

  // ----- the parser of the Microsoft C runtime

  predicate IsSeparator(c: char) {
    c == ' ' || c == '\t'
  }

  datatype Parsed = Parsed(arg: string, rest: string)

  function Cons(prefix: string, p: Parsed): Parsed {
    Parsed(prefix + p.arg, p.rest)
  }

  function CountBackslashes(s: string): (n: nat)
    ensures n <= |s|
  {
    if s == "" || s[0] != BACKSLASH then 0 else 1 + CountBackslashes(s[1..])
  }

  function Repeat(c: char, n: nat): string {
    seq(n, _ => c)
  }

  /** One move of the parser: text for the argument and how much of the line it used up. */
  datatype Move = Emit(text: string, used: nat, quoted: bool) | Stop(used: nat)

  /** Backslashes are literal unless a quote follows: then each pair stands for one, and an odd one left
      makes the quote literal. A quote not made literal opens or closes a quoted part; doubled inside
      a quoted part it stands for itself. Outside quoted parts a separator ends the argument; a NUL
      ends the command line. */
  function NextMove(s: string, quoted: bool): (m: Move)
    ensures m.used <= |s| && (m.Emit? ==> m.used > 0)
  {
    var n := CountBackslashes(s);
    if n > 0 then
      if n == |s| || s[n] != QUOTE then Emit(Repeat(BACKSLASH, n), n, quoted)
      else if n % 2 == 0 then Emit(Repeat(BACKSLASH, n / 2), n, quoted)
      else Emit(Repeat(BACKSLASH, n / 2) + [QUOTE], n + 1, quoted)
    else if s == "" then Stop(0)
    else if s[0] == NUL then Stop(|s|)
    else if s[0] == QUOTE then
      if quoted && |s| > 1 && s[1] == QUOTE then Emit([QUOTE], 2, quoted) else Emit("", 1, !quoted)
    else if !quoted && IsSeparator(s[0]) then Stop(0)
    else Emit([s[0]], 1, quoted)
  }

  /** One argument, from its first character on. */
  function ParseArgument(s: string, quoted: bool): (p: Parsed)
    ensures |p.rest| <= |s|
    ensures s != "" && !IsSeparator(s[0]) ==> |p.rest| < |s|
    decreases |s|
  {
    var m := NextMove(s, quoted);
    if m.Stop? then Parsed("", s[m.used..])
    else Cons(m.text, ParseArgument(s[m.used..], m.quoted))
  }

  function SkipSeparators(s: string): (t: string)
    ensures |t| <= |s| && (t != "" ==> !IsSeparator(t[0]))
  {
    if s != "" && IsSeparator(s[0]) then SkipSeparators(s[1..]) else s
  }

  function ParseLine(s: string): seq<string>
    decreases |s|
  {
    var t := SkipSeparators(s);
    if t == "" || t[0] == NUL then [] else
      var p := ParseArgument(t, false);
      [p.arg] + ParseLine(p.rest)
  }

  // ----- the printer

  /** Char.IsWhiteSpace. */
  predicate IsWhiteSpace(c: char) {
    || '\t' <= c <= '\r' || c == ' ' || c == '\U{85}' || c == '\U{A0}' || c == '\U{1680}'
    || '\U{2000}' <= c <= '\U{200A}' || c == '\U{2028}' || c == '\U{2029}' || c == '\U{202F}'
    || c == '\U{205F}' || c == '\U{3000}'
  }

  predicate RequiresQuotes(value: string) {
    value == "" || exists i :: 0 <= i < |value| && (value[i] == QUOTE || IsWhiteSpace(value[i]))
  }

  /** What is still to be written of a quoted argument, `pending` backslashes being held back. */
  function Escaped(value: string, pending: nat): string
    decreases |value|
  {
    if value == "" then Repeat(BACKSLASH, pending * 2) + [QUOTE]
    else if value[0] == BACKSLASH then Escaped(value[1..], pending + 1)
    else if value[0] == QUOTE then Repeat(BACKSLASH, pending * 2 + 1) + [QUOTE] + Escaped(value[1..], 0)
    else Repeat(BACKSLASH, pending) + [value[0]] + Escaped(value[1..], 0)
  }

  function Quoted(value: string): string {
    if RequiresQuotes(value) then [QUOTE] + Escaped(value, 0) else value
  }

  function Suffix(args: seq<string>): string {
    if args == [] then "" else " " + Quoted(args[0]) + Suffix(args[1..])
  }

  method QuoteArgument(value: string) returns (result: string)
    ensures result == Quoted(value)
  {
    var requiresQuotes := |value| == 0;
    var index := 0;
    while index < |value| && !requiresQuotes
      invariant 0 <= index <= |value|
      invariant requiresQuotes <==>
        value == "" || exists i :: 0 <= i < index && (value[i] == QUOTE || IsWhiteSpace(value[i]))
    {
      requiresQuotes := value[index] == QUOTE || IsWhiteSpace(value[index]);
      index := index + 1;
    }
    if !requiresQuotes {
      return value;
    }
    var quoted := [QUOTE];
    var backslashCount := 0;
    for i := 0 to |value|
      invariant quoted + Escaped(value[i..], backslashCount) == [QUOTE] + Escaped(value, 0)
    {
      var character := value[i];
      ghost var before := quoted;
      assert value[i..][1..] == value[i + 1..];
      if character == BACKSLASH {
        backslashCount := backslashCount + 1;
      } else {
        var added :=
          if character == QUOTE then Repeat(BACKSLASH, backslashCount * 2 + 1) + [QUOTE]
          else Repeat(BACKSLASH, backslashCount) + [character];
        assert before + (added + Escaped(value[i + 1..], 0)) == (before + added) + Escaped(value[i + 1..], 0);
        quoted := quoted + added;
        backslashCount := 0;
      }
    }
    result := quoted + Repeat(BACKSLASH, backslashCount * 2) + [QUOTE];
    assert result == quoted + (Repeat(BACKSLASH, backslashCount * 2) + [QUOTE]);
  }

  method BuildArguments(cliPath: string, args: seq<string>) returns (commandLine: string)
    ensures commandLine == Quoted(cliPath) + Suffix(args)
  {
    commandLine := QuoteArgument(cliPath);
    for i := 0 to |args|
      invariant commandLine + Suffix(args[i..]) == Quoted(cliPath) + Suffix(args)
    {
      var quoted := QuoteArgument(args[i]);
      assert args[i..][1..] == args[i + 1..];
      assert commandLine + (" " + quoted + Suffix(args[i + 1..])) == (commandLine + " " + quoted) + Suffix(args[i + 1..]);
      commandLine := commandLine + " " + quoted;
    }
  }

  // ----- the round trip

  predicate NulFree(s: string) {
    NUL !in s
  }

  /** The end of the line, or a separator. */
  predicate EndsArgument(tail: string) {
    tail == "" || IsSeparator(tail[0])
  }

  lemma {:induction false} CountLeading(n: nat, s: string, t: string)
    requires s == Repeat(BACKSLASH, n) + t && (t == "" || t[0] != BACKSLASH)
    ensures CountBackslashes(s) == n && s[n..] == t
  {
    if n > 0 {
      assert s[1..] == Repeat(BACKSLASH, n - 1) + t;
      CountLeading(n - 1, s[1..], t);
    }
  }

  lemma Moves(s: string, quoted: bool, text: string, t: string, quoted': bool)
    requires |t| <= |s| && NextMove(s, quoted) == Emit(text, |s| - |t|, quoted') && t == s[|s| - |t|..]
    ensures ParseArgument(s, quoted) == Cons(text, ParseArgument(t, quoted'))
  {}

  /** A run of backslashes that no quote follows is literal. */
  lemma LiteralRun(n: nat, s: string, t: string, quoted: bool)
    requires s == Repeat(BACKSLASH, n) + t && (t == "" || (t[0] != BACKSLASH && t[0] != QUOTE))
    ensures ParseArgument(s, quoted) == Cons(Repeat(BACKSLASH, n), ParseArgument(t, quoted))
  {
    CountLeading(n, s, t);
    if n == 0 {
      assert s == t && Repeat(BACKSLASH, n) + ParseArgument(t, quoted).arg == ParseArgument(t, quoted).arg;
    } else {
      Moves(s, quoted, Repeat(BACKSLASH, n), t, quoted);
    }
  }

  /** Twice as many before a quote that is not literal. */
  lemma DoubledRun(n: nat, s: string, t: string, quoted: bool)
    requires s == Repeat(BACKSLASH, n * 2) + t && t != "" && t[0] == QUOTE
    ensures ParseArgument(s, quoted) == Cons(Repeat(BACKSLASH, n), ParseArgument(t, quoted))
  {
    CountLeading(n * 2, s, t);
    if n == 0 {
      assert s == t && Repeat(BACKSLASH, n) + ParseArgument(t, quoted).arg == ParseArgument(t, quoted).arg;
    } else {
      Moves(s, quoted, Repeat(BACKSLASH, n), t, quoted);
    }
  }

  /** Twice as many and one before a literal quote. */
  lemma EscapedQuote(n: nat, s: string, t: string, quoted: bool)
    requires s == Repeat(BACKSLASH, n * 2 + 1) + [QUOTE] + t
    ensures ParseArgument(s, quoted) == Cons(Repeat(BACKSLASH, n) + [QUOTE], ParseArgument(t, quoted))
  {
    assert s == Repeat(BACKSLASH, n * 2 + 1) + ([QUOTE] + t);
    CountLeading(n * 2 + 1, s, [QUOTE] + t);
    Moves(s, quoted, Repeat(BACKSLASH, n) + [QUOTE], t, quoted);
  }

  lemma OrdinaryCharacter(c: char, s: string, t: string, quoted: bool)
    requires s == [c] + t
    requires c != BACKSLASH && c != QUOTE && c != NUL && (quoted || !IsSeparator(c))
    ensures ParseArgument(s, quoted) == Cons([c], ParseArgument(t, quoted))
  {
    Moves(s, quoted, [c], t, quoted);
  }

  lemma ConsCons(n: nat, c: char, p: Parsed)
    ensures Cons(Repeat(BACKSLASH, n), Cons([c], p)) == Cons(Repeat(BACKSLASH, n) + [c], p)
  {
    assert Repeat(BACKSLASH, n) + ([c] + p.arg) == Repeat(BACKSLASH, n) + [c] + p.arg;
  }

  /** A run of backslashes and an ordinary character stand for themselves. */
  lemma LiteralCharacter(n: nat, c: char, s: string, t: string, quoted: bool)
    requires s == Repeat(BACKSLASH, n) + [c] + t
    requires c != BACKSLASH && c != QUOTE && c != NUL && (quoted || !IsSeparator(c))
    ensures ParseArgument(s, quoted) == Cons(Repeat(BACKSLASH, n) + [c], ParseArgument(t, quoted))
  {
    var u := [c] + t;
    assert s == Repeat(BACKSLASH, n) + u;
    LiteralRun(n, s, u, quoted);
    OrdinaryCharacter(c, u, t, quoted);
    ConsCons(n, c, ParseArgument(t, quoted));
  }

  lemma ClosingQuote(n: nat, s: string, tail: string)
    requires s == Repeat(BACKSLASH, n * 2) + [QUOTE] + tail && EndsArgument(tail)
    ensures ParseArgument(s, true) == Parsed(Repeat(BACKSLASH, n), tail)
  {
    var t := [QUOTE] + tail;
    assert t[1..] == tail && s == Repeat(BACKSLASH, n * 2) + t;
    DoubledRun(n, s, t, true);
    assert ParseArgument(tail, false) == Parsed("", tail);
  }

  /** The held-back backslashes and a character other than a backslash, printed and parsed. */
  lemma EscapedCharacter(held: nat, c: char, rest: string, s: string, t: string, tail: string)
    requires c != BACKSLASH && c != NUL
    requires s == Repeat(BACKSLASH, if c == QUOTE then held * 2 + 1 else held) + [c] + t
    requires ParseArgument(t, true) == Parsed(rest, tail)
    ensures ParseArgument(s, true) == Parsed(Repeat(BACKSLASH, held) + [c] + rest, tail)
  {
    if c == QUOTE {
      EscapedQuote(held, s, t, true);
    } else {
      LiteralCharacter(held, c, s, t, true);
    }
  }

  lemma EscapedUnfolds(value: string, pending: nat, tail: string)
    requires value != "" && value[0] != BACKSLASH
    ensures var n := if value[0] == QUOTE then pending * 2 + 1 else pending;
            Escaped(value, pending) + tail == Repeat(BACKSLASH, n) + [value[0]] + (Escaped(value[1..], 0) + tail)
  {}

  lemma RepeatPushes(n: nat, value: string)
    requires value != ""
    ensures Repeat(BACKSLASH, n) + [value[0]] + value[1..] == Repeat(BACKSLASH, n) + value
    ensures value[0] == BACKSLASH ==> Repeat(BACKSLASH, n + 1) + value[1..] == Repeat(BACKSLASH, n) + value
    ensures Repeat(BACKSLASH, 0) + value[1..] == value[1..]
  {}

  lemma {:induction false} ParseEscaped(value: string, pending: nat, s: string, tail: string)
    requires NulFree(value) && EndsArgument(tail) && s == Escaped(value, pending) + tail
    ensures ParseArgument(s, true) == Parsed(Repeat(BACKSLASH, pending) + value, tail)
    decreases |value|
  {
    if value == "" {
      ClosingQuote(pending, s, tail);
      assert Repeat(BACKSLASH, pending) + value == Repeat(BACKSLASH, pending);
    } else {
      RepeatPushes(pending, value);
      if value[0] == BACKSLASH {
        ParseEscaped(value[1..], pending + 1, s, tail);
      } else {
        var t := Escaped(value[1..], 0) + tail;
        ParseEscaped(value[1..], 0, t, tail);
        EscapedUnfolds(value, pending, tail);
        EscapedCharacter(pending, value[0], value[1..], s, t, tail);
      }
    }
  }

  lemma PlainCharacter(n: nat, c: char, rest: string, s: string, t: string, tail: string)
    requires c != BACKSLASH && c != QUOTE && c != NUL && !IsSeparator(c)
    requires s == Repeat(BACKSLASH, n) + [c] + t && ParseArgument(t, false) == Parsed(rest, tail)
    ensures ParseArgument(s, false) == Parsed(Repeat(BACKSLASH, n) + [c] + rest, tail)
  {
    LiteralCharacter(n, c, s, t, false);
  }

  lemma PlainEnd(n: nat, s: string, tail: string)
    requires s == Repeat(BACKSLASH, n) + tail && EndsArgument(tail)
    ensures ParseArgument(s, false) == Parsed(Repeat(BACKSLASH, n), tail)
  {
    LiteralRun(n, s, tail, false);
    assert ParseArgument(tail, false) == Parsed("", tail);
  }

  lemma PlainUnfolds(value: string, held: nat, tail: string)
    requires value != ""
    ensures value[0] == BACKSLASH ==>
              Repeat(BACKSLASH, held) + value + tail == Repeat(BACKSLASH, held + 1) + value[1..] + tail
    ensures Repeat(BACKSLASH, held) + value + tail
         == Repeat(BACKSLASH, held) + [value[0]] + (Repeat(BACKSLASH, 0) + value[1..] + tail)
  {}

  lemma {:induction false} ParsePlain(value: string, held: nat, s: string, tail: string)
    requires NulFree(value) && EndsArgument(tail) && s == Repeat(BACKSLASH, held) + value + tail
    requires forall i :: 0 <= i < |value| ==> value[i] != QUOTE && !IsSeparator(value[i])
    ensures ParseArgument(s, false) == Parsed(Repeat(BACKSLASH, held) + value, tail)
    decreases |value|
  {
    if value == "" {
      assert Repeat(BACKSLASH, held) + value == Repeat(BACKSLASH, held);
      PlainEnd(held, s, tail);
    } else {
      RepeatPushes(held, value);
      PlainUnfolds(value, held, tail);
      if value[0] == BACKSLASH {
        ParsePlain(value[1..], held + 1, s, tail);
      } else {
        var t := Repeat(BACKSLASH, 0) + value[1..] + tail;
        ParsePlain(value[1..], 0, t, tail);
        PlainCharacter(held, value[0], value[1..], s, t, tail);
      }
    }
  }

  /** The text begins an argument, and the parser finds `value` there and stops before `tail`. */
  ghost predicate Reads(s: string, value: string, tail: string) {
    s != "" && s[0] != NUL && !IsSeparator(s[0]) && ParseArgument(s, false) == Parsed(value, tail)
  }

  lemma OpeningQuote(s: string, t: string)
    requires s == [QUOTE] + t
    ensures ParseArgument(s, false) == ParseArgument(t, true)
  {
    assert s[1..] == t;
  }

  lemma ReadsWithQuotes(value: string, s: string, tail: string)
    requires NulFree(value) && EndsArgument(tail) && s == [QUOTE] + (Escaped(value, 0) + tail)
    ensures Reads(s, value, tail)
  {
    var t := Escaped(value, 0) + tail;
    ParseEscaped(value, 0, t, tail);
    assert Repeat(BACKSLASH, 0) + value == value;
    OpeningQuote(s, t);
  }

  lemma ReadsPlain(value: string, s: string, tail: string)
    requires NulFree(value) && EndsArgument(tail) && s == value + tail && value != ""
    requires forall i :: 0 <= i < |value| ==> value[i] != QUOTE && !IsSeparator(value[i])
    ensures Reads(s, value, tail)
  {
    assert Repeat(BACKSLASH, 0) + value == value;
    ParsePlain(value, 0, s, tail);
    assert s[0] == value[0] && value[0] in value;
  }

  lemma ParseQuoted(value: string, s: string, tail: string)
    requires NulFree(value) && EndsArgument(tail) && s == Quoted(value) + tail
    ensures Reads(s, value, tail)
  {
    if RequiresQuotes(value) {
      assert s == [QUOTE] + (Escaped(value, 0) + tail);
      ReadsWithQuotes(value, s, tail);
    } else {
      ReadsPlain(value, s, tail);
    }
  }

  lemma LineStep(s: string, t: string, value: string, tail: string)
    requires Reads(t, value, tail) && (s == t || s == " " + t)
    ensures ParseLine(s) == [value] + ParseLine(tail)
  {
    if s == " " + t {
      assert s[1..] == t;
    }
    assert SkipSeparators(s) == t;
  }

  lemma SuffixStep(args: seq<string>)
    requires args != [] && NulFree(args[0])
    ensures ParseLine(Suffix(args)) == [args[0]] + ParseLine(Suffix(args[1..]))
  {
    var tail := Suffix(args[1..]);
    var t := Quoted(args[0]) + tail;
    assert Suffix(args) == " " + t;
    ParseQuoted(args[0], t, tail);
    LineStep(Suffix(args), t, args[0], tail);
  }

  lemma {:induction false} ParseSuffix(args: seq<string>)
    requires forall i :: 0 <= i < |args| ==> NulFree(args[i])
    ensures ParseLine(Suffix(args)) == args
    decreases |args|
  {
    if args != [] {
      SuffixStep(args);
      ParseSuffix(args[1..]);
    }
  }

  lemma MoveIsNulFree(s: string, quoted: bool)
    ensures var m := NextMove(s, quoted); m.Emit? ==> NulFree(m.text)
  {}

  lemma ConsIsNulFree(prefix: string, p: Parsed)
    requires NulFree(prefix) && NulFree(p.arg)
    ensures NulFree(Cons(prefix, p).arg)
  {}

  lemma {:induction false} ParsedIsNulFree(s: string, quoted: bool)
    ensures NulFree(ParseArgument(s, quoted).arg)
    decreases |s|
  {
    var m := NextMove(s, quoted);
    if m.Emit? {
      MoveIsNulFree(s, quoted);
      ParsedIsNulFree(s[m.used..], m.quoted);
      ConsIsNulFree(m.text, ParseArgument(s[m.used..], m.quoted));
    }
  }

  lemma {:induction false} ParsedLineIsNulFree(s: string)
    ensures forall i :: 0 <= i < |ParseLine(s)| ==> NulFree(ParseLine(s)[i])
    decreases |s|
  {
    var t := SkipSeparators(s);
    if t != "" && t[0] != NUL {
      ParsedIsNulFree(t, false);
      ParsedLineIsNulFree(ParseArgument(t, false).rest);
    }
  }

  /** Parsing the built command line gives back the script path and the arguments exactly, if and only
      if none of them contains a NUL, which no command line can carry. */
  lemma {:induction false} RoundTripIff(cliPath: string, args: seq<string>)
    ensures ParseLine(Quoted(cliPath) + Suffix(args)) == [cliPath] + args
       <==> NulFree(cliPath) && forall i :: 0 <= i < |args| ==> NulFree(args[i])
  {
    var s := Quoted(cliPath) + Suffix(args);
    if NulFree(cliPath) && forall i :: 0 <= i < |args| ==> NulFree(args[i]) {
      ParseQuoted(cliPath, s, Suffix(args));
      LineStep(s, s, cliPath, Suffix(args));
      ParseSuffix(args);
    } else if ParseLine(s) == [cliPath] + args {
      ParsedLineIsNulFree(s);
      assert ParseLine(s)[0] == cliPath;
      forall i | 0 <= i < |args| ensures NulFree(args[i]) {
        assert ParseLine(s)[i + 1] == args[i];
      }
    }
  }

  // ----- how it is quoted

  /** An argument is written as it is if and only if it is not empty and holds neither a quote nor white space. */
  lemma WrittenAsIsIff(value: string)
    ensures Quoted(value) == value
       <==> && value != "" && '"' !in value
            && forall i :: 0 <= i < |value| ==>
                 && value[i] !in {'\t', '\n', '\U{B}', '\U{C}', '\r', ' ', '\U{85}', '\U{A0}', '\U{1680}',
                                  '\U{2028}', '\U{2029}', '\U{202F}', '\U{205F}', '\U{3000}'}
                 && !('\U{2000}' <= value[i] <= '\U{200A}')
  {
    if RequiresQuotes(value) {
      EscapedIsLonger(value, 0);
      assert |Quoted(value)| > |value|;
      if value != "" {
        var i :| 0 <= i < |value| && (value[i] == QUOTE || IsWhiteSpace(value[i]));
        assert value[i] == '"' ==> '"' in value;
      }
    }
  }

  lemma {:induction false} EscapedIsLonger(value: string, pending: nat)
    ensures |Escaped(value, pending)| > |value| + pending
    ensures Escaped(value, pending)[|Escaped(value, pending)| - 1] == QUOTE
    decreases |value|
  {
    if value != "" {
      EscapedIsLonger(value[1..], if value[0] == BACKSLASH then pending + 1 else 0);
    }
  }

  /** How many backslashes stand directly before this place. */
  function BackslashesBefore(s: string, i: nat): nat
    requires i <= |s|
  {
    if i == 0 || s[i - 1] != BACKSLASH then 0 else 1 + BackslashesBefore(s, i - 1)
  }

  /** An odd number of backslashes stands before every quote of the text but its last character, and an even
      number before that one, which is the closing quote. */
  ghost predicate EscapesOddly(s: string, start: nat) {
    && start < |s| && s[|s| - 1] == QUOTE
    && (forall i :: start <= i < |s| - 1 && s[i] == QUOTE ==> BackslashesBefore(s, i) % 2 == 1)
    && BackslashesBefore(s, |s| - 1) % 2 == 0
  }

  lemma {:induction false} BackslashesAfter(s: string, t: string, i: nat)
    requires i <= |t| && (s == "" || s[|s| - 1] != BACKSLASH)
    ensures BackslashesBefore(s + t, |s| + i) == BackslashesBefore(t, i)
    decreases i
  {
    if i > 0 {
      assert (s + t)[|s| + i - 1] == t[i - 1];
      BackslashesAfter(s, t, i - 1);
    }
  }

  lemma {:induction false} RunBefore(n: nat, t: string, i: nat)
    requires i <= n
    ensures BackslashesBefore(Repeat(BACKSLASH, n) + t, i) == i
    decreases i
  {
    if i > 0 {
      RunBefore(n, t, i - 1);
    }
  }

  lemma {:induction false} BackslashesInFront(s: string, t: string, i: nat)
    requires i <= |s|
    ensures BackslashesBefore(s + t, i) == BackslashesBefore(s, i)
    decreases i
  {
    if i > 0 {
      BackslashesInFront(s, t, i - 1);
    }
  }

  lemma EscapesBehind(head: string, t: string)
    requires head != "" && head[|head| - 1] != BACKSLASH && EscapesOddly(t, 0)
    requires forall i :: 0 <= i < |head| && head[i] == QUOTE ==> BackslashesBefore(head, i) % 2 == 1
    ensures EscapesOddly(head + t, 0)
  {
    var s := head + t;
    forall i | 0 <= i < |s| - 1 && s[i] == QUOTE ensures BackslashesBefore(s, i) % 2 == 1 {
      if i < |head| {
        BackslashesInFront(head, t, i);
      } else {
        BackslashesAfter(head, t, i - |head|);
      }
    }
    BackslashesAfter(head, t, |t| - 1);
  }

  /** A run of backslashes, then one other character, escaped if it is a quote, then text that is all right. */
  lemma EscapesAfter(n: nat, c: char, t: string)
    requires c != BACKSLASH && EscapesOddly(t, 0) && (c == QUOTE ==> n % 2 == 1)
    ensures EscapesOddly(Repeat(BACKSLASH, n) + [c] + t, 0)
  {
    RunBefore(n, [c], n);
    EscapesBehind(Repeat(BACKSLASH, n) + [c], t);
  }

  lemma ClosingEscapesOddly(pending: nat)
    ensures EscapesOddly(Repeat(BACKSLASH, pending * 2) + [QUOTE], 0)
  {
    var n := pending * 2;
    var s := Repeat(BACKSLASH, n) + [QUOTE];
    RunBefore(n, [QUOTE], n);
    assert forall i :: 0 <= i < |s| - 1 ==> s[i] == BACKSLASH;
  }

  lemma {:induction false} EscapedEscapesOddly(value: string, pending: nat)
    ensures EscapesOddly(Escaped(value, pending), 0)
    decreases |value|
  {
    if value == "" {
      ClosingEscapesOddly(pending);
    } else if value[0] == BACKSLASH {
      EscapedEscapesOddly(value[1..], pending + 1);
    } else {
      EscapedEscapesOddly(value[1..], 0);
      EscapesAfter(if value[0] == QUOTE then pending * 2 + 1 else pending, value[0], Escaped(value[1..], 0));
    }
  }

  lemma EscapesBehindQuote(body: string)
    requires EscapesOddly(body, 0)
    ensures EscapesOddly([QUOTE] + body, 1)
  {
    var s := [QUOTE] + body;
    forall i | 1 <= i < |s| ensures BackslashesBefore(s, i) == BackslashesBefore(body, i - 1) && s[i] == body[i - 1] {
      BackslashesAfter([QUOTE], body, i - 1);
    }
  }

  /** In what is quoted every quote of the argument is escaped by a backslash, never by doubling it, and what comes
      before the closing quote does not escape it. */
  lemma QuotesAreEscaped(value: string)
    requires Quoted(value) != value
    ensures Quoted(value)[..1] == [QUOTE] && EscapesOddly(Quoted(value), 1)
  {
    EscapedEscapesOddly(value, 0);
    EscapesBehindQuote(Escaped(value, 0));
  }
}
