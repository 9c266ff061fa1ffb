/** The shell-word tokenizer behind the command classification, and the launch prefixes it ignores.
    Commands are given as the classifiers tokenize them, that is trimmed. */
module ShellWords {
  import opened Options
  import opened Sequences

  /** What \s matches. */
  predicate IsSpace(c: char) {
    || '\t' <= c <= '\r' || c == ' ' || c == '\U{A0}' || c == '\U{1680}' || '\U{2000}' <= c <= '\U{200A}'
    || c == '\U{2028}' || c == '\U{2029}' || c == '\U{202F}' || c == '\U{205F}' || c == '\U{3000}' || c == '\U{FEFF}'
  }

  predicate IsQuote(c: char) {
    c == '"' || c == '\''
  }

  /** All the words of the text, the first of them continuing `current`. */
  function Words(s: string, current: string, quote: Option<char>): seq<string>
    decreases |s|
  {
    if s == "" then if current == "" then [] else [current]
    else
      var c, rest := s[0], s[1..];
      if quote.Some? then
        if c == quote.value then Words(rest, current, None) else Words(rest, current + [c], quote)
      else if IsQuote(c) then Words(rest, current, Some(c))
      else if !IsSpace(c) then Words(rest, current + [c], None)
      else if current == "" then Words(rest, "", None)
      else [current] + Words(rest, "", None)
  }

  /** With a limit of at least one the tokens are the first words of the unlimited tokenization. */
  method TokenizeLeadingShellWords(command: string, limit: nat) returns (tokens: seq<string>)
    ensures limit >= 1 ==> tokens == Take(Words(command, "", None), limit)
  {
    ghost var all := Words(command, "", None);
    tokens := [];
    var current := "";
    var quote: Option<char> := None;
    for i := 0 to |command|
      invariant tokens + Words(command[i..], current, quote) == all
      invariant limit >= 1 ==> |tokens| < limit
    {
      var c := command[i];
      assert command[i..][0] == c && command[i..][1..] == command[i + 1..];
      if quote.Some? {
        if c == quote.value {
          quote := None;
        } else {
          current := current + [c];
        }
      } else if IsQuote(c) {
        quote := Some(c);
      } else if IsSpace(c) {
        if current != "" {
          ghost var rest := Words(command[i + 1..], "", None);
          assert tokens + ([current] + rest) == (tokens + [current]) + rest;
          tokens := tokens + [current];
          if |tokens| >= limit {
            assert limit >= 1 ==> all[..limit] == tokens;
            return tokens;
          }
          current := "";
        }
      } else {
        current := current + [c];
      }
    }
    assert command[|command|..] == "";
    if current != "" && |tokens| < limit {
      tokens := tokens + [current];
    }
  }

  // ----- rendering words so that they are read back

  function Render(words: seq<string>): string {
    if words == [] then "" else "'" + words[0] + "'" + (if |words| == 1 then "" else " ") + Render(words[1..])
  }

  lemma {:induction false} QuotedRun(word: string, s: string, rest: string, current: string)
    requires '\'' !in word && s == word + "'" + rest
    ensures Words(s, current, Some('\'')) == Words(rest, current + word, None)
    decreases |word|
  {
    if word == "" {
      assert s[1..] == rest && current + word == current;
    } else {
      assert s[0] == word[0] && word[0] in word && s[1..] == word[1..] + "'" + rest;
      QuotedRun(word[1..], s[1..], rest, current + [word[0]]);
      assert current + [word[0]] + word[1..] == current + word;
    }
  }

  lemma QuotedWord(word: string, s: string, rest: string)
    requires '\'' !in word && s == "'" + word + "'" + rest
    ensures Words(s, "", None) == Words(rest, word, None)
  {
    assert s[1..] == word + "'" + rest && "" + word == word;
    QuotedRun(word, s[1..], rest, "");
  }

  /** Rendered in single quotes and joined by blanks, any words without a single quote are read back,
      whatever blanks and double quotes they hold; only empty words are lost. */
  lemma {:induction false} RenderRoundTrip(words: seq<string>)
    requires forall i :: 0 <= i < |words| ==> '\'' !in words[i]
    ensures Words(Render(words), "", None) == NonEmpty(words)
    decreases |words|
  {
    if words != [] {
      var rest := Render(words[1..]);
      var tail := if |words| == 1 then "" else " " + rest;
      if |words| == 1 {
        assert rest == "";
      }
      assert Render(words) == "'" + words[0] + "'" + tail;
      QuotedWord(words[0], Render(words), tail);
      if |words| > 1 {
        assert tail[1..] == rest;
        RenderRoundTrip(words[1..]);
      } else {
        assert NonEmpty(words[1..]) == [];
      }
    }
  }

  // ----- launch prefixes

  predicate IsNameStart(c: char) {
    'A' <= c <= 'Z' || 'a' <= c <= 'z' || c == '_'
  }

  predicate NameThenEquals(s: string) {
    s != "" && (s[0] == '=' || ((IsNameStart(s[0]) || '0' <= s[0] <= '9') && NameThenEquals(s[1..])))
  }

  predicate IsShellAssignment(token: string) {
    token != "" && IsNameStart(token[0]) && NameThenEquals(token[1..])
  }

  function Lower(c: char): char {
    if 'A' <= c <= 'Z' then c - 'A' + 'a' else c
  }

  /** The part after the last slash or backslash, in lower case. */
  function CommandBasename(command: string): string {
    if command == "" then ""
    else
      var last := command[|command| - 1];
      if last == '/' || last == '\\' then "" else CommandBasename(command[..|command| - 1]) + [Lower(last)]
  }

  function StripAssignments(tokens: seq<string>): seq<string> {
    if tokens != [] && IsShellAssignment(tokens[0]) then StripAssignments(tokens[1..]) else tokens
  }

  predicate StartsWith(token: string, prefix: string) {
    prefix <= token
  }

  /** The options and assignments of `env`; -u and --unset take the next token with them. */
  function StripEnvArguments(tokens: seq<string>): seq<string>
    decreases |tokens|
  {
    if tokens == [] || tokens[0] == "" then tokens
    else if IsShellAssignment(tokens[0]) then StripEnvArguments(tokens[1..])
    else if tokens[0] == "-u" || tokens[0] == "--unset" then
      StripEnvArguments(if |tokens| == 1 then [] else tokens[2..])
    else if StartsWith(tokens[0], "-") then StripEnvArguments(tokens[1..])
    else tokens
  }

  function StripPrefix(tokens: seq<string>): seq<string> {
    var rest := StripAssignments(tokens);
    if rest != [] && rest[0] != "" && CommandBasename(rest[0]) == "env" then StripEnvArguments(rest[1..]) else rest
  }

  method StripShellLaunchPrefix(tokens: seq<string>) returns (remaining: seq<string>)
    ensures remaining == StripPrefix(tokens)
  {
    remaining := tokens;
    while remaining != [] && IsShellAssignment(remaining[0])
      invariant StripAssignments(remaining) == StripAssignments(tokens)
      decreases |remaining|
    {
      remaining := remaining[1..];
    }
    if remaining != [] && remaining[0] != "" && CommandBasename(remaining[0]) == "env" {
      remaining := remaining[1..];
      ghost var arguments := remaining;
      while remaining != [] && remaining[0] != ""
        invariant StripEnvArguments(remaining) == StripEnvArguments(arguments)
        decreases |remaining|
      {
        var token := remaining[0];
        if IsShellAssignment(token) {
          remaining := remaining[1..];
        } else if token == "-u" || token == "--unset" {
          remaining := if |remaining| == 1 then [] else remaining[2..];
        } else if StartsWith(token, "-") {
          remaining := remaining[1..];
        } else {
          break;
        }
      }
    }
  }

  // ----- assignments in front of a command do not change how it is classified

  /** The word and the quote the tokenizer is in after the text, if it emits no token on the way. */
  function Scan(text: string, current: string, quote: Option<char>): Option<(string, Option<char>)>
    decreases |text|
  {
    if text == "" then Some((current, quote))
    else
      var c, rest := text[0], text[1..];
      if quote.Some? then
        if c == quote.value then Scan(rest, current, None) else Scan(rest, current + [c], quote)
      else if IsQuote(c) then Scan(rest, current, Some(c))
      else if !IsSpace(c) then Scan(rest, current + [c], None)
      else if current == "" then Scan(rest, "", None)
      else None
  }

  /** The text is one word to the tokenizer, with its quotes closed: whatever quotes and quoted blanks it
      is spelled with. */
  predicate ReadsAs(text: string, word: string) {
    Scan(text, "", None) == Some((word, None))
  }

  /** The word of a text that reads as one shell assignment. */
  predicate ReadsAsAssignment(text: string, word: string) {
    ReadsAs(text, word) && IsShellAssignment(word)
  }

  function InFrontOf(assignments: seq<string>, command: string): string {
    if assignments == [] then command else assignments[0] + " " + InFrontOf(assignments[1..], command)
  }

  /** The tokenizer goes on after a scanned text where the scan has left it. */
  lemma {:induction false} WordsAfterScan(text: string, s: string, rest: string, current: string, quote: Option<char>)
    requires s == text + rest && Scan(text, current, quote).Some?
    ensures var end := Scan(text, current, quote).value;
            Words(s, current, quote) == Words(rest, end.0, end.1)
    decreases |text|
  {
    if text == "" {
      assert s == rest;
    } else {
      var c, tail := text[0], text[1..];
      assert s[0] == c && s[1..] == tail + rest;
      if quote.Some? {
        if c == quote.value {
          WordsAfterScan(tail, s[1..], rest, current, None);
        } else {
          WordsAfterScan(tail, s[1..], rest, current + [c], quote);
        }
      } else if IsQuote(c) {
        WordsAfterScan(tail, s[1..], rest, current, Some(c));
      } else if !IsSpace(c) {
        WordsAfterScan(tail, s[1..], rest, current + [c], None);
      } else {
        WordsAfterScan(tail, s[1..], rest, "", None);
      }
    }
  }

  lemma {:induction false} WordsInFront(texts: seq<string>, words: seq<string>, command: string)
    requires |texts| == |words| && forall i :: 0 <= i < |texts| ==> words[i] != "" && ReadsAs(texts[i], words[i])
    ensures Words(InFrontOf(texts, command), "", None) == words + Words(command, "", None)
    decreases |texts|
  {
    if texts == [] {
      assert [] + Words(command, "", None) == Words(command, "", None);
    } else {
      var text, rest := texts[0], InFrontOf(texts[1..], command);
      var tail := " " + rest;
      assert InFrontOf(texts, command) == text + tail && tail[1..] == rest;
      WordsAfterScan(text, InFrontOf(texts, command), tail, "", None);
      WordsInFront(texts[1..], words[1..], command);
      assert [words[0]] + (words[1..] + Words(command, "", None)) == words + Words(command, "", None);
    }
  }

  lemma {:induction false} StripSkipsAssignments(assignments: seq<string>, tokens: seq<string>)
    requires forall i :: 0 <= i < |assignments| ==> IsShellAssignment(assignments[i])
    ensures StripAssignments(assignments + tokens) == StripAssignments(tokens)
  {
    if assignments == [] {
      assert assignments + tokens == tokens;
    } else {
      assert (assignments + tokens)[1..] == assignments[1..] + tokens;
      StripSkipsAssignments(assignments[1..], tokens);
    }
  }

  /** What a classifier goes by: the tokens within the limit, without their launch prefix. */
  function Classified(command: string, limit: nat): seq<string> {
    StripPrefix(Take(Words(command, "", None), limit))
  }

  /** Leading assignments, however their values are quoted, use up the token limit and do nothing else: the
      command is classified by what the rest of the limit lets through. */
  lemma AssignmentsOnlyUseUpTheLimit(texts: seq<string>, words: seq<string>, command: string, limit: nat)
    requires |texts| == |words| && forall i :: 0 <= i < |texts| ==> ReadsAsAssignment(texts[i], words[i])
    ensures Classified(InFrontOf(texts, command), limit)
         == Classified(command, if |texts| <= limit then limit - |texts| else 0)
  {
    var all := Words(command, "", None);
    WordsInFront(texts, words, command);
    if |words| <= limit {
      assert Take(words + all, limit) == words + Take(all, limit - |words|);
      StripSkipsAssignments(words, Take(all, limit - |words|));
    } else {
      assert Take(words + all, limit) == words[..limit] + Take(all, 0);
      StripSkipsAssignments(words[..limit], Take(all, 0));
    }
  }

  lemma {:induction false} ScanAppend(a: string, b: string, current: string, quote: Option<char>)
    requires Scan(a, current, quote).Some?
    ensures Scan(a + b, current, quote) == Scan(b, Scan(a, current, quote).value.0, Scan(a, current, quote).value.1)
    decreases |a|
  {
    if a == "" {
      assert a + b == b;
    } else {
      var c, tail := a[0], a[1..];
      assert (a + b)[0] == c && (a + b)[1..] == tail + b;
      if quote.Some? {
        var closing := c == quote.value;
        ScanAppend(tail, b, if closing then current else current + [c], if closing then None else quote);
      } else if IsQuote(c) {
        ScanAppend(tail, b, current, Some(c));
      } else {
        ScanAppend(tail, b, if IsSpace(c) then "" else current + [c], None);
      }
    }
  }

  lemma {:induction false} ScanQuoted(value: string, current: string, quote: char)
    requires quote !in value
    ensures Scan(value + [quote], current, Some(quote)) == Some((current + value, None))
    decreases |value|
  {
    var s := value + [quote];
    if value == "" {
      assert s[1..] == "" && current + value == current;
    } else {
      assert s[0] == value[0] && value[0] in value && s[1..] == value[1..] + [quote];
      ScanQuoted(value[1..], current + [value[0]], quote);
      assert current + [value[0]] + value[1..] == current + value;
    }
  }

  lemma {:induction false} ScanPlain(text: string, current: string)
    requires forall i :: 0 <= i < |text| ==> !IsQuote(text[i]) && !IsSpace(text[i])
    ensures Scan(text, current, None) == Some((current + text, None))
    decreases |text|
  {
    if text == "" {
      assert current + text == current;
    } else {
      ScanPlain(text[1..], current + [text[0]]);
      assert current + [text[0]] + text[1..] == current + text;
    }
  }

  lemma {:induction false} NameThenEqualsExtends(s: string, more: string)
    requires NameThenEquals(s)
    ensures NameThenEquals(s + more)
  {
    assert (s + more)[0] == s[0] && (s + more)[1..] == s[1..] + more;
    if s[0] != '=' {
      NameThenEqualsExtends(s[1..], more);
    }
  }

  /** Such are `NAME='any value'` and `NAME="any value"`, for every value without that quote. */
  lemma QuotedAssignmentReads(start: string, value: string, quote: char)
    requires IsShellAssignment(start) && forall i :: 0 <= i < |start| ==> !IsQuote(start[i]) && !IsSpace(start[i])
    requires IsQuote(quote) && quote !in value
    ensures ReadsAsAssignment(start + [quote] + value + [quote], start + value)
  {
    ScanPlain(start, "");
    assert "" + start == start;
    var quoted := [quote] + (value + [quote]);
    assert start + [quote] + value + [quote] == start + quoted;
    ScanAppend(start, quoted, "", None);
    assert quoted[1..] == value + [quote];
    ScanQuoted(value, start, quote);
    NameThenEqualsExtends(start[1..], value);
    assert (start + value)[1..] == start[1..] + value;
  }

  // ----- which texts are separators and assignments

  lemma {:induction false} NameThenEqualsIff(s: string)
    ensures NameThenEquals(s)
       <==> exists n :: 0 <= n < |s| && s[n] == '='
                        && forall i :: 0 <= i < n ==>
                             'A' <= s[i] <= 'Z' || 'a' <= s[i] <= 'z' || s[i] == '_' || '0' <= s[i] <= '9'
  {
    if s != "" && s[0] != '=' {
      NameThenEqualsIff(s[1..]);
      if n :| 0 <= n < |s| && s[n] == '='
              && forall i :: 0 <= i < n ==>
                   'A' <= s[i] <= 'Z' || 'a' <= s[i] <= 'z' || s[i] == '_' || '0' <= s[i] <= '9' {
        assert s[1..][n - 1] == '=' && forall i :: 0 <= i < n - 1 ==> s[1..][i] == s[i + 1];
      }
      if n :| 0 <= n < |s[1..]| && s[1..][n] == '='
              && forall i :: 0 <= i < n ==>
                   'A' <= s[1..][i] <= 'Z' || 'a' <= s[1..][i] <= 'z' || s[1..][i] == '_' || '0' <= s[1..][i] <= '9' {
        assert s[n + 1] == '=' && forall i :: 1 <= i < n + 1 ==> s[i] == s[1..][i - 1];
      }
    }
  }

  /** An assignment is a name, of letters, digits and underscores and not beginning with a digit, and `=`. */
  lemma IsShellAssignmentIff(token: string)
    ensures IsShellAssignment(token)
       <==> exists n :: 0 < n < |token| && token[n] == '=' && !('0' <= token[0] <= '9')
                        && forall i :: 0 <= i < n ==>
                             || 'A' <= token[i] <= 'Z' || 'a' <= token[i] <= 'z' || token[i] == '_'
                             || '0' <= token[i] <= '9'
  {
    if token != "" {
      NameThenEqualsIff(token[1..]);
      if n :| 0 < n < |token| && token[n] == '='
              && forall i :: 0 <= i < n ==>
                   'A' <= token[i] <= 'Z' || 'a' <= token[i] <= 'z' || token[i] == '_' || '0' <= token[i] <= '9' {
        assert token[1..][n - 1] == '=' && forall i :: 0 <= i < n - 1 ==> token[1..][i] == token[i + 1];
      }
      if IsShellAssignment(token) {
        var n :| 0 <= n < |token[1..]| && token[1..][n] == '='
                 && forall i :: 0 <= i < n ==>
                      || 'A' <= token[1..][i] <= 'Z' || 'a' <= token[1..][i] <= 'z' || token[1..][i] == '_'
                      || '0' <= token[1..][i] <= '9';
        assert token[n + 1] == '=' && forall i :: 1 <= i < n + 1 ==> token[i] == token[1..][i - 1];
      }
    }
  }

  /** Behind a text that reads as a word, white space ends the word; any other character goes on with it, unless
      it is a quote. */
  lemma CharacterAfterWord(text: string, word: string, c: char, rest: string)
    requires ReadsAs(text, word) && word != "" && c != '"' && c != '\''
    ensures Words(text + ([c] + rest), "", None)
         == if c in {'\t', '\n', '\U{B}', '\U{C}', '\r', ' ', '\U{A0}', '\U{1680}', '\U{2028}', '\U{2029}', '\U{202F}',
                     '\U{205F}', '\U{3000}', '\U{FEFF}'} || '\U{2000}' <= c <= '\U{200A}'
            then [word] + Words(rest, "", None)
            else Words(rest, word + [c], None)
  {
    WordsAfterScan(text, text + ([c] + rest), [c] + rest, "", None);
    assert ([c] + rest)[1..] == rest;
  }
}
