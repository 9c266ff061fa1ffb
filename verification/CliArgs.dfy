/** The command-line parser: the two spellings of a flag value, the look-ahead that protects command
    words, and the packing of repeated flags with its reading half. */
module CliArgs {
  import opened Options

  datatype FlagValue = Present | Text(value: string)
  datatype ParsedArgs = ParsedArgs(commandPath: seq<string>, flags: map<string, FlagValue>)

  const BOOLEAN_FLAGS: set<string> := {
    "all", "attachments", "children", "comments", "connect", "current", "dry-run", "enter", "focus",
    "force", "full", "help", "inject", "include-archived", "include-visual-layouts", "interrupt", "json",
    "local", "messages", "me", "mobile", "mobile-pairing", "no-pairing", "parent-current", "provision",
    "ready", "recipe-json", "relations", "reinstall", "restore-window", "return-preamble", "run-hooks",
    "show-profile", "staged", "tab", "tasks", "text-stdin", "unread", "value-stdin", "wait"
  }
  const REPEATABLE_STRING_FLAGS: set<string> := {"label", "skill"}
  const SEPARATOR := '\0'

  predicate IsFlag(token: string) {
    |token| >= 2 && token[0] == '-' && token[1] == '-'
  }

  /** The position of the first `c`, or the length. */
  function IndexOf(s: string, c: char): (i: nat)
    ensures i <= |s|
  {
    if s == "" || s[0] == c then 0 else 1 + IndexOf(s[1..], c)
  }

  function FlagName(token: string): string
    requires IsFlag(token)
  {
    token[2..][..IndexOf(token[2..], '=')]
  }

  predicate HasAssignment(token: string)
    requires IsFlag(token)
  {
    IndexOf(token[2..], '=') < |token| - 2
  }

  function AssignedValue(token: string): string
    requires IsFlag(token) && HasAssignment(token)
  {
    token[2..][IndexOf(token[2..], '=') + 1..]
  }

  function SetFlagValue(flags: map<string, FlagValue>, name: string, value: string): map<string, FlagValue> {
    if name in flags && flags[name].Text? && name in REPEATABLE_STRING_FLAGS
    then flags[name := Text(flags[name].value + [SEPARATOR] + value)]
    else flags[name := Text(value)]
  }

  // ----- the look-ahead

  /** How far the look-ahead steps over a flag: past its value too, if it takes one. */
  function Step(token: string): nat
    requires IsFlag(token)
  {
    if HasAssignment(token) || FlagName(token) in BOOLEAN_FLAGS then 1 else 2
  }

  function SkipFlags(argv: seq<string>, cursor: nat): nat
    decreases |argv| - cursor
  {
    if cursor < |argv| && IsFlag(argv[cursor]) then
      SkipFlags(argv, cursor + Step(argv[cursor]))
    else cursor
  }

  predicate PathStartsAt(argv: seq<string>, index: nat, path: seq<string>)
    decreases |path|
  {
    path == [] ||
    var cursor := SkipFlags(argv, index);
    cursor < |argv| && argv[cursor] == path[0] && PathStartsAt(argv, cursor + 1, path[1..])
  }

  predicate CommandStartsAt(argv: seq<string>, index: nat, paths: seq<seq<string>>) {
    exists k :: 0 <= k < |paths| && PathStartsAt(argv, index, paths[k])
  }

  method CommandPathStartsAt(argv: seq<string>, tokenIndex: nat, path: seq<string>) returns (starts: bool)
    ensures starts <==> PathStartsAt(argv, tokenIndex, path)
  {
    var cursor: nat := tokenIndex;
    for k := 0 to |path|
      invariant PathStartsAt(argv, tokenIndex, path) <==> PathStartsAt(argv, cursor, path[k..])
    {
      ghost var from := cursor;
      while cursor < |argv| && IsFlag(argv[cursor])
        invariant SkipFlags(argv, cursor) == SkipFlags(argv, from)
        decreases |argv| - cursor
      {
        cursor := cursor + if HasAssignment(argv[cursor]) || FlagName(argv[cursor]) in BOOLEAN_FLAGS then 1 else 2;
      }
      if cursor >= |argv| || argv[cursor] != path[k] {
        return false;
      }
      cursor := cursor + 1;
    }
    return true;
  }

  // ----- the parser

  /** A flag that takes its value from the next token, if that is not a flag. */
  predicate TakesValue(token: string) {
    IsFlag(token) && !HasAssignment(token) && token[2..] !in BOOLEAN_FLAGS
  }

  /** The look-ahead: the word after the flag at i begins a command, and what comes after it does not. */
  predicate Releases(argv: seq<string>, i: nat, paths: seq<seq<string>>) {
    CommandStartsAt(argv, i + 1, paths) && !CommandStartsAt(argv, i + 2, paths)
  }

  datatype Reading = Word(word: string) | Bare(name: string) | Assign(name: string, value: string)

  /** How many tokens the reading of the token at i takes up. */
  function Taken(token: string, r: Reading): nat {
    if r.Assign? && TakesValue(token) then 2 else 1
  }

  function Read(argv: seq<string>, i: nat, noCommandYet: bool, paths: seq<seq<string>>): (r: Reading)
    requires i < |argv|
    ensures i + Taken(argv[i], r) <= |argv|
    ensures r.Word? <==> !IsFlag(argv[i])
  {
    var token := argv[i];
    if !IsFlag(token) then Word(token)
    else if HasAssignment(token) then Assign(FlagName(token), AssignedValue(token))
    else if token[2..] in BOOLEAN_FLAGS then Bare(token[2..])
    else if noCommandYet && Releases(argv, i, paths) then Bare(token[2..])
    else if i + 1 >= |argv| || IsFlag(argv[i + 1]) then Bare(token[2..])
    else Assign(token[2..], argv[i + 1])
  }

  /** Where the next reading begins. */
  function Next(argv: seq<string>, i: nat, noCommandYet: bool, paths: seq<seq<string>>): (next: nat)
    requires i < |argv|
    ensures i < next <= |argv|
  {
    i + Taken(argv[i], Read(argv, i, noCommandYet, paths))
  }

  function Record(acc: ParsedArgs, r: Reading): ParsedArgs {
    match r
    case Word(word) => acc.(commandPath := acc.commandPath + [word])
    case Bare(name) => acc.(flags := acc.flags[name := Present])
    case Assign(name, value) => acc.(flags := SetFlagValue(acc.flags, name, value))
  }

  const NOTHING := ParsedArgs([], map[])

  function Parse(argv: seq<string>, i: nat, paths: seq<seq<string>>, acc: ParsedArgs): ParsedArgs
    decreases |argv| - i
  {
    if i >= |argv| then acc
    else
      var r := Read(argv, i, acc.commandPath == [], paths);
      Parse(argv, i + Taken(argv[i], r), paths, Record(acc, r))
  }

  method StartsCommandAt(argv: seq<string>, tokenIndex: nat, paths: seq<seq<string>>) returns (starts: bool)
    ensures starts <==> CommandStartsAt(argv, tokenIndex, paths)
  {
    for k := 0 to |paths|
      invariant forall l :: 0 <= l < k ==> !PathStartsAt(argv, tokenIndex, paths[l])
    {
      starts := CommandPathStartsAt(argv, tokenIndex, paths[k]);
      if starts {
        return true;
      }
    }
    return false;
  }

  method ParseArgs(argv: seq<string>, paths: seq<seq<string>>) returns (parsed: ParsedArgs)
    ensures parsed == Parse(argv, 0, paths, NOTHING)
  {
    var commandPath: seq<string>, flags: map<string, FlagValue> := [], map[];
    var i := 0;
    while i < |argv|
      invariant Parse(argv, i, paths, ParsedArgs(commandPath, flags)) == Parse(argv, 0, paths, NOTHING)
      decreases |argv| - i
    {
      var token := argv[i];
      ghost var acc, start := ParsedArgs(commandPath, flags), i;
      ghost var r := Read(argv, i, commandPath == [], paths);
      if !IsFlag(token) {
        commandPath := commandPath + [token];
      } else if HasAssignment(token) {
        flags := SetFlagValue(flags, FlagName(token), AssignedValue(token));
      } else {
        var flag := token[2..];
        var released := false;
        if flag !in BOOLEAN_FLAGS && commandPath == [] {
          var next := StartsCommandAt(argv, i + 1, paths);
          var afterNext := StartsCommandAt(argv, i + 2, paths);
          released := next && !afterNext;
        }
        assert released <==> flag !in BOOLEAN_FLAGS && commandPath == [] && Releases(argv, i, paths);
        if flag in BOOLEAN_FLAGS || released || i + 1 >= |argv| || IsFlag(argv[i + 1]) {
          flags := flags[flag := Present];
        } else {
          flags := SetFlagValue(flags, flag, argv[i + 1]);
          i := i + 1;
        }
      }
      i := i + 1;
      assert ParsedArgs(commandPath, flags) == Record(acc, r);
      assert i == start + Taken(token, r);
    }
    parsed := ParsedArgs(commandPath, flags);
  }

  // ----- a parse is the record of its readings

  function Readings(argv: seq<string>, i: nat, noCommandYet: bool, paths: seq<seq<string>>): seq<Reading>
    decreases |argv| - i
  {
    if i >= |argv| then []
    else
      var r := Read(argv, i, noCommandYet, paths);
      [r] + Readings(argv, Next(argv, i, noCommandYet, paths), noCommandYet && IsFlag(argv[i]), paths)
  }

  function ReadLine(argv: seq<string>, paths: seq<seq<string>>): seq<Reading> {
    Readings(argv, 0, true, paths)
  }

  function ParseLine(argv: seq<string>, paths: seq<seq<string>>): ParsedArgs {
    Parse(argv, 0, paths, NOTHING)
  }

  function Replay(rs: seq<Reading>, acc: ParsedArgs): ParsedArgs {
    if rs == [] then acc else Replay(rs[1..], Record(acc, rs[0]))
  }

  lemma ReplayCons(r: Reading, rs: seq<Reading>, acc: ParsedArgs)
    ensures Replay([r] + rs, acc) == Replay(rs, Record(acc, r))
  {
    assert ([r] + rs)[1..] == rs;
  }

  lemma RecordStarts(acc: ParsedArgs, r: Reading)
    ensures Record(acc, r).commandPath == [] <==> acc.commandPath == [] && !r.Word?
  {}

  lemma {:induction false} ParseReplays(argv: seq<string>, i: nat, paths: seq<seq<string>>, acc: ParsedArgs)
    ensures Parse(argv, i, paths, acc) == Replay(Readings(argv, i, acc.commandPath == [], paths), acc)
    decreases |argv| - i
  {
    if i < |argv| {
      var nc := acc.commandPath == [];
      var r, next := Read(argv, i, nc, paths), Next(argv, i, nc, paths);
      ParseReplays(argv, next, paths, Record(acc, r));
      RecordStarts(acc, r);
      ReplayCons(r, Readings(argv, next, nc && IsFlag(argv[i]), paths), acc);
    }
  }

  lemma {:induction false} ReplayAppend(a: seq<Reading>, b: seq<Reading>, acc: ParsedArgs)
    ensures Replay(a + b, acc) == Replay(b, Replay(a, acc))
    decreases |a|
  {
    if a == [] {
      assert a + b == b;
    } else {
      assert (a + b)[1..] == a[1..] + b;
      ReplayAppend(a[1..], b, Record(acc, a[0]));
    }
  }

  function WordsOf(rs: seq<Reading>): seq<string> {
    if rs == [] then [] else (if rs[0].Word? then [rs[0].word] else []) + WordsOf(rs[1..])
  }

  lemma {:induction false} WordsOfAppend(a: seq<Reading>, b: seq<Reading>)
    ensures WordsOf(a + b) == WordsOf(a) + WordsOf(b)
  {
    if a == [] {
      assert a + b == b;
    } else {
      assert (a + b)[1..] == a[1..] + b;
      WordsOfAppend(a[1..], b);
    }
  }

  lemma {:induction false} WordsAreThePath(rs: seq<Reading>, acc: ParsedArgs)
    ensures Replay(rs, acc).commandPath == acc.commandPath + WordsOf(rs)
  {
    if rs != [] {
      WordsAreThePath(rs[1..], Record(acc, rs[0]));
    }
  }

  // ----- what is read from a position on depends only on the tokens from there

  ghost predicate SameFrom(x: seq<string>, i: nat, y: seq<string>, j: nat) {
    |x| - i == |y| - j && forall k :: i <= k < |x| ==> x[k] == y[k + (j - i)]
  }

  lemma {:induction false} SkipSame(x: seq<string>, i: nat, y: seq<string>, j: nat)
    requires SameFrom(x, i, y, j)
    ensures SkipFlags(x, i) - i == SkipFlags(y, j) - j >= 0
    decreases |x| - i
  {
    if i < |x| && IsFlag(x[i]) {
      assert x[i] == y[i + (j - i)];
      SkipSame(x, i + Step(x[i]), y, j + Step(x[i]));
    } else if i < |x| {
      assert x[i] == y[i + (j - i)];
    }
  }

  lemma {:induction false} PathSame(x: seq<string>, i: nat, y: seq<string>, j: nat, path: seq<string>)
    requires SameFrom(x, i, y, j)
    ensures PathStartsAt(x, i, path) == PathStartsAt(y, j, path)
    decreases |path|
  {
    if path != [] {
      SkipSame(x, i, y, j);
      var c, d := SkipFlags(x, i), SkipFlags(y, j);
      if c < |x| {
        assert x[c] == y[c + (j - i)];
        PathSame(x, c + 1, y, d + 1, path[1..]);
      }
    }
  }

  lemma CommandSame(x: seq<string>, i: nat, y: seq<string>, j: nat, paths: seq<seq<string>>)
    requires SameFrom(x, i, y, j)
    ensures CommandStartsAt(x, i, paths) == CommandStartsAt(y, j, paths)
  {
    forall k | 0 <= k < |paths| ensures PathStartsAt(x, i, paths[k]) == PathStartsAt(y, j, paths[k]) {
      PathSame(x, i, y, j, paths[k]);
    }
  }

  lemma ReadSame(x: seq<string>, i: nat, y: seq<string>, j: nat, nc: bool, paths: seq<seq<string>>)
    requires SameFrom(x, i, y, j) && i < |x|
    ensures Read(x, i, nc, paths) == Read(y, j, nc, paths) && x[i] == y[j]
  {
    assert x[i] == y[i + (j - i)];
    if i + 1 < |x| {
      assert x[i + 1] == y[i + 1 + (j - i)];
    }
    CommandSame(x, i + 1, y, j + 1, paths);
    CommandSame(x, i + 2, y, j + 2, paths);
  }

  lemma {:induction false} ReadingsSame(x: seq<string>, i: nat, y: seq<string>, j: nat, nc: bool,
                                        paths: seq<seq<string>>)
    requires SameFrom(x, i, y, j)
    ensures Readings(x, i, nc, paths) == Readings(y, j, nc, paths)
    decreases |x| - i
  {
    if i < |x| {
      ReadSame(x, i, y, j, nc, paths);
      var r := Read(x, i, nc, paths);
      ReadingsSame(x, Next(x, i, nc, paths), y, Next(y, j, nc, paths), nc && IsFlag(x[i]), paths);
    }
  }

  // ----- two lines that begin with the same tokens

  /** The readings of the tokens before `limit`. */
  function Head(argv: seq<string>, i: nat, limit: nat, nc: bool, paths: seq<seq<string>>): seq<Reading>
    requires limit <= |argv|
    decreases |argv| - i
  {
    if i >= limit then []
    else
      var r := Read(argv, i, nc, paths);
      [r] + Head(argv, Next(argv, i, nc, paths), limit, nc && IsFlag(argv[i]), paths)
  }

  /** Reading on from i, with no command word yet, arrives at `at` with none. */
  predicate Reaches(argv: seq<string>, i: nat, at: nat, paths: seq<seq<string>>)
    decreases |argv| - i
  {
    i == at || (i < at && i < |argv| && IsFlag(argv[i]) && Reaches(argv, Next(argv, i, true, paths), at, paths))
  }

  /** A flag followed by a word, which it takes unless the look-ahead releases it. */
  predicate Waits(argv: seq<string>, at: nat) {
    at + 1 < |argv| && TakesValue(argv[at]) && !IsFlag(argv[at + 1])
  }

  /** The look-ahead of every leading flag before `limit` decides in y as it does in x. */
  ghost predicate SameLookAheads(x: seq<string>, y: seq<string>, i: nat, limit: nat, paths: seq<seq<string>>) {
    forall at :: i <= at < limit && Waits(x, at) && Reaches(x, i, at, paths) ==>
      Releases(x, at, paths) == Releases(y, at, paths)
  }

  /** The token before `limit` is a flag still waiting for a value. No flag is ever read as a value, so
      this does not depend on the tokens before it. */
  predicate Dangles(argv: seq<string>, limit: nat) {
    0 < limit <= |argv| && TakesValue(argv[limit - 1])
  }

  /** No flag before `limit` can take the token there as its value. */
  predicate CutAt(argv: seq<string>, limit: nat) {
    limit >= |argv| || IsFlag(argv[limit]) || !Dangles(argv, limit)
  }

  ghost predicate SameUpTo(x: seq<string>, y: seq<string>, limit: nat) {
    limit <= |x| && limit <= |y| && forall k :: 0 <= k < limit ==> x[k] == y[k]
  }

  lemma ConsAppend<T>(x: T, a: seq<T>, b: seq<T>)
    ensures [x] + (a + b) == [x] + a + b
  {}

  lemma {:induction false} HeadThenRest(argv: seq<string>, i: nat, limit: nat, nc: bool, paths: seq<seq<string>>)
    requires i <= limit <= |argv| && CutAt(argv, limit)
    ensures Readings(argv, i, nc, paths)
         == Head(argv, i, limit, nc, paths) + Readings(argv, limit, nc && Reaches(argv, i, limit, paths), paths)
    decreases |argv| - i
  {
    if i < limit {
      var r := Read(argv, i, nc, paths);
      var next, nc' := Next(argv, i, nc, paths), nc && IsFlag(argv[i]);
      HeadThenRest(argv, next, limit, nc', paths);
      var rest := Readings(argv, limit, nc' && Reaches(argv, next, limit, paths), paths);
      ConsAppend(r, Head(argv, next, limit, nc', paths), rest);
    }
  }

  lemma ConsPrefix<T>(x: T, head: seq<T>, all: seq<T>)
    ensures [x] + head <= [x] + all <==> head <= all
  {
    assert ([x] + head)[1..] == head && ([x] + all)[1..] == all;
  }

  lemma OnlyLookAheadsDiffer(x: seq<string>, y: seq<string>, i: nat, limit: nat, nc: bool, paths: seq<seq<string>>)
    requires i < limit && SameUpTo(x, y, limit) && CutAt(x, limit) && CutAt(y, limit)
    requires Read(x, i, nc, paths) != Read(y, i, nc, paths)
    ensures nc && Waits(x, i) && Releases(x, i, paths) != Releases(y, i, paths)
  {
    assert x[i] == y[i] && (i + 1 < limit ==> x[i + 1] == y[i + 1]);
  }

  lemma FirstDifference(x: seq<string>, y: seq<string>, i: nat, limit: nat, nc: bool, paths: seq<seq<string>>)
    requires i < limit && SameUpTo(x, y, limit) && CutAt(x, limit) && CutAt(y, limit)
    requires Read(x, i, nc, paths) != Read(y, i, nc, paths)
    ensures nc && !SameLookAheads(x, y, i, limit, paths)
    ensures !(Head(x, i, limit, nc, paths) <= Readings(y, i, nc, paths))
  {
    OnlyLookAheadsDiffer(x, y, i, limit, nc, paths);
    assert Head(x, i, limit, nc, paths)[0] == Read(x, i, nc, paths);
    assert Readings(y, i, nc, paths)[0] == Read(y, i, nc, paths);
    assert Reaches(x, i, i, paths);
  }

  lemma LookAheadsFrom(x: seq<string>, y: seq<string>, i: nat, limit: nat, nc: bool, paths: seq<seq<string>>)
    requires i < limit && SameUpTo(x, y, limit) && CutAt(x, limit) && CutAt(y, limit)
    requires Read(x, i, nc, paths) == Read(y, i, nc, paths)
    ensures (nc ==> SameLookAheads(x, y, i, limit, paths))
       <==> (nc && IsFlag(x[i]) ==> SameLookAheads(x, y, Next(x, i, nc, paths), limit, paths))
  {
    assert x[i] == y[i] && (i + 1 < limit ==> x[i + 1] == y[i + 1]);
  }

  lemma SharedReading(x: seq<string>, y: seq<string>, i: nat, limit: nat, nc: bool, paths: seq<seq<string>>)
    requires i < limit && SameUpTo(x, y, limit) && CutAt(x, limit) && CutAt(y, limit)
    requires nc ==> SameLookAheads(x, y, i, limit, paths)
    ensures Read(x, i, nc, paths) == Read(y, i, nc, paths) && Next(x, i, nc, paths) == Next(y, i, nc, paths) <= limit
    ensures nc && IsFlag(x[i]) ==> SameLookAheads(x, y, Next(x, i, nc, paths), limit, paths)
  {
    if Read(x, i, nc, paths) != Read(y, i, nc, paths) {
      FirstDifference(x, y, i, limit, nc, paths);
    }
    LookAheadsFrom(x, y, i, limit, nc, paths);
  }

  lemma {:induction false} HeadIsShared(x: seq<string>, y: seq<string>, i: nat, limit: nat, nc: bool,
                                        paths: seq<seq<string>>)
    requires i <= limit && SameUpTo(x, y, limit) && CutAt(x, limit) && CutAt(y, limit)
    requires nc ==> SameLookAheads(x, y, i, limit, paths)
    ensures Readings(y, i, nc, paths)
         == Head(x, i, limit, nc, paths) + Readings(y, limit, nc && Reaches(x, i, limit, paths), paths)
    decreases |x| - i
  {
    if i < limit {
      SharedReading(x, y, i, limit, nc, paths);
      var r, next, nc' := Read(x, i, nc, paths), Next(x, i, nc, paths), nc && IsFlag(x[i]);
      HeadIsShared(x, y, next, limit, nc', paths);
      ConsAppend(r, Head(x, next, limit, nc', paths), Readings(y, limit, nc' && Reaches(x, next, limit, paths), paths));
    }
  }

  /** After a reading that both lines share, it depends on what comes next. */
  lemma HeadStep(x: seq<string>, y: seq<string>, i: nat, limit: nat, nc: bool, paths: seq<seq<string>>)
    requires i < limit <= |x| && i < |y| && x[i] == y[i] && Read(x, i, nc, paths) == Read(y, i, nc, paths)
    ensures var next, nc' := Next(x, i, nc, paths), nc && IsFlag(x[i]);
            (Head(x, i, limit, nc, paths) <= Readings(y, i, nc, paths)
             <==> Head(x, next, limit, nc', paths) <= Readings(y, next, nc', paths))
  {
    var next, nc' := Next(x, i, nc, paths), nc && IsFlag(x[i]);
    ConsPrefix(Read(x, i, nc, paths), Head(x, next, limit, nc', paths), Readings(y, next, nc', paths));
  }

  lemma NextWithin(argv: seq<string>, i: nat, limit: nat, nc: bool, paths: seq<seq<string>>)
    requires i < limit <= |argv| && CutAt(argv, limit)
    ensures Next(argv, i, nc, paths) <= limit
  {}

  lemma {:induction false} HeadDiffers(x: seq<string>, y: seq<string>, i: nat, limit: nat, nc: bool,
                                       paths: seq<seq<string>>)
    requires i <= limit && SameUpTo(x, y, limit) && CutAt(x, limit) && CutAt(y, limit)
    requires nc && !SameLookAheads(x, y, i, limit, paths)
    ensures !(Head(x, i, limit, nc, paths) <= Readings(y, i, nc, paths))
    decreases |x| - i
  {
    if Read(x, i, nc, paths) != Read(y, i, nc, paths) {
      FirstDifference(x, y, i, limit, nc, paths);
    } else {
      LookAheadsFrom(x, y, i, limit, nc, paths);
      HeadStep(x, y, i, limit, nc, paths);
      NextWithin(x, i, limit, nc, paths);
      HeadDiffers(x, y, Next(x, i, nc, paths), limit, true, paths);
    }
  }

  /** The common tokens are read alike in both lines if and only if the look-aheads decide alike. */
  lemma HeadIsSharedIff(x: seq<string>, y: seq<string>, limit: nat, paths: seq<seq<string>>)
    requires SameUpTo(x, y, limit) && CutAt(x, limit) && CutAt(y, limit)
    ensures SameLookAheads(x, y, 0, limit, paths) <==> Head(x, 0, limit, true, paths) <= ReadLine(y, paths)
    ensures SameLookAheads(x, y, 0, limit, paths)
       <==> (ReadLine(y, paths)
             == Head(x, 0, limit, true, paths) + Readings(y, limit, Reaches(x, 0, limit, paths), paths))
  {
    if SameLookAheads(x, y, 0, limit, paths) {
      HeadIsShared(x, y, 0, limit, true, paths);
    } else {
      HeadDiffers(x, y, 0, limit, true, paths);
    }
  }

  // ----- the look-ahead at work

  function AsWords(words: seq<string>): seq<Reading> {
    if words == [] then [] else [Word(words[0])] + AsWords(words[1..])
  }

  lemma WordIsRead(argv: seq<string>, i: nat, nc: bool, paths: seq<seq<string>>)
    requires i < |argv| && !IsFlag(argv[i])
    ensures Readings(argv, i, nc, paths) == [Word(argv[i])] + Readings(argv, i + 1, false, paths)
  {}

  lemma {:induction false} WordsAreReadFrom(argv: seq<string>, i: nat, j: nat, paths: seq<seq<string>>, words: seq<string>)
    requires i + |words| <= |argv| && argv[i..i + |words|] == words && j <= |words|
    requires forall k :: 0 <= k < |words| ==> !IsFlag(words[k])
    ensures Readings(argv, i + j, false, paths) == AsWords(words[j..]) + Readings(argv, i + |words|, false, paths)
    decreases |words| - j
  {
    if j < |words| {
      assert argv[i + j] == argv[i..i + |words|][j] == words[j];
      WordIsRead(argv, i + j, false, paths);
      WordsAreReadFrom(argv, i, j + 1, paths, words);
      assert words[j..][1..] == words[j + 1..];
      ConsAppend(Word(words[j]), AsWords(words[j + 1..]), Readings(argv, i + |words|, false, paths));
    } else {
      assert words[j..] == [];
    }
  }

  lemma WordsAreRead(argv: seq<string>, i: nat, nc: bool, paths: seq<seq<string>>, words: seq<string>)
    requires i + |words| <= |argv| && argv[i..i + |words|] == words
    requires forall k :: 0 <= k < |words| ==> !IsFlag(words[k])
    ensures Readings(argv, i, nc, paths)
         == AsWords(words) + Readings(argv, i + |words|, nc && words == [], paths)
  {
    if words != [] {
      assert argv[i] == argv[i..i + |words|][0] == words[0];
      WordIsRead(argv, i, nc, paths);
      WordIsRead(argv, i, false, paths);
      WordsAreReadFrom(argv, i, 0, paths, words);
      assert words[0..] == words;
    }
  }

  lemma {:induction false} ReplayWords(words: seq<string>, path: seq<string>, flags: map<string, FlagValue>)
    ensures var parsed := Replay(AsWords(words), ParsedArgs(path, flags));
            parsed.commandPath == path + words && parsed.flags == flags
  {
    if words == [] {
      assert path + words == path;
    } else {
      ReplayWords(words[1..], path + [words[0]], flags);
      assert path + [words[0]] + words[1..] == path + words;
    }
  }

  lemma {:induction false} CommandPathExtends(rs: seq<Reading>, acc: ParsedArgs)
    ensures acc.commandPath <= Replay(rs, acc).commandPath
  {
    if rs != [] {
      CommandPathExtends(rs[1..], Record(acc, rs[0]));
    }
  }

  lemma CommandPathBegins(argv: seq<string>, paths: seq<seq<string>>, first: Reading, path: seq<string>,
                          rest: seq<Reading>)
    requires ReadLine(argv, paths) == [first] + (AsWords(path) + rest) && !first.Word?
    ensures path <= ParseLine(argv, paths).commandPath
  {
    var flags := Record(NOTHING, first).flags;
    ParseReplays(argv, 0, paths, NOTHING);
    assert ([first] + (AsWords(path) + rest))[1..] == AsWords(path) + rest;
    ReplayAppend(AsWords(path), rest, ParsedArgs([], flags));
    ReplayWords(path, [], flags);
    assert [] + path == path;
    CommandPathExtends(rest, ParsedArgs(path, flags));
  }

  lemma {:induction false} RegisteredPathStarts(argv: seq<string>, i: nat, path: seq<string>)
    requires i + |path| <= |argv| && argv[i..i + |path|] == path
    requires forall k :: 0 <= k < |path| ==> !IsFlag(path[k])
    ensures PathStartsAt(argv, i, path)
    decreases |path|
  {
    if path != [] {
      assert argv[i] == path[0] && argv[i + 1..i + 1 + |path[1..]|] == path[1..];
      RegisteredPathStarts(argv, i + 1, path[1..]);
    }
  }

  lemma StartsWithRegistered(argv: seq<string>, i: nat, path: seq<string>, paths: seq<seq<string>>)
    requires path in paths && PathStartsAt(argv, i, path)
    ensures CommandStartsAt(argv, i, paths)
  {
    var k :| 0 <= k < |paths| && paths[k] == path;
  }

  /** A flag before a registered command path does not consume it: the path survives whole at the front
      of the command words, unless another registered path starts at its second word. */
  lemma LeadingFlagLeavesCommandPath(flag: string, path: seq<string>, rest: seq<string>, paths: seq<seq<string>>)
    requires TakesValue(flag) && path in paths && forall k :: 0 <= k < |path| ==> !IsFlag(path[k])
    requires !CommandStartsAt([flag] + path + rest, 2, paths)
    ensures path <= ParseLine([flag] + path + rest, paths).commandPath
  {
    var argv := [flag] + path + rest;
    assert argv[1..1 + |path|] == path;
    RegisteredPathStarts(argv, 1, path);
    StartsWithRegistered(argv, 1, path, paths);
    assert Read(argv, 0, true, paths) == Bare(flag[2..]);
    WordsAreRead(argv, 1, true, paths, path);
    CommandPathBegins(argv, paths, Bare(flag[2..]), path, Readings(argv, 1 + |path|, path == [], paths));
  }

  /** A flag with its value before a registered command path keeps the value, even one that is named like
      a command, and the path survives whole as well. */
  lemma LeadingFlagKeepsSelector(flag: string, selector: string, path: seq<string>, rest: seq<string>,
                                 paths: seq<seq<string>>)
    requires TakesValue(flag) && !IsFlag(selector)
    requires path in paths && forall k :: 0 <= k < |path| ==> !IsFlag(path[k])
    ensures path <= ParseLine([flag, selector] + path + rest, paths).commandPath
    ensures ParseLine([flag, selector] + path, paths) == ParsedArgs(path, map[flag[2..] := Text(selector)])
  {
    SelectorIsRead(flag, selector, path, rest, paths);
    var argv := [flag, selector] + path + rest;
    CommandPathBegins(argv, paths, Assign(flag[2..], selector), path, Readings(argv, 2 + |path|, path == [], paths));
    SelectorIsRead(flag, selector, path, [], paths);
    var line := [flag, selector] + path;
    assert line == [flag, selector] + path + [];
    ParseReplays(line, 0, paths, NOTHING);
    assert ReadLine(line, paths)[1..] == AsWords(path);
    ReplayWords(path, [], map[flag[2..] := Text(selector)]);
    assert [] + path == path;
  }

  lemma SelectorIsRead(flag: string, selector: string, path: seq<string>, rest: seq<string>, paths: seq<seq<string>>)
    requires TakesValue(flag) && !IsFlag(selector)
    requires path in paths && forall k :: 0 <= k < |path| ==> !IsFlag(path[k])
    ensures var argv, first := [flag, selector] + path + rest, Assign(flag[2..], selector);
            ReadLine(argv, paths) == [first] + (AsWords(path) + Readings(argv, 2 + |path|, path == [], paths))
  {
    var argv := [flag, selector] + path + rest;
    assert argv[2..2 + |path|] == path;
    RegisteredPathStarts(argv, 2, path);
    var k :| 0 <= k < |paths| && paths[k] == path;
    assert CommandStartsAt(argv, 2, paths);
    assert argv[0] == flag && argv[1] == selector;
    WordsAreRead(argv, 2, true, paths, path);
    assert Readings(argv, 0, true, paths) == [Assign(flag[2..], selector)] + Readings(argv, 2, true, paths);
  }
}
