/** The two spellings of a flag value, and the place of a flag among the command words, on lines where
    the look-ahead of the parser is at work. */
module FlagSpellings {
  import opened CliArgs

  function Spaced(name: string, value: string): seq<string> {
    ["--" + name, value]
  }

  function Assignment(name: string, value: string): string {
    "--" + name + "=" + value
  }

  lemma {:induction false} IndexOfFound(prefix: string, c: char, rest: string)
    requires c !in prefix
    ensures IndexOf(prefix + [c] + rest, c) == |prefix|
  {
    if prefix != "" {
      assert (prefix + [c] + rest)[1..] == prefix[1..] + [c] + rest;
      IndexOfFound(prefix[1..], c, rest);
    } else {
      assert prefix + [c] + rest == [c] + rest;
    }
  }

  lemma {:induction false} IndexOfMissing(s: string, c: char)
    requires c !in s
    ensures IndexOf(s, c) == |s|
  {
    if s != "" {
      IndexOfMissing(s[1..], c);
    }
  }

  lemma AssignmentReads(name: string, value: string)
    requires '=' !in name
    ensures var token := Assignment(name, value);
            IsFlag(token) && HasAssignment(token) && FlagName(token) == name && AssignedValue(token) == value
  {
    var token := Assignment(name, value);
    assert token[2..] == name + ['='] + value;
    IndexOfFound(name, '=', value);
  }

  lemma FlagReads(name: string)
    requires '=' !in name
    ensures var token := "--" + name;
            && IsFlag(token) && !HasAssignment(token) && token[2..] == name == FlagName(token)
            && (TakesValue(token) <==> name !in BOOLEAN_FLAGS)
  {
    assert ("--" + name)[2..] == name;
    IndexOfMissing(name, '=');
    assert name[..|name|] == name;
  }

  lemma StepsOverValue(token: string)
    requires IsFlag(token)
    ensures Step(token) == 2 <==> TakesValue(token)
  {
    if !HasAssignment(token) {
      assert FlagName(token) == token[2..];
    }
  }

  // ----- `--name value` against `--name=value`

  /** The two lines: a flag and its value at n, as two tokens and as one. */
  ghost predicate TwoSpellings(spaced: seq<string>, joined: seq<string>, n: nat) {
    && n + 1 < |spaced| == |joined| + 1 && SameUpTo(spaced, joined, n)
    && TakesValue(spaced[n]) && !IsFlag(spaced[n + 1]) && IsFlag(joined[n]) && HasAssignment(joined[n])
    && FlagName(joined[n]) == spaced[n][2..] && AssignedValue(joined[n]) == spaced[n + 1]
    && forall k :: n + 2 <= k < |spaced| ==> spaced[k] == joined[k - 1]
  }

  /** The flag of a spaced pair at `at` takes its value: no look-ahead releases it. */
  predicate PairIsConsumed(argv: seq<string>, at: nat, paths: seq<seq<string>>) {
    !(Reaches(argv, 0, at, paths) && Releases(argv, at, paths))
  }

  /** Spelling a pair with `=` leaves the readings of the line as they are if and only if the pair is
      consumed and no look-ahead of a leading flag decides differently. */
  lemma SpellingsAgreeIff(pre: seq<string>, name: string, value: string, post: seq<string>, paths: seq<seq<string>>)
    requires '=' !in name && name !in BOOLEAN_FLAGS && !IsFlag(value)
    ensures var spaced, joined := pre + Spaced(name, value) + post, pre + [Assignment(name, value)] + post;
            && (ReadLine(spaced, paths) == ReadLine(joined, paths)
                <==> SameLookAheads(spaced, joined, 0, |pre|, paths) && PairIsConsumed(spaced, |pre|, paths))
  {
    FlagReads(name);
    AssignmentReads(name, value);
    var spaced, joined, n := pre + Spaced(name, value) + post, pre + [Assignment(name, value)] + post, |pre|;
    assert spaced[n] == "--" + name && spaced[n + 1] == value && joined[n] == Assignment(name, value);
    assert SameUpTo(spaced, joined, n);
    HeadThenRest(spaced, 0, n, true, paths);
    HeadIsSharedIff(spaced, joined, n, paths);
    var head, nc := Head(spaced, 0, n, true, paths), Reaches(spaced, 0, n, paths);
    TailsAgreeIff(spaced, joined, n, nc, paths);
    if SameLookAheads(spaced, joined, 0, n, paths) {
      assert (head + Readings(spaced, n, nc, paths))[|head|..] == Readings(spaced, n, nc, paths);
      assert (head + Readings(joined, n, nc, paths))[|head|..] == Readings(joined, n, nc, paths);
    } else {
      assert head <= ReadLine(spaced, paths);
    }
  }

  lemma ReadsFirst(argv: seq<string>, i: nat, nc: bool, paths: seq<seq<string>>, r: Reading)
    requires i < |argv| && Read(argv, i, nc, paths) == r
    ensures Readings(argv, i, nc, paths) == [r] + Readings(argv, i + Taken(argv[i], r), nc && !r.Word?, paths)
  {}

  lemma TailsAgreeIff(spaced: seq<string>, joined: seq<string>, n: nat, nc: bool, paths: seq<seq<string>>)
    requires TwoSpellings(spaced, joined, n)
    ensures Readings(spaced, n, nc, paths) == Readings(joined, n, nc, paths) <==> !(nc && Releases(spaced, n, paths))
  {
    var assign := Assign(spaced[n][2..], spaced[n + 1]);
    ReadsFirst(joined, n, nc, paths, assign);
    ReadsFirst(spaced, n, nc, paths, Read(spaced, n, nc, paths));
    if nc && Releases(spaced, n, paths) {
      assert Readings(spaced, n, nc, paths)[0] != Readings(joined, n, nc, paths)[0];
    } else {
      ReadingsSame(spaced, n + 2, joined, n + 1, nc, paths);
    }
  }

  /** The look-ahead from c is past both spellings of the pair at n, or before both. */
  lemma {:induction false} SkipPassesPair(spaced: seq<string>, joined: seq<string>, n: nat, c: nat)
    requires TwoSpellings(spaced, joined, n) && !Dangles(spaced, n) && c <= n
    ensures var end := SkipFlags(spaced, c);
            if end < n then SkipFlags(joined, c) == end && !IsFlag(spaced[end])
            else end >= n + 2 && SkipFlags(joined, c) == end - 1
    decreases n - c
  {
    if c == n {
      StepsOverValue(spaced[n]);
      SkipSame(spaced, n + 2, joined, n + 1);
    } else {
      assert spaced[c] == joined[c];
      if IsFlag(spaced[c]) {
        StepsOverValue(spaced[c]);
        SkipPassesPair(spaced, joined, n, c + Step(spaced[c]));
      }
    }
  }

  lemma PathPassedPair(spaced: seq<string>, joined: seq<string>, n: nat, end: nat, path: seq<string>)
    requires TwoSpellings(spaced, joined, n) && n + 2 <= end < |spaced|
    ensures spaced[end] == joined[end - 1]
    ensures PathStartsAt(spaced, end + 1, path) == PathStartsAt(joined, end, path)
  {
    PathSame(spaced, end + 1, joined, end, path);
  }

  lemma {:induction false} PathPassesPair(spaced: seq<string>, joined: seq<string>, n: nat, c: nat, path: seq<string>)
    requires TwoSpellings(spaced, joined, n) && !Dangles(spaced, n) && c <= n
    ensures PathStartsAt(spaced, c, path) == PathStartsAt(joined, c, path)
    decreases |path|
  {
    if path != [] {
      SkipPassesPair(spaced, joined, n, c);
      var end := SkipFlags(spaced, c);
      if end < n {
        assert spaced[end] == joined[end];
        PathPassesPair(spaced, joined, n, end + 1, path[1..]);
      } else if end < |spaced| {
        PathPassedPair(spaced, joined, n, end, path[1..]);
      }
    }
  }

  /** No look-ahead can release anything: no paths are registered, or a command word comes first. */
  predicate NoLookAhead(argv: seq<string>, paths: seq<seq<string>>) {
    paths == [] || (argv != [] && !IsFlag(argv[0]))
  }

  /** On the usual lines the pair need only be consumed: when no command paths are registered, when the
      line begins with a command word, or when the token before the pair is not itself a flag that could
      take a value. */
  lemma SpellingsAgree(pre: seq<string>, name: string, value: string, post: seq<string>, paths: seq<seq<string>>)
    requires '=' !in name && name !in BOOLEAN_FLAGS && !IsFlag(value)
    requires PairIsConsumed(pre + Spaced(name, value) + post, |pre|, paths)
    requires NoLookAhead(pre, paths) || !Dangles(pre, |pre|)
    ensures ParseLine(pre + Spaced(name, value) + post, paths) == ParseLine(pre + [Assignment(name, value)] + post, paths)
  {
    FlagReads(name);
    AssignmentReads(name, value);
    var spaced, joined, n := pre + Spaced(name, value) + post, pre + [Assignment(name, value)] + post, |pre|;
    assert SameUpTo(spaced, joined, n);
    if !Dangles(pre, |pre|) {
      forall at | 0 <= at < n && Waits(spaced, at) ensures Releases(spaced, at, paths) == Releases(joined, at, paths) {
        assert at + 2 <= n;
        forall k, c | 0 <= k < |paths| && at < c <= n
          ensures PathStartsAt(spaced, c, paths[k]) == PathStartsAt(joined, c, paths[k])
        {
          PathPassesPair(spaced, joined, n, c, paths[k]);
        }
      }
    }
    SpellingsAgreeIff(pre, name, value, post, paths);
    ParseReplays(spaced, 0, paths, NOTHING);
    ParseReplays(joined, 0, paths, NOTHING);
  }

  /** Otherwise the spelling can change the command: in `--a repo --x --k list` the look-ahead takes
      `--k` for the value of `--x`, finds the command `repo list` and releases `--a`; in
      `--a repo --x --k=list` it finds none, and `repo` is the value of `--a`. */
  lemma SpellingCanChangeCommand(a: string, x: string, k: string)
    requires '=' !in a + x + k && a !in BOOLEAN_FLAGS && x !in BOOLEAN_FLAGS && k !in BOOLEAN_FLAGS
    ensures ParseLine(["--" + a, "repo", "--" + x] + Spaced(k, "list"), [["repo", "list"]]).commandPath == ["repo"]
    ensures ParseLine(["--" + a, "repo", "--" + x] + [Assignment(k, "list")], [["repo", "list"]]).commandPath == []
  {
    FlagReads(a);
    FlagReads(x);
    FlagReads(k);
    AssignmentReads(k, "list");
    SpacedFindsCommand(["--" + a, "repo", "--" + x] + Spaced(k, "list"), [["repo", "list"]]);
    JoinedFindsNone(["--" + a, "repo", "--" + x] + [Assignment(k, "list")], [["repo", "list"]]);
  }

  lemma SpacedFindsCommand(argv: seq<string>, paths: seq<seq<string>>)
    requires |argv| == 5 && TakesValue(argv[0]) && TakesValue(argv[2]) && TakesValue(argv[3])
    requires argv[1] == "repo" && argv[4] == "list" && paths == [["repo", "list"]]
    ensures ParseLine(argv, paths).commandPath == ["repo"]
  {
    var path := paths[0];
    assert path[1..] == ["list"];
    StepsOverValue(argv[2]);
    assert SkipFlags(argv, 2) == 4;
    assert PathStartsAt(argv, 2, ["list"]) && PathStartsAt(argv, 1, path) && !PathStartsAt(argv, 2, path);
    assert Releases(argv, 0, paths);
    assert Read(argv, 0, true, paths).Bare? && Read(argv, 2, false, paths).Bare?;
    var a := Record(NOTHING, Read(argv, 0, true, paths));
    var ab := Record(a, Word("repo"));
    assert ParseLine(argv, paths) == Parse(argv, 1, paths, a) == Parse(argv, 2, paths, ab);
    assert ParseLine(argv, paths) == Parse(argv, 3, paths, Record(ab, Read(argv, 2, false, paths)));
    var abx := Record(ab, Read(argv, 2, false, paths));
    assert Read(argv, 3, false, paths) == Assign(argv[3][2..], "list");
    assert ParseLine(argv, paths) == Parse(argv, 5, paths, Record(abx, Assign(argv[3][2..], "list")));
  }

  lemma JoinedFindsNone(argv: seq<string>, paths: seq<seq<string>>)
    requires |argv| == 4 && TakesValue(argv[0]) && TakesValue(argv[2]) && IsFlag(argv[3]) && HasAssignment(argv[3])
    requires argv[1] == "repo" && paths == [["repo", "list"]]
    ensures ParseLine(argv, paths).commandPath == []
  {
    var path := paths[0];
    assert path[1..] == ["list"];
    StepsOverValue(argv[2]);
    assert SkipFlags(argv, 2) == 4;
    assert !PathStartsAt(argv, 2, ["list"]) && !PathStartsAt(argv, 1, path);
    assert !Releases(argv, 0, paths);
    assert !IsFlag(argv[1]);
    assert Read(argv, 0, true, paths) == Assign(argv[0][2..], "repo");
    assert Read(argv, 2, true, paths).Bare? && Read(argv, 3, true, paths).Assign?;
    var a := Record(NOTHING, Read(argv, 0, true, paths));
    assert ParseLine(argv, paths) == Parse(argv, 2, paths, a);
    assert ParseLine(argv, paths) == Parse(argv, 3, paths, Record(a, Read(argv, 2, true, paths)));
  }

  // ----- a flag and the word after it change places

  /** The lines before and after `token`, a flag with its value, moves from n to behind the word. */
  ghost predicate Swapped(before: seq<string>, after: seq<string>, n: nat) {
    && n + 1 < |before| == |after| && SameUpTo(before, after, n)
    && IsFlag(before[n]) && HasAssignment(before[n]) && !IsFlag(before[n + 1])
    && after[n] == before[n + 1] && after[n + 1] == before[n]
    && forall k :: n + 2 <= k < |before| ==> before[k] == after[k]
  }

  lemma {:induction false} SkipPassesSwap(before: seq<string>, after: seq<string>, n: nat, c: nat)
    requires Swapped(before, after, n) && !Dangles(before, n) && c <= n
    ensures var end := SkipFlags(before, c);
            if end < n then SkipFlags(after, c) == end && !IsFlag(before[end])
            else end == n + 1 && SkipFlags(after, c) == n
    decreases n - c
  {
    if c < n {
      assert before[c] == after[c];
      if IsFlag(before[c]) {
        StepsOverValue(before[c]);
        SkipPassesSwap(before, after, n, c + Step(before[c]));
      }
    }
  }

  lemma PathStepsOver(argv: seq<string>, i: nat, path: seq<string>)
    requires i < |argv| && IsFlag(argv[i]) && HasAssignment(argv[i])
    ensures PathStartsAt(argv, i, path) == PathStartsAt(argv, i + 1, path)
  {
    assert SkipFlags(argv, i) == SkipFlags(argv, i + 1);
  }

  lemma PathAfterSwap(before: seq<string>, after: seq<string>, n: nat, path: seq<string>)
    requires Swapped(before, after, n)
    ensures PathStartsAt(before, n + 2, path) == PathStartsAt(after, n + 1, path)
  {
    PathStepsOver(after, n + 1, path);
    PathSame(before, n + 2, after, n + 2, path);
  }

  lemma {:induction false} PathPassesSwap(before: seq<string>, after: seq<string>, n: nat, c: nat, path: seq<string>)
    requires Swapped(before, after, n) && !Dangles(before, n) && c <= n
    ensures PathStartsAt(before, c, path) == PathStartsAt(after, c, path)
    decreases |path|
  {
    if path != [] {
      SkipPassesSwap(before, after, n, c);
      var end := SkipFlags(before, c);
      if end < n {
        assert before[end] == after[end];
        PathPassesSwap(before, after, n, end + 1, path[1..]);
      } else {
        PathAfterSwap(before, after, n, path[1..]);
      }
    }
  }

  lemma SwapKeepsLookAheads(before: seq<string>, after: seq<string>, n: nat, paths: seq<seq<string>>)
    requires Swapped(before, after, n) && !Dangles(before, n)
    ensures SameLookAheads(before, after, 0, n, paths)
  {
    forall at | 0 <= at < n && Waits(before, at) ensures Releases(before, at, paths) == Releases(after, at, paths) {
      assert at + 2 <= n;
      forall k, c | 0 <= k < |paths| && at < c <= n
        ensures PathStartsAt(before, c, paths[k]) == PathStartsAt(after, c, paths[k])
      {
        PathPassesSwap(before, after, n, c, paths[k]);
      }
    }
  }

  lemma SwappedTails(before: seq<string>, after: seq<string>, n: nat, nc: bool, paths: seq<seq<string>>)
    requires Swapped(before, after, n)
    ensures var assign, word := Assign(FlagName(before[n]), AssignedValue(before[n])), Word(before[n + 1]);
            var tail := Readings(before, n + 2, false, paths);
            && Readings(before, n, nc, paths) == [assign] + ([word] + tail)
            && Readings(after, n, nc, paths) == [word] + ([assign] + tail)
  {
    var assign, word := Assign(FlagName(before[n]), AssignedValue(before[n])), Word(before[n + 1]);
    ReadingsSame(before, n + 2, after, n + 2, false, paths);
    ReadsFirst(before, n, nc, paths, assign);
    ReadsFirst(before, n + 1, nc, paths, word);
    ReadsFirst(after, n, nc, paths, word);
    ReadsFirst(after, n + 1, false, paths, assign);
  }

  lemma DanglingFlag(before: seq<string>, after: seq<string>, n: nat)
    requires Swapped(before, after, n) && Dangles(before, n)
    ensures TakesValue(before[n - 1]) && before[n - 1] == after[n - 1] && SameUpTo(before, after, n - 1)
    ensures Waits(after, n - 1) && !Waits(before, n - 1)
    ensures CutAt(before, n - 1) && CutAt(after, n - 1)
  {
    var d := n - 1;
    assert before[d] == after[d];
  }

  lemma DanglingHead(argv: seq<string>, n: nat, paths: seq<seq<string>>)
    requires 0 < n < |argv| && TakesValue(argv[n - 1]) && IsFlag(argv[n])
    ensures Head(argv, 0, n, true, paths) == Head(argv, 0, n - 1, true, paths) + [Bare(argv[n - 1][2..])]
  {
    var d, nc := n - 1, Reaches(argv, 0, n - 1, paths);
    HeadSplits(argv, 0, d, n, true, paths);
    assert Read(argv, d, nc, paths) == Bare(argv[d][2..]);
    assert Head(argv, d, n, nc, paths) == [Bare(argv[d][2..])] + [];
  }

  /** With a flag waiting at the end of the common tokens, what decides is whether it is released. */
  lemma SwappedAfterDangling(before: seq<string>, after: seq<string>, n: nat, paths: seq<seq<string>>)
    requires Swapped(before, after, n) && Dangles(before, n)
    ensures ReadLine(after, paths) == Head(before, 0, n, true, paths) + Readings(after, n, false, paths)
       <==> SameLookAheads(before, after, 0, n - 1, paths) && Released(before, after, n - 1, paths)
  {
    DanglingFlag(before, after, n);
    DanglingHead(before, n, paths);
    var d := n - 1;
    var nc := Reaches(before, 0, d, paths);
    HeadIsSharedIff(before, after, d, paths);
    ReleasedIff(after, d, nc, paths);
    HeadThen(Head(before, 0, d, true, paths), Readings(after, d, nc, paths), ReadLine(after, paths),
             Bare(before[d][2..]), Readings(after, n, false, paths));
  }

  lemma ReleasedIff(argv: seq<string>, d: nat, nc: bool, paths: seq<seq<string>>)
    requires Waits(argv, d)
    ensures Readings(argv, d, nc, paths) == [Bare(argv[d][2..])] + Readings(argv, d + 1, false, paths)
       <==> nc && Releases(argv, d, paths)
  {
    var rest := Readings(argv, d, nc, paths);
    assert rest[0] == Read(argv, d, nc, paths);
    if nc && Releases(argv, d, paths) {
      assert rest == [Bare(argv[d][2..])] + Readings(argv, d + 1, nc, paths);
    }
  }

  lemma HeadThen<T>(head: seq<T>, rest: seq<T>, all: seq<T>, x: T, tail: seq<T>)
    requires head <= all ==> all == head + rest
    ensures all == head + [x] + tail <==> head <= all && rest == [x] + tail
  {
    assert head + [x] + tail == head + ([x] + tail);
    assert (head + rest)[|head|..] == rest && (head + ([x] + tail))[|head|..] == [x] + tail;
  }

  lemma {:induction false} HeadSplits(argv: seq<string>, i: nat, mid: nat, limit: nat, nc: bool,
                                      paths: seq<seq<string>>)
    requires i <= mid <= limit <= |argv| && CutAt(argv, mid)
    ensures Head(argv, i, limit, nc, paths)
         == Head(argv, i, mid, nc, paths) + Head(argv, mid, limit, nc && Reaches(argv, i, mid, paths), paths)
    decreases |argv| - i
  {
    if i < mid {
      var r := Read(argv, i, nc, paths);
      var next, nc' := Next(argv, i, nc, paths), nc && IsFlag(argv[i]);
      HeadSplits(argv, next, mid, limit, nc', paths);
      var rest := Head(argv, mid, limit, nc' && Reaches(argv, next, mid, paths), paths);
      ConsAppend(r, Head(argv, next, mid, nc', paths), rest);
    }
  }

  /** The flag before the word is released in front of it. */
  predicate Released(before: seq<string>, after: seq<string>, at: nat, paths: seq<seq<string>>) {
    Reaches(before, 0, at, paths) && Releases(after, at, paths)
  }

  /** The word at n in the second line is a command word: no flag waits in front of it, or that flag is
      released there and no look-ahead before it decides differently. */
  ghost predicate WordIsFree(before: seq<string>, after: seq<string>, n: nat, paths: seq<seq<string>>) {
    !Dangles(before, n) || (SameLookAheads(before, after, 0, n - 1, paths) && Released(before, after, n - 1, paths))
  }

  /** Moving `--name=value` past a word leaves everything else read as it was, and the word a command
      word, if and only if no flag waits for a value in front of them, or that flag is released there and
      no look-ahead before it decides differently. */
  lemma MovingAssignmentIff(pre: seq<string>, name: string, value: string, word: string, post: seq<string>,
                            paths: seq<seq<string>>)
    requires '=' !in name && !IsFlag(word)
    ensures var before := pre + [Assignment(name, value), word] + post;
            var after := pre + [word, Assignment(name, value)] + post;
            var n, assign := |pre|, Assign(name, value);
            var head, tail := Head(before, 0, n, true, paths), Readings(before, n + 2, false, paths);
            && ReadLine(before, paths) == head + ([assign] + ([Word(word)] + tail))
            && (ReadLine(after, paths) == head + ([Word(word)] + ([assign] + tail))
                <==> WordIsFree(before, after, n, paths))
  {
    AssignmentReads(name, value);
    var n, before := |pre|, pre + [Assignment(name, value), word] + post;
    var after := pre + [word, Assignment(name, value)] + post;
    assert SameUpTo(before, after, n);
    assert Swapped(before, after, n);
    HeadThenRest(before, 0, n, true, paths);
    SwappedTails(before, after, n, Reaches(before, 0, n, paths), paths);
    if Dangles(pre, |pre|) {
      SwappedTails(before, after, n, false, paths);
      SwappedAfterDangling(before, after, n, paths);
    } else {
      SwapKeepsLookAheads(before, after, n, paths);
      HeadIsSharedIff(before, after, n, paths);
    }
  }

  lemma ReplaySwaps(head: seq<Reading>, name: string, value: string, word: string, tail: seq<Reading>, acc: ParsedArgs)
    ensures Replay(head + ([Assign(name, value)] + ([Word(word)] + tail)), acc)
         == Replay(head + ([Word(word)] + ([Assign(name, value)] + tail)), acc)
  {
    var assign, bare, mid := Assign(name, value), Word(word), Replay(head, acc);
    ReplayAppend(head, [assign] + ([bare] + tail), acc);
    ReplayAppend(head, [bare] + ([assign] + tail), acc);
    assert ([assign] + ([bare] + tail))[1..] == [bare] + tail && ([bare] + tail)[1..] == tail;
    assert ([bare] + ([assign] + tail))[1..] == [assign] + tail && ([assign] + tail)[1..] == tail;
    assert Replay([assign] + ([bare] + tail), mid) == Replay([bare] + tail, Record(mid, assign));
    assert Replay([bare] + ([assign] + tail), mid) == Replay([assign] + tail, Record(mid, bare));
  }

  lemma {:induction false} NothingReleasedWithoutPaths(argv: seq<string>, i: nat, nc: bool)
    ensures Readings(argv, i, nc, []) == Readings(argv, i, false, [])
    decreases |argv| - i
  {
    if i < |argv| {
      var r := Read(argv, i, nc, []);
      assert r == Read(argv, i, false, []);
      NothingReleasedWithoutPaths(argv, Next(argv, i, nc, []), nc && IsFlag(argv[i]));
    }
  }

  lemma NothingReleasedBefore(x: seq<string>, y: seq<string>, d: nat, paths: seq<seq<string>>)
    requires SameUpTo(x, y, d) && CutAt(x, d) && CutAt(y, d)
    requires paths == [] || (d > 0 && !IsFlag(x[0]))
    ensures ReadLine(y, paths) == Head(x, 0, d, true, paths) + Readings(y, d, false, paths)
  {
    assert SameLookAheads(x, y, 0, d, paths);
    HeadIsSharedIff(x, y, d, paths);
    if paths == [] {
      NothingReleasedWithoutPaths(y, d, Reaches(x, 0, d, paths));
    }
  }

  lemma WaitingFlagReads(before: seq<string>, after: seq<string>, n: nat, paths: seq<seq<string>>)
    requires Swapped(before, after, n) && Dangles(before, n) && NoLookAhead(before, paths)
    ensures var head, rest := Head(before, 0, n - 1, true, paths), Readings(before, n + 2, false, paths);
            var assign := Assign(FlagName(before[n]), AssignedValue(before[n]));
            ReadLine(after, paths) == head + ([Assign(before[n - 1][2..], after[n])] + ([assign] + rest))
  {
    DanglingFlag(before, after, n);
    NothingReleasedBefore(before, after, n - 1, paths);
    ReadsFirst(after, n - 1, false, paths, Assign(before[n - 1][2..], after[n]));
    ReadsFirst(after, n + 1, false, paths, Assign(FlagName(before[n]), AssignedValue(before[n])));
    ReadingsSame(before, n + 2, after, n + 2, false, paths);
  }

  /** After a waiting flag that nothing releases the word is its value: one command word less. */
  lemma WaitingFlagTakesWord(before: seq<string>, after: seq<string>, n: nat, paths: seq<seq<string>>)
    requires Swapped(before, after, n) && Dangles(before, n) && NoLookAhead(before, paths)
    ensures |WordsOf(ReadLine(after, paths))| < |WordsOf(ReadLine(before, paths))|
  {
    DanglingFlag(before, after, n);
    WaitingFlagReads(before, after, n, paths);
    DanglingHead(before, n, paths);
    HeadThenRest(before, 0, n, true, paths);
    SwappedTails(before, after, n, Reaches(before, 0, n, paths), paths);
    var head, rest := Head(before, 0, n - 1, true, paths), Readings(before, n + 2, false, paths);
    var name, word := before[n - 1][2..], Word(before[n + 1]);
    var assign := Assign(FlagName(before[n]), AssignedValue(before[n]));
    assert head + [Bare(name)] + ([assign] + ([word] + rest)) == head + ([Bare(name)] + ([assign] + ([word] + rest)));
    CountOneLess(head, Bare(name), Assign(name, after[n]), assign, word, rest);
  }

  lemma CountOneLess(head: seq<Reading>, bare: Reading, flag: Reading, assign: Reading, word: Reading,
                     rest: seq<Reading>)
    requires !bare.Word? && !flag.Word? && !assign.Word? && word.Word?
    ensures |WordsOf(head + ([flag] + ([assign] + rest)))| < |WordsOf(head + ([bare] + ([assign] + ([word] + rest))))|
  {
    WordsOfAppend(head, [flag] + ([assign] + rest));
    WordsOfAppend(head, [bare] + ([assign] + ([word] + rest)));
    assert ([flag] + ([assign] + rest))[1..] == [assign] + rest && ([assign] + rest)[1..] == rest;
    assert ([bare] + ([assign] + ([word] + rest)))[1..] == [assign] + ([word] + rest);
    assert ([assign] + ([word] + rest))[1..] == [word] + rest && ([word] + rest)[1..] == rest;
    assert |WordsOf([assign] + ([word] + rest))| == 1 + |WordsOf(rest)|;
  }

  /** For the parse: it stays the same under the condition of `MovingAssignmentIff`; and where no
      look-ahead is at work, if and only if no flag waits for a value in front of the two. */
  lemma MovingKeepsParse(pre: seq<string>, name: string, value: string, word: string, post: seq<string>,
                         paths: seq<seq<string>>)
    requires '=' !in name && !IsFlag(word)
    ensures var before := pre + [Assignment(name, value), word] + post;
            var after := pre + [word, Assignment(name, value)] + post;
            && (WordIsFree(before, after, |pre|, paths) ==> ParseLine(before, paths) == ParseLine(after, paths))
            && (NoLookAhead(pre, paths) ==>
                (ParseLine(before, paths) == ParseLine(after, paths) <==> !Dangles(pre, |pre|)))
  {
    var n, before := |pre|, pre + [Assignment(name, value), word] + post;
    var after := pre + [word, Assignment(name, value)] + post;
    MovingAssignmentIff(pre, name, value, word, post, paths);
    ReplaySwaps(Head(before, 0, n, true, paths), name, value, word, Readings(before, n + 2, false, paths), NOTHING);
    ParseReplays(before, 0, paths, NOTHING);
    ParseReplays(after, 0, paths, NOTHING);
    WordsAreThePath(ReadLine(before, paths), NOTHING);
    WordsAreThePath(ReadLine(after, paths), NOTHING);
    if NoLookAhead(pre, paths) && Dangles(pre, |pre|) {
      AssignmentReads(name, value);
      assert SameUpTo(before, after, n);
      WaitingFlagTakesWord(before, after, n, paths);
    }
  }

  /** With the look-ahead at work the move can change the command even in front of it: of
      `--a repo --x --k=v list` the command is `repo list`, of `--a repo --x list --k=v` there is none. */
  lemma MovingCanChangeCommand(a: string, x: string, k: string, v: string)
    requires '=' !in a + x + k && a !in BOOLEAN_FLAGS && x !in BOOLEAN_FLAGS
    ensures ParseLine(["--" + a, "repo", "--" + x] + [Assignment(k, v), "list"], [["repo", "list"]]).commandPath
         == ["repo", "list"]
    ensures ParseLine(["--" + a, "repo", "--" + x] + ["list", Assignment(k, v)], [["repo", "list"]]).commandPath == []
  {
    FlagReads(a);
    FlagReads(x);
    AssignmentReads(k, v);
    BeforeFindsCommand(["--" + a, "repo", "--" + x] + [Assignment(k, v), "list"], [["repo", "list"]]);
    AfterFindsNone(["--" + a, "repo", "--" + x] + ["list", Assignment(k, v)], [["repo", "list"]]);
  }

  lemma BeforeFindsCommand(argv: seq<string>, paths: seq<seq<string>>)
    requires |argv| == 5 && TakesValue(argv[0]) && TakesValue(argv[2]) && IsFlag(argv[3]) && HasAssignment(argv[3])
    requires argv[1] == "repo" && argv[4] == "list" && paths == [["repo", "list"]]
    ensures ParseLine(argv, paths).commandPath == ["repo", "list"]
  {
    var path := paths[0];
    assert path[1..] == ["list"];
    StepsOverValue(argv[2]);
    assert SkipFlags(argv, 2) == 4;
    assert PathStartsAt(argv, 2, ["list"]) && PathStartsAt(argv, 1, path) && !PathStartsAt(argv, 2, path);
    assert Releases(argv, 0, paths);
    var a := Record(NOTHING, Read(argv, 0, true, paths));
    var ab := Record(a, Word("repo"));
    var abx := Record(ab, Read(argv, 2, false, paths));
    assert ParseLine(argv, paths) == Parse(argv, 1, paths, a) == Parse(argv, 2, paths, ab);
    assert Read(argv, 2, false, paths).Bare?;
    assert ParseLine(argv, paths) == Parse(argv, 3, paths, abx);
    var abxk := Record(abx, Read(argv, 3, false, paths));
    assert ParseLine(argv, paths) == Parse(argv, 4, paths, abxk);
    assert ParseLine(argv, paths) == Parse(argv, 5, paths, Record(abxk, Word("list")));
  }

  lemma AfterFindsNone(argv: seq<string>, paths: seq<seq<string>>)
    requires |argv| == 5 && TakesValue(argv[0]) && TakesValue(argv[2]) && IsFlag(argv[4]) && HasAssignment(argv[4])
    requires argv[1] == "repo" && argv[3] == "list" && paths == [["repo", "list"]]
    ensures ParseLine(argv, paths).commandPath == []
  {
    var path := paths[0];
    assert path[1..] == ["list"];
    StepsOverValue(argv[2]);
    assert SkipFlags(argv, 4) == 5 == SkipFlags(argv, 2);
    assert !PathStartsAt(argv, 2, ["list"]) && !PathStartsAt(argv, 1, path);
    assert !Releases(argv, 0, paths);
    assert !IsFlag(argv[1]) && !IsFlag(argv[3]);
    var a := Record(NOTHING, Read(argv, 0, true, paths));
    assert ParseLine(argv, paths) == Parse(argv, 2, paths, a);
    assert !PathStartsAt(argv, 3, path) by {
      assert SkipFlags(argv, 3) == 3;
    }
    assert Read(argv, 2, true, paths) == Assign(argv[2][2..], "list");
    var ax := Record(a, Read(argv, 2, true, paths));
    assert ParseLine(argv, paths) == Parse(argv, 4, paths, ax);
    assert ParseLine(argv, paths) == Parse(argv, 5, paths, Record(ax, Read(argv, 4, true, paths)));
  }
}
