/** What the spelling and the place of a flag do to the parse itself. Lines that are read differently have
    different command paths, as long as no word occurs twice on them. */
module ParsedSpellings {
  import opened CliArgs
  import opened FlagSpellings

  ghost predicate NoWordTwice(argv: seq<string>) {
    forall a, b :: 0 <= a < b < |argv| && !IsFlag(argv[a]) ==> argv[a] != argv[b]
  }

  lemma CommandPathIsWords(argv: seq<string>, paths: seq<seq<string>>)
    ensures ParseLine(argv, paths).commandPath == WordsOf(ReadLine(argv, paths))
  {
    ParseReplays(argv, 0, paths, NOTHING);
    WordsAreThePath(ReadLine(argv, paths), NOTHING);
  }

  /** The first word read from i on is a token from i on. */
  lemma {:induction false} FirstWordLater(argv: seq<string>, i: nat, nc: bool, paths: seq<seq<string>>) returns (j: nat)
    requires WordsOf(Readings(argv, i, nc, paths)) != []
    ensures i <= j < |argv| && !IsFlag(argv[j]) && WordsOf(Readings(argv, i, nc, paths))[0] == argv[j]
    decreases |argv| - i
  {
    ReadsFirst(argv, i, nc, paths, Read(argv, i, nc, paths));
    j := i;
    if IsFlag(argv[i]) {
      j := FirstWordLater(argv, Next(argv, i, nc, paths), nc, paths);
    }
  }

  /** A word that is read at `at` in one line is not the first one read from there on in the other. */
  lemma FirstWordDiffers(argv: seq<string>, at: nat, i: nat, nc: bool, paths: seq<seq<string>>, words: seq<string>)
    requires NoWordTwice(argv) && at < i && at < |argv| && !IsFlag(argv[at])
    requires words != [] && words[0] == argv[at]
    ensures WordsOf(Readings(argv, i, nc, paths)) != words
  {
    if WordsOf(Readings(argv, i, nc, paths)) != [] {
      var j := FirstWordLater(argv, i, nc, paths);
    }
  }

  lemma WordsOfCons(r: Reading, rs: seq<Reading>)
    ensures WordsOf([r] + rs) == (if r.Word? then [r.word] else []) + WordsOf(rs)
  {
    assert ([r] + rs)[1..] == rs;
  }

  lemma WordsAfterHead(head: seq<Reading>, a: seq<Reading>, b: seq<Reading>)
    requires WordsOf(a) != WordsOf(b)
    ensures WordsOf(head + a) != WordsOf(head + b)
  {
    WordsOfAppend(head, a);
    WordsOfAppend(head, b);
    var h := WordsOf(head);
    assert (h + WordsOf(a))[|h|..] == WordsOf(a) && (h + WordsOf(b))[|h|..] == WordsOf(b);
  }

  lemma ReadsWord(argv: seq<string>, i: nat, nc: bool, paths: seq<seq<string>>)
    requires i < |argv| && !IsFlag(argv[i])
    ensures WordsOf(Readings(argv, i, nc, paths)) == [argv[i]] + WordsOf(Readings(argv, i + 1, false, paths))
  {
    ReadsFirst(argv, i, nc, paths, Word(argv[i]));
    WordsOfCons(Word(argv[i]), Readings(argv, i + 1, false, paths));
  }

  lemma ReadsFlag(argv: seq<string>, i: nat, nc: bool, paths: seq<seq<string>>)
    requires i < |argv| && IsFlag(argv[i])
    ensures WordsOf(Readings(argv, i, nc, paths)) == WordsOf(Readings(argv, Next(argv, i, nc, paths), nc, paths))
  {
    var r := Read(argv, i, nc, paths);
    ReadsFirst(argv, i, nc, paths, r);
    WordsOfCons(r, Readings(argv, Next(argv, i, nc, paths), nc, paths));
  }

  /** The words of a released flag. */
  lemma ReleasedReads(argv: seq<string>, i: nat, paths: seq<seq<string>>)
    requires Waits(argv, i) && Releases(argv, i, paths)
    ensures WordsOf(Readings(argv, i, true, paths)) == [argv[i + 1]] + WordsOf(Readings(argv, i + 2, false, paths))
  {
    ReadsFlag(argv, i, true, paths);
    ReadsWord(argv, i + 1, true, paths);
  }

  lemma TakenReads(argv: seq<string>, i: nat, nc: bool, paths: seq<seq<string>>)
    requires Waits(argv, i) && !(nc && Releases(argv, i, paths))
    ensures WordsOf(Readings(argv, i, nc, paths)) == WordsOf(Readings(argv, i + 2, nc, paths))
  {
    ReadsFlag(argv, i, nc, paths);
  }

  lemma WaitsInBoth(x: seq<string>, y: seq<string>, i: nat, limit: nat)
    requires i < limit && SameUpTo(x, y, limit) && CutAt(x, limit) && Waits(x, i)
    ensures Waits(y, i) && x[i + 1] == y[i + 1]
  {
    assert x[i] == y[i];
    assert i + 1 < limit;
  }

  lemma WordsDifferAt(x: seq<string>, y: seq<string>, i: nat, paths: seq<seq<string>>)
    requires Waits(x, i) && Waits(y, i) && x[i + 1] == y[i + 1] && NoWordTwice(y)
    requires Releases(x, i, paths) && !Releases(y, i, paths)
    ensures WordsOf(Readings(x, i, true, paths)) != WordsOf(Readings(y, i, true, paths))
  {
    ReleasedReads(x, i, paths);
    TakenReads(y, i, true, paths);
    FirstWordDiffers(y, i + 1, i + 2, true, paths, WordsOf(Readings(x, i, true, paths)));
  }

  lemma {:induction false} NoWordsOnTheWay(argv: seq<string>, i: nat, at: nat, paths: seq<seq<string>>)
    requires Reaches(argv, i, at, paths)
    ensures WordsOf(Readings(argv, i, true, paths)) == WordsOf(Readings(argv, at, true, paths))
    decreases |argv| - i
  {
    if i != at {
      ReadsFlag(argv, i, true, paths);
      NoWordsOnTheWay(argv, Next(argv, i, true, paths), at, paths);
    }
  }

  /** The first flag whose look-ahead decides differently. */
  lemma {:induction false} DifferingFlag(x: seq<string>, y: seq<string>, i: nat, limit: nat, paths: seq<seq<string>>)
      returns (at: nat)
    requires i <= limit && SameUpTo(x, y, limit) && CutAt(x, limit) && CutAt(y, limit)
    requires !SameLookAheads(x, y, i, limit, paths)
    ensures i <= at < limit && Reaches(x, i, at, paths) && Reaches(y, i, at, paths)
    ensures Waits(x, at) && Releases(x, at, paths) != Releases(y, at, paths)
    decreases |x| - i
  {
    if Read(x, i, true, paths) == Read(y, i, true, paths) {
      LookAheadsFrom(x, y, i, limit, true, paths);
      at := DifferingFlag(x, y, Next(x, i, true, paths), limit, paths);
    } else {
      OnlyLookAheadsDiffer(x, y, i, limit, true, paths);
      at := i;
    }
  }

  lemma HeadWordsDiffer(x: seq<string>, y: seq<string>, limit: nat, paths: seq<seq<string>>)
    requires SameUpTo(x, y, limit) && CutAt(x, limit) && CutAt(y, limit)
    requires NoWordTwice(x) && NoWordTwice(y) && !SameLookAheads(x, y, 0, limit, paths)
    ensures WordsOf(ReadLine(x, paths)) != WordsOf(ReadLine(y, paths))
  {
    var at := DifferingFlag(x, y, 0, limit, paths);
    NoWordsOnTheWay(x, 0, at, paths);
    NoWordsOnTheWay(y, 0, at, paths);
    WaitsInBoth(x, y, at, limit);
    if Releases(x, at, paths) {
      WordsDifferAt(x, y, at, paths);
    } else {
      WordsDifferAt(y, x, at, paths);
    }
  }

  // ----- the spelling

  lemma JoinedHasNoWordTwice(spaced: seq<string>, joined: seq<string>, n: nat)
    requires TwoSpellings(spaced, joined, n) && NoWordTwice(spaced)
    ensures NoWordTwice(joined)
  {
    forall a, b | 0 <= a < b < |joined| && !IsFlag(joined[a]) ensures joined[a] != joined[b] {
      if b != n {
        assert joined[a] == spaced[if a < n then a else a + 1] && joined[b] == spaced[if b < n then b else b + 1];
      }
    }
  }

  lemma JoinedTailReads(spaced: seq<string>, joined: seq<string>, n: nat, paths: seq<seq<string>>)
    requires TwoSpellings(spaced, joined, n)
    ensures Readings(joined, n + 1, true, paths) == Readings(spaced, n + 2, true, paths)
  {
    ReadingsSame(spaced, n + 2, joined, n + 1, true, paths);
  }

  lemma ReleasedPairReads(spaced: seq<string>, joined: seq<string>, n: nat, paths: seq<seq<string>>)
    requires TwoSpellings(spaced, joined, n) && NoWordTwice(spaced) && Releases(spaced, n, paths)
    ensures WordsOf(Readings(spaced, n, true, paths)) != WordsOf(Readings(joined, n, true, paths))
  {
    ReleasedReads(spaced, n, paths);
    assert Next(joined, n, true, paths) == n + 1;
    ReadsFlag(joined, n, true, paths);
    JoinedTailReads(spaced, joined, n, paths);
    FirstWordDiffers(spaced, n + 1, n + 2, true, paths, WordsOf(Readings(spaced, n, true, paths)));
  }

  lemma SpelledWordsDiffer(spaced: seq<string>, joined: seq<string>, n: nat, paths: seq<seq<string>>)
    requires TwoSpellings(spaced, joined, n) && NoWordTwice(spaced)
    requires !SameLookAheads(spaced, joined, 0, n, paths) || !PairIsConsumed(spaced, n, paths)
    ensures WordsOf(ReadLine(spaced, paths)) != WordsOf(ReadLine(joined, paths))
  {
    JoinedHasNoWordTwice(spaced, joined, n);
    if !SameLookAheads(spaced, joined, 0, n, paths) {
      HeadWordsDiffer(spaced, joined, n, paths);
    } else {
      HeadThenRest(spaced, 0, n, true, paths);
      HeadIsSharedIff(spaced, joined, n, paths);
      ReleasedPairReads(spaced, joined, n, paths);
      WordsAfterHead(Head(spaced, 0, n, true, paths), Readings(spaced, n, true, paths), Readings(joined, n, true, paths));
    }
  }

  /** On a line where no word occurs twice, spelling a pair with `=` leaves the parse as it is if and only if
      the pair is consumed and no look-ahead of a leading flag decides differently. */
  lemma SpellingKeepsParseIff(pre: seq<string>, name: string, value: string, post: seq<string>, paths: seq<seq<string>>)
    requires '=' !in name && name !in BOOLEAN_FLAGS && !IsFlag(value)
    requires NoWordTwice(pre + Spaced(name, value) + post)
    ensures var spaced, joined := pre + Spaced(name, value) + post, pre + [Assignment(name, value)] + post;
            && (ParseLine(spaced, paths) == ParseLine(joined, paths)
                <==> SameLookAheads(spaced, joined, 0, |pre|, paths) && PairIsConsumed(spaced, |pre|, paths))
  {
    FlagReads(name);
    AssignmentReads(name, value);
    var spaced, joined, n := pre + Spaced(name, value) + post, pre + [Assignment(name, value)] + post, |pre|;
    if SameLookAheads(spaced, joined, 0, n, paths) && PairIsConsumed(spaced, n, paths) {
      SpellingsAgreeIff(pre, name, value, post, paths);
      ParseReplays(spaced, 0, paths, NOTHING);
      ParseReplays(joined, 0, paths, NOTHING);
    } else {
      SpelledWordsDiffer(spaced, joined, n, paths);
      CommandPathIsWords(spaced, paths);
      CommandPathIsWords(joined, paths);
    }
  }

  lemma SpacedTwice(argv: seq<string>, paths: seq<seq<string>>, k: string, z: string)
    requires |argv| == 5 && argv[0] == argv[2] && TakesValue(argv[0]) && argv[0][2..] == k && argv[1] == argv[3] == "repo"
    requires IsFlag(argv[4]) && HasAssignment(argv[4]) && FlagName(argv[4]) == k && AssignedValue(argv[4]) == z
    requires paths == [["repo"]] && k !in REPEATABLE_STRING_FLAGS
    ensures Releases(argv, 0, paths) && ParseLine(argv, paths) == ParsedArgs(["repo"], map[k := Text(z)])
  {
    var path := paths[0];
    StepsOverValue(argv[2]);
    assert path[1..] == [] && [] + ["repo"] == ["repo"] && !IsFlag(argv[1]);
    assert SkipFlags(argv, 2) == SkipFlags(argv, 4) == SkipFlags(argv, 5) == 5;
    assert PathStartsAt(argv, 1, path) && !PathStartsAt(argv, 2, path);
    var flags := map[k := Present];
    assert ParseLine(argv, paths) == Parse(argv, 1, paths, ParsedArgs([], flags));
    assert ParseLine(argv, paths) == Parse(argv, 2, paths, ParsedArgs(["repo"], flags));
    assert Read(argv, 2, false, paths) == Assign(k, "repo");
    assert ParseLine(argv, paths) == Parse(argv, 4, paths, ParsedArgs(["repo"], flags[k := Text("repo")]));
    assert ParseLine(argv, paths) == Parse(argv, 5, paths, ParsedArgs(["repo"], flags[k := Text("repo")][k := Text(z)]));
    assert flags[k := Text("repo")][k := Text(z)] == map[k := Text(z)];
  }

  lemma JoinedOnce(argv: seq<string>, paths: seq<seq<string>>, k: string, z: string)
    requires |argv| == 4 && TakesValue(argv[1]) && argv[1][2..] == k && argv[2] == "repo"
    requires IsFlag(argv[0]) && HasAssignment(argv[0]) && FlagName(argv[0]) == k
    requires IsFlag(argv[3]) && HasAssignment(argv[3]) && FlagName(argv[3]) == k && AssignedValue(argv[3]) == z
    requires paths == [["repo"]] && k !in REPEATABLE_STRING_FLAGS
    ensures ParseLine(argv, paths) == ParsedArgs(["repo"], map[k := Text(z)])
  {
    var path := paths[0];
    assert path[1..] == [] && [] + ["repo"] == ["repo"] && !IsFlag(argv[2]) && SkipFlags(argv, 3) == 4;
    assert PathStartsAt(argv, 2, path) && !PathStartsAt(argv, 3, path);
    var flags := map[k := Text(AssignedValue(argv[0]))];
    assert ParseLine(argv, paths) == Parse(argv, 1, paths, ParsedArgs([], flags));
    assert Releases(argv, 1, paths) && Read(argv, 1, true, paths) == Bare(k);
    assert ParseLine(argv, paths) == Parse(argv, 2, paths, ParsedArgs([], flags[k := Present]));
    assert ParseLine(argv, paths) == Parse(argv, 3, paths, ParsedArgs(["repo"], flags[k := Present]));
    assert ParseLine(argv, paths) == Parse(argv, 4, paths, ParsedArgs(["repo"], flags[k := Present][k := Text(z)]));
    assert flags[k := Present][k := Text(z)] == map[k := Text(z)];
  }

  /** With a word that occurs twice the lines can be read differently and still come to one parse: in
      `--k repo --k repo --k=z` the first `repo` is the command, in `--k=repo --k repo --k=z` the other. */
  lemma RepeatedWordHidesDifference(k: string, z: string)
    requires '=' !in k && k !in BOOLEAN_FLAGS && k !in REPEATABLE_STRING_FLAGS
    ensures var spaced := [] + Spaced(k, "repo") + (Spaced(k, "repo") + [Assignment(k, z)]);
            var joined := [] + [Assignment(k, "repo")] + (Spaced(k, "repo") + [Assignment(k, z)]);
            && !PairIsConsumed(spaced, 0, [["repo"]])
            && ParseLine(spaced, [["repo"]]) == ParseLine(joined, [["repo"]])
  {
    FlagReads(k);
    AssignmentReads(k, z);
    AssignmentReads(k, "repo");
    SpacedTwice([] + Spaced(k, "repo") + (Spaced(k, "repo") + [Assignment(k, z)]), [["repo"]], k, z);
    JoinedOnce([] + [Assignment(k, "repo")] + (Spaced(k, "repo") + [Assignment(k, z)]), [["repo"]], k, z);
  }

  // ----- the place

  lemma AfterHasNoWordTwice(before: seq<string>, after: seq<string>, n: nat)
    requires Swapped(before, after, n) && NoWordTwice(before)
    ensures NoWordTwice(after)
  {
    forall a, b | 0 <= a < b < |after| && !IsFlag(after[a]) ensures after[a] != after[b] {
      var p := if a == n then n + 1 else if a == n + 1 then n else a;
      var q := if b == n then n + 1 else if b == n + 1 then n else b;
      assert after[a] == before[p] && after[b] == before[q];
    }
  }

  /** The words from a waiting flag on: the one that moves is among them before, not after. */
  lemma WaitingWordsDiffer(before: seq<string>, after: seq<string>, n: nat, nc: bool, paths: seq<seq<string>>)
    requires Swapped(before, after, n) && Dangles(before, n) && NoWordTwice(after)
    requires !(nc && Releases(after, n - 1, paths))
    ensures WordsOf(Readings(before, n - 1, nc, paths)) != WordsOf(Readings(after, n - 1, nc, paths))
  {
    DanglingFlag(before, after, n);
    ReadsFlag(before, n - 1, nc, paths);
    ReadsFlag(before, n, nc, paths);
    ReadsWord(before, n + 1, nc, paths);
    TakenReads(after, n - 1, nc, paths);
    FirstWordDiffers(after, n, n + 1, nc, paths, WordsOf(Readings(before, n - 1, nc, paths)));
  }

  lemma MovedWordsDiffer(before: seq<string>, after: seq<string>, n: nat, paths: seq<seq<string>>)
    requires Swapped(before, after, n) && NoWordTwice(before) && !WordIsFree(before, after, n, paths)
    ensures WordsOf(ReadLine(before, paths)) != WordsOf(ReadLine(after, paths))
  {
    AfterHasNoWordTwice(before, after, n);
    DanglingFlag(before, after, n);
    var d := n - 1;
    if !SameLookAheads(before, after, 0, d, paths) {
      HeadWordsDiffer(before, after, d, paths);
    } else {
      var head, nc := Head(before, 0, d, true, paths), Reaches(before, 0, d, paths);
      HeadThenRest(before, 0, d, true, paths);
      HeadIsSharedIff(before, after, d, paths);
      WaitingWordsDiffer(before, after, n, nc, paths);
      WordsAfterHead(head, Readings(before, d, nc, paths), Readings(after, d, nc, paths));
    }
  }

  /** On a line where no word occurs twice, moving `--name=value` past a word leaves the parse as it is if
      and only if the word stays a command word. */
  lemma MovingKeepsParseIff(pre: seq<string>, name: string, value: string, word: string, post: seq<string>,
                            paths: seq<seq<string>>)
    requires '=' !in name && !IsFlag(word) && NoWordTwice(pre + [Assignment(name, value), word] + post)
    ensures var before := pre + [Assignment(name, value), word] + post;
            var after := pre + [word, Assignment(name, value)] + post;
            ParseLine(before, paths) == ParseLine(after, paths) <==> WordIsFree(before, after, |pre|, paths)
  {
    AssignmentReads(name, value);
    var n, before := |pre|, pre + [Assignment(name, value), word] + post;
    var after := pre + [word, Assignment(name, value)] + post;
    assert Swapped(before, after, n);
    if WordIsFree(before, after, n, paths) {
      MovingKeepsParse(pre, name, value, word, post, paths);
    } else {
      MovedWordsDiffer(before, after, n, paths);
      CommandPathIsWords(before, paths);
      CommandPathIsWords(after, paths);
    }
  }
}
