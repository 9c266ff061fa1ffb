/** The packing of repeated flags and its reading half. */
module RepeatedFlags {
  import opened CliArgs
  import opened FlagSpellings
  import opened Options
  import opened Sequences

  /** The values given to a flag since it was last given bare. */
  function Supplied(rs: seq<Reading>, name: string, sofar: seq<string>): seq<string> {
    if rs == [] then sofar
    else
      var next := match rs[0]
        case Bare(other) => if other == name then [] else sofar
        case Assign(other, value) => if other == name then sofar + [value] else sofar
        case Word(_) => sofar;
      Supplied(rs[1..], name, next)
  }

  function Split(s: string, c: char): seq<string>
    decreases |s|
  {
    var i := IndexOf(s, c);
    if i == |s| then [s] else [s[..i]] + Split(s[i + 1..], c)
  }

  function GetOptionalStringFlag(flags: map<string, FlagValue>, name: string): Option<string> {
    if name in flags && flags[name].Text? && flags[name].value != "" then Some(flags[name].value) else None
  }

  function GetRepeatedStringFlag(flags: map<string, FlagValue>, name: string): seq<string> {
    var value := GetOptionalStringFlag(flags, name);
    if value.None? then [] else NonEmpty(Split(value.value, SEPARATOR))
  }

  function Pack(values: seq<string>): string
    requires values != []
  {
    if |values| == 1 then values[0]
    else Pack(values[..|values| - 1]) + [SEPARATOR] + values[|values| - 1]
  }

  /** The non-empty parts of all the values, in order. */
  function Parts(values: seq<string>): seq<string> {
    if values == [] then []
    else Parts(values[..|values| - 1]) + NonEmpty(Split(values[|values| - 1], SEPARATOR))
  }

  ghost predicate Packed(flags: map<string, FlagValue>, name: string, values: seq<string>) {
    if values == [] then name in flags ==> flags[name].Present?
    else name in flags && flags[name] == Text(Pack(values))
  }

  lemma PackedAfterSet(flags: map<string, FlagValue>, name: string, values: seq<string>, value: string)
    requires Packed(flags, name, values) && name in REPEATABLE_STRING_FLAGS
    ensures Packed(SetFlagValue(flags, name, value), name, values + [value])
  {
    assert (values + [value])[..|values|] == values;
  }

  lemma {:induction false} ReplayPacks(rs: seq<Reading>, name: string, acc: ParsedArgs, sofar: seq<string>)
    requires name in REPEATABLE_STRING_FLAGS && Packed(acc.flags, name, sofar)
    ensures Packed(Replay(rs, acc).flags, name, Supplied(rs, name, sofar))
  {
    if rs != [] {
      var next := Record(acc, rs[0]);
      match rs[0]
      case Word(_) => ReplayPacks(rs[1..], name, next, sofar);
      case Bare(other) => ReplayPacks(rs[1..], name, next, if other == name then [] else sofar);
      case Assign(other, value) =>
        if other == name {
          PackedAfterSet(acc.flags, name, sofar, value);
          ReplayPacks(rs[1..], name, next, sofar + [value]);
        } else {
          ReplayPacks(rs[1..], name, next, sofar);
        }
    }
  }

  lemma {:induction false} IndexOfSplits(s: string, c: char) returns (head: string, tail: string)
    requires IndexOf(s, c) < |s|
    ensures c !in head && s == head + [c] + tail
  {
    if s[0] == c {
      head, tail := "", s[1..];
    } else {
      head, tail := IndexOfSplits(s[1..], c);
      head := [s[0]] + head;
    }
  }

  lemma {:induction false} IndexOfMissed(s: string, c: char)
    requires IndexOf(s, c) == |s|
    ensures c !in s
  {
    if s != "" {
      IndexOfMissed(s[1..], c);
    }
  }

  lemma SplitFirst(s: string, head: string, tail: string, c: char)
    requires s == head + [c] + tail && c !in head
    ensures Split(s, c) == [head] + Split(tail, c)
  {
    IndexOfFound(head, c, tail);
    assert s[..|head|] == head && s[|head| + 1..] == tail;
  }

  lemma {:induction false} SplitJoin(a: string, b: string, c: char)
    ensures Split(a + [c] + b, c) == Split(a, c) + Split(b, c)
    decreases |a|
  {
    if IndexOf(a, c) == |a| {
      IndexOfMissed(a, c);
      SplitFirst(a + [c] + b, a, b, c);
    } else {
      var head, tail := IndexOfSplits(a, c);
      SplitFirst(a, head, tail, c);
      SplitJoin(tail, b, c);
      assert a + [c] + b == head + [c] + (tail + [c] + b);
      SplitFirst(a + [c] + b, head, tail + [c] + b, c);
      ConsAppend(head, Split(tail, c), Split(b, c));
    }
  }

  lemma {:induction false} NonEmptyAppend(a: seq<string>, b: seq<string>)
    ensures NonEmpty(a + b) == NonEmpty(a) + NonEmpty(b)
  {
    if a == [] {
      assert a + b == b;
    } else {
      assert (a + b)[1..] == a[1..] + b;
      NonEmptyAppend(a[1..], b);
    }
  }

  lemma {:induction false} PackSplits(values: seq<string>)
    requires values != []
    ensures NonEmpty(Split(Pack(values), SEPARATOR)) == Parts(values)
  {
    if |values| == 1 {
      assert values[..0] == [];
      assert Parts(values) == [] + NonEmpty(Split(values[0], SEPARATOR));
    } else {
      var init, last := values[..|values| - 1], values[|values| - 1];
      PackSplits(init);
      SplitJoin(Pack(init), last, SEPARATOR);
      NonEmptyAppend(Split(Pack(init), SEPARATOR), Split(last, SEPARATOR));
    }
  }

  /** What the reader of a repeatable flag gets is, in order, the non-empty parts of the values given
      since the flag was last given bare, whatever the command paths and whatever else is on the line. */
  lemma RepeatedFlagReadsBack(argv: seq<string>, paths: seq<seq<string>>, name: string)
    requires name in REPEATABLE_STRING_FLAGS
    ensures GetRepeatedStringFlag(ParseLine(argv, paths).flags, name) == Parts(Supplied(ReadLine(argv, paths), name, []))
  {
    var values := Supplied(ReadLine(argv, paths), name, []);
    ParseReplays(argv, 0, paths, NOTHING);
    ReplayPacks(ReadLine(argv, paths), name, NOTHING, []);
    if values != [] {
      PackSplits(values);
      assert Split("", SEPARATOR) == [""] && NonEmpty([""]) == [];
    }
  }

  lemma {:induction false} PlainParts(values: seq<string>)
    requires forall i :: 0 <= i < |values| ==> values[i] != "" && SEPARATOR !in values[i]
    ensures Parts(values) == values
  {
    if values != [] {
      var init, last := values[..|values| - 1], values[|values| - 1];
      PlainParts(init);
      IndexOfMissing(last, SEPARATOR);
      assert NonEmpty([last]) == [last] + NonEmpty([]);
    }
  }

  // ----- a list of values, passed after the words of a command

  function Assignments(name: string, values: seq<string>): seq<string> {
    if values == [] then [] else [Assignment(name, values[0])] + Assignments(name, values[1..])
  }

  function Pairs(name: string, values: seq<string>): seq<string> {
    if values == [] then [] else Spaced(name, values[0]) + Pairs(name, values[1..])
  }

  lemma {:induction false} WordsSupplyNothing(words: seq<string>, rs: seq<Reading>, name: string)
    ensures Supplied(AsWords(words) + rs, name, []) == Supplied(rs, name, [])
  {
    if words == [] {
      assert AsWords(words) + rs == rs;
    } else {
      assert (AsWords(words) + rs)[1..] == AsWords(words[1..]) + rs;
      WordsSupplyNothing(words[1..], rs, name);
    }
  }

  lemma SuppliedAfterWords(words: seq<string>, rest: seq<string>, paths: seq<seq<string>>, name: string)
    requires forall k :: 0 <= k < |words| ==> !IsFlag(words[k])
    ensures Supplied(ReadLine(words + rest, paths), name, []) == Supplied(Readings(rest, 0, words == [], paths), name, [])
  {
    var argv := words + rest;
    assert argv[0..0 + |words|] == words;
    WordsAreRead(argv, 0, true, paths, words);
    ReadingsSame(argv, |words|, rest, 0, words == [], paths);
    WordsSupplyNothing(words, Readings(rest, 0, words == [], paths), name);
  }

  lemma SuppliedNext(name: string, value: string, rs: seq<Reading>, sofar: seq<string>)
    ensures Supplied([Assign(name, value)] + rs, name, sofar) == Supplied(rs, name, sofar + [value])
  {
    assert ([Assign(name, value)] + rs)[1..] == rs;
  }

  lemma FirstAssignmentReads(name: string, values: seq<string>, nc: bool, paths: seq<seq<string>>)
    requires '=' !in name && values != []
    ensures Readings(Assignments(name, values), 0, nc, paths)
         == [Assign(name, values[0])] + Readings(Assignments(name, values[1..]), 0, nc, paths)
  {
    AssignmentReads(name, values[0]);
    var argv, rest := Assignments(name, values), Assignments(name, values[1..]);
    assert argv[1..] == rest;
    ReadingsSame(argv, 1, rest, 0, nc, paths);
  }

  /** The readings of values that are all given to the flag. */
  function Given(name: string, values: seq<string>): seq<Reading> {
    if values == [] then [] else [Assign(name, values[0])] + Given(name, values[1..])
  }

  lemma {:induction false} AssignmentsRead(name: string, values: seq<string>, nc: bool, paths: seq<seq<string>>)
    requires '=' !in name
    ensures Readings(Assignments(name, values), 0, nc, paths) == Given(name, values)
  {
    if values != [] {
      FirstAssignmentReads(name, values, nc, paths);
      AssignmentsRead(name, values[1..], nc, paths);
    }
  }

  lemma {:induction false} SuppliedByGiven(name: string, values: seq<string>, sofar: seq<string>)
    ensures Supplied(Given(name, values), name, sofar) == sofar + values
  {
    if values == [] {
      assert sofar + values == sofar;
    } else {
      SuppliedNext(name, values[0], Given(name, values[1..]), sofar);
      SuppliedByGiven(name, values[1..], sofar + [values[0]]);
      assert sofar + [values[0]] + values[1..] == sofar + values;
    }
  }

  ghost predicate Plain(values: seq<string>) {
    forall i :: 0 <= i < |values| ==> values[i] != "" && SEPARATOR !in values[i]
  }

  /** With `=` any list of non-empty NUL-free values is read back as it was passed, even values that look
      like flags or name a command. */
  lemma RepeatedValuesRoundTrip(words: seq<string>, name: string, values: seq<string>, paths: seq<seq<string>>)
    requires name in REPEATABLE_STRING_FLAGS && Plain(values)
    requires forall k :: 0 <= k < |words| ==> !IsFlag(words[k])
    ensures GetRepeatedStringFlag(ParseLine(words + Assignments(name, values), paths).flags, name) == values
  {
    RepeatableTakesValue(name);
    RepeatedFlagReadsBack(words + Assignments(name, values), paths, name);
    AssignmentsRead(name, values, words == [], paths);
    SuppliedByGiven(name, values, []);
    assert [] + values == values;
    SuppliedAfterWords(words, Assignments(name, values), paths, name);
    PlainParts(values);
  }

  // ----- the spaced form

  lemma {:induction false} PairsSkip(name: string, values: seq<string>)
    requires '=' !in name && name !in BOOLEAN_FLAGS
    ensures SkipFlags(Pairs(name, values), 0) == |Pairs(name, values)|
  {
    if values != [] {
      FlagReads(name);
      StepsOverValue("--" + name);
      var argv, rest := Pairs(name, values), Pairs(name, values[1..]);
      assert argv[2..] == rest;
      SkipSame(argv, 2, rest, 0);
      PairsSkip(name, values[1..]);
    }
  }

  /** In a line of pairs the first flag is released exactly if its value is a command of one word. */
  lemma PairReleasedIff(name: string, values: seq<string>, paths: seq<seq<string>>)
    requires '=' !in name && name !in BOOLEAN_FLAGS && values != [] && !IsFlag(values[0])
    ensures Releases(Pairs(name, values), 0, paths) <==> [values[0]] in paths && [] !in paths
  {
    var argv, rest := Pairs(name, values), Pairs(name, values[1..]);
    assert argv[2..] == rest && argv[1] == values[0];
    SkipSame(argv, 2, rest, 0);
    PairsSkip(name, values[1..]);
    assert SkipFlags(argv, 2) == |argv| && SkipFlags(argv, 1) == 1;
    forall k | 0 <= k < |paths|
      ensures PathStartsAt(argv, 2, paths[k]) <==> paths[k] == []
      ensures PathStartsAt(argv, 1, paths[k]) <==> paths[k] == [] || paths[k] == [values[0]]
    {
      var path := paths[k];
      if path != [] {
        assert path == [path[0]] + path[1..];
        assert PathStartsAt(argv, 2, path[1..]) <==> path[1..] == [];
      }
    }
  }

  ghost predicate NamesCommand(values: seq<string>, paths: seq<seq<string>>) {
    [] !in paths && exists i :: 0 <= i < |values| && [values[i]] in paths
  }

  lemma FirstPairReads(name: string, values: seq<string>, nc: bool, paths: seq<seq<string>>)
    requires '=' !in name && name !in BOOLEAN_FLAGS && values != [] && !IsFlag(values[0])
    ensures var argv, rest := Pairs(name, values), Pairs(name, values[1..]);
            Readings(argv, 0, nc, paths)
            == if nc && Releases(argv, 0, paths)
               then [Bare(name)] + ([Word(values[0])] + Readings(rest, 0, false, paths))
               else [Assign(name, values[0])] + Readings(rest, 0, nc, paths)
  {
    FlagReads(name);
    var argv, rest := Pairs(name, values), Pairs(name, values[1..]);
    assert argv[2..] == rest && argv[0] == "--" + name && argv[1] == values[0];
    ReadingsSame(argv, 2, rest, 0, false, paths);
    ReadingsSame(argv, 2, rest, 0, nc, paths);
  }

  /** The readings of the pairs: the first value that is a command of one word is taken for the command. */
  function PairReadings(name: string, values: seq<string>, nc: bool, paths: seq<seq<string>>): seq<Reading> {
    if values == [] then []
    else if nc && [values[0]] in paths && [] !in paths then
      [Bare(name)] + ([Word(values[0])] + PairReadings(name, values[1..], false, paths))
    else [Assign(name, values[0])] + PairReadings(name, values[1..], nc, paths)
  }

  lemma {:induction false} PairsRead(name: string, values: seq<string>, nc: bool, paths: seq<seq<string>>)
    requires '=' !in name && name !in BOOLEAN_FLAGS && forall i :: 0 <= i < |values| ==> !IsFlag(values[i])
    ensures Readings(Pairs(name, values), 0, nc, paths) == PairReadings(name, values, nc, paths)
  {
    if values != [] {
      PairReleasedIff(name, values, paths);
      FirstPairReads(name, values, nc, paths);
      PairsRead(name, values[1..], false, paths);
      PairsRead(name, values[1..], nc, paths);
    }
  }

  lemma {:induction false} SuppliedByPairs(name: string, values: seq<string>, nc: bool, paths: seq<seq<string>>,
                                           sofar: seq<string>)
    ensures var read := Supplied(PairReadings(name, values, nc, paths), name, sofar);
            if nc && NamesCommand(values, paths) then exists k :: 0 < k <= |values| && read == values[k..]
            else read == sofar + values
  {
    if values == [] {
      assert sofar + values == sofar;
    } else {
      var rest, value := values[1..], values[0];
      if nc && [value] in paths && [] !in paths {
        SuppliedAfterRelease(name, value, PairReadings(name, rest, false, paths), sofar);
        SuppliedByPairs(name, rest, false, paths, []);
        assert [] + rest == rest;
      } else {
        SuppliedNext(name, value, PairReadings(name, rest, nc, paths), sofar);
        SuppliedByPairs(name, rest, nc, paths, sofar + [value]);
        assert sofar + [value] + rest == sofar + values;
        NamesCommandLater(values, paths);
        if nc && NamesCommand(values, paths) {
          var read := Supplied(PairReadings(name, rest, nc, paths), name, sofar + [value]);
          var k :| 0 < k <= |rest| && read == rest[k..];
          assert read == values[k + 1..];
        }
      }
    }
  }

  lemma SuppliedAfterRelease(name: string, word: string, rs: seq<Reading>, sofar: seq<string>)
    ensures Supplied([Bare(name)] + ([Word(word)] + rs), name, sofar) == Supplied(rs, name, [])
  {
    assert ([Bare(name)] + ([Word(word)] + rs))[1..] == [Word(word)] + rs && ([Word(word)] + rs)[1..] == rs;
  }

  lemma NamesCommandLater(values: seq<string>, paths: seq<seq<string>>)
    requires values != []
    ensures NamesCommand(values, paths) <==> NamesCommand(values[1..], paths) || ([] !in paths && [values[0]] in paths)
  {
    forall i | 0 < i < |values| ensures values[i] == values[1..][i - 1] {}
  }

  lemma RepeatableTakesValue(name: string)
    requires name in REPEATABLE_STRING_FLAGS
    ensures '=' !in name && name !in BOOLEAN_FLAGS
  {}

  lemma SuppliedOnLine(words: seq<string>, name: string, values: seq<string>, paths: seq<seq<string>>)
    requires name in REPEATABLE_STRING_FLAGS && forall i :: 0 <= i < |values| ==> !IsFlag(values[i])
    requires forall k :: 0 <= k < |words| ==> !IsFlag(words[k])
    ensures var read := Supplied(ReadLine(words + Pairs(name, values), paths), name, []);
            if words == [] && NamesCommand(values, paths) then exists k :: 0 < k <= |values| && read == values[k..]
            else read == values
  {
    RepeatableTakesValue(name);
    PairsRead(name, values, words == [], paths);
    SuppliedByPairs(name, values, words == [], paths, []);
    assert [] + values == values;
    SuppliedAfterWords(words, Pairs(name, values), paths, name);
  }

  /** Passed as separate tokens such values are read back if and only if a command word comes first or
      none of them is a command by itself; otherwise the look-ahead takes the first of those for the
      command. */
  lemma PairsRoundTripIff(words: seq<string>, name: string, values: seq<string>, paths: seq<seq<string>>)
    requires name in REPEATABLE_STRING_FLAGS && Plain(values) && forall i :: 0 <= i < |values| ==> !IsFlag(values[i])
    requires forall k :: 0 <= k < |words| ==> !IsFlag(words[k])
    ensures GetRepeatedStringFlag(ParseLine(words + Pairs(name, values), paths).flags, name) == values
       <==> words != [] || !NamesCommand(values, paths)
  {
    var argv := words + Pairs(name, values);
    RepeatedFlagReadsBack(argv, paths, name);
    SuppliedOnLine(words, name, values, paths);
    var read := Supplied(ReadLine(argv, paths), name, []);
    if words == [] && NamesCommand(values, paths) {
      var k :| 0 < k <= |values| && read == values[k..];
      assert |read| < |values|;
    }
    PlainParts(read);
  }
}
