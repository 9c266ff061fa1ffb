/** Command lines as they are meant: what is written behind the first command word is what the parser reads. */
module CommandLines {
  import opened Options
  import opened CliArgs
  import opened FlagSpellings

  /** A command word; a flag that never takes a value; a flag with its value behind `=`, or as the next token;
      and a flag that could take a value but is followed by none. */
  datatype Item =
    | Plain(word: string)
    | Boolean(name: string)
    | Equals(name: string, value: string)
    | Separate(name: string, value: string)
    | Lone(name: string)

  predicate IsBooleanName(name: string) {
    name in {
      "all", "attachments", "children", "comments", "connect", "current", "dry-run", "enter", "focus",
      "force", "full", "help", "inject", "include-archived", "include-visual-layouts", "interrupt", "json",
      "local", "messages", "me", "mobile", "mobile-pairing", "no-pairing", "parent-current", "provision",
      "ready", "recipe-json", "relations", "reinstall", "restore-window", "return-preamble", "run-hooks",
      "show-profile", "staged", "tab", "tasks", "text-stdin", "unread", "value-stdin", "wait"}
  }

  predicate IsItem(item: Item) {
    match item
    case Plain(word) => !("--" <= word)
    case Boolean(name) => IsBooleanName(name)
    case Equals(name, _) => '=' !in name
    case Separate(name, value) => '=' !in name && !IsBooleanName(name) && !("--" <= value)
    case Lone(name) => '=' !in name && !IsBooleanName(name)
  }

  /** A lone flag is not followed by a word, which it would take for its value. */
  ghost predicate AreItems(items: seq<Item>) {
    && (forall i :: 0 <= i < |items| ==> IsItem(items[i]))
    && (forall i :: 0 <= i < |items| - 1 && items[i].Lone? ==> !items[i + 1].Plain?)
  }

  function Tokens(item: Item): seq<string> {
    match item
    case Plain(word) => [word]
    case Boolean(name) => ["--" + name]
    case Equals(name, value) => ["--" + name + "=" + value]
    case Separate(name, value) => ["--" + name, value]
    case Lone(name) => ["--" + name]
  }

  function Line(items: seq<Item>): seq<string> {
    if items == [] then [] else Tokens(items[0]) + Line(items[1..])
  }

  function ReadingOf(item: Item): Reading {
    match item
    case Plain(word) => Word(word)
    case Boolean(name) => Bare(name)
    case Equals(name, value) => Assign(name, value)
    case Separate(name, value) => Assign(name, value)
    case Lone(name) => Bare(name)
  }

  function ReadingsOf(items: seq<Item>): seq<Reading> {
    if items == [] then [] else [ReadingOf(items[0])] + ReadingsOf(items[1..])
  }

  lemma BooleanHasNoEquals(name: string)
    requires IsBooleanName(name)
    ensures '=' !in name
  {}

  lemma NextTokenIsFlag(item: Item, rest: seq<string>)
    requires IsItem(item) && !item.Plain?
    ensures IsFlag((Tokens(item) + rest)[0])
  {}

  lemma FlagIsRead(name: string, rest: seq<string>, paths: seq<seq<string>>)
    requires '=' !in name && (IsBooleanName(name) || rest == [] || IsFlag(rest[0]))
    ensures Read(["--" + name] + rest, 0, false, paths) == Bare(name)
    ensures Taken("--" + name, Bare(name)) == 1
  {
    FlagReads(name);
  }

  lemma PairIsRead(name: string, value: string, rest: seq<string>, paths: seq<seq<string>>)
    requires '=' !in name && !IsBooleanName(name) && !IsFlag(value)
    ensures Read(["--" + name, value] + rest, 0, false, paths) == Assign(name, value)
    ensures Taken("--" + name, Assign(name, value)) == 2
  {
    FlagReads(name);
  }

  lemma AssignmentIsRead(name: string, value: string, rest: seq<string>, paths: seq<seq<string>>)
    requires '=' !in name
    ensures Read([Assignment(name, value)] + rest, 0, false, paths) == Assign(name, value)
    ensures Taken(Assignment(name, value), Assign(name, value)) == 1
  {
    AssignmentReads(name, value);
  }

  lemma WordIsItself(word: string, rest: seq<string>, nc: bool, paths: seq<seq<string>>)
    requires !IsFlag(word)
    ensures Read([word] + rest, 0, nc, paths) == Word(word) && Taken(word, Word(word)) == 1
  {}

  lemma FirstItemIsRead(items: seq<Item>, nc: bool, paths: seq<seq<string>>)
    requires AreItems(items) && items != [] && (nc ==> items[0].Plain?)
    ensures Read(Line(items), 0, nc, paths) == ReadingOf(items[0])
    ensures Taken(Line(items)[0], ReadingOf(items[0])) == |Tokens(items[0])|
  {
    var rest := Line(items[1..]);
    match items[0]
    case Plain(word) => WordIsItself(word, rest, nc, paths);
    case Boolean(name) =>
      BooleanHasNoEquals(name);
      FlagIsRead(name, rest, paths);
    case Equals(name, value) => AssignmentIsRead(name, value, rest, paths);
    case Separate(name, value) => PairIsRead(name, value, rest, paths);
    case Lone(name) =>
      if |items| > 1 {
        NextTokenIsFlag(items[1], Line(items[1..][1..]));
      }
      FlagIsRead(name, rest, paths);
  }

  lemma {:induction false} ItemsAreRead(items: seq<Item>, paths: seq<seq<string>>)
    requires AreItems(items)
    ensures Readings(Line(items), 0, false, paths) == ReadingsOf(items)
  {
    if items != [] {
      FirstItemIsRead(items, false, paths);
      ItemsAreRead(items[1..], paths);
      RestIsRead(items, false, paths);
    }
  }

  lemma RestIsRead(items: seq<Item>, nc: bool, paths: seq<seq<string>>)
    requires AreItems(items) && items != [] && (nc ==> items[0].Plain?)
    ensures Readings(Line(items), 0, nc, paths) == [ReadingOf(items[0])] + Readings(Line(items[1..]), 0, false, paths)
  {
    var argv, first := Line(items), Tokens(items[0]);
    FirstItemIsRead(items, nc, paths);
    ReadsFirst(argv, 0, nc, paths, ReadingOf(items[0]));
    assert argv[|first|..] == Line(items[1..]);
    ReadingsSame(argv, |first|, Line(items[1..]), 0, false, paths);
  }

  /** A line that begins with a command word is read as it is written, whatever the command paths. */
  lemma LineIsReadAsWritten(items: seq<Item>, paths: seq<seq<string>>)
    requires AreItems(items) && items != [] && items[0].Plain?
    ensures ReadLine(Line(items), paths) == ReadingsOf(items)
  {
    RestIsRead(items, true, paths);
    ItemsAreRead(items[1..], paths);
  }

  // ----- what the parse then holds

  function WordsIn(items: seq<Item>): seq<string> {
    if items == [] then []
    else WordsIn(items[..|items| - 1]) + if items[|items| - 1].Plain? then [items[|items| - 1].word] else []
  }

  /** What has been given to a flag: the last of its values, or all of them since it was last given bare, with a
      NUL between them, for the two flags that may be repeated. */
  function GivenTo(items: seq<Item>, name: string): Option<FlagValue> {
    if items == [] then None
    else
      var before, last := GivenTo(items[..|items| - 1], name), items[|items| - 1];
      if last.Plain? || last.name != name then before
      else if last.Boolean? || last.Lone? then Some(Present)
      else if name in {"label", "skill"} && before.Some? && before.value.Text? then
        Some(Text(before.value.value + "\0" + last.value))
      else Some(Text(last.value))
  }

  lemma {:induction false} ReadingsOfLast(items: seq<Item>, last: Item)
    ensures ReadingsOf(items + [last]) == ReadingsOf(items) + [ReadingOf(last)]
  {
    if items == [] {
      assert [] + [last] == [last] && [last][1..] == [];
    } else {
      assert (items + [last])[1..] == items[1..] + [last];
      ReadingsOfLast(items[1..], last);
    }
  }

  lemma ReplayLast(rs: seq<Reading>, r: Reading, acc: ParsedArgs)
    ensures Replay(rs + [r], acc) == Record(Replay(rs, acc), r)
  {
    ReplayAppend(rs, [r], acc);
    ReplayCons(r, [], Replay(rs, acc));
    assert [r] + [] == [r];
  }

  ghost predicate Holds(parsed: ParsedArgs, items: seq<Item>) {
    && parsed.commandPath == WordsIn(items)
    && forall name :: GivenTo(items, name) == if name in parsed.flags then Some(parsed.flags[name]) else None
  }

  lemma HoldsNext(parsed: ParsedArgs, items: seq<Item>, last: Item)
    requires Holds(parsed, items)
    ensures Holds(Record(parsed, ReadingOf(last)), items + [last])
  {
    var all := items + [last];
    assert all[..|all| - 1] == items && all[|all| - 1] == last;
  }

  lemma {:induction false} ReplayHolds(items: seq<Item>)
    ensures Holds(Replay(ReadingsOf(items), NOTHING), items)
    decreases |items|
  {
    if items != [] {
      var before, last := items[..|items| - 1], items[|items| - 1];
      assert items == before + [last];
      ReplayHolds(before);
      ReadingsOfLast(before, last);
      ReplayLast(ReadingsOf(before), ReadingOf(last), NOTHING);
      HoldsNext(Replay(ReadingsOf(before), NOTHING), before, last);
    }
  }

  /** So the parse of a line that begins with a command word has its words, in order, as the command path, and
      holds of every flag what the line gives to it. */
  lemma LineIsParsedAsWritten(items: seq<Item>, paths: seq<seq<string>>)
    requires AreItems(items) && items != [] && items[0].Plain?
    ensures Holds(ParseLine(Line(items), paths), items)
  {
    LineIsReadAsWritten(items, paths);
    ParseReplays(Line(items), 0, paths, NOTHING);
    ReplayHolds(items);
  }
}
