/** Recovery from a mistyped command: which commands are offered, in which order, and that a benign
    typo is never steered into a destructive command. */
module CommandSuggestion {
  import opened CommandSpecs
  import opened EditDistance

  datatype Scored = Scored(name: string, distance: nat)

  const SUGGESTION_THRESHOLD := 3
  const MAX_SUGGESTIONS := 3
  const DESTRUCTIVE_INTENT_THRESHOLD := 1

  function FinalToken(path: seq<string>): string {
    if path == [] then "" else path[|path| - 1]
  }

  function Join(path: seq<string>): string {
    if path == [] then ""
    else if |path| == 1 then path[0]
    else path[0] + " " + Join(path[1..])
  }

  // ----- ranking; `collate` stands for localeCompare(x, y) <= 0

  type Collation = (string, string) -> bool

  ghost predicate TotalPreorder(collate: Collation) {
    && (forall x, y :: collate(x, y) || collate(y, x))
    && (forall x, y, z :: collate(x, y) && collate(y, z) ==> collate(x, z))
  }

  predicate Leq(collate: Collation, x: Scored, y: Scored) {
    x.distance < y.distance || (x.distance == y.distance && collate(x.name, y.name))
  }

  predicate Near(x: Scored) {
    0 < x.distance <= SUGGESTION_THRESHOLD
  }

  function KeepNear(scored: seq<Scored>): seq<Scored> {
    if scored == [] then []
    else if Near(scored[0]) then [scored[0]] + KeepNear(scored[1..])
    else KeepNear(scored[1..])
  }

  function InsertRanked(collate: Collation, x: Scored, ranked: seq<Scored>): seq<Scored> {
    if ranked == [] || Leq(collate, x, ranked[0]) then [x] + ranked
    else [ranked[0]] + InsertRanked(collate, x, ranked[1..])
  }

  /** The stable sort. */
  function Rank(collate: Collation, scored: seq<Scored>): seq<Scored> {
    if scored == [] then [] else InsertRanked(collate, scored[0], Rank(collate, scored[1..]))
  }

  function FirstFew(ranked: seq<Scored>): seq<Scored> {
    if |ranked| <= MAX_SUGGESTIONS then ranked else ranked[..MAX_SUGGESTIONS]
  }

  function Labels(entries: seq<Scored>): (labels: seq<string>)
    ensures |labels| == |entries|
    ensures forall i :: 0 <= i < |entries| ==> labels[i] == entries[i].name
  {
    seq(|entries|, i requires 0 <= i < |entries| => entries[i].name)
  }

  function RankByDistance(collate: Collation, scored: seq<Scored>): seq<string> {
    Labels(FirstFew(Rank(collate, KeepNear(scored))))
  }

  ghost predicate Ranked(collate: Collation, entries: seq<Scored>) {
    forall i, j :: 0 <= i < j < |entries| ==> Leq(collate, entries[i], entries[j])
  }

  lemma {:induction false} KeepNearIsFilter(scored: seq<Scored>)
    ensures forall x :: x in KeepNear(scored) <==> x in scored && Near(x)
    ensures forall x :: multiset(KeepNear(scored))[x] == if Near(x) then multiset(scored)[x] else 0
  {
    if scored != [] {
      KeepNearIsFilter(scored[1..]);
      assert scored == [scored[0]] + scored[1..];
    }
  }

  lemma LeqTransitive(collate: Collation, x: Scored, y: Scored, z: Scored)
    requires TotalPreorder(collate) && Leq(collate, x, y) && Leq(collate, y, z)
    ensures Leq(collate, x, z)
  {}

  lemma PrependRanked(collate: Collation, x: Scored, ranked: seq<Scored>)
    requires Ranked(collate, ranked) && forall y :: y in ranked ==> Leq(collate, x, y)
    ensures Ranked(collate, [x] + ranked)
  {}

  lemma {:induction false} InsertRankedKeeps(collate: Collation, x: Scored, ranked: seq<Scored>)
    requires TotalPreorder(collate) && Ranked(collate, ranked)
    ensures Ranked(collate, InsertRanked(collate, x, ranked))
    ensures multiset(InsertRanked(collate, x, ranked)) == multiset{x} + multiset(ranked)
  {
    if ranked == [] {
    } else if Leq(collate, x, ranked[0]) {
      forall y | y in ranked ensures Leq(collate, x, y) {
        if y != ranked[0] {
          LeqTransitive(collate, x, ranked[0], y);
        }
      }
      PrependRanked(collate, x, ranked);
    } else {
      var rest := InsertRanked(collate, x, ranked[1..]);
      InsertRankedKeeps(collate, x, ranked[1..]);
      assert ranked == [ranked[0]] + ranked[1..];
      forall y | y in rest ensures Leq(collate, ranked[0], y) {
        assert y in multiset(rest);
        assert y == x || y in ranked[1..];
      }
      PrependRanked(collate, ranked[0], rest);
    }
  }

  lemma {:induction false} RankSorts(collate: Collation, scored: seq<Scored>)
    requires TotalPreorder(collate)
    ensures Ranked(collate, Rank(collate, scored))
    ensures multiset(Rank(collate, scored)) == multiset(scored)
  {
    if scored != [] {
      RankSorts(collate, scored[1..]);
      InsertRankedKeeps(collate, scored[0], Rank(collate, scored[1..]));
      assert scored == [scored[0]] + scored[1..];
    }
  }

  // ----- what may be offered

  /** The part of a registered path that is compared with the input. */
  function Candidate(path: seq<string>, commandPath: seq<string>): seq<string> {
    if |commandPath| == 1 && |path| > 1 then path[..1] else path
  }

  ghost predicate IsVerbOf(paths: seq<seq<string>>, verb: string) {
    exists j :: 0 <= j < |paths| && FinalToken(paths[j]) == verb
  }

  ghost predicate IsDestructiveVerb(specs: seq<CommandSpec>, verb: string) {
    exists i :: 0 <= i < |specs| && specs[i].destructive && IsVerbOf(SpecPaths(specs[i]), verb)
  }

  /** The last word is a near miss of some destructive verb. */
  ghost predicate Intended(specs: seq<CommandSpec>, commandPath: seq<string>) {
    exists verb :: IsDestructiveVerb(specs, verb)
                   && Distance(FinalToken(commandPath), verb) <= DESTRUCTIVE_INTENT_THRESHOLD
  }

  predicate Offers(path: seq<string>, commandPath: seq<string>, name: string) {
    && |Candidate(path, commandPath)| == |commandPath|
    && Join(Candidate(path, commandPath)) == name
  }

  ghost predicate OfferedBy(paths: seq<seq<string>>, commandPath: seq<string>, name: string) {
    exists j :: 0 <= j < |paths| && Offers(paths[j], commandPath, name)
  }

  /** Some command of the depth of the input has this label, a destructive one only if the input
      asks for destruction. */
  ghost predicate Offered(specs: seq<CommandSpec>, commandPath: seq<string>, name: string, intended: bool) {
    exists i :: 0 <= i < |specs| && (specs[i].destructive ==> intended)
                && OfferedBy(SpecPaths(specs[i]), commandPath, name)
  }

  ghost function OnOffer(specs: seq<CommandSpec>, commandPath: seq<string>): iset<string> {
    iset name | Offered(specs, commandPath, name, Intended(specs, commandPath))
  }

  function Entry(input: string, name: string): Scored {
    Scored(name, Distance(input, name))
  }

  /** Every label seen occurs once, with its distance from the input. */
  ghost predicate Scores(scored: seq<Scored>, input: string, seen: set<string>) {
    && (forall x :: x in scored <==> x.name in seen && x == Entry(input, x.name))
    && (forall i, j :: 0 <= i < j < |scored| ==> scored[i].name != scored[j].name)
  }

  lemma {:induction false} Once(xs: seq<Scored>, x: Scored)
    requires forall i, j :: 0 <= i < j < |xs| ==> xs[i].name != xs[j].name
    ensures multiset(xs)[x] <= 1
  {
    if xs != [] {
      assert xs == [xs[0]] + xs[1..];
      Once(xs[1..], x);
    }
  }

  lemma TwiceIn<T>(ys: seq<T>, i: nat, j: nat)
    requires i < j < |ys| && ys[i] == ys[j]
    ensures multiset(ys)[ys[i]] >= 2
  {
    assert ys == ys[..j] + [ys[j]] + ys[j + 1..];
    assert ys[i] == ys[..j][i] && ys[i] in ys[..j];
  }

  lemma DistinctBecauseOnce(xs: seq<Scored>, ys: seq<Scored>, input: string, seen: set<string>)
    requires Scores(xs, input, seen) && multiset(ys) <= multiset(xs)
    ensures forall i, j :: 0 <= i < j < |ys| ==> ys[i].name != ys[j].name
  {
    forall i, j | 0 <= i < j < |ys| ensures ys[i].name != ys[j].name {
      assert ys[i] in multiset(ys) && ys[j] in multiset(ys);
      assert ys[i] in xs && ys[j] in xs;
      if ys[i].name == ys[j].name {
        TwiceIn(ys, i, j);
        Once(xs, ys[i]);
      }
    }
  }

  /** The at most three best of the near labels on offer, in rank order and without repetition; a near
      label is left out only because three others rank no worse. */
  ghost predicate BestOf(kept: seq<string>, onOffer: iset<string>, input: string, collate: Collation) {
    && |kept| <= MAX_SUGGESTIONS
    && (forall i :: 0 <= i < |kept| ==> kept[i] in onOffer && Near(Entry(input, kept[i])))
    && (forall i, j :: 0 <= i < j < |kept| ==>
          kept[i] != kept[j] && Leq(collate, Entry(input, kept[i]), Entry(input, kept[j])))
    && (forall name :: name in onOffer && Near(Entry(input, name)) && name !in kept ==>
          |kept| == MAX_SUGGESTIONS
          && forall i :: 0 <= i < |kept| ==> Leq(collate, Entry(input, kept[i]), Entry(input, name)))
  }

  /** The near labels, sorted. */
  ghost predicate Listing(ranked: seq<Scored>, seen: set<string>, input: string, collate: Collation) {
    && Ranked(collate, ranked)
    && (forall i, j :: 0 <= i < j < |ranked| ==> ranked[i].name != ranked[j].name)
    && (forall x :: x in ranked <==> x.name in seen && x == Entry(input, x.name) && Near(x))
  }

  lemma RankLists(collate: Collation, scored: seq<Scored>, input: string, seen: set<string>)
    requires TotalPreorder(collate) && Scores(scored, input, seen)
    ensures Listing(Rank(collate, KeepNear(scored)), seen, input, collate)
  {
    var near := KeepNear(scored);
    var ranked := Rank(collate, near);
    KeepNearIsFilter(scored);
    RankSorts(collate, near);
    DistinctBecauseOnce(scored, ranked, input, seen);
    forall x ensures x in ranked <==> x in near {
      assert x in ranked <==> x in multiset(ranked);
      assert x in near <==> x in multiset(near);
    }
  }

  lemma FirstFewAreBest(collate: Collation, ranked: seq<Scored>, input: string, seen: set<string>)
    requires Listing(ranked, seen, input, collate)
    ensures BestOf(Labels(FirstFew(ranked)), (iset name | name in seen), input, collate)
  {
    var few := FirstFew(ranked);
    var kept := Labels(few);
    forall i | 0 <= i < |few|
      ensures ranked[i] == few[i] == Entry(input, kept[i])
      ensures ranked[i].name in kept
    {
      assert ranked[i] in ranked && kept[i] in kept;
    }
    forall name | name in seen && Near(Entry(input, name)) && name !in kept
      ensures |kept| == MAX_SUGGESTIONS
      ensures forall i :: 0 <= i < |kept| ==> Leq(collate, Entry(input, kept[i]), Entry(input, name))
    {
      assert Entry(input, name) in ranked;
      var k :| 0 <= k < |ranked| && ranked[k] == Entry(input, name);
    }
  }

  lemma RankingIsBest(collate: Collation, scored: seq<Scored>, input: string, seen: set<string>)
    requires TotalPreorder(collate) && Scores(scored, input, seen)
    ensures BestOf(RankByDistance(collate, scored), (iset name | name in seen), input, collate)
  {
    RankLists(collate, scored, input, seen);
    FirstFewAreBest(collate, Rank(collate, KeepNear(scored)), input, seen);
  }

  // ----- the loops

  lemma VerbsStep(paths: seq<seq<string>>, j: nat)
    requires j < |paths|
    ensures forall verb :: IsVerbOf(paths[..j + 1], verb) <==> IsVerbOf(paths[..j], verb) || FinalToken(paths[j]) == verb
  {
    forall verb ensures IsVerbOf(paths[..j + 1], verb) <==> IsVerbOf(paths[..j], verb) || FinalToken(paths[j]) == verb {
      if IsVerbOf(paths[..j], verb) {
        var k :| 0 <= k < j && FinalToken(paths[..j][k]) == verb;
        assert paths[..j + 1][k] == paths[..j][k];
      }
      assert paths[..j + 1][j] == paths[j];
    }
  }

  method DestructiveVerbs(specs: seq<CommandSpec>) returns (verbs: set<string>)
    ensures forall verb :: verb in verbs <==> IsDestructiveVerb(specs, verb)
  {
    verbs := {};
    for i := 0 to |specs|
      invariant forall verb :: verb in verbs <==>
        exists k :: 0 <= k < i && specs[k].destructive && IsVerbOf(SpecPaths(specs[k]), verb)
    {
      if specs[i].destructive {
        var paths := SpecPaths(specs[i]);
        ghost var before := verbs;
        for j := 0 to |paths|
          invariant forall verb :: verb in verbs <==> verb in before || IsVerbOf(paths[..j], verb)
        {
          verbs := verbs + {FinalToken(paths[j])};
          VerbsStep(paths, j);
        }
        assert paths[..|paths|] == paths;
      }
    }
  }

  method IntendsDestruction(inputToken: string, verbs: set<string>) returns (intends: bool)
    ensures intends <==>
              exists verb :: verb in verbs && Distance(inputToken, verb) <= DESTRUCTIVE_INTENT_THRESHOLD
  {
    var rest := verbs;
    while rest != {}
      invariant rest <= verbs
      invariant forall verb :: verb in verbs - rest ==> Distance(inputToken, verb) > DESTRUCTIVE_INTENT_THRESHOLD
      decreases rest
    {
      var verb :| verb in rest;
      var distance := Levenshtein(inputToken, verb);
      if distance <= DESTRUCTIVE_INTENT_THRESHOLD {
        return true;
      }
      rest := rest - {verb};
    }
    return false;
  }

  lemma OffersStep(paths: seq<seq<string>>, j: nat, commandPath: seq<string>)
    requires j < |paths|
    ensures forall name :: OfferedBy(paths[..j + 1], commandPath, name)
                           <==> OfferedBy(paths[..j], commandPath, name) || Offers(paths[j], commandPath, name)
  {
    forall name ensures OfferedBy(paths[..j + 1], commandPath, name)
                        <==> OfferedBy(paths[..j], commandPath, name) || Offers(paths[j], commandPath, name) {
      if OfferedBy(paths[..j], commandPath, name) {
        var k :| 0 <= k < j && Offers(paths[..j][k], commandPath, name);
        assert paths[..j + 1][k] == paths[..j][k];
      }
      assert paths[..j + 1][j] == paths[j];
    }
  }

  /** The inner loop: the labels of one command join those already seen. */
  method ScoreSpec(paths: seq<seq<string>>, commandPath: seq<string>, seen: set<string>, scored: seq<Scored>)
      returns (seen': set<string>, scored': seq<Scored>)
    requires Scores(scored, Join(commandPath), seen)
    ensures Scores(scored', Join(commandPath), seen')
    ensures forall name :: name in seen' <==> name in seen || OfferedBy(paths, commandPath, name)
  {
    var input := Join(commandPath);
    seen', scored' := seen, scored;
    for j := 0 to |paths|
      invariant Scores(scored', input, seen')
      invariant forall name :: name in seen' <==> name in seen || OfferedBy(paths[..j], commandPath, name)
    {
      var candidate := Candidate(paths[j], commandPath);
      OffersStep(paths, j, commandPath);
      if |candidate| == |commandPath| {
        var joined := Join(candidate);
        if joined !in seen' {
          var distance := Levenshtein(input, joined);
          seen', scored' := seen' + {joined}, scored' + [Scored(joined, distance)];
        }
      }
    }
    assert paths[..|paths|] == paths;
  }

  /** The suggestions are the best of the labels on offer, where a label that only destructive
      commands have is on offer only if the last word is a near miss of a destructive verb. */
  method SuggestCommands(specs: seq<CommandSpec>, commandPath: seq<string>, collate: Collation)
      returns (suggestions: seq<string>)
    requires TotalPreorder(collate)
    ensures BestOf(suggestions, OnOffer(specs, commandPath), Join(commandPath), collate)
  {
    var verbs := DestructiveVerbs(specs);
    var allowDestructive := IntendsDestruction(FinalToken(commandPath), verbs);
    assert allowDestructive <==> Intended(specs, commandPath);
    var seen: set<string>, scored: seq<Scored> := {}, [];
    for i := 0 to |specs|
      invariant Scores(scored, Join(commandPath), seen)
      invariant forall name :: name in seen <==>
        exists k :: 0 <= k < i && (specs[k].destructive ==> allowDestructive)
                    && OfferedBy(SpecPaths(specs[k]), commandPath, name)
    {
      if !specs[i].destructive || allowDestructive {
        seen, scored := ScoreSpec(SpecPaths(specs[i]), commandPath, seen, scored);
      }
    }
    RankingIsBest(collate, scored, Join(commandPath), seen);
    assert (iset name | name in seen) == OnOffer(specs, commandPath);
    suggestions := RankByDistance(collate, scored);
  }
}
