/** What is suggested for a mistyped command, in terms of the registered paths and edit distances alone. */
module SuggestionTerms {
  import opened CommandSpecs
  import opened EditDistance
  import opened CommandSuggestion
  import opened FlagSpellings
  import opened RepeatedFlags

  /** The last word typed is at most one edit from the last word of a destructive path. */
  ghost predicate NearDestructiveVerb(specs: seq<CommandSpec>, typed: seq<string>) {
    exists i, path :: 0 <= i < |specs| && specs[i].destructive && path in SpecPaths(specs[i])
      && Distance(if typed == [] then "" else typed[|typed| - 1], if path == [] then "" else path[|path| - 1]) <= 1
  }

  /** Some path may be shown as this label: one with as many words as were typed as a whole, and a longer one by
      its first word when one word was typed. */
  ghost predicate IsLabel(path: seq<string>, typed: seq<string>, name: string) {
    || (|path| == |typed| && name == Join(path))
    || (|path| > 1 && |typed| == 1 && name == path[0])
  }

  /** A command that is not destructive has the label, or a destructive verb was nearly typed. */
  ghost predicate MayShow(specs: seq<CommandSpec>, typed: seq<string>, name: string) {
    exists i, path :: 0 <= i < |specs| && path in SpecPaths(specs[i]) && IsLabel(path, typed, name)
      && (!specs[i].destructive || NearDestructiveVerb(specs, typed))
  }

  ghost predicate RanksBefore(typed: string, a: string, b: string, collate: Collation) {
    Distance(typed, a) < Distance(typed, b) || (Distance(typed, a) == Distance(typed, b) && collate(a, b))
  }

  /** At most three labels, each one to three edits away, in order of distance and then of collation; and another
      such label is missing only if three others rank no worse. */
  ghost predicate AreBest(shown: seq<string>, specs: seq<CommandSpec>, typed: seq<string>, collate: Collation) {
    && |shown| <= 3
    && (forall i :: 0 <= i < |shown| ==> MayShow(specs, typed, shown[i]) && 1 <= Distance(Join(typed), shown[i]) <= 3)
    && (forall i, j :: 0 <= i < j < |shown| ==>
          shown[i] != shown[j] && RanksBefore(Join(typed), shown[i], shown[j], collate))
    && (forall name :: MayShow(specs, typed, name) && 1 <= Distance(Join(typed), name) <= 3 && name !in shown ==>
          |shown| == 3 && forall i :: 0 <= i < 3 ==> RanksBefore(Join(typed), shown[i], name, collate))
  }

  lemma OffersIff(path: seq<string>, typed: seq<string>, name: string)
    ensures Offers(path, typed, name) <==> IsLabel(path, typed, name)
  {
    if |typed| == 1 && |path| > 1 {
      assert path[..1] == [path[0]];
    }
  }

  lemma IntendedIff(specs: seq<CommandSpec>, typed: seq<string>)
    ensures Intended(specs, typed) <==> NearDestructiveVerb(specs, typed)
  {
    if Intended(specs, typed) {
      var verb :| IsDestructiveVerb(specs, verb) && Distance(FinalToken(typed), verb) <= DESTRUCTIVE_INTENT_THRESHOLD;
      var i :| 0 <= i < |specs| && specs[i].destructive && IsVerbOf(SpecPaths(specs[i]), verb);
      var j :| 0 <= j < |SpecPaths(specs[i])| && FinalToken(SpecPaths(specs[i])[j]) == verb;
      assert SpecPaths(specs[i])[j] in SpecPaths(specs[i]);
    }
    if NearDestructiveVerb(specs, typed) {
      var i, path :| 0 <= i < |specs| && specs[i].destructive && path in SpecPaths(specs[i])
        && Distance(if typed == [] then "" else typed[|typed| - 1], if path == [] then "" else path[|path| - 1]) <= 1;
      var j :| 0 <= j < |SpecPaths(specs[i])| && SpecPaths(specs[i])[j] == path;
      assert IsVerbOf(SpecPaths(specs[i]), FinalToken(path));
      assert IsDestructiveVerb(specs, FinalToken(path));
    }
  }

  lemma OnOfferIff(specs: seq<CommandSpec>, typed: seq<string>, name: string)
    ensures name in OnOffer(specs, typed) <==> MayShow(specs, typed, name)
  {
    IntendedIff(specs, typed);
    if name in OnOffer(specs, typed) {
      var i :| 0 <= i < |specs| && (specs[i].destructive ==> Intended(specs, typed))
               && OfferedBy(SpecPaths(specs[i]), typed, name);
      var j :| 0 <= j < |SpecPaths(specs[i])| && Offers(SpecPaths(specs[i])[j], typed, name);
      OffersIff(SpecPaths(specs[i])[j], typed, name);
      assert SpecPaths(specs[i])[j] in SpecPaths(specs[i]);
    }
    if MayShow(specs, typed, name) {
      var i, path :| 0 <= i < |specs| && path in SpecPaths(specs[i]) && IsLabel(path, typed, name)
        && (!specs[i].destructive || NearDestructiveVerb(specs, typed));
      var j :| 0 <= j < |SpecPaths(specs[i])| && SpecPaths(specs[i])[j] == path;
      OffersIff(path, typed, name);
      assert OfferedBy(SpecPaths(specs[i]), typed, name);
    }
  }

  /** What `SuggestCommands` promises comes to this. */
  lemma SuggestionsAreBest(shown: seq<string>, specs: seq<CommandSpec>, typed: seq<string>, collate: Collation)
    requires BestOf(shown, OnOffer(specs, typed), Join(typed), collate)
    ensures AreBest(shown, specs, typed, collate)
  {
    forall name ensures name in OnOffer(specs, typed) <==> MayShow(specs, typed, name) {
      OnOfferIff(specs, typed, name);
    }
    forall name | MayShow(specs, typed, name) && 1 <= Distance(Join(typed), name) <= 3 && name !in shown
      ensures |shown| == 3 && forall i :: 0 <= i < 3 ==> RanksBefore(Join(typed), shown[i], name, collate)
    {
      assert Near(CommandSuggestion.Entry(Join(typed), name));
      forall i | 0 <= i < |shown| ensures RanksBefore(Join(typed), shown[i], name, collate) {
        assert Leq(collate, CommandSuggestion.Entry(Join(typed), shown[i]), CommandSuggestion.Entry(Join(typed), name));
      }
    }
  }

  /** A label is its words with one blank between them. */
  lemma {:induction false} JoinSplits(path: seq<string>)
    requires path != [] && forall i :: 0 <= i < |path| ==> ' ' !in path[i]
    ensures Split(Join(path), ' ') == path
  {
    if |path| == 1 {
      IndexOfMissing(path[0], ' ');
    } else {
      JoinSplits(path[1..]);
      assert path[0] + " " + Join(path[1..]) == path[0] + [' '] + Join(path[1..]);
      SplitFirst(Join(path), path[0], Join(path[1..]), ' ');
    }
  }
}
