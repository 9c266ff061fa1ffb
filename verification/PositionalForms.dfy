/** When a value may be passed by position or by flag: exactly when no other path in the table competes
    with the path of the command. */
module PositionalForms {
  import opened Options
  import opened CommandSpecs
  import opened CliArgs
  import opened CommandNormalization

  /** The paths in front of the first occurrence of this one. */
  function PathsBefore(paths: seq<seq<string>>, path: seq<string>): seq<seq<string>> {
    if paths == [] || paths[0] == path then [] else [paths[0]] + PathsBefore(paths[1..], path)
  }

  /** The paths of command j that normalization tries before this path of command `index`. */
  function TriedBefore(specs: seq<CommandSpec>, j: nat, index: nat, path: seq<string>): seq<seq<string>>
    requires j <= index < |specs|
  {
    if PassedOver(specs[j]) then []
    else if j < index then SpecPaths(specs[j])
    else PathsBefore(SpecPaths(specs[index]), path)
  }

  /** A path of command j that is tried before this one and takes it as itself and positionals, or continues it
      within the number of positionals that command `index` has. */
  ghost predicate Contests(specs: seq<CommandSpec>, j: nat, base: seq<string>, index: nat, path: seq<string>)
    requires index < |specs|
  {
    && j <= index && base in TriedBefore(specs, j, index, path)
    && (Fits(base, |specs[j].positionalArgs|, path) || Fits(path, |specs[index].positionalArgs|, base))
  }

  ghost predicate Uncontested(specs: seq<CommandSpec>, index: nat, path: seq<string>)
    requires index < |specs|
  {
    forall j: nat, base :: !Contests(specs, j, base, index, path)
  }

  // ----- which path takes the words

  lemma {:induction false} FittingBaseIff(paths: seq<seq<string>>, positionals: nat, words: seq<string>,
                                          path: seq<string>)
    requires path in paths
    ensures FittingBase(paths, positionals, words) == Some(path)
       <==> Fits(path, positionals, words)
            && forall base :: base in PathsBefore(paths, path) ==> !Fits(base, positionals, words)
  {
    FittingBaseFits(paths, positionals, words);
    if paths[0] != path {
      FittingBaseIff(paths[1..], positionals, words, path);
      assert paths[0] in PathsBefore(paths, path);
    }
  }

  lemma {:induction false} FittingBaseIsBefore(paths: seq<seq<string>>, positionals: nat, words: seq<string>,
                                               path: seq<string>, base: seq<string>)
    requires base in PathsBefore(paths, path) && Fits(base, positionals, words)
    ensures FittingBase(paths, positionals, words).Some?
            && FittingBase(paths, positionals, words).value in PathsBefore(paths, path)
  {
    if !Fits(paths[0], positionals, words) {
      FittingBaseIsBefore(paths[1..], positionals, words, path, base);
    }
  }

  /** A path that is tried before this one takes the words. */
  ghost predicate TakesBefore(specs: seq<CommandSpec>, j: nat, base: seq<string>, index: nat, path: seq<string>,
                              words: seq<string>)
    requires index < |specs|
  {
    j <= index && base in TriedBefore(specs, j, index, path) && Fits(base, |specs[j].positionalArgs|, words)
  }

  ghost predicate NoneBefore(specs: seq<CommandSpec>, index: nat, path: seq<string>, words: seq<string>)
    requires index < |specs|
  {
    forall j: nat, base :: !TakesBefore(specs, j, base, index, path, words)
  }

  lemma EarlierSpecTakesIff(specs: seq<CommandSpec>, j: nat, index: nat, path: seq<string>, words: seq<string>)
    requires j < index < |specs|
    ensures FitOf(specs[j], words).None? <==> forall base :: !TakesBefore(specs, j, base, index, path, words)
  {
    FittingBaseFits(SpecPaths(specs[j]), |specs[j].positionalArgs|, words);
    if FitOf(specs[j], words).Some? {
      assert TakesBefore(specs, j, FitOf(specs[j], words).value, index, path, words);
    }
  }

  lemma OwnSpecTakesIff(specs: seq<CommandSpec>, index: nat, path: seq<string>, words: seq<string>)
    requires index < |specs| && path in SpecPaths(specs[index]) && !PassedOver(specs[index])
    ensures FitOf(specs[index], words) == Some(path)
       <==> Fits(path, |specs[index].positionalArgs|, words)
            && forall base :: !TakesBefore(specs, index, base, index, path, words)
  {
    FittingBaseIff(SpecPaths(specs[index]), |specs[index].positionalArgs|, words, path);
    var positionals := |specs[index].positionalArgs|;
    assert forall base :: base in PathsBefore(SpecPaths(specs[index]), path) ==>
             (TakesBefore(specs, index, base, index, path, words) <==> Fits(base, positionals, words));
  }

  lemma FirstFitIff(specs: seq<CommandSpec>, index: nat, path: seq<string>, words: seq<string>)
    requires index < |specs| && path in SpecPaths(specs[index]) && !PassedOver(specs[index])
    ensures FirstFit(specs, 0, words) == Some(Fit(index, path))
       <==> Fits(path, |specs[index].positionalArgs|, words) && NoneBefore(specs, index, path, words)
  {
    forall j: nat | j < index
      ensures FitOf(specs[j], words).None? <==> forall base :: !TakesBefore(specs, j, base, index, path, words)
    {
      EarlierSpecTakesIff(specs, j, index, path, words);
    }
    OwnSpecTakesIff(specs, index, path, words);
  }

  /** What takes the path with some values also takes it bare, or continues it. */
  lemma FitsSplit(base: seq<string>, positionals: nat, path: seq<string>, values: seq<string>, own: nat)
    requires Fits(base, positionals, path + values) && |values| <= own
    ensures Fits(base, positionals, path) || Fits(path, own, base)
  {
    var words := path + values;
    if |base| <= |path| {
      assert words[..|base|] == path[..|base|];
    } else {
      assert words[..|base|][..|path|] == path;
    }
  }

  lemma TakesIsContest(specs: seq<CommandSpec>, j: nat, base: seq<string>, index: nat, path: seq<string>,
                       values: seq<string>)
    requires index < |specs| && |values| <= |specs[index].positionalArgs|
    ensures TakesBefore(specs, j, base, index, path, path + values) ==> Contests(specs, j, base, index, path)
  {
    if TakesBefore(specs, j, base, index, path, path + values) {
      FitsSplit(base, |specs[j].positionalArgs|, path, values, |specs[index].positionalArgs|);
    }
  }

  lemma UncontestedTakes(specs: seq<CommandSpec>, index: nat, path: seq<string>, values: seq<string>)
    requires index < |specs| && path in SpecPaths(specs[index]) && !PassedOver(specs[index])
    requires Uncontested(specs, index, path) && |values| <= |specs[index].positionalArgs|
    ensures FirstFit(specs, 0, path + values) == Some(Fit(index, path))
  {
    assert (path + values)[..|path|] == path;
    forall j: nat, base ensures !TakesBefore(specs, j, base, index, path, path + values) {
      TakesIsContest(specs, j, base, index, path, values);
    }
    FirstFitIff(specs, index, path, path + values);
  }

  lemma ContestedIsTaken(specs: seq<CommandSpec>, j: nat, base: seq<string>, index: nat, path: seq<string>)
      returns (values: seq<string>)
    requires index < |specs| && path in SpecPaths(specs[index]) && !PassedOver(specs[index])
    requires Contests(specs, j, base, index, path)
    ensures |values| <= |specs[index].positionalArgs| && FirstFit(specs, 0, path + values) != Some(Fit(index, path))
  {
    if Fits(base, |specs[j].positionalArgs|, path) {
      values := [];
      assert path + values == path;
    } else {
      values := base[|path|..];
      assert path + values == base && base[..|base|] == base;
    }
    FirstFitIff(specs, index, path, path + values);
    assert TakesBefore(specs, j, base, index, path, path + values);
  }

  /** A path leads to its command with whatever values, at most one for each positional, if and only if no
      other path contests it. */
  lemma TakenAsMeantIff(specs: seq<CommandSpec>, index: nat, path: seq<string>)
    requires index < |specs| && path in SpecPaths(specs[index]) && !PassedOver(specs[index])
    ensures (forall values: seq<string> :: |values| <= |specs[index].positionalArgs| ==>
               FirstFit(specs, 0, path + values) == Some(Fit(index, path)))
       <==> Uncontested(specs, index, path)
  {
    if Uncontested(specs, index, path) {
      forall values: seq<string> | |values| <= |specs[index].positionalArgs|
        ensures FirstFit(specs, 0, path + values) == Some(Fit(index, path))
      {
        UncontestedTakes(specs, index, path, values);
      }
    } else {
      var j: nat, base :| Contests(specs, j, base, index, path);
      var values := ContestedIsTaken(specs, j, base, index, path);
    }
  }

  // ----- both forms

  /** Passing the values by position and passing them by flag normalize to the same. */
  ghost predicate SameEitherWay(specs: seq<CommandSpec>, path: seq<string>, values: seq<string>,
                                flags: map<string, FlagValue>, given: map<string, FlagValue>) {
    Normalize(specs, ParsedArgs(path + values, flags)) == Normalize(specs, ParsedArgs(path, flags + given))
  }

  ghost predicate NoneSet(flags: map<string, FlagValue>, names: seq<string>, count: nat)
    requires count <= |names|
  {
    forall i :: 0 <= i < count ==> names[i] !in flags
  }

  /** The path leads to its command, and does so in both forms with all values. */
  ghost predicate FormsAgree(specs: seq<CommandSpec>, index: nat, path: seq<string>)
    requires index < |specs|
  {
    var names := specs[index].positionalArgs;
    && FirstFit(specs, 0, path) == Some(Fit(index, path))
    && forall values, flags, given :: Spells(given, names, values) && NoneSet(flags, names, |values|) ==>
         SameEitherWay(specs, path, values, flags, given)
  }

  lemma {:induction false} BindSize(flags: map<string, FlagValue>, names: seq<string>, values: seq<string>)
    requires |values| <= |names|
    ensures |Bind(flags, names, values)| <= |flags| + |values|
    ensures Distinct(names) && NoneSet(flags, names, |values|) ==> |Bind(flags, names, values)| == |flags| + |values|
    decreases |values|
  {
    if values != [] {
      var next := if names[0] in flags then flags else flags[names[0] := Text(values[0])];
      assert names[0] !in flags ==> next.Keys == flags.Keys + {names[0]} && |next| == |flags| + 1;
      BindSize(next, names[1..], values[1..]);
    }
  }

  lemma BindSpells(names: seq<string>, values: seq<string>)
    requires |values| <= |names| && Distinct(names)
    ensures Spells(Bind(map[], names, values), names, values)
  {
    BindIsExact(map[], names, values);
    forall name | name in names[..|values|] ensures name in Bind(map[], names, values) {
      var i :| 0 <= i < |values| && names[..|values|][i] == name;
      assert names[i] == name;
    }
  }

  lemma {:induction false} PathsBeforeAre(paths: seq<seq<string>>, path: seq<string>)
    ensures forall base :: base in PathsBefore(paths, path) ==> base in paths
  {
    if paths != [] {
      PathsBeforeAre(paths[1..], path);
    }
  }

  /** What takes these words comes no later than a path before this one that takes them. */
  lemma TakenBefore(specs: seq<CommandSpec>, index: nat, path: seq<string>, j: nat, base: seq<string>,
                    words: seq<string>)
    requires index < |specs| && path in SpecPaths(specs[index]) && !PassedOver(specs[index])
    requires TakesBefore(specs, j, base, index, path, words)
    ensures var fit := FirstFit(specs, 0, words);
            fit.Some? && TakesBefore(specs, fit.value.index, fit.value.base, index, path, words)
  {
    var positionals := |specs[j].positionalArgs|;
    FittingBaseFits(SpecPaths(specs[j]), positionals, words);
    if j == index {
      FittingBaseIsBefore(SpecPaths(specs[j]), positionals, words, path, base);
      PathsBeforeAre(SpecPaths(specs[index]), path);
    }
    assert FitOf(specs[j], words).Some?;
    var fit := FirstFit(specs, 0, words).value;
    FittingBaseFits(SpecPaths(specs[fit.index]), |specs[fit.index].positionalArgs|, words);
  }

  lemma ShorterFits(base: seq<string>, positionals: nat, path: seq<string>, words: seq<string>)
    requires Fits(base, positionals, words) && path <= words
    ensures |base| <= |path| ==> Fits(base, positionals, path)
  {
    if |base| <= |path| {
      assert words[..|base|] == path[..|base|];
    }
  }

  /** A path that continues this one takes the words away from it: by a longer path. */
  lemma ContinuationTakes(specs: seq<CommandSpec>, index: nat, path: seq<string>, j: nat, base: seq<string>)
    requires index < |specs| && path in SpecPaths(specs[index]) && !PassedOver(specs[index])
    requires FirstFit(specs, 0, path) == Some(Fit(index, path))
    requires TakesBefore(specs, j, base, index, path, base) && path <= base
    ensures var fit := FirstFit(specs, 0, base); fit.Some? && |path| < |fit.value.base| <= |base|
  {
    TakenBefore(specs, index, path, j, base, base);
    var fit := FirstFit(specs, 0, base).value;
    FirstFitIff(specs, index, path, path);
    assert !TakesBefore(specs, fit.index, fit.base, index, path, path);
    ShorterFits(fit.base, |specs[fit.index].positionalArgs|, path, base);
  }

  lemma NormalizedFlags(specs: seq<CommandSpec>, words: seq<string>, flags: map<string, FlagValue>)
    requires FirstFit(specs, 0, words).Some?
    ensures var fit := FirstFit(specs, 0, words).value;
            && |fit.base| <= |words|
            && |Normalize(specs, ParsedArgs(words, flags)).flags| <= |flags| + |words| - |fit.base|
            && (fit.base == words ==> Normalize(specs, ParsedArgs(words, flags)).flags == flags)
  {
    var fit := FirstFit(specs, 0, words).value;
    var names := specs[fit.index].positionalArgs;
    FittingBaseFits(SpecPaths(specs[fit.index]), |names|, words);
    BindSize(flags, names, words[|fit.base|..]);
  }

  lemma ContinuationDiffers(specs: seq<CommandSpec>, index: nat, path: seq<string>, j: nat, base: seq<string>)
    requires index < |specs| && path in SpecPaths(specs[index]) && !PassedOver(specs[index])
    requires Distinct(specs[index].positionalArgs) && FirstFit(specs, 0, path) == Some(Fit(index, path))
    requires TakesBefore(specs, j, base, index, path, base) && Fits(path, |specs[index].positionalArgs|, base)
    ensures var values := base[|path|..];
            !SameEitherWay(specs, path, values, map[], Bind(map[], specs[index].positionalArgs, values))
  {
    var names, values := specs[index].positionalArgs, base[|path|..];
    var given := Bind(map[], names, values);
    ContinuationTakes(specs, index, path, j, base);
    assert path + values == base && map[] + given == given;
    BindSize(map[], names, values);
    NormalizedFlags(specs, base, map[]);
    NormalizedFlags(specs, path, given);
  }

  /** The path leads to its command and its values may be passed by position or by flag, if and only if no
      other path contests it. */
  lemma FormsAgreeIff(specs: seq<CommandSpec>, index: nat, path: seq<string>)
    requires index < |specs| && path in SpecPaths(specs[index]) && !PassedOver(specs[index])
    requires Distinct(specs[index].positionalArgs)
    ensures FormsAgree(specs, index, path) <==> Uncontested(specs, index, path)
  {
    var names := specs[index].positionalArgs;
    if Uncontested(specs, index, path) {
      UncontestedTakes(specs, index, path, []);
      assert path + [] == path;
      forall values, flags, given | Spells(given, names, values) && NoneSet(flags, names, |values|)
        ensures SameEitherWay(specs, path, values, flags, given)
      {
        UncontestedTakes(specs, index, path, values);
        PositionalsAreFlags(specs, Fit(index, path), values, flags, given);
      }
    } else if FirstFit(specs, 0, path) == Some(Fit(index, path)) {
      FirstFitIff(specs, index, path, path);
      var j: nat, base :| Contests(specs, j, base, index, path);
      assert !TakesBefore(specs, j, base, index, path, path);
      assert base[..|base|] == base;
      var values := base[|path|..];
      ContinuationDiffers(specs, index, path, j, base);
      BindSpells(names, values);
      assert NoneSet(map[], names, |values|);
    }
  }

  /** An uncontested path or alias of a command that has positionals or aliases becomes the path of the command,
      and the values behind it go to its positionals. */
  lemma PathBecomesCanonical(specs: seq<CommandSpec>, index: nat, path: seq<string>, values: seq<string>,
                             flags: map<string, FlagValue>)
    requires index < |specs| && path in SpecPaths(specs[index]) && Uncontested(specs, index, path)
    requires specs[index].positionalArgs != [] || specs[index].aliases.Some?
    requires |values| <= |specs[index].positionalArgs| && Distinct(specs[index].positionalArgs)
    ensures var n, names := Normalize(specs, ParsedArgs(path + values, flags)), specs[index].positionalArgs;
            && n.commandPath == specs[index].path
            && (forall name :: name in flags ==> name in n.flags && n.flags[name] == flags[name])
            && (forall i :: 0 <= i < |values| && names[i] !in flags ==>
                  names[i] in n.flags && n.flags[names[i]] == Text(values[i]))
            && (forall name :: name in n.flags ==> name in flags || name in names[..|values|])
  {
    UncontestedTakes(specs, index, path, values);
    FittingBaseFits(SpecPaths(specs[index]), |specs[index].positionalArgs|, path + values);
    assert (path + values)[|path|..] == values;
    BindIsExact(flags, specs[index].positionalArgs, values);
  }
}
