/** Resolving parsed words to a command: aliases become canonical paths and trailing words become the
    flags they stand for. */
module CommandNormalization {
  import opened Options
  import opened CommandSpecs
  import opened CliArgs

  /** `conflicts` are the positionals that were also given as flags; None if no command took the words. */
  datatype Normalized = Normalized(commandPath: seq<string>, flags: map<string, FlagValue>,
                                   conflicts: Option<seq<string>>)

  datatype Fit = Fit(index: nat, base: seq<string>)

  predicate Fits(base: seq<string>, positionals: nat, words: seq<string>) {
    |base| <= |words| <= |base| + positionals && words[..|base|] == base
  }

  function FittingBase(paths: seq<seq<string>>, positionals: nat, words: seq<string>): Option<seq<string>> {
    if paths == [] then None
    else if Fits(paths[0], positionals, words) then Some(paths[0])
    else FittingBase(paths[1..], positionals, words)
  }

  /** A command without positionals and aliases is passed over: nothing would change. */
  predicate PassedOver(spec: CommandSpec) {
    spec.positionalArgs == [] && spec.aliases.None?
  }

  function FitOf(spec: CommandSpec, words: seq<string>): Option<seq<string>> {
    if PassedOver(spec) then None
    else FittingBase(SpecPaths(spec), |spec.positionalArgs|, words)
  }

  /** The first command, from `from` on, that takes the words, and by which of its paths. */
  function FirstFit(specs: seq<CommandSpec>, from: nat, words: seq<string>): (fit: Option<Fit>)
    ensures fit.Some? ==> from <= fit.value.index < |specs|
                          && FitOf(specs[fit.value.index], words) == Some(fit.value.base)
    ensures forall j :: from <= j < (if fit.Some? then fit.value.index else |specs|) ==> FitOf(specs[j], words).None?
    decreases |specs| - from
  {
    if from >= |specs| then None
    else if FitOf(specs[from], words).Some? then Some(Fit(from, FitOf(specs[from], words).value))
    else FirstFit(specs, from + 1, words)
  }

  /** Each value goes to the flag of its positional, unless that flag is set already. */
  function Bind(flags: map<string, FlagValue>, names: seq<string>, values: seq<string>): map<string, FlagValue>
    requires |values| <= |names|
    decreases |values|
  {
    if values == [] then flags
    else Bind(if names[0] in flags then flags else flags[names[0] := Text(values[0])], names[1..], values[1..])
  }

  function Conflicts(flags: map<string, FlagValue>, names: seq<string>): seq<string> {
    if names == [] then []
    else (if names[0] in flags then [names[0]] else []) + Conflicts(flags, names[1..])
  }

  lemma {:induction false} FittingBaseFits(paths: seq<seq<string>>, positionals: nat, words: seq<string>)
    ensures var base := FittingBase(paths, positionals, words);
            if base.Some? then base.value in paths && Fits(base.value, positionals, words)
            else forall path :: path in paths ==> !Fits(path, positionals, words)
  {
    if paths != [] && !Fits(paths[0], positionals, words) {
      FittingBaseFits(paths[1..], positionals, words);
    }
  }

  function Normalize(specs: seq<CommandSpec>, parsed: ParsedArgs): Normalized {
    var words := parsed.commandPath;
    var fit := FirstFit(specs, 0, words);
    if fit.None? then Normalized(words, parsed.flags, None)
    else
      var spec := specs[fit.value.index];
      FittingBaseFits(SpecPaths(spec), |spec.positionalArgs|, words);
      var values := words[|fit.value.base|..];
      Normalized(spec.path, Bind(parsed.flags, spec.positionalArgs, values),
                 Some(Conflicts(parsed.flags, spec.positionalArgs[..|values|])))
  }

  method NormalizeCommandPositionals(specs: seq<CommandSpec>, parsed: ParsedArgs) returns (result: Normalized)
    ensures result == Normalize(specs, parsed)
  {
    var words := parsed.commandPath;
    for i := 0 to |specs|
      invariant FirstFit(specs, 0, words) == FirstFit(specs, i, words)
    {
      var spec := specs[i];
      var positionalArgs := spec.positionalArgs;
      if PassedOver(spec) {
        continue;
      }
      var paths := SpecPaths(spec);
      for j := 0 to |paths|
        invariant FittingBase(paths, |positionalArgs|, words) == FittingBase(paths[j..], |positionalArgs|, words)
      {
        var base := paths[j];
        assert paths[j..][0] == base && paths[j..][1..] == paths[j + 1..];
        if Fits(base, |positionalArgs|, words) {
          var values := words[|base|..];
          var conflicts := Conflicts(parsed.flags, positionalArgs[..|values|]);
          var flags := parsed.flags;
          for k := 0 to |values|
            invariant Bind(parsed.flags, positionalArgs, values) == Bind(flags, positionalArgs[k..], values[k..])
          {
            var name := positionalArgs[k];
            assert positionalArgs[k..][1..] == positionalArgs[k + 1..] && values[k..][1..] == values[k + 1..];
            if name !in flags {
              flags := flags[name := Text(values[k])];
            }
          }
          return Normalized(spec.path, flags, Some(conflicts));
        }
      }
    }
    result := Normalized(words, parsed.flags, None);
  }

  // ----- positionals that are also given as flags

  /** `at` are, in order, the positions of the names that are flags already. */
  ghost predicate PicksGiven(at: seq<nat>, flags: map<string, FlagValue>, names: seq<string>) {
    && (forall i :: 0 <= i < |at| ==> at[i] < |names|)
    && (forall i, j :: 0 <= i < j < |at| ==> at[i] < at[j])
    && (forall k :: 0 <= k < |names| ==> (k in at <==> names[k] in flags))
  }

  lemma {:induction false} ConflictsArePicked(flags: map<string, FlagValue>, names: seq<string>) returns (at: seq<nat>)
    ensures PicksGiven(at, flags, names) && |at| == |Conflicts(flags, names)|
    ensures forall i :: 0 <= i < |at| ==> Conflicts(flags, names)[i] == names[at[i]]
    decreases |names|
  {
    at := [];
    if names != [] {
      var n := |names| - 1;
      at := ConflictsArePicked(flags, names[..n]);
      ConflictsOfLast(flags, names[..n], names[n]);
      assert names == names[..n] + [names[n]];
      if names[n] in flags {
        at := at + [n];
      }
    }
  }

  lemma {:induction false} ConflictsOfLast(flags: map<string, FlagValue>, names: seq<string>, last: string)
    ensures Conflicts(flags, names + [last]) == Conflicts(flags, names) + if last in flags then [last] else []
  {
    if names == [] {
      assert [] + [last] == [last] && [last][1..] == [];
    } else {
      assert (names + [last])[1..] == names[1..] + [last];
      ConflictsOfLast(flags, names[1..], last);
    }
  }

  lemma {:induction false} ConflictsAre(flags: map<string, FlagValue>, names: seq<string>)
    ensures forall name :: name in Conflicts(flags, names) <==> name in names && name in flags
  {
    if names != [] {
      ConflictsAre(flags, names[1..]);
    }
  }

  /** The positionals of the command that the words hold a value for. */
  function Given(specs: seq<CommandSpec>, fit: Fit, words: seq<string>): seq<string>
    requires fit.index < |specs| && |fit.base| <= |words| <= |fit.base| + |specs[fit.index].positionalArgs|
  {
    specs[fit.index].positionalArgs[..|words| - |fit.base|]
  }

  lemma WordsFit(specs: seq<CommandSpec>, parsed: ParsedArgs)
    requires FirstFit(specs, 0, parsed.commandPath).Some?
    ensures var fit := FirstFit(specs, 0, parsed.commandPath).value;
            && |fit.base| <= |parsed.commandPath| <= |fit.base| + |specs[fit.index].positionalArgs|
            && Normalize(specs, parsed).conflicts == Some(Conflicts(parsed.flags, Given(specs, fit, parsed.commandPath)))
  {
    var fit := FirstFit(specs, 0, parsed.commandPath).value;
    FittingBaseFits(SpecPaths(specs[fit.index]), |specs[fit.index].positionalArgs|, parsed.commandPath);
  }

  /** When a command takes the words, what is reported are its positionals, of those that the words hold a value
      for, that are given as flags too: in the order of the positionals. */
  lemma ReportedInOrder(specs: seq<CommandSpec>, parsed: ParsedArgs) returns (at: seq<nat>)
    requires FirstFit(specs, 0, parsed.commandPath).Some?
    ensures var fit, reported := FirstFit(specs, 0, parsed.commandPath).value, Normalize(specs, parsed).conflicts;
            && |fit.base| <= |parsed.commandPath| <= |fit.base| + |specs[fit.index].positionalArgs|
            && PicksGiven(at, parsed.flags, Given(specs, fit, parsed.commandPath))
            && reported.Some? && |reported.value| == |at|
            && forall i :: 0 <= i < |at| ==> reported.value[i] == Given(specs, fit, parsed.commandPath)[at[i]]
  {
    WordsFit(specs, parsed);
    var fit := FirstFit(specs, 0, parsed.commandPath).value;
    at := ConflictsArePicked(parsed.flags, Given(specs, fit, parsed.commandPath));
  }

  /** So a name is reported if and only if it is given twice, and none is if and only if none is; without a
      command nothing is said. */
  lemma ReportedIff(specs: seq<CommandSpec>, parsed: ParsedArgs, name: string)
    ensures var fit, reported := FirstFit(specs, 0, parsed.commandPath), Normalize(specs, parsed).conflicts;
            && (reported.Some? <==> fit.Some?)
            && (fit.Some? ==>
                  && |fit.value.base| <= |parsed.commandPath|
                  && |parsed.commandPath| <= |fit.value.base| + |specs[fit.value.index].positionalArgs|
                  && var given := Given(specs, fit.value, parsed.commandPath);
                     && (name in reported.value <==> name in given && name in parsed.flags)
                     && (reported.value == [] <==> forall k :: 0 <= k < |given| ==> given[k] !in parsed.flags))
  {
    var fit := FirstFit(specs, 0, parsed.commandPath);
    if fit.Some? {
      WordsFit(specs, parsed);
      var given := Given(specs, fit.value, parsed.commandPath);
      ConflictsAre(parsed.flags, given);
      if Conflicts(parsed.flags, given) != [] {
        assert Conflicts(parsed.flags, given)[0] in Conflicts(parsed.flags, given);
      }
    }
  }

  // ----- positionals are flags

  ghost predicate Distinct(names: seq<string>) {
    forall i, j :: 0 <= i < j < |names| ==> names[i] != names[j]
  }

  /** Flags given already stay; every other positional gets its value; nothing else is added. */
  lemma {:induction false} BindIsExact(flags: map<string, FlagValue>, names: seq<string>, values: seq<string>)
    requires |values| <= |names| && Distinct(names)
    ensures var bound := Bind(flags, names, values);
            && (forall name :: name in flags ==> name in bound && bound[name] == flags[name])
            && (forall i :: 0 <= i < |values| && names[i] !in flags ==>
                  names[i] in bound && bound[names[i]] == Text(values[i]))
            && (forall name :: name in bound ==> name in flags || name in names[..|values|])
    decreases |values|
  {
    if values != [] {
      var next := if names[0] in flags then flags else flags[names[0] := Text(values[0])];
      BindIsExact(next, names[1..], values[1..]);
      forall i | 0 < i < |values| && names[i] !in flags
        ensures names[i] in Bind(flags, names, values) && Bind(flags, names, values)[names[i]] == Text(values[i])
      {
        assert names[1..][i - 1] == names[i] && values[1..][i - 1] == values[i] && names[i] !in next;
      }
      forall name | name in Bind(flags, names, values) ensures name in flags || name in names[..|values|] {
        if name in names[1..][..|values[1..]|] {
          var i :| 0 <= i < |values| - 1 && names[1..][i] == name;
          assert names[..|values|][i + 1] == name;
        }
      }
    }
  }

  /** `given` holds each value under the flag of its positional, and nothing else. */
  ghost predicate Spells(given: map<string, FlagValue>, names: seq<string>, values: seq<string>) {
    && |values| <= |names|
    && (forall name :: name in given <==> name in names[..|values|])
    && (forall i :: 0 <= i < |values| ==> names[i] in given && given[names[i]] == Text(values[i]))
  }

  lemma BindAddsTheFlags(flags: map<string, FlagValue>, names: seq<string>, values: seq<string>,
                         given: map<string, FlagValue>)
    requires Distinct(names) && Spells(given, names, values)
    requires forall i :: 0 <= i < |values| ==> names[i] !in flags
    ensures Bind(flags, names, values) == flags + given
  {
    var bound := Bind(flags, names, values);
    BindIsExact(flags, names, values);
    forall name | name in given ensures name !in flags && name in bound && bound[name] == given[name] {
      var i :| 0 <= i < |values| && names[..|values|][i] == name;
      assert names[i] == name;
    }
    assert bound.Keys == (flags + given).Keys;
    assert bound == flags + given;
  }

  lemma {:induction false} NoConflicts(flags: map<string, FlagValue>, names: seq<string>)
    requires forall i :: 0 <= i < |names| ==> names[i] !in flags
    ensures Conflicts(flags, names) == []
  {
    if names != [] {
      NoConflicts(flags, names[1..]);
    }
  }

  /** Passing values by position or by flag comes to the same, whenever the command that takes the
      positional form is also the one that takes the bare path. */
  lemma PositionalsAreFlags(specs: seq<CommandSpec>, fit: Fit, values: seq<string>, flags: map<string, FlagValue>,
                            given: map<string, FlagValue>)
    requires FirstFit(specs, 0, fit.base + values) == FirstFit(specs, 0, fit.base) == Some(fit)
    requires Distinct(specs[fit.index].positionalArgs) && Spells(given, specs[fit.index].positionalArgs, values)
    requires forall i :: 0 <= i < |values| ==> specs[fit.index].positionalArgs[i] !in flags
    ensures Normalize(specs, ParsedArgs(fit.base + values, flags))
         == Normalize(specs, ParsedArgs(fit.base, flags + given))
  {
    var names := specs[fit.index].positionalArgs;
    assert (fit.base + values)[|fit.base|..] == values && fit.base[|fit.base|..] == [];
    BindAddsTheFlags(flags, names, values, given);
    NoConflicts(flags, names[..|values|]);
  }

  // ----- aliases

  /** The first command one of whose paths is exactly the words. */
  function FindCommandSpec(specs: seq<CommandSpec>, from: nat, words: seq<string>): Option<nat>
    decreases |specs| - from
  {
    if from >= |specs| then None
    else if words in SpecPaths(specs[from]) then Some(from)
    else FindCommandSpec(specs, from + 1, words)
  }

  /** No two commands share a path. */
  ghost predicate Unambiguous(specs: seq<CommandSpec>) {
    forall i, j, path :: 0 <= i < j < |specs| && path in SpecPaths(specs[i]) ==> path !in SpecPaths(specs[j])
  }

  lemma {:induction false} FindsItsOwner(specs: seq<CommandSpec>, from: nat, index: nat, path: seq<string>)
    requires Unambiguous(specs) && from <= index < |specs| && path in SpecPaths(specs[index])
    ensures FindCommandSpec(specs, from, path) == Some(index)
    decreases index - from
  {
    if from < index {
      FindsItsOwner(specs, from + 1, index, path);
    }
  }

  /** The command would take the path as a shorter path of its own, followed by positionals. */
  ghost predicate Takes(spec: CommandSpec, path: seq<string>) {
    exists base :: base in SpecPaths(spec) && |base| < |path| && Fits(base, |spec.positionalArgs|, path)
  }

  /** What a table of commands has to meet for this path of this command: no earlier command takes it
      with positionals, and no later one if the command itself is passed over. */
  ghost predicate Reserved(specs: seq<CommandSpec>, index: nat, path: seq<string>)
    requires index < |specs|
  {
    forall j :: 0 <= j < |specs| && (j < index || (j > index && PassedOver(specs[index]))) ==> !Takes(specs[j], path)
  }

  lemma FitsIff(specs: seq<CommandSpec>, index: nat, path: seq<string>, j: nat)
    requires Unambiguous(specs) && index < |specs| && path in SpecPaths(specs[index]) && j < |specs|
    ensures FitOf(specs[j], path).Some? <==> if j == index then !PassedOver(specs[index]) else Takes(specs[j], path)
  {
    FittingBaseFits(SpecPaths(specs[j]), |specs[j].positionalArgs|, path);
    assert path[..|path|] == path;
    if j == index {
      assert Fits(path, |specs[j].positionalArgs|, path);
    } else {
      assert path !in SpecPaths(specs[j]);
    }
  }

  lemma FirstFitIsOwnerIff(specs: seq<CommandSpec>, index: nat, path: seq<string>)
    requires Unambiguous(specs) && index < |specs| && path in SpecPaths(specs[index])
    ensures (FirstFit(specs, 0, path).None? || FirstFit(specs, 0, path).value.index == index)
       <==> Reserved(specs, index, path)
  {
    var fit := FirstFit(specs, 0, path);
    FitsIff(specs, index, path, index);
    if Reserved(specs, index, path) {
      if fit.Some? {
        FitsIff(specs, index, path, fit.value.index);
      }
    } else {
      var j :| 0 <= j < |specs| && (j < index || (j > index && PassedOver(specs[index]))) && Takes(specs[j], path);
      FitsIff(specs, index, path, j);
    }
  }

  lemma NormalizedPath(specs: seq<CommandSpec>, path: seq<string>, flags: map<string, FlagValue>)
    ensures var fit := FirstFit(specs, 0, path);
            Normalize(specs, ParsedArgs(path, flags)).commandPath
            == if fit.None? then path else SpecPaths(specs[fit.value.index])[0]
  {}

  /** Normalizing the exact path or an alias of a command leads to that same command if and only if the
      table reserves the path for it. */
  lemma NormalizingKeepsCommandIff(specs: seq<CommandSpec>, index: nat, path: seq<string>, flags: map<string,
                                   FlagValue>)
    requires Unambiguous(specs) && index < |specs| && path in SpecPaths(specs[index])
    ensures FindCommandSpec(specs, 0, Normalize(specs, ParsedArgs(path, flags)).commandPath) == Some(index)
       <==> Reserved(specs, index, path)
  {
    FirstFitIsOwnerIff(specs, index, path);
    NormalizedPath(specs, path, flags);
    var fit := FirstFit(specs, 0, path);
    if fit.Some? {
      FindsItsOwner(specs, 0, fit.value.index, SpecPaths(specs[fit.value.index])[0]);
    } else {
      FindsItsOwner(specs, 0, index, path);
    }
  }

  /** So normalization leads every path and alias of a table to its own command, whatever flags come
      along, if and only if the table reserves every path for its command. */
  lemma TableKeepsCommandsIff(specs: seq<CommandSpec>)
    requires Unambiguous(specs)
    ensures (forall index, path, flags :: 0 <= index < |specs| && path in SpecPaths(specs[index]) ==>
               FindCommandSpec(specs, 0, Normalize(specs, ParsedArgs(path, flags)).commandPath) == Some(index))
       <==> (forall index, path :: 0 <= index < |specs| && path in SpecPaths(specs[index]) ==>
               Reserved(specs, index, path))
  {
    forall index, path, flags | 0 <= index < |specs| && path in SpecPaths(specs[index])
      ensures FindCommandSpec(specs, 0, Normalize(specs, ParsedArgs(path, flags)).commandPath) == Some(index)
         <==> Reserved(specs, index, path)
    {
      NormalizingKeepsCommandIff(specs, index, path, flags);
    }
    forall index, path | 0 <= index < |specs| && path in SpecPaths(specs[index])
      ensures FindCommandSpec(specs, 0, Normalize(specs, ParsedArgs(path, map[])).commandPath) == Some(index)
         <==> Reserved(specs, index, path)
    {
      NormalizingKeepsCommandIff(specs, index, path, map[]);
    }
  }
}
