/** Which terminal commands count as interactive sessions of an agent: the words a classifier goes by, the
    `env` in front of them, and the options it steps over to find the subcommand. */
module CommandClassification {
  import opened Options
  import opened Sequences
  import opened ShellWords

  // ----- the arguments of env

  datatype EnvArgument = Assignment(token: string) | Unset(flag: string, name: string) | Other(token: string)

  predicate IsUnset(token: string) {
    token == "-u" || token == "--unset"
  }

  predicate IsEnvArgument(a: EnvArgument) {
    match a
    case Assignment(token) => IsShellAssignment(token)
    case Unset(flag, _) => IsUnset(flag)
    case Other(token) => StartsWith(token, "-") && !IsUnset(token)
  }

  ghost predicate AreEnvArguments(args: seq<EnvArgument>) {
    forall i :: 0 <= i < |args| ==> IsEnvArgument(args[i])
  }

  function Tokens(a: EnvArgument): seq<string> {
    if a.Unset? then [a.flag, a.name] else [a.token]
  }

  function Spelled(args: seq<EnvArgument>): seq<string> {
    if args == [] then [] else Tokens(args[0]) + Spelled(args[1..])
  }

  lemma {:induction false} EnvArgumentsAreStripped(args: seq<EnvArgument>, tokens: seq<string>)
    requires AreEnvArguments(args)
    ensures StripEnvArguments(Spelled(args) + tokens) == StripEnvArguments(tokens)
  {
    if args == [] {
      assert Spelled(args) + tokens == tokens;
    } else {
      var first, rest := Tokens(args[0]), Spelled(args[1..]) + tokens;
      assert Spelled(args) + tokens == first + rest;
      assert (first + rest)[|first|..] == rest;
      EnvArgumentsAreStripped(args[1..], tokens);
    }
  }

  /** The tokens at which the arguments of env end. */
  predicate StartsCommand(tokens: seq<string>) {
    tokens == [] || tokens[0] == "" || (!IsShellAssignment(tokens[0]) && !StartsWith(tokens[0], "-"))
  }

  function FirstArgument(tokens: seq<string>): (a: EnvArgument)
    requires !StartsCommand(tokens) && (IsUnset(tokens[0]) ==> |tokens| > 1)
    ensures IsEnvArgument(a) && Tokens(a) <= tokens
    ensures StripEnvArguments(tokens) == StripEnvArguments(tokens[|Tokens(a)|..])
  {
    if IsShellAssignment(tokens[0]) then Assignment(tokens[0])
    else if IsUnset(tokens[0]) then Unset(tokens[0], tokens[1])
    else Other(tokens[0])
  }

  lemma SpelledCons(tokens: seq<string>, first: EnvArgument, args: seq<EnvArgument>, rest: seq<string>)
    requires Tokens(first) <= tokens && tokens[|Tokens(first)|..] == Spelled(args) + rest
    ensures tokens == Spelled([first] + args) + rest
  {
    assert ([first] + args)[1..] == args;
  }

  /** What is stripped is a run of arguments of env, and one more token if that asks for a name that is
      missing; what is left begins with none. */
  lemma {:induction false} StrippedAreEnvArguments(tokens: seq<string>)
      returns (args: seq<EnvArgument>, incomplete: seq<string>)
    ensures AreEnvArguments(args) && StartsCommand(StripEnvArguments(tokens))
    ensures tokens == Spelled(args) + (incomplete + StripEnvArguments(tokens))
    ensures incomplete == [] || (|incomplete| == 1 && IsUnset(incomplete[0]) && StripEnvArguments(tokens) == [])
    decreases |tokens|
  {
    args, incomplete := [], [];
    if !StartsCommand(tokens) {
      if IsUnset(tokens[0]) && |tokens| == 1 {
        incomplete := tokens;
      } else {
        var first := FirstArgument(tokens);
        var rest := tokens[|Tokens(first)|..];
        args, incomplete := StrippedAreEnvArguments(rest);
        SpelledCons(tokens, first, args, incomplete + StripEnvArguments(rest));
        args := [first] + args;
      }
    }
  }

  lemma {:induction false} StrippingShortens(tokens: seq<string>)
    ensures |StripEnvArguments(tokens)| <= |tokens|
    decreases |tokens|
  {
    if !StartsCommand(tokens) {
      StrippingShortens(if IsUnset(tokens[0]) then if |tokens| == 1 then [] else tokens[2..] else tokens[1..]);
    }
  }

  lemma {:induction false} EnvStripsAssignments(tokens: seq<string>)
    ensures StripEnvArguments(StripAssignments(tokens)) == StripEnvArguments(tokens)
  {
    if tokens != [] && IsShellAssignment(tokens[0]) {
      EnvStripsAssignments(tokens[1..]);
    }
  }

  predicate IsEnv(token: string) {
    token != "" && CommandBasename(token) == "env"
  }

  /** Behind its assignments the command begins neither with an option nor with another env, or with what
      looks like both. */
  predicate Transparent(tokens: seq<string>) {
    var rest := StripAssignments(tokens);
    rest == [] || rest[0] == "" || (StartsWith(rest[0], "-") <==> IsEnv(rest[0]))
  }

  lemma EnvIsStripped(env: string, args: seq<EnvArgument>, tokens: seq<string>)
    requires AreEnvArguments(args) && IsEnv(env) && !IsShellAssignment(env)
    ensures StripPrefix([env] + (Spelled(args) + tokens)) == StripEnvArguments(tokens)
  {
    assert ([env] + (Spelled(args) + tokens))[1..] == Spelled(args) + tokens;
    EnvArgumentsAreStripped(args, tokens);
  }

  lemma {:induction false} EndsInV(token: string)
    requires IsEnv(token)
    ensures !IsUnset(token)
  {
    var name := CommandBasename(token);
    assert Lower(token[|token| - 1]) == name[|name| - 1] == 'v';
  }

  lemma RestIsTransparentIff(rest: seq<string>)
    requires rest == [] || !IsShellAssignment(rest[0])
    ensures StripEnvArguments(rest) == StripPrefix(rest)
       <==> rest == [] || rest[0] == "" || (StartsWith(rest[0], "-") <==> IsEnv(rest[0]))
  {
    if rest != [] && rest[0] != "" {
      StrippingShortens(rest[1..]);
      if |rest| > 1 {
        StrippingShortens(rest[2..]);
      }
      if IsEnv(rest[0]) {
        EndsInV(rest[0]);
      }
    }
  }

  /** Launching a command through env, with whatever assignments and options, leaves what it is classified by
      as it is, if and only if the command does not itself begin with an option or another env. */
  lemma EnvIsTransparentIff(assignments: seq<string>, env: string, args: seq<EnvArgument>, tokens: seq<string>)
    requires AreEnvArguments(args) && IsEnv(env) && !IsShellAssignment(env)
    requires forall i :: 0 <= i < |assignments| ==> IsShellAssignment(assignments[i])
    ensures StripPrefix(assignments + [env] + Spelled(args) + tokens) == StripPrefix(tokens) <==> Transparent(tokens)
  {
    var words := [env] + (Spelled(args) + tokens);
    assert assignments + [env] + Spelled(args) + tokens == assignments + words;
    StripSkipsAssignments(assignments, words);
    EnvIsStripped(env, args, tokens);
    EnvStripsAssignments(tokens);
    AssignmentsAreGone(tokens);
    RestIsTransparentIff(StripAssignments(tokens));
    assert StripPrefix(StripAssignments(tokens)) == StripPrefix(tokens);
  }

  lemma {:induction false} AssignmentsAreGone(tokens: seq<string>)
    ensures var rest := StripAssignments(tokens); rest == [] || !IsShellAssignment(rest[0])
  {
    if tokens != [] {
      AssignmentsAreGone(tokens[1..]);
    }
  }

  // ----- the subcommand

  const FLAGS_WITH_VALUES: set<string> := {
    "--config", "-c", "--enable", "--disable", "--remote", "--remote-auth-token-env", "--image", "-i",
    "--model", "-m", "--local-provider", "--profile", "-p", "--sandbox", "-s", "--cd", "-C", "--add-dir",
    "--ask-for-approval", "-a"
  }
  const BOOLEAN_FLAGS: set<string> := {
    "--oss", "--dangerously-bypass-approvals-and-sandbox", "--search", "--no-alt-screen", "--help", "-h",
    "--version", "-V"
  }
  const CHILD_FLAGS_WITH_VALUES: set<string> := {"-c", "--config", "--enable", "--disable"}
  const LOGIN_BOOLEAN_FLAGS: set<string> := {"--with-api-key", "--with-access-token", "--device-auth", "--help", "-h"}
  const CLOUD_BOOLEAN_FLAGS: set<string> := {"--help", "-h", "--version", "-V"}
  const SUBCOMMANDS: set<string> := {
    "exec", "e", "review", "logout", "mcp", "plugin", "mcp-server", "app-server", "remote-control", "app",
    "completion", "update", "doctor", "sandbox", "debug", "execpolicy", "apply", "a", "cloud", "cloud-tasks",
    "responses-api-proxy", "stdio-to-uds", "exec-server", "features", "help", "version"
  }
  const CLOUD_SUBCOMMANDS: set<string> := {"exec", "status", "list", "apply", "diff", "help"}
  const LOGIN_SUBCOMMANDS: set<string> := {"status", "help"}

  /** The part in front of the first `=`. */
  function OptionName(token: string): string {
    if token == "" || token[0] == '=' then "" else [token[0]] + OptionName(token[1..])
  }

  predicate IsHelpFlag(token: string) {
    token == "--help" || token == "-h"
  }

  predicate IsVersionFlag(token: string) {
    token == "--version" || token == "-V"
  }

  /** `after`: the tokens behind the subcommand. */
  datatype Subcommand = Subcommand(value: string, after: seq<string>)

  function FindSubcommand(tokens: seq<string>, valued: set<string>, switches: set<string>): Option<Subcommand>
    decreases |tokens|
  {
    if tokens == [] then None
    else if tokens[0] == "--" then
      if |tokens| > 1 && tokens[1] != "" then Some(Subcommand("<prompt>", tokens[2..])) else None
    else
      var name := OptionName(tokens[0]);
      if IsHelpFlag(name) || IsVersionFlag(name) then
        Some(Subcommand(if IsVersionFlag(name) then "version" else "help", tokens[1..]))
      else if name in valued then
        FindSubcommand(if name != tokens[0] then tokens[1..] else if |tokens| == 1 then [] else tokens[2..],
                       valued, switches)
      else if name in switches then FindSubcommand(tokens[1..], valued, switches)
      else Some(Subcommand(tokens[0], tokens[1..]))
  }

  /** The loop goes by positions; `at` is that of the subcommand. */
  method FindCodexSubcommand(tokens: seq<string>, start: nat, valued: set<string>, switches: set<string>)
      returns (found: Option<string>, at: nat)
    requires start <= |tokens|
    ensures var spec := FindSubcommand(tokens[start..], valued, switches);
            if spec.None? then found.None?
            else found == Some(spec.value.value) && at < |tokens| && tokens[at + 1..] == spec.value.after
  {
    at := 0;
    var i := start;
    while i < |tokens|
      invariant start <= i
      invariant FindSubcommand(tokens[start..], valued, switches)
             == FindSubcommand(if i < |tokens| then tokens[i..] else [], valued, switches)
    {
      var token := tokens[i];
      ghost var rest := tokens[i..];
      assert rest[0] == token && rest[1..] == tokens[i + 1..] && (|rest| > 1 ==> rest[2..] == tokens[i + 2..]);
      if token == "--" {
        return if i + 1 < |tokens| && tokens[i + 1] != "" then Some("<prompt>") else None, i + 1;
      }
      var name := OptionName(token);
      if IsHelpFlag(name) || IsVersionFlag(name) {
        return Some(if IsVersionFlag(name) then "version" else "help"), i;
      }
      if name in valued {
        if name == token {
          i := i + 1;
        }
      } else if name !in switches {
        return Some(token), i;
      }
      i := i + 1;
    }
    found := None;
  }

  datatype CommandOption =
    Switch(name: string) | Joined(name: string, value: string) | Separate(name: string, value: string)

  /** An option that the search steps over: the value may be anything. */
  predicate IsSteppedOver(o: CommandOption, valued: set<string>, switches: set<string>) {
    && '=' !in o.name && o.name != "--" && o.name !in {"--help", "-h", "--version", "-V"}
    && match o
       case Switch(name) => name in switches && name !in valued
       case Joined(name, _) => name in switches || name in valued
       case Separate(name, _) => name in valued
  }

  function Spelling(o: CommandOption): seq<string> {
    match o
    case Switch(name) => [name]
    case Joined(name, value) => [name + "=" + value]
    case Separate(name, value) => [name, value]
  }

  function OptionTokens(os: seq<CommandOption>): seq<string> {
    if os == [] then [] else Spelling(os[0]) + OptionTokens(os[1..])
  }

  lemma {:induction false} OptionNameIs(name: string, rest: string)
    requires '=' !in name && (rest == "" || rest[0] == '=')
    ensures OptionName(name + rest) == name
  {
    if name == "" {
      assert name + rest == rest;
    } else {
      assert (name + rest)[0] == name[0] && (name + rest)[1..] == name[1..] + rest;
      OptionNameIs(name[1..], rest);
    }
  }

  lemma OptionIsSteppedOver(o: CommandOption, rest: seq<string>, valued: set<string>, switches: set<string>)
    requires IsSteppedOver(o, valued, switches)
    ensures FindSubcommand(Spelling(o) + rest, valued, switches) == FindSubcommand(rest, valued, switches)
  {
    assert (Spelling(o) + rest)[|Spelling(o)|..] == rest;
    OptionNameIs(o.name, "");
    assert o.name + "" == o.name;
    if o.Joined? {
      OptionNameIs(o.name, "=" + o.value);
      assert o.name + "=" + o.value == o.name + ("=" + o.value);
      assert (o.name + ("=" + o.value))[|o.name|] == '=';
    }
  }

  /** Options in front do not change which subcommand is found, not even a value named like one. */
  lemma {:induction false} OptionsAreSteppedOver(os: seq<CommandOption>, rest: seq<string>, valued: set<string>,
                                                 switches: set<string>)
    requires forall i :: 0 <= i < |os| ==> IsSteppedOver(os[i], valued, switches)
    ensures FindSubcommand(OptionTokens(os) + rest, valued, switches) == FindSubcommand(rest, valued, switches)
    decreases |os|
  {
    if os == [] {
      assert OptionTokens(os) + rest == rest;
    } else {
      assert OptionTokens(os) + rest == Spelling(os[0]) + (OptionTokens(os[1..]) + rest);
      OptionIsSteppedOver(os[0], OptionTokens(os[1..]) + rest, valued, switches);
      OptionsAreSteppedOver(os[1..], rest, valued, switches);
    }
  }

  // ----- the classifiers

  function LowerAll(s: string): string {
    seq(|s|, i requires 0 <= i < |s| => Lower(s[i]))
  }

  predicate AnyOf(tokens: seq<string>, accepts: string -> bool) {
    exists i :: 0 <= i < |tokens| && accepts(tokens[i])
  }

  predicate IsChild(tokens: seq<string>, switches: set<string>, names: set<string>) {
    var child := FindSubcommand(tokens, CHILD_FLAGS_WITH_VALUES, switches);
    child.Some? && LowerAll(child.value.value) in names
  }

  predicate IsOneShot(found: Subcommand) {
    var after, name := found.after, LowerAll(found.value);
    if name == "login" then
      || "--with-api-key" in after || "--with-access-token" in after || AnyOf(after, IsHelpFlag)
      || IsChild(after, LOGIN_BOOLEAN_FLAGS, LOGIN_SUBCOMMANDS)
    else if name == "cloud" then
      || AnyOf(after, IsHelpFlag) || AnyOf(after, IsVersionFlag)
      || IsChild(after, CLOUD_BOOLEAN_FLAGS, CLOUD_SUBCOMMANDS)
    else name in SUBCOMMANDS
  }

  /** The arguments of codex ask for something other than a session. */
  predicate IsNonInteractive(arguments: seq<string>) {
    var found := FindSubcommand(arguments, FLAGS_WITH_VALUES, BOOLEAN_FLAGS);
    found.Some? && IsOneShot(found.value)
  }

  method IsNonInteractiveCodexSubcommand(tokens: seq<string>) returns (result: bool)
    requires tokens != []
    ensures result == IsNonInteractive(tokens[1..])
  {
    var found, at := FindCodexSubcommand(tokens, 1, FLAGS_WITH_VALUES, BOOLEAN_FLAGS);
    if found.None? {
      return false;
    }
    var name, after := LowerAll(found.value), tokens[at + 1..];
    if name == "login" {
      var child, _ := FindCodexSubcommand(tokens, at + 1, CHILD_FLAGS_WITH_VALUES, LOGIN_BOOLEAN_FLAGS);
      return "--with-api-key" in after || "--with-access-token" in after || AnyOf(after, IsHelpFlag)
        || (child.Some? && LowerAll(child.value) in LOGIN_SUBCOMMANDS);
    }
    if name == "cloud" {
      var child, _ := FindCodexSubcommand(tokens, at + 1, CHILD_FLAGS_WITH_VALUES, CLOUD_BOOLEAN_FLAGS);
      return AnyOf(after, IsHelpFlag) || AnyOf(after, IsVersionFlag)
        || (child.Some? && LowerAll(child.value) in CLOUD_SUBCOMMANDS);
    }
    return name in SUBCOMMANDS;
  }

  const TOKEN_LIMIT := 32

  predicate IsExecutable(token: string, name: string) {
    var base := CommandBasename(token);
    base == name || base == name + ".exe" || base == name + ".cmd"
  }

  predicate IsPrintFlag(token: string) {
    OptionName(token) == "-p" || OptionName(token) == "--print"
  }

  predicate IsCodexSession(tokens: seq<string>) {
    tokens != [] && IsExecutable(tokens[0], "codex") && !IsNonInteractive(tokens[1..])
  }

  predicate IsSession(tokens: seq<string>) {
    && tokens != []
    && if IsExecutable(tokens[0], "codex") then !IsNonInteractive(tokens[1..])
       else IsExecutable(tokens[0], "claude") && !AnyOf(tokens[1..], IsHelpFlag) && !AnyOf(tokens[1..], IsVersionFlag)
            && !AnyOf(tokens[1..], IsPrintFlag)
  }

  method ShouldUseRendererBackedCodexTerminal(command: string) returns (use: bool)
    ensures use == IsCodexSession(StripPrefix(Take(Words(command, "", None), 32)))
  {
    var words := TokenizeLeadingShellWords(command, TOKEN_LIMIT);
    var tokens := StripShellLaunchPrefix(words);
    if tokens == [] || !IsExecutable(tokens[0], "codex") {
      return false;
    }
    var nonInteractive := IsNonInteractiveCodexSubcommand(tokens);
    return !nonInteractive;
  }

  method ShouldUseRendererBackedInteractiveTerminal(command: string) returns (use: bool)
    ensures use == IsSession(StripPrefix(Take(Words(command, "", None), 32)))
  {
    var words := TokenizeLeadingShellWords(command, TOKEN_LIMIT);
    var tokens := StripShellLaunchPrefix(words);
    if tokens == [] {
      return false;
    }
    if IsExecutable(tokens[0], "codex") {
      var nonInteractive := IsNonInteractiveCodexSubcommand(tokens);
      return !nonInteractive;
    }
    return IsExecutable(tokens[0], "claude")
      && !AnyOf(tokens[1..], IsHelpFlag) && !AnyOf(tokens[1..], IsVersionFlag) && !AnyOf(tokens[1..], IsPrintFlag);
  }

  // ----- what does not change the classification

  /** The tokenizer emits no empty word, so filtering them out is idle. */
  lemma {:induction false} NoWordIsEmpty(s: string, current: string, quote: Option<char>)
    ensures forall w :: w in Words(s, current, quote) ==> w != ""
    decreases |s|
  {
    if s != "" {
      var c, rest := s[0], s[1..];
      NoWordIsEmpty(rest, "", None);
      NoWordIsEmpty(rest, current, None);
      NoWordIsEmpty(rest, current + [c], quote);
      if IsQuote(c) {
        NoWordIsEmpty(rest, current, Some(c));
      }
    }
  }

  /** Options of codex in front of its other arguments, whatever their values, do not decide. */
  lemma OptionsKeepSession(executable: string, os: seq<CommandOption>, rest: seq<string>)
    requires forall i :: 0 <= i < |os| ==> IsSteppedOver(os[i], FLAGS_WITH_VALUES, BOOLEAN_FLAGS)
    ensures IsCodexSession([executable] + (OptionTokens(os) + rest)) == IsCodexSession([executable] + rest)
  {
    var arguments := OptionTokens(os) + rest;
    OptionsAreSteppedOver(os, rest, FLAGS_WITH_VALUES, BOOLEAN_FLAGS);
    assert IsNonInteractive(arguments) == IsNonInteractive(rest);
    SessionOf(executable, arguments);
    SessionOf(executable, rest);
  }

  lemma SessionOf(executable: string, arguments: seq<string>)
    ensures IsCodexSession([executable] + arguments)
       <==> IsExecutable(executable, "codex") && !IsNonInteractive(arguments)
  {
    assert ([executable] + arguments)[1..] == arguments;
  }

  /** Texts that read as assignments, as env and as its arguments, in front of a command: within the limit it
      is classified by the same tokens if and only if it does not itself begin with an option or env. */
  lemma LaunchIsIgnoredIff(texts: seq<string>, assignments: seq<string>, env: string, args: seq<EnvArgument>,
                           command: string)
    requires AreEnvArguments(args) && IsEnv(env) && !IsShellAssignment(env)
    requires forall i :: 0 <= i < |assignments| ==> IsShellAssignment(assignments[i])
    requires var words := assignments + [env] + Spelled(args);
             && |texts| == |words| && |texts| + |Words(command, "", None)| <= TOKEN_LIMIT
             && forall i :: 0 <= i < |texts| ==> words[i] != "" && ReadsAs(texts[i], words[i])
    ensures Classified(InFrontOf(texts, command), TOKEN_LIMIT) == Classified(command, TOKEN_LIMIT)
       <==> Transparent(Words(command, "", None))
  {
    var words, tokens := assignments + [env] + Spelled(args), Words(command, "", None);
    WordsInFront(texts, words, command);
    assert Take(words + tokens, TOKEN_LIMIT) == words + tokens && Take(tokens, TOKEN_LIMIT) == tokens;
    EnvIsTransparentIff(assignments, env, args, tokens);
  }

  lemma {:induction false} PlainBasename(name: string)
    requires forall i :: 0 <= i < |name| ==> 'a' <= name[i] <= 'z'
    ensures CommandBasename(name) == name
    decreases |name|
  {
    if name != "" {
      PlainBasename(name[..|name| - 1]);
      assert name == name[..|name| - 1] + [name[|name| - 1]];
    }
  }

  lemma OneEnvIsStripped(tokens: seq<string>)
    requires StartsCommand(tokens)
    ensures StripPrefix(["env"] + tokens) == tokens
  {
    PlainBasename("env");
    assert (["env"] + tokens)[1..] == tokens;
  }

  lemma EnvIsNot(name: string)
    requires |name| > 3
    ensures !IsExecutable("env", name)
  {
    PlainBasename("env");
    assert |name + ".exe"| > 3 && |name + ".cmd"| > 3;
  }

  lemma CodexIsExecutable()
    ensures IsExecutable("codex", "codex")
  {
    PlainBasename("codex");
  }

  /** Codex launched through two envs is not recognized, and through one it is. */
  lemma NestedEnvHidesCommand()
    ensures IsCodexSession(StripPrefix(["env"] + ["codex"])) && !IsSession(StripPrefix(["env"] + ["env", "codex"]))
  {
    OneEnvIsStripped(["codex"]);
    OneEnvIsStripped(["env", "codex"]);
    EnvIsNot("codex");
    EnvIsNot("claude");
    CodexIsExecutable();
    SessionOf("codex", []);
    assert ["codex"] == ["codex"] + [];
  }

  /** A command rendered in quotes, of at most 32 words, is classified by its words. */
  lemma RenderedIsClassified(words: seq<string>)
    requires |words| <= 32 && forall i :: 0 <= i < |words| ==> words[i] != "" && '\'' !in words[i]
    ensures Classified(Render(words), TOKEN_LIMIT) == StripPrefix(words)
  {
    RenderRoundTrip(words);
    NonEmptyIsAll(words);
  }

  lemma {:induction false} NonEmptyIsAll(words: seq<string>)
    requires forall i :: 0 <= i < |words| ==> words[i] != ""
    ensures NonEmpty(words) == words
  {
    if words != [] {
      NonEmptyIsAll(words[1..]);
    }
  }
}
