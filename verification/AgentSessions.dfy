/** Which command lines of the agents are sessions, told from their words. */
module AgentSessions {
  import opened Options
  import opened ShellWords
  import opened CommandClassification

  // ----- the words behind the options

  /** What can follow the options: nothing; a flag whose value is missing; `--` and the prompt; a request for
      help or the version; or a word that is no option. */
  datatype Tail =
    | Nothing
    | MissingValue(flag: string)
    | Prompt(after: seq<string>)
    | Asked(token: string, after: seq<string>)
    | Command(word: string, after: seq<string>)

  function TailTokens(t: Tail): seq<string> {
    match t
    case Nothing => []
    case MissingValue(flag) => [flag]
    case Prompt(after) => ["--"] + after
    case Asked(token, after) => [token] + after
    case Command(word, after) => [word] + after
  }

  /** The token is one of the flags, alone or with a value behind `=`. */
  ghost predicate IsOption(token: string, names: set<string>) {
    exists name :: name in names && (token == name || name + "=" <= token)
  }

  ghost predicate IsTail(t: Tail, valued: set<string>, switches: set<string>) {
    match t
    case MissingValue(flag) => flag in valued && flag !in {"--help", "-h", "--version", "-V", "--"}
    case Asked(token, _) => IsOption(token, {"--help", "-h", "--version", "-V"})
    case Command(word, _) =>
      && word != "--" && !IsOption(word, {"--help", "-h", "--version", "-V"})
      && !IsOption(word, valued) && !IsOption(word, switches)
    case _ => true
  }

  ghost predicate AreOptions(os: seq<CommandOption>, valued: set<string>, switches: set<string>) {
    forall i :: 0 <= i < |os| ==> IsSteppedOver(os[i], valued, switches)
  }

  ghost predicate ArePlain(names: set<string>) {
    forall name :: name in names ==> '=' !in name && name != "--"
  }

  lemma {:induction false} OptionNameSplits(token: string)
    ensures var name := OptionName(token); '=' !in name && (token == name || name + "=" <= token)
  {
    if token != "" && token[0] != '=' {
      OptionNameSplits(token[1..]);
      var name := OptionName(token[1..]);
      assert token == [token[0]] + token[1..];
      assert name + "=" <= token[1..] ==> [token[0]] + name + "=" <= token;
    }
  }

  lemma IsOptionIff(token: string, names: set<string>)
    requires ArePlain(names)
    ensures IsOption(token, names) <==> OptionName(token) in names
  {
    OptionNameSplits(token);
    if name :| name in names && (token == name || name + "=" <= token) {
      OptionNameIs(name, token[|name|..]);
      assert token == name + token[|name|..];
    }
  }

  lemma AskingIsPlain()
    ensures ArePlain({"--help", "-h", "--version", "-V"}) && ArePlain({"--version", "-V"})
  {}

  predicate StartsWithOption(tokens: seq<string>, valued: set<string>, switches: set<string>) {
    && tokens != [] && tokens[0] != "--" && OptionName(tokens[0]) !in {"--help", "-h", "--version", "-V", "--"}
    && (OptionName(tokens[0]) in valued || OptionName(tokens[0]) in switches)
    && (OptionName(tokens[0]) in valued && OptionName(tokens[0]) == tokens[0] ==> |tokens| > 1)
  }

  lemma TailOf(tokens: seq<string>, valued: set<string>, switches: set<string>) returns (t: Tail)
    requires ArePlain(valued) && ArePlain(switches) && !StartsWithOption(tokens, valued, switches)
    ensures IsTail(t, valued, switches) && tokens == TailTokens(t)
  {
    if tokens == [] {
      t := Nothing;
    } else if tokens[0] == "--" {
      t := Prompt(tokens[1..]);
    } else {
      var token, name := tokens[0], OptionName(tokens[0]);
      AskingIsPlain();
      IsOptionIff(token, {"--help", "-h", "--version", "-V"});
      IsOptionIff(token, valued);
      IsOptionIff(token, switches);
      t := if name in {"--help", "-h", "--version", "-V"} then Asked(token, tokens[1..])
           else if name in valued then MissingValue(token)
           else Command(token, tokens[1..]);
    }
  }

  lemma OptionCons(o: CommandOption, os: seq<CommandOption>, rest: seq<string>)
    ensures OptionTokens([o] + os) + rest == Spelling(o) + (OptionTokens(os) + rest)
  {
    assert ([o] + os)[1..] == os;
  }

  /** Every list of words is a run of options and one of these tails. */
  lemma {:induction false} OptionsThenTail(tokens: seq<string>, valued: set<string>, switches: set<string>)
      returns (os: seq<CommandOption>, t: Tail)
    requires ArePlain(valued) && ArePlain(switches)
    ensures AreOptions(os, valued, switches) && IsTail(t, valued, switches)
    ensures tokens == OptionTokens(os) + TailTokens(t)
    decreases |tokens|
  {
    os := [];
    if StartsWithOption(tokens, valued, switches) {
      var o := FirstOption(tokens, valued, switches);
      os, t := OptionsThenTail(tokens[|Spelling(o)|..], valued, switches);
      OptionCons(o, os, TailTokens(t));
      os := [o] + os;
    } else {
      t := TailOf(tokens, valued, switches);
    }
  }

  lemma FirstOption(tokens: seq<string>, valued: set<string>, switches: set<string>) returns (o: CommandOption)
    requires StartsWithOption(tokens, valued, switches)
    ensures IsSteppedOver(o, valued, switches) && Spelling(o) <= tokens
  {
    var token, name := tokens[0], OptionName(tokens[0]);
    OptionNameSplits(token);
    if token != name {
      o := Joined(name, token[|name| + 1..]);
      assert token == name + "=" + token[|name| + 1..];
    } else if name in valued {
      o := Separate(name, tokens[1]);
    } else {
      o := Switch(name);
    }
  }

  /** What the search finds in a tail. */
  lemma TailIsFound(t: Tail, valued: set<string>, switches: set<string>)
    requires ArePlain(valued) && ArePlain(switches) && IsTail(t, valued, switches)
    ensures FindSubcommand(TailTokens(t), valued, switches)
         == match t
            case Prompt(after) => if after == [] || after[0] == "" then None else Some(Subcommand("<prompt>", after[1..]))
            case Asked(token, after) =>
              Some(Subcommand(if IsOption(token, {"--version", "-V"}) then "version" else "help", after))
            case Command(word, after) => Some(Subcommand(word, after))
            case _ => None
  {
    AskingIsPlain();
    match t
    case Nothing =>
    case MissingValue(flag) =>
      OptionNameIs(flag, "");
      assert flag + "" == flag;
    case Prompt(after) => assert (["--"] + after)[1..] == after;
    case Asked(token, after) =>
      IsOptionIff(token, {"--help", "-h", "--version", "-V"});
      IsOptionIff(token, {"--version", "-V"});
      OptionNameSplits(token);
      assert ([token] + after)[1..] == after;
    case Command(word, after) =>
      IsOptionIff(word, {"--help", "-h", "--version", "-V"});
      IsOptionIff(word, valued);
      IsOptionIff(word, switches);
      assert ([word] + after)[1..] == after;
  }

  // ----- lower case

  /** The letters A to Z become small, and nothing else changes. */
  lemma LowerAllIs(s: string, i: nat)
    requires i < |s|
    ensures |LowerAll(s)| == |s|
    ensures LowerAll(s)[i] as int == s[i] as int + if 65 <= s[i] as int <= 90 then 32 else 0
  {}

  lemma SmallStays(s: string)
    requires forall i :: 0 <= i < |s| ==> !('A' <= s[i] <= 'Z')
    ensures LowerAll(s) == s
  {}

  // ----- codex

  ghost predicate AreCodexOptions(os: seq<CommandOption>) {
    AreOptions(os, {"--config", "-c", "--enable", "--disable", "--remote", "--remote-auth-token-env", "--image", "-i",
                    "--model", "-m", "--local-provider", "--profile", "-p", "--sandbox", "-s", "--cd", "-C",
                    "--add-dir", "--ask-for-approval", "-a"},
               {"--oss", "--dangerously-bypass-approvals-and-sandbox", "--search", "--no-alt-screen", "--help", "-h",
                "--version", "-V"})
  }

  ghost predicate IsCodexTail(t: Tail) {
    IsTail(t, {"--config", "-c", "--enable", "--disable", "--remote", "--remote-auth-token-env", "--image", "-i",
               "--model", "-m", "--local-provider", "--profile", "-p", "--sandbox", "-s", "--cd", "-C", "--add-dir",
               "--ask-for-approval", "-a"},
           {"--oss", "--dangerously-bypass-approvals-and-sandbox", "--search", "--no-alt-screen", "--help", "-h",
            "--version", "-V"})
  }

  /** The words, behind options of the child command, name one of these children or ask for one of these. */
  ghost predicate NamesChild(words: seq<string>, switches: set<string>, names: set<string>) {
    exists os, t ::
      && AreOptions(os, {"-c", "--config", "--enable", "--disable"}, switches)
      && IsTail(t, {"-c", "--config", "--enable", "--disable"}, switches)
      && words == OptionTokens(os) + TailTokens(t)
      && match t
         case Command(word, _) => LowerAll(word) in names
         case Asked(token, _) => (if IsOption(token, {"--version", "-V"}) then "version" else "help") in names
         case _ => false
  }

  ghost predicate LoginIsOneShot(words: seq<string>) {
    || "--with-api-key" in words || "--with-access-token" in words || "--help" in words || "-h" in words
    || NamesChild(words, {"--with-api-key", "--with-access-token", "--device-auth", "--help", "-h"}, {"status", "help"})
  }

  ghost predicate CloudIsOneShot(words: seq<string>) {
    || "--help" in words || "-h" in words || "--version" in words || "-V" in words
    || NamesChild(words, {"--help", "-h", "--version", "-V"}, {"exec", "status", "list", "apply", "diff", "help"})
  }

  lemma SwitchesArePlain()
    ensures ArePlain(BOOLEAN_FLAGS) && ArePlain(CLOUD_BOOLEAN_FLAGS)
  {}

  lemma LoginSwitchesArePlain()
    ensures ArePlain(LOGIN_BOOLEAN_FLAGS)
  {}

  lemma ChildFlagsArePlain()
    ensures ArePlain(CHILD_FLAGS_WITH_VALUES)
  {}

  lemma FlagsArePlain()
    ensures ArePlain(FLAGS_WITH_VALUES)
  {}

  lemma FoundNames()
    ensures LowerAll("help") == "help" && LowerAll("version") == "version" && LowerAll("<prompt>") == "<prompt>"
  {
    SmallStays("help");
    SmallStays("version");
    SmallStays("<prompt>");
  }

  lemma IsChildIff(words: seq<string>, switches: set<string>, names: set<string>)
    requires ArePlain(switches) && "<prompt>" !in names
    ensures IsChild(words, switches, names) <==> NamesChild(words, switches, names)
  {
    ChildFlagsArePlain();
    FoundNames();
    var os, t := OptionsThenTail(words, CHILD_FLAGS_WITH_VALUES, switches);
    OptionsAreSteppedOver(os, TailTokens(t), CHILD_FLAGS_WITH_VALUES, switches);
    TailIsFound(t, CHILD_FLAGS_WITH_VALUES, switches);
    if NamesChild(words, switches, names) {
      var os', t' :| && AreOptions(os', CHILD_FLAGS_WITH_VALUES, switches) && IsTail(t', CHILD_FLAGS_WITH_VALUES, switches)
                     && words == OptionTokens(os') + TailTokens(t')
                     && match t'
                        case Command(word, _) => LowerAll(word) in names
                        case Asked(token, _) => (if IsOption(token, {"--version", "-V"}) then "version" else "help") in names
                        case _ => false;
      OptionsAreSteppedOver(os', TailTokens(t'), CHILD_FLAGS_WITH_VALUES, switches);
      TailIsFound(t', CHILD_FLAGS_WITH_VALUES, switches);
    }
  }

  lemma OneShotIff(word: string, after: seq<string>)
    ensures IsOneShot(Subcommand(word, after))
       <==> if LowerAll(word) == "login" then LoginIsOneShot(after)
            else if LowerAll(word) == "cloud" then CloudIsOneShot(after)
            else LowerAll(word) in {
              "exec", "e", "review", "logout", "mcp", "plugin", "mcp-server", "app-server", "remote-control", "app",
              "completion", "update", "doctor", "sandbox", "debug", "execpolicy", "apply", "a", "cloud-tasks",
              "responses-api-proxy", "stdio-to-uds", "exec-server", "features", "help", "version"}
  {
    if LowerAll(word) == "login" {
      LoginSwitchesArePlain();
      IsChildIff(after, LOGIN_BOOLEAN_FLAGS, LOGIN_SUBCOMMANDS);
      AnyOfHelp(after);
    } else if LowerAll(word) == "cloud" {
      SwitchesArePlain();
      IsChildIff(after, CLOUD_BOOLEAN_FLAGS, CLOUD_SUBCOMMANDS);
      AnyOfHelp(after);
    }
  }

  lemma AnyOfHelp(tokens: seq<string>)
    ensures AnyOf(tokens, IsHelpFlag) <==> "--help" in tokens || "-h" in tokens
    ensures AnyOf(tokens, IsVersionFlag) <==> "--version" in tokens || "-V" in tokens
  {
    if "--help" in tokens || "-h" in tokens {
      var i :| 0 <= i < |tokens| && (tokens[i] == "--help" || tokens[i] == "-h");
      assert IsHelpFlag(tokens[i]);
    }
    if "--version" in tokens || "-V" in tokens {
      var i :| 0 <= i < |tokens| && (tokens[i] == "--version" || tokens[i] == "-V");
      assert IsVersionFlag(tokens[i]);
    }
  }

  ghost predicate CodexTailIsSession(t: Tail) {
    match t
    case Asked(_, _) => false
    case Command(word, after) =>
      if LowerAll(word) == "login" then !LoginIsOneShot(after)
      else if LowerAll(word) == "cloud" then !CloudIsOneShot(after)
      else LowerAll(word) !in {
        "exec", "e", "review", "logout", "mcp", "plugin", "mcp-server", "app-server", "remote-control", "app",
        "completion", "update", "doctor", "sandbox", "debug", "execpolicy", "apply", "a", "cloud-tasks",
        "responses-api-proxy", "stdio-to-uds", "exec-server", "features", "help", "version"}
    case _ => true
  }

  lemma OneShotTailIff(t: Tail, found: Option<Subcommand>)
    requires found == match t
                      case Prompt(after) =>
                        if after == [] || after[0] == "" then None else Some(Subcommand("<prompt>", after[1..]))
                      case Asked(token, after) =>
                        Some(Subcommand(if IsOption(token, {"--version", "-V"}) then "version" else "help", after))
                      case Command(word, after) => Some(Subcommand(word, after))
                      case _ => None
    ensures (found.Some? && IsOneShot(found.value)) <==> !CodexTailIsSession(t)
  {
    FoundNames();
    if found.Some? {
      OneShotIff(found.value.value, found.value.after);
    }
  }

  lemma NonInteractiveIff(os: seq<CommandOption>, t: Tail)
    requires AreCodexOptions(os) && IsCodexTail(t)
    ensures IsNonInteractive(OptionTokens(os) + TailTokens(t)) <==> !CodexTailIsSession(t)
  {
    FlagsArePlain();
    SwitchesArePlain();
    OptionsAreSteppedOver(os, TailTokens(t), FLAGS_WITH_VALUES, BOOLEAN_FLAGS);
    TailIsFound(t, FLAGS_WITH_VALUES, BOOLEAN_FLAGS);
    OneShotTailIff(t, FindSubcommand(TailTokens(t), FLAGS_WITH_VALUES, BOOLEAN_FLAGS));
  }

  // ----- the program

  /** Nothing, or a path up to its last separator. */
  predicate IsFolder(dir: string) {
    dir == "" || dir[|dir| - 1] == '/' || dir[|dir| - 1] == '\\'
  }

  lemma {:induction false} BasenameIs(dir: string, base: string)
    requires IsFolder(dir) && '/' !in base && '\\' !in base
    ensures CommandBasename(dir + base) == LowerAll(base)
    decreases |base|
  {
    if base == "" {
      assert dir + base == dir;
    } else {
      var init, last := base[..|base| - 1], base[|base| - 1];
      assert last in base && (dir + base)[..|dir + base| - 1] == dir + init;
      BasenameIs(dir, init);
      assert LowerAll(base) == LowerAll(init) + [Lower(last)];
    }
  }

  /** A codex command is a session unless help or the version is asked for, or a subcommand is named that runs
      without one: behind any options, with any values, and from any folder. */
  lemma CodexSessionIff(dir: string, base: string, os: seq<CommandOption>, t: Tail)
    requires IsFolder(dir) && '/' !in base && '\\' !in base && LowerAll(base) in {"codex", "codex.exe", "codex.cmd"}
    requires AreCodexOptions(os) && IsCodexTail(t)
    ensures var tokens := [dir + base] + (OptionTokens(os) + TailTokens(t));
            && (IsCodexSession(tokens) <==> CodexTailIsSession(t))
            && (IsSession(tokens) <==> CodexTailIsSession(t))
  {
    BasenameIs(dir, base);
    NonInteractiveIff(os, t);
    SessionOf(dir + base, OptionTokens(os) + TailTokens(t));
    assert ([dir + base] + (OptionTokens(os) + TailTokens(t)))[1..] == OptionTokens(os) + TailTokens(t);
  }

  lemma PrintFlagIff(token: string)
    ensures IsPrintFlag(token) <==> token == "-p" || token == "--print" || "-p=" <= token || "--print=" <= token
  {
    OptionNameSplits(token);
    if "-p" <= token && (token == "-p" || "-p=" <= token) {
      OptionNameIs("-p", token[2..]);
      assert token == "-p" + token[2..];
    }
    if "--print" <= token && (token == "--print" || "--print=" <= token) {
      OptionNameIs("--print", token[7..]);
      assert token == "--print" + token[7..];
    }
  }

  lemma AnyOfPrint(tokens: seq<string>)
    ensures AnyOf(tokens, IsPrintFlag)
       <==> exists i :: 0 <= i < |tokens| && (tokens[i] == "-p" || tokens[i] == "--print" || "-p=" <= tokens[i]
                                              || "--print=" <= tokens[i])
  {
    forall i | 0 <= i < |tokens|
      ensures IsPrintFlag(tokens[i]) <==>
        tokens[i] == "-p" || tokens[i] == "--print" || "-p=" <= tokens[i] || "--print=" <= tokens[i]
    {
      PrintFlagIff(tokens[i]);
    }
  }

  /** A claude command is a session unless it has a flag for help, the version or printing anywhere, and never a
      codex one. */
  lemma ClaudeSessionIff(dir: string, base: string, arguments: seq<string>)
    requires IsFolder(dir) && '/' !in base && '\\' !in base && LowerAll(base) in {"claude", "claude.exe", "claude.cmd"}
    ensures !IsCodexSession([dir + base] + arguments)
    ensures IsSession([dir + base] + arguments)
       <==> && "--help" !in arguments && "-h" !in arguments && "--version" !in arguments && "-V" !in arguments
            && forall i :: 0 <= i < |arguments| ==>
                 arguments[i] != "-p" && arguments[i] != "--print" && !("-p=" <= arguments[i])
                 && !("--print=" <= arguments[i])
  {
    BasenameIs(dir, base);
    AnyOfHelp(arguments);
    AnyOfPrint(arguments);
    assert ([dir + base] + arguments)[1..] == arguments;
  }

  /** No other program is an agent. */
  lemma OthersAreNoSession(dir: string, base: string, arguments: seq<string>)
    requires IsFolder(dir) && '/' !in base && '\\' !in base
    requires LowerAll(base) !in {"codex", "codex.exe", "codex.cmd", "claude", "claude.exe", "claude.cmd"}
    ensures !IsCodexSession([dir + base] + arguments) && !IsSession([dir + base] + arguments)
  {
    BasenameIs(dir, base);
    assert "codex" + ".exe" == "codex.exe" && "codex" + ".cmd" == "codex.cmd";
    assert "claude" + ".exe" == "claude.exe" && "claude" + ".cmd" == "claude.cmd";
  }
}
