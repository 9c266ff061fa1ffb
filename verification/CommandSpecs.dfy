module CommandSpecs {
  import opened Options

  /** The fields of a command spec that parsing and recovery read. */
  datatype CommandSpec = CommandSpec(path: seq<string>, aliases: Option<seq<seq<string>>>, destructive: bool,
                                     positionalArgs: seq<string>)

  function SpecPaths(spec: CommandSpec): seq<seq<string>> {
    [spec.path] + if spec.aliases.Some? then spec.aliases.value else []
  }
}
