/** `get_log_level`: the command line's three verbosity switches resolved to one
    logging level. */
module LogLevel {

  /** The parsed `--debug`, `--verbose` and `--quiet` switches. */
  datatype Flags = Flags(debug: bool, verbose: bool, quiet: bool)

  /** Quiet beats verbose, verbose beats debug, and no switch means "warning".
      Each level is named by exactly the flag combinations that select it. */
  function GetLogLevel(args: Flags): (r: string)
    ensures r == "debug" || r == "info" || r == "warning" || r == "error"
    ensures r == "error" <==> args.quiet
    ensures r == "info" <==> !args.quiet && args.verbose
    ensures r == "debug" <==> !args.quiet && !args.verbose && args.debug
    ensures r == "warning" <==> !args.quiet && !args.verbose && !args.debug
  {
    if args.quiet then "error"
    else if args.verbose then "info"
    else if args.debug then "debug"
    else "warning"
  }
}
