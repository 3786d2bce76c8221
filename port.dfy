/**
 * The listening-port decision at start-up (main.go, main).
 *
 * The `-port` flag, the `PORT` environment variable and the first positional
 * argument are inputs, as is the integer parser (`atoi`), which yields `None`
 * where `strconv.Atoi` returns an error.
 */
module PortSelection {
  import opened Wrappers

  /** The port used when no source gives a usable one. */
  const DefaultPort := 9876

  /**
   * The port to listen on. `flagPort` is the value of `-port` (0 when it was
   * not given), `envPort` the value of `PORT` ("" when unset), `args` the
   * positional arguments.
   */
  function SelectPort(flagPort: int, envPort: string, args: seq<string>, atoi: string -> Option<int>): (port: int)
    // A non-zero flag is used unchanged.
    ensures flagPort != 0 ==> port == flagPort
    // Otherwise a set PORT decides, whatever the arguments; unparsable means the default.
    ensures flagPort == 0 && envPort != "" && atoi(envPort).Some? ==> port == atoi(envPort).value
    ensures flagPort == 0 && envPort != "" && atoi(envPort).None? ==> port == DefaultPort
    // Otherwise the first argument, when there is one and it parses.
    ensures flagPort == 0 && envPort == "" && |args| > 0 && atoi(args[0]).Some? ==> port == atoi(args[0]).value
    // Every remaining case gives the default.
    ensures flagPort == 0 && envPort == "" && (|args| == 0 || atoi(args[0]).None?) ==> port == DefaultPort
  {
    if flagPort != 0 then flagPort
    else if envPort != "" then
      match atoi(envPort)
      case Some(p) => p
      case None => DefaultPort
    else if |args| > 0 then
      match atoi(args[0])
      case Some(p) => p
      case None => DefaultPort
    else DefaultPort
  }

  /** The chosen port always comes from one of the three sources or is the default. */
  lemma PortProvenance(flagPort: int, envPort: string, args: seq<string>, atoi: string -> Option<int>)
    ensures var port := SelectPort(flagPort, envPort, args, atoi);
      || port == flagPort
      || (envPort != "" && atoi(envPort) == Some(port))
      || (|args| > 0 && atoi(args[0]) == Some(port))
      || port == DefaultPort
  {
  }

  /** Once the flag is non-zero neither the environment nor the arguments matter. */
  lemma FlagOverridesEverything(flagPort: int, env1: string, args1: seq<string>, env2: string, args2: seq<string>,
                                atoi: string -> Option<int>)
    requires flagPort != 0
    ensures SelectPort(flagPort, env1, args1, atoi) == SelectPort(flagPort, env2, args2, atoi)
  {
  }

  /** Once PORT is set the positional arguments are ignored, even when it does not parse. */
  lemma EnvOverridesArguments(envPort: string, args1: seq<string>, args2: seq<string>, atoi: string -> Option<int>)
    requires envPort != ""
    ensures SelectPort(0, envPort, args1, atoi) == SelectPort(0, envPort, args2, atoi)
  {
  }

  /** Only the first positional argument is ever consulted. */
  lemma OnlyFirstArgumentCounts(flagPort: int, envPort: string, first: string, rest1: seq<string>, rest2: seq<string>,
                                atoi: string -> Option<int>)
    ensures SelectPort(flagPort, envPort, [first] + rest1, atoi) == SelectPort(flagPort, envPort, [first] + rest2, atoi)
  {
  }
}
