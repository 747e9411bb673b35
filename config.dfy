/** Startup validation of the `check-path` and `check-mode` flags: an empty
    path and an unknown mode are fatal before anything is started. */
module Config {

  /** The two check functions `main` can install as `checkfn`. */
  datatype CheckStrategy = StatCheck | ReadCheck

  /** The two fatal startup errors. */
  datatype ConfigError = EmptyCheckPath | UnsupportedCheck(mode: string)

  datatype Result<T, E> = Ok(value: T) | Err(error: E)

  /** The default of the `check-mode` flag. */
  const DefaultCheckMode: string := "stat"

  /** The `check-mode` value that selects a strategy. */
  function ModeName(s: CheckStrategy): (name: string)
    ensures name == "stat" <==> s == StatCheck
    ensures name == "read" <==> s == ReadCheck
  {
    match s
    case StatCheck => "stat"
    case ReadCheck => "read"
  }

  /** The path test comes first; then the mode `switch`. */
  function SelectCheck(path: string, mode: string): (r: Result<CheckStrategy, ConfigError>)
    ensures path == "" ==> r == Err(EmptyCheckPath)
    ensures path != "" && mode == "stat" ==> r == Ok(StatCheck)
    ensures path != "" && mode == "read" ==> r == Ok(ReadCheck)
    ensures path != "" && mode != "stat" && mode != "read" ==> r == Err(UnsupportedCheck(mode))
  {
    if path == "" then Err(EmptyCheckPath)
    else if mode == "stat" then Ok(StatCheck)
    else if mode == "read" then Ok(ReadCheck)
    else Err(UnsupportedCheck(mode))
  }

  /** Every strategy is reachable by its own name, given a path. */
  lemma ModeNameSelects(path: string, s: CheckStrategy)
    requires path != ""
    ensures SelectCheck(path, ModeName(s)) == Ok(s)
  {
  }

  /** A configuration is accepted only with a non-empty path and a mode that
      is exactly the name of the strategy it selects. */
  lemma AcceptedOnlyByName(path: string, mode: string, s: CheckStrategy)
    requires SelectCheck(path, mode) == Ok(s)
    ensures path != "" && mode == ModeName(s)
  {
  }

  /** The flag's default mode is accepted and selects the statfs check. */
  lemma DefaultModeIsStat(path: string)
    requires path != ""
    ensures SelectCheck(path, DefaultCheckMode) == Ok(StatCheck)
  {
  }
}
