/**
 The configuration step of minigrep's library: `Config::new` takes the
 parsed command line and, when the ignore-case flag is off, turns it on if
 the `CASE_INSENSITIVE` environment variable can be read. The environment
 lookup is passed in as the value `env::var` returned. Also the pure part
 of `run`: which of the two line filters the configuration selects.
 */
module Cli {
  import opened Text
  import opened LineSplit
  import opened Grep

  /** Why `env::var` returned no string. */
  datatype VarError = NotPresent | NotUnicode

  /** The outcome of `env::var("CASE_INSENSITIVE")`. */
  datatype VarResult = Ok(value: string) | Err(error: VarError)

  /** The parsed command line: query, file name and the `-i` flag. */
  datatype Config = Config(query: string, filename: string, ignoreCase: bool)

  /** `Config::new` after argument parsing: a set flag is kept as it is,
      an unset one takes the answer "did the variable read succeed". */
  function New(parsed: Config, caseInsensitive: VarResult): (c: Config)
    ensures c.query == parsed.query && c.filename == parsed.filename
    ensures c.ignoreCase <==> parsed.ignoreCase || caseInsensitive.Ok?
  {
    if !parsed.ignoreCase then parsed.(ignoreCase := !caseInsensitive.Err?) else parsed
  }

  /** With the flag given, the environment makes no difference. */
  lemma FlagIgnoresEnvironment(parsed: Config, v1: VarResult, v2: VarResult)
    requires parsed.ignoreCase
    ensures New(parsed, v1) == New(parsed, v2) == parsed
  {
  }

  /** Without the flag and without the variable, the search stays
      case-sensitive and the configuration is the parsed one. */
  lemma UnsetVariableKeepsParsed(parsed: Config)
    ensures New(parsed, Err(NotPresent)) == parsed
  {
  }

  /** The variable set to the empty string still switches case-insensitive
      search on: only its presence is looked at, not its value. */
  lemma EmptyValueEnables(query: string, filename: string, value: string)
    ensures New(Config(query, filename, false), Ok(value)).ignoreCase
  {
  }

  function ModeOf(config: Config): Mode {
    if config.ignoreCase then CaseInsensitive else CaseSensitive
  }

  /** The choice `run` makes between the two filters: the result is the
      in-order selection of the lines that match in the configured mode. */
  function Results(config: Config, contents: string): (r: seq<string>)
    ensures Subseq(r, Lines(contents))
    ensures forall k :: 0 <= k < |r| ==> Hit(ModeOf(config), r[k], config.query)
    ensures SameHits(ModeOf(config), config.query, r, Lines(contents))
  {
    if config.ignoreCase then SearchCaseInsensitive(config.query, contents)
    else Search(config.query, contents)
  }
}
