/**
 * The program around the two searches: `Config::new` resolves the command
 * line and the `CASE_INSENSITIVE` environment variable into a Config, and
 * `run` reads the named file and hands its text to the search the
 * `case_sensitive` flag selects.
 */
module Minigrep {
  import opened Results
  import opened Sequences
  import opened Text
  import opened LineSplit
  import opened Search

  /** `pub struct Config`. */
  datatype Config = Config(query: string, filename: string, caseSensitive: bool)

  /**
   * A value in the process environment, which need not be valid Unicode.
   * `NonUnicode` stands for bytes that are not valid UTF-8; the type does not
   * check this, so `NonUnicode` applied to valid UTF-8 describes no real
   * environment.
   */
  datatype OsString = Unicode(text: string) | NonUnicode(bytes: seq<bv8>)

  /** `std::env::VarError`. */
  datatype VarError = NotPresent | NotUnicode(bytes: seq<bv8>)

  /** The process environment, passed in rather than read. */
  type Environment = map<string, OsString>

  const CASE_INSENSITIVE_VAR: string := "CASE_INSENSITIVE"
  const MISSING_QUERY: string := "Didn't get a query string"
  const MISSING_FILE_NAME: string := "Didn't get a file name"

  /** `env::var(key)`: the value when it is present and Unicode, the reason otherwise. */
  function Var(env: Environment, key: string): (r: Result<string, VarError>)
    ensures r.Success? <==> key in env && env[key].Unicode?
    ensures r.Success? ==> env[key] == Unicode(r.value)
    ensures r == Failure(NotPresent) <==> key !in env
  {
    if key !in env then Failure(NotPresent)
    else match env[key]
      case Unicode(text) => Success(text)
      case NonUnicode(bytes) => Failure(NotUnicode(bytes))
  }

  /**
   * `Config::new`: `args[0]` is the program name and is skipped, the next two
   * arguments are the query and the file name, any further ones are ignored.
   * The search is case-sensitive unless `CASE_INSENSITIVE` holds a Unicode
   * value (of any content).
   */
  function NewConfig(args: seq<string>, env: Environment): (r: Result<Config, string>)
    ensures |args| <= 1 ==> r == Failure(MISSING_QUERY)
    ensures |args| == 2 ==> r == Failure(MISSING_FILE_NAME)
    ensures r.Success? <==> |args| >= 3
    ensures r.Success? ==> r.value.query == args[1] && r.value.filename == args[2]
    ensures r.Success? ==>
      (r.value.caseSensitive <==> !(CASE_INSENSITIVE_VAR in env && env[CASE_INSENSITIVE_VAR].Unicode?))
  {
    if |args| < 2 then Failure(MISSING_QUERY)
    else if |args| < 3 then Failure(MISSING_FILE_NAME)
    else Success(Config(args[1], args[2], Var(env, CASE_INSENSITIVE_VAR).Failure?))
  }

  /** Arguments after the file name change nothing. */
  lemma ExtraArgumentsIgnored(args: seq<string>, extra: seq<string>, env: Environment)
    requires |args| >= 3
    ensures NewConfig(args + extra, env) == NewConfig(args, env)
  {
  }

  /** Only whether the variable holds Unicode matters, not what it holds. */
  lemma CaseFlagIgnoresValue(args: seq<string>, env: Environment, v: string, w: string)
    ensures NewConfig(args, env[CASE_INSENSITIVE_VAR := Unicode(v)])
         == NewConfig(args, env[CASE_INSENSITIVE_VAR := Unicode(w)])
    ensures |args| >= 3 ==> !NewConfig(args, env[CASE_INSENSITIVE_VAR := Unicode(v)]).value.caseSensitive
  {
  }

  /**
   * The line test of the search that `config` selects. In either mode it
   * passes every exact match and only folded matches.
   */
  function Matcher(config: Config): (m: string -> bool)
    ensures config.caseSensitive ==> forall line :: m(line) <==> Contains(line, config.query)
    ensures !config.caseSensitive ==> forall line :: m(line) <==> Contains(Lower(line), Lower(config.query))
    ensures forall line :: Contains(line, config.query) ==> m(line)
    ensures forall line :: m(line) ==> Contains(Lower(line), Lower(config.query))
  {
    ContainsLoweredEverywhere(config.query);
    if config.caseSensitive then ExactMatcher(config.query) else FoldedMatcher(config.query)
  }

  /**
   * The `if config.case_sensitive` dispatch in `run`: the exact search when
   * the flag is set, the folded one otherwise; either way the lines of the
   * text that pass the selected test, in order and with their multiplicity.
   */
  function SearchFor(config: Config, contents: string): (r: seq<string>)
    ensures config.caseSensitive ==> r == SearchCaseSensitive(config.query, contents)
    ensures !config.caseSensitive ==> r == SearchCaseInsensitive(config.query, contents)
    ensures IsFiltering(r, Lines(contents), Matcher(config))
  {
    if config.caseSensitive then
      SearchCaseSensitiveSpec(SearchCaseSensitive(config.query, contents), config.query, contents);
      SearchCaseSensitive(config.query, contents)
    else
      SearchCaseInsensitiveSpec(SearchCaseInsensitive(config.query, contents), config.query, contents);
      SearchCaseInsensitive(config.query, contents)
  }

  /**
   * `run`, with the file read given as `read` and the printed lines returned:
   * a failed read is passed on with `?`, otherwise the lines printed are those
   * of the file that the selected search keeps.
   */
  function Run(config: Config, read: Result<string, string>): (r: Result<seq<string>, string>)
    ensures read.Failure? ==> r == Failure(read.error)
    ensures read.Success? ==> r.Success? && IsFiltering(r.value, Lines(read.value), Matcher(config))
    ensures read.Success? && config.caseSensitive ==>
      r == Success(SearchCaseSensitive(config.query, read.value))
    ensures read.Success? && !config.caseSensitive ==>
      r == Success(SearchCaseInsensitive(config.query, read.value))
  {
    match read
    case Failure(e) => Failure(e)
    case Success(contents) => Success(SearchFor(config, contents))
  }

  /** Without `CASE_INSENSITIVE` in the environment, `run` prints the exact matches. */
  lemma DefaultIsExact(args: seq<string>, env: Environment, contents: string)
    requires |args| >= 3 && CASE_INSENSITIVE_VAR !in env
    ensures Run(NewConfig(args, env).value, Success(contents))
         == Success(SearchCaseSensitive(args[1], contents))
  {
  }

  /** Setting `CASE_INSENSITIVE` can only add printed lines, never remove or reorder them. */
  lemma InsensitivePrintsMore(args: seq<string>, env: Environment, v: string, contents: string)
    requires |args| >= 3 && CASE_INSENSITIVE_VAR !in env
    ensures IsSubsequence(Run(NewConfig(args, env).value, Success(contents)).value,
                          Run(NewConfig(args, env[CASE_INSENSITIVE_VAR := Unicode(v)]).value, Success(contents)).value)
  {
    var exact := NewConfig(args, env).value;
    var folded := NewConfig(args, env[CASE_INSENSITIVE_VAR := Unicode(v)]).value;
    assert exact == Config(args[1], args[2], true);
    assert folded == Config(args[1], args[2], false);
    ExactWithinFolded(args[1], contents);
  }
}
