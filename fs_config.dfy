/**
  Configuration of `fs`: the command-line flags with their defaults, the
  module-number override of the file pattern, and the validation that turns
  the flags and positional arguments into a `Config` or a fatal error.
*/
module FsConfig {
  import opened Wrappers

  /** The flags after parsing: `-f`, `-s`, `-ss`, `-e`, `-m` and `-P`. */
  datatype Flags = Flags(
    filePattern: string,
    searchPattern: string,
    searchRegexPattern: string,
    exclusionPath: string,
    moduleNumber: int,
    parallelism: int)

  /** The flag values when none is given; `-P` defaults to ten workers per CPU. */
  function DefaultFlags(numCPU: int): (f: Flags)
    ensures f.searchPattern == "" && f.searchRegexPattern == "" && f.moduleNumber == 0
  {
    Flags("prod.yml$", "", "", "target", 0, numCPU * 10)
  }

  /** The validated configuration the search runs with. */
  datatype Config = Config(
    filePattern: string,
    searchPattern: string,
    searchRegexPattern: string,
    exclusionPath: string,
    moduleNumber: int,
    parallelism: int,
    searchPath: string)

  /** The fatal errors of validation, in the order they are checked. */
  datatype ConfigError = MissingSearchPattern | MutuallyExclusivePatterns | SearchPathNotExist(path: string)

  /** File extensions selected by `-m 1` to `-m 9`, in module-number order. */
  const EXTENSIONS: seq<string> := ["java", "yml", "yaml", "xml", "txt", "properties", "json", "py", "php"]

  /** The override table of `setFilePattern`, as the program writes it. */
  const MODULE_PATTERNS: map<int, string> := map[
    1 := @"\.java$",
    2 := @"\.yml$",
    3 := @"\.yaml$",
    4 := @"\.xml$",
    5 := @"\.txt$",
    6 := @"\.properties$",
    7 := @"\.json$",
    8 := @"\.py$",
    9 := @"\.php$"]

  /** The regular expression matching exactly the names that end in `.ext`. */
  function ExtensionPattern(ext: string): string {
    @"\." + ext + "$"
  }

  /**
    `setFilePattern`: a module number from 1 to 9 replaces the file pattern
    by the pattern for that module's extension; any other number keeps it.
  */
  function SetFilePattern(filePattern: string, moduleNumber: int): (r: string)
    ensures 1 <= moduleNumber <= |EXTENSIONS| ==> r == ExtensionPattern(EXTENSIONS[moduleNumber - 1])
    ensures !(1 <= moduleNumber <= |EXTENSIONS|) ==> r == filePattern
  {
    if moduleNumber in MODULE_PATTERNS then MODULE_PATTERNS[moduleNumber] else filePattern
  }

  /**
    An overriding pattern is anchored at the end and starts with an escaped
    dot followed by lower-case letters only, so it selects by extension.
  */
  lemma OverrideIsAnchoredExtension(filePattern: string, moduleNumber: int)
    requires 1 <= moduleNumber <= 9
    ensures var r := SetFilePattern(filePattern, moduleNumber);
      && |r| >= 4 && r[..2] == @"\." && r[|r| - 1] == '$'
      && forall k :: 2 <= k < |r| - 1 ==> 'a' <= r[k] <= 'z'
  {
    var ext := EXTENSIONS[moduleNumber - 1];
    var r := ExtensionPattern(ext);
    assert forall k :: 0 <= k < |ext| ==> 'a' <= ext[k] <= 'z';
    forall k | 2 <= k < |r| - 1 ensures 'a' <= r[k] <= 'z' {
      assert r[k] == ext[k - 2];
    }
  }

  /** Exactly one of the substring and the regular-expression search pattern is given. */
  predicate ExactlyOneSearch(flags: Flags) {
    (flags.searchPattern != "") != (flags.searchRegexPattern != "")
  }

  /** The search root: the working directory, or the first positional argument. */
  function SearchPath(args: seq<string>): (p: string)
    ensures args == [] ==> p == "."
    ensures args != [] ==> p == args[0]
  {
    if |args| > 0 then args[0] else "."
  }

  /**
    The validation of `parseAndValidateFlags`. `notExist(p)` is whether
    `os.Stat(p)` fails with a "does not exist" error; any other failure of
    `os.Stat` is not fatal. On a Unix system `filepath.FromSlash` is the
    identity, so the paths are kept as given.
  */
  function ParseAndValidate(flags: Flags, args: seq<string>, notExist: string -> bool): (r: Result<Config, ConfigError>)
    ensures r.Ok? <==> ExactlyOneSearch(flags) && (args == [] || !notExist(args[0]))
    ensures flags.searchPattern == "" && flags.searchRegexPattern == "" ==> r == Err(MissingSearchPattern)
    ensures flags.searchPattern != "" && flags.searchRegexPattern != "" ==> r == Err(MutuallyExclusivePatterns)
    ensures ExactlyOneSearch(flags) && args != [] && notExist(args[0]) ==> r == Err(SearchPathNotExist(args[0]))
    ensures r.Ok? ==> r.value == Config(
      SetFilePattern(flags.filePattern, flags.moduleNumber), flags.searchPattern, flags.searchRegexPattern,
      flags.exclusionPath, flags.moduleNumber, flags.parallelism, SearchPath(args))
  {
    if flags.searchPattern == "" && flags.searchRegexPattern == "" then Err(MissingSearchPattern)
    else if flags.searchPattern != "" && flags.searchRegexPattern != "" then Err(MutuallyExclusivePatterns)
    else
      var searchPath := SearchPath(args);
      if |args| > 0 && notExist(searchPath) then Err(SearchPathNotExist(searchPath))
      else Ok(Config(
        SetFilePattern(flags.filePattern, flags.moduleNumber),
        flags.searchPattern,
        flags.searchRegexPattern,
        flags.exclusionPath,
        flags.moduleNumber,
        flags.parallelism,
        searchPath))
  }

  /** Without any search flag the defaults are rejected, whatever the arguments. */
  lemma DefaultsNeedASearch(numCPU: int, args: seq<string>, notExist: string -> bool)
    ensures ParseAndValidate(DefaultFlags(numCPU), args, notExist) == Err(MissingSearchPattern)
  {
  }

  /** A validated configuration carries exactly one search pattern. */
  lemma ValidatedHasOneSearch(flags: Flags, args: seq<string>, notExist: string -> bool)
    requires ParseAndValidate(flags, args, notExist).Ok?
    ensures var c := ParseAndValidate(flags, args, notExist).value;
      (c.searchPattern == "") != (c.searchRegexPattern == "")
  {
  }
}
