/**
  The search of `fs`: the line matcher, the file-selection rule applied at
  each call of the directory walk, the line loop of `searchInFile`, and the
  walk that searches every selected file.

  Regular expressions are foreign: `compiles(p)` says whether `regexp.Compile`
  accepts `p`, and `regexMatch(p, s)` is `MatchString` of the compiled `p` on
  `s`. The walk is given as the sequence of calls `filepath.WalkDir` makes, in
  walk order, and a file as the sequence of lines its scanner yields (`None`
  when `os.Open` fails).
*/
module FsSearch {
  import opened Wrappers
  import opened GoStrings
  import opened FsConfig

  type RegexOracle = (string, string) -> bool

  /** The two kinds of closure `createMatcher` can return. */
  datatype Matcher = Substring(pattern: string) | Regex(pattern: string)

  /** The fatal errors of `fs`. */
  datatype FsError =
    | InvalidConfig(reason: ConfigError)
    | InvalidSearchRegex(pattern: string)
    | InvalidFileRegex(pattern: string)

  /**
    `createMatcher`: a substring pattern wins; otherwise the regular
    expression is compiled, and a pattern that does not compile is fatal.
  */
  function CreateMatcher(config: Config, compiles: string -> bool): (r: Result<Matcher, FsError>)
    ensures config.searchPattern != "" ==> r == Ok(Substring(config.searchPattern))
    ensures config.searchPattern == "" ==> (r.Ok? <==> compiles(config.searchRegexPattern))
    ensures r.Ok? && r.value.Regex? ==> config.searchPattern == "" && r.value.pattern == config.searchRegexPattern
    ensures r.Err? ==> r.error == InvalidSearchRegex(config.searchRegexPattern)
  {
    if config.searchPattern != "" then Ok(Substring(config.searchPattern))
    else if compiles(config.searchRegexPattern) then Ok(Regex(config.searchRegexPattern))
    else Err(InvalidSearchRegex(config.searchRegexPattern))
  }

  /** Whether the matcher accepts `line`: an occurrence of the substring, or a regular-expression match. */
  function Accepts(m: Matcher, regexMatch: RegexOracle, line: string): (b: bool)
    ensures m.Substring? ==> (b <==> exists i: nat :: OccursAt(line, m.pattern, i))
    ensures m.Regex? ==> (b <==> regexMatch(m.pattern, line))
  {
    match m
    case Substring(p) => Contains(line, p)
    case Regex(p) => regexMatch(p, line)
  }

  /** The closure handed to the search. */
  function MatcherFunc(m: Matcher, regexMatch: RegexOracle): string -> bool {
    line => Accepts(m, regexMatch, line)
  }

  /**
    With a substring pattern the regular expression is never consulted: the
    matcher accepts a line iff the pattern occurs in it, and a line that
    holds the pattern anywhere is accepted.
  */
  lemma SubstringMatcher(config: Config, compiles: string -> bool, regexMatch: RegexOracle, a: string, b: string)
    requires config.searchPattern != ""
    ensures CreateMatcher(config, compiles).Ok?
    ensures MatcherFunc(CreateMatcher(config, compiles).value, regexMatch)(a + config.searchPattern + b)
  {
    ContainsInfix(a, config.searchPattern, b);
  }

  /** One call of the walk function: the path, the entry's name, whether it is a directory, whether an error was passed. */
  datatype DirEntry = DirEntry(path: string, name: string, isDir: bool, failed: bool)

  /**
    The skip rule of `walkDirectory`: directories are not searched (but are
    still descended into), nor is a file whose path contains the exclusion
    path or whose name does not match the file pattern.
  */
  predicate Skipped(e: DirEntry, config: Config, regexMatch: RegexOracle): (b: bool)
    ensures b <==>
      || e.isDir
      || (exists i: nat :: OccursAt(e.path, config.exclusionPath, i))
      || !regexMatch(config.filePattern, e.name)
  {
    e.isDir || Contains(e.path, config.exclusionPath) || !regexMatch(config.filePattern, e.name)
  }

  /** The empty string occurs in every path, so an empty exclusion path skips every entry. */
  lemma EmptyExclusionSkipsAll(e: DirEntry, config: Config, regexMatch: RegexOracle)
    requires config.exclusionPath == ""
    ensures Skipped(e, config, regexMatch)
  {
    ContainsEmpty(e.path);
  }

  /** The exclusion is by substring: it applies anywhere in the path, not only to whole components. */
  lemma ExclusionAnywhere(e: DirEntry, config: Config, regexMatch: RegexOracle, a: string, b: string)
    requires e.path == a + config.exclusionPath + b
    ensures Skipped(e, config, regexMatch)
  {
    ContainsInfix(a, config.exclusionPath, b);
  }

  /** The files the walk hands to the search, and whether an error ended the walk. */
  datatype Selection = Selection(files: seq<string>, aborted: bool)

  /** Some callback call among `entries` is passed an error. */
  predicate AnyFailed(entries: seq<DirEntry>) {
    exists i :: 0 <= i < |entries| && entries[i].failed
  }

  /** The walk callback over the calls in `entries`: an error ends the walk, skipped entries are passed over. */
  function Select(entries: seq<DirEntry>, config: Config, regexMatch: RegexOracle): (r: Selection)
    ensures |r.files| <= |entries|
    ensures r.aborted <==> AnyFailed(entries)
    decreases |entries|
  {
    if entries == [] then Selection([], false)
    else
      var e := entries[0];
      if e.failed then Selection([], true)
      else
        var rest := Select(entries[1..], config, regexMatch);
        assert forall i :: 0 < i < |entries| ==> entries[i] == entries[1..][i - 1];
        assert rest.aborted ==> AnyFailed(entries[1..]);
        if Skipped(e, config, regexMatch) then rest else rest.(files := [e.path] + rest.files)
  }

  /** `files` followed by what the rest of the walk selects. */
  function ThenSelect(files: seq<string>, rest: Selection): Selection {
    rest.(files := files + rest.files)
  }

  /** One step of the walk on a call that was not passed an error. */
  lemma SelectStep(entries: seq<DirEntry>, config: Config, regexMatch: RegexOracle)
    requires entries != [] && !entries[0].failed
    ensures Select(entries, config, regexMatch) ==
      ThenSelect(if Skipped(entries[0], config, regexMatch) then [] else [entries[0].path], Select(entries[1..], config, regexMatch))
  {
  }

  lemma ThenSelectThen(a: seq<string>, b: seq<string>, rest: Selection)
    ensures ThenSelect(a, ThenSelect(b, rest)) == ThenSelect(a + b, rest)
  {
    assert a + (b + rest.files) == (a + b) + rest.files;
  }

  /** No call before index `j` passed an error. */
  predicate NoErrorBefore(entries: seq<DirEntry>, j: int) {
    forall i :: 0 <= i < j && i < |entries| ==> !entries[i].failed
  }

  /** Every searched file is an entry, reached before any error, that is not skipped. */
  lemma {:induction false} SelectSound(entries: seq<DirEntry>, config: Config, regexMatch: RegexOracle, p: string)
    requires p in Select(entries, config, regexMatch).files
    ensures exists j ::
      0 <= j < |entries| && NoErrorBefore(entries, j + 1) && entries[j].path == p && !Skipped(entries[j], config, regexMatch)
    decreases |entries|
  {
    var e := entries[0];
    if !Skipped(e, config, regexMatch) && e.path == p {
      assert NoErrorBefore(entries, 1);
    } else {
      SelectSound(entries[1..], config, regexMatch, p);
      var j :| 0 <= j < |entries[1..]| && NoErrorBefore(entries[1..], j + 1) &&
        entries[1..][j].path == p && !Skipped(entries[1..][j], config, regexMatch);
      assert entries[j + 1] == entries[1..][j];
      forall i | 0 <= i < j + 2 && i < |entries| ensures !entries[i].failed {
        if i > 0 { assert entries[i] == entries[1..][i - 1]; }
      }
    }
  }

  /** Every entry that is not skipped, reached before any error, is searched. */
  lemma {:induction false} SelectComplete(entries: seq<DirEntry>, config: Config, regexMatch: RegexOracle, j: nat)
    requires j < |entries| && NoErrorBefore(entries, j + 1)
    requires !Skipped(entries[j], config, regexMatch)
    ensures entries[j].path in Select(entries, config, regexMatch).files
    decreases j
  {
    if j > 0 {
      assert !entries[0].failed;
      assert entries[1..][j - 1] == entries[j];
      forall i | 0 <= i < j && i < |entries[1..]| ensures !entries[1..][i].failed {
        assert entries[1..][i] == entries[i + 1];
      }
      SelectComplete(entries[1..], config, regexMatch, j - 1);
    }
  }

  /** One line written by `searchInFile`: the path and the matched line, separated by tabs. */
  datatype Hit = Hit(path: string, line: string)

  /** The characters trimmed from the end of each scanned line. */
  const LINE_END: string := "\r\n"

  /** The hits for the scanned `lines` of the file at `path`, in file order. */
  function Emitted(path: string, lines: seq<string>, accepts: string -> bool): (hits: seq<Hit>)
    ensures |hits| <= |lines|
    ensures forall k :: 0 <= k < |hits| ==> hits[k].path == path && accepts(hits[k].line)
    decreases |lines|
  {
    if lines == [] then []
    else
      var line := TrimRight(lines[|lines| - 1], LINE_END);
      var prev := Emitted(path, lines[..|lines| - 1], accepts);
      if accepts(line) then prev + [Hit(path, line)] else prev
  }

  /** The hits for a file, or none when it cannot be opened. */
  function FileHits(path: string, file: Option<seq<string>>, accepts: string -> bool): seq<Hit> {
    if file.None? then [] else Emitted(path, file.value, accepts)
  }

  /** Lines are filtered independently: the hits for two runs of lines are those of the first followed by those of the second. */
  lemma {:induction false} EmittedAppend(path: string, a: seq<string>, b: seq<string>, accepts: string -> bool)
    ensures Emitted(path, a + b, accepts) == Emitted(path, a, accepts) + Emitted(path, b, accepts)
    decreases |b|
  {
    if b == [] {
      assert a + b == a;
    } else {
      var b' := b[..|b| - 1];
      assert (a + b)[..|a + b| - 1] == a + b';
      assert (a + b)[|a + b| - 1] == b[|b| - 1];
      EmittedAppend(path, a, b', accepts);
    }
  }

  /** `text` is some scanned line trimmed of trailing carriage returns and newlines. */
  predicate IsScanned(lines: seq<string>, text: string) {
    exists i :: 0 <= i < |lines| && text == TrimRight(lines[i], LINE_END)
  }

  /** A text is scanned from `lines` iff it is scanned from all but the last line, or is the last line's. */
  lemma IsScannedSnoc(lines: seq<string>, text: string)
    requires lines != []
    ensures IsScanned(lines, text) <==>
      IsScanned(lines[..|lines| - 1], text) || text == TrimRight(lines[|lines| - 1], LINE_END)
  {
    var init := lines[..|lines| - 1];
    if IsScanned(lines, text) {
      var i :| 0 <= i < |lines| && text == TrimRight(lines[i], LINE_END);
      if i < |init| {
        assert init[i] == lines[i];
      }
    }
    if IsScanned(init, text) {
      var i :| 0 <= i < |init| && text == TrimRight(init[i], LINE_END);
      assert lines[i] == init[i];
    }
  }

  /**
    A hit is written iff it names this file and its text is some scanned line,
    trimmed of trailing carriage returns and newlines, that the matcher accepts.
  */
  lemma {:induction false} EmittedMembership(path: string, lines: seq<string>, accepts: string -> bool, h: Hit)
    ensures h in Emitted(path, lines, accepts) <==> h.path == path && accepts(h.line) && IsScanned(lines, h.line)
    decreases |lines|
  {
    if lines != [] {
      var init := lines[..|lines| - 1];
      EmittedMembership(path, init, accepts, h);
      IsScannedSnoc(lines, h.line);
    }
  }

  /** No written line ends in a carriage return or newline. */
  lemma EmittedLinesTrimmed(path: string, lines: seq<string>, accepts: string -> bool, h: Hit)
    requires h in Emitted(path, lines, accepts)
    ensures h.line == [] || (h.line[|h.line| - 1] != '\r' && h.line[|h.line| - 1] != '\n')
  {
    EmittedMembership(path, lines, accepts, h);
  }

  /** With a substring matcher, the written lines are exactly the trimmed lines holding the pattern. */
  lemma SubstringHits(path: string, lines: seq<string>, pattern: string, regexMatch: RegexOracle, h: Hit)
    ensures h in Emitted(path, lines, MatcherFunc(Substring(pattern), regexMatch)) <==>
      h.path == path && (exists k: nat :: OccursAt(h.line, pattern, k)) &&
      exists i :: 0 <= i < |lines| && h.line == TrimRight(lines[i], LINE_END)
  {
    EmittedMembership(path, lines, MatcherFunc(Substring(pattern), regexMatch), h);
  }

  /**
    The line loop of `searchInFile`: open the file (a failure writes
    nothing) and write every trimmed line the matcher accepts, in order.
    On a Unix system `filepath.ToSlash` leaves the path as it is.
  */
  method SearchInFile(path: string, file: Option<seq<string>>, accepts: string -> bool) returns (hits: seq<Hit>)
    ensures hits == FileHits(path, file, accepts)
  {
    hits := [];
    if file.None? {
      return;
    }
    var lines := file.value;
    for i := 0 to |lines|
      invariant hits == Emitted(path, lines[..i], accepts)
    {
      var line := TrimRight(lines[i], LINE_END);
      assert lines[..i + 1][..i] == lines[..i];
      if accepts(line) {
        hits := hits + [Hit(path, line)];
      }
    }
    assert lines[..|lines|] == lines;
  }

  /** The hits of searching `files` one after the other. */
  function SearchAll(files: seq<string>, open: string -> Option<seq<string>>, accepts: string -> bool): seq<Hit>
    decreases |files|
  {
    if files == [] then []
    else
      var f := files[|files| - 1];
      SearchAll(files[..|files| - 1], open, accepts) + FileHits(f, open(f), accepts)
  }

  /** Every hit of a file names that file. */
  lemma FileHitsPath(path: string, file: Option<seq<string>>, accepts: string -> bool, h: Hit)
    requires h in FileHits(path, file, accepts)
    ensures h.path == path
  {
    EmittedMembership(path, file.value, accepts, h);
  }

  /** A hit is written iff its file was selected and the hit is one of that file's. */
  lemma {:induction false} SearchAllMembership(files: seq<string>, open: string -> Option<seq<string>>, accepts: string -> bool, h: Hit)
    ensures h in SearchAll(files, open, accepts) <==> h.path in files && h in FileHits(h.path, open(h.path), accepts)
    decreases |files|
  {
    if files != [] {
      var init := files[..|files| - 1];
      var f := files[|files| - 1];
      SearchAllMembership(init, open, accepts, h);
      assert files == init + [f];
      assert SearchAll(files, open, accepts) == SearchAll(init, open, accepts) + FileHits(f, open(f), accepts);
      if h in FileHits(f, open(f), accepts) {
        FileHitsPath(f, open(f), accepts, h);
      }
    }
  }

  /** One call of the walk callback, seen from the whole walk: `files` were selected before call `i`. */
  lemma SelectAdvance(entries: seq<DirEntry>, i: nat, files: seq<string>, config: Config, regexMatch: RegexOracle)
    requires i < |entries|
    requires Select(entries, config, regexMatch) == ThenSelect(files, Select(entries[i..], config, regexMatch))
    ensures entries[i].failed ==> Select(entries, config, regexMatch) == Selection(files, true)
    ensures !entries[i].failed ==>
      Select(entries, config, regexMatch) ==
        ThenSelect(files + (if Skipped(entries[i], config, regexMatch) then [] else [entries[i].path]),
          Select(entries[i + 1..], config, regexMatch))
  {
    var rest := entries[i..];
    assert rest[0] == entries[i] && rest[1..] == entries[i + 1..];
    if entries[i].failed {
      assert files + [] == files;
    } else {
      SelectStep(rest, config, regexMatch);
      ThenSelectThen(files, if Skipped(entries[i], config, regexMatch) then [] else [entries[i].path],
        Select(entries[i + 1..], config, regexMatch));
    }
  }

  /** What a completed walk produced: the lines written and whether the walk reported an error. */
  datatype WalkOutcome = WalkOutcome(hits: seq<Hit>, walkFailed: bool)

  /**
    `walkDirectory`: compile the file pattern (fatal when it does not
    compile), then walk, searching every selected file; a walk error ends the
    walk and is reported.
  */
  method WalkDirectory(config: Config, accepts: string -> bool, compiles: string -> bool, regexMatch: RegexOracle,
                       entries: seq<DirEntry>, open: string -> Option<seq<string>>)
    returns (r: Result<WalkOutcome, FsError>)
    ensures !compiles(config.filePattern) ==> r == Err(InvalidFileRegex(config.filePattern))
    ensures compiles(config.filePattern) ==> r == Ok(WalkOutcome(
      SearchAll(Select(entries, config, regexMatch).files, open, accepts),
      Select(entries, config, regexMatch).aborted))
  {
    if !compiles(config.filePattern) {
      return Err(InvalidFileRegex(config.filePattern));
    }
    var hits: seq<Hit> := [];
    var walkFailed := false;
    ghost var files: seq<string> := [];
    var i := 0;
    assert entries[i..] == entries;
    assert Select(entries, config, regexMatch).files == files + Select(entries, config, regexMatch).files;
    while i < |entries| && !walkFailed
      invariant 0 <= i <= |entries|
      invariant !walkFailed ==> Select(entries, config, regexMatch) == ThenSelect(files, Select(entries[i..], config, regexMatch))
      invariant walkFailed ==> Select(entries, config, regexMatch) == Selection(files, true)
      invariant hits == SearchAll(files, open, accepts)
      decreases |entries| - i, !walkFailed
    {
      var e := entries[i];
      SelectAdvance(entries, i, files, config, regexMatch);
      if e.failed {
        walkFailed := true;
      } else {
        if !Skipped(e, config, regexMatch) {
          var found := SearchInFile(e.path, open(e.path), accepts);
          assert (files + [e.path])[..|files|] == files;
          assert SearchAll(files + [e.path], open, accepts) == hits + found;
          hits := hits + found;
          files := files + [e.path];
        }
        i := i + 1;
      }
    }
    if !walkFailed {
      assert entries[i..] == [];
      assert files + [] == files;
    }
    return Ok(WalkOutcome(hits, walkFailed));
  }

  /**
    `main` of `fs`: validate the flags, build the matcher, then walk the
    tree rooted at the configured search path; the first fatal error wins.
    `entries` is the walk from that search path.
  */
  method Fs(flags: Flags, args: seq<string>, notExist: string -> bool, compiles: string -> bool, regexMatch: RegexOracle,
            entries: seq<DirEntry>, open: string -> Option<seq<string>>)
    returns (r: Result<WalkOutcome, FsError>)
    ensures ParseAndValidate(flags, args, notExist).Err? ==> r == Err(InvalidConfig(ParseAndValidate(flags, args, notExist).error))
    ensures ParseAndValidate(flags, args, notExist).Ok? ==>
      var config := ParseAndValidate(flags, args, notExist).value;
      var matcher := CreateMatcher(config, compiles);
      && (matcher.Err? ==> r == Err(matcher.error))
      && (matcher.Ok? && !compiles(config.filePattern) ==> r == Err(InvalidFileRegex(config.filePattern)))
      && (matcher.Ok? && compiles(config.filePattern) ==> r == Ok(WalkOutcome(
        SearchAll(Select(entries, config, regexMatch).files, open, MatcherFunc(matcher.value, regexMatch)),
        Select(entries, config, regexMatch).aborted)))
  {
    var parsed := ParseAndValidate(flags, args, notExist);
    if parsed.Err? {
      return Err(InvalidConfig(parsed.error));
    }
    var config := parsed.value;
    var matcher := CreateMatcher(config, compiles);
    if matcher.Err? {
      return Err(matcher.error);
    }
    r := WalkDirectory(config, MatcherFunc(matcher.value, regexMatch), compiles, regexMatch, entries, open);
  }
}
