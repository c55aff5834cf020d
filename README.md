# gobin: `gitu` and `fs` in Dafny

This project models the core of two small command-line tools from the gobin
collection and proves properties of that model.

**`gitu`** walks a directory tree to find git repositories. A repository is
found as the parent of a directory named `.git`. For each repository it runs
four policy checks through the `git` client, in a fixed order:

- not on the target branch;
- uncommitted changes;
- unpushed commits;
- no remote updates.

Every check runs, whatever the earlier ones found. The repository's display
name (the last path element) is appended to the list of each check it fails.
When it fails none, `gitu` pulls it, and a successful pull appends the name to
`updatedRepos`. Any failed `git` invocation reads as empty output. Successful
output is trimmed of surrounding white space.

**`fs`** validates its flags. Exactly one of a substring and a regular
expression search pattern must be given, and an optional search path must
exist. A module number can replace the file pattern with an extension
pattern. `fs` then walks the tree and skips:

- directories;
- paths containing the exclusion path;
- names the file pattern rejects.

In each remaining file, every scanned line is trimmed of trailing `\r`/`\n`,
and `fs` writes the lines the matcher accepts, in file order.

Modules:

- `Wrappers` (`wrappers.dfy`): `Option` and `Result`.
- `GoStrings` (`go_strings.dfy`): `strings.TrimSpace` with Go's `unicode.IsSpace` set, `strings.TrimRight` and `strings.Contains`.
- `FilePath` (`file_path.dfy`): `filepath.Base` and `filepath.Dir` for `/`-separated paths, and the relation "strictly beneath a directory".
- `GituChecks` (`gitu_checks.dfy`): `executeGitCommand`'s normalisation, the four checks and `gitPull`. The `git` client is an oracle from (repository path, arguments) to `None` (the command failed) or `Some(stdout)`.
- `GituStatus` (`gitu_status.dfy`): `repoStatusStruct` as the class `RepoStatus`, and `processRepository` as its method, proved against the specification function `Processed`. Also the fold `RunAll` over all repositories and the lemmas about both.
- `GituDiscovery` and `GituMain` (`gitu_discovery.dfy`):
  - the walk primitive `Walk`, generic over its callback;
  - the `.git` callback `Visit`;
  - discovery `Discover`;
  - `main`'s loop `Gitu`, which processes each repository as the walk finds it.
- `FsConfig` (`fs_config.dfy`): flag defaults, `setFilePattern`, and the validation of `parseAndValidateFlags`.
- `FsSearch` (`fs_search.dfy`):
  - `createMatcher` and the matcher;
  - the skip rule and the walk's file selection;
  - the line loop of `searchInFile` as a method proved against `Emitted`;
  - `walkDirectory` and `main` of `fs`.

Behaviours of the code worth knowing, which the model follows:

- **Pruning.** The callback returns `filepath.SkipDir` for the `.git`
  directory itself. This prunes only that directory, so the repository's
  working tree is still walked and a repository nested inside another one is
  found: `GituDiscovery.DiscoverNested`.
- **Walk errors.** The callback returns any error it is passed, so the first
  walk error ends the walk: `GituDiscovery.FirstErrorStopsWalk`.
- **Trimming.** `strings.TrimSpace` removes white space at both ends of a
  command's output.
- **Failed pulls.** A repository that passes every check but whose pull fails
  appears in none of the five lists: `GituStatus.PullFailureRecordsNothing`.
- **Silent fetch.** `noRemoteUpdates` is true when `git fetch` writes nothing
  to standard output, whatever the status says afterwards, and also when the
  fetch fails: `GituChecks.SilentFetchMeansNoUpdates`. Since `git fetch`
  reports on standard error, this is listed under "Findings" below.

## Model

| member | source | states |
|---|---|---|
| GoStrings.TrimSpace | gitu/main.go:197 | the result is a slice of the input with only white space (Go's `unicode.IsSpace`) before and after it, and neither starts nor ends with white space |
| GoStrings.TrimSpaceUnique | gitu/main.go:197 | trimming is determined by that contract: any split of the input into spaces, a core without edge spaces, and spaces trims to that core |
| GoStrings.TrimSpaceIdempotent | gitu/main.go:197 | trimming an already trimmed string changes nothing |
| GoStrings.TrimRight | fs/main.go:177 | the result is a prefix of the input, every removed character is in the cut set, and the result does not end in a cut-set character |
| GoStrings.Contains | gitu/main.go:160 | true iff the substring occurs in the string at some index |
| GoStrings.ContainsEmpty | fs/main.go:143 | every string contains the empty string |
| GoStrings.ContainsInfix | fs/main.go:102 | a string contains every one of its infixes |
| FilePath.Base | gitu/main.go:79 | "." for the empty path and "/" for a path of separators only; otherwise, after trailing separators are cut, the last element: a non-empty suffix without a separator that is the whole path or follows a separator |
| FilePath.Dir | gitu/main.go:80 | "." when the path has no separator; otherwise the path before its last separator with trailing separators cut, or "/" when only separators precede that separator |
| FilePath.DirJoinBase | gitu/main.go:79-80 | for a walk path below a non-root directory, `Dir`, a separator and `Base` put back together give the path |
| GituChecks.ExecuteGitCommand | gitu/main.go:184-198 | a failed invocation gives ""; a successful one gives its standard output with only white space removed around it, and the result has no white space at either edge |
| GituChecks.FailureLooksLikeSilence | gitu/main.go:192-195 | a failed command and a command printing nothing both give "" |
| GituChecks.SilentIffBlank | gitu/main.go:191-197 | a successful command gives "" iff its output is all white space |
| GituChecks.BlankOutputIsEmpty | gitu/main.go:197 | output made only of white space gives "" |
| GituChecks.PaddedOutput | gitu/main.go:197 | output that is a core wrapped in white space gives exactly that core |
| GituChecks.NotOnBranch | gitu/main.go:144-146 | when the branch query fails, true iff the target branch name is non-empty; otherwise true iff the trimmed query output differs from the target |
| GituChecks.FailedBranchQueryIsNotOnBranch | gitu/main.go:144-146 | a failed (e.g. timed-out) branch query makes the repository "not on branch" for any non-empty target |
| GituChecks.BranchWithNewlineMatches | gitu/main.go:144-146 | a branch name reported with a trailing newline still equals the target |
| GituChecks.HasUncommittedChanges | gitu/main.go:148-150 | true iff `status --porcelain` succeeded with output that is not all white space; a failed command gives false |
| GituChecks.HasUnpushedCommits | gitu/main.go:152-154 | true iff `cherry -v` succeeded with output that is not all white space; a failed command gives false |
| GituChecks.NonEmptyIffNotBlank | gitu/main.go:191-197 | a normalised answer is non-empty iff the command succeeded with output that is not all white space |
| GituChecks.NoRemoteUpdates | gitu/main.go:156-161 | true when the fetch failed or printed only white space; otherwise true iff the trimmed `status -uno` output contains "Your branch is up to date" |
| GituChecks.GitPull | gitu/main.go:163-182 | true iff `git pull` succeeded |
| GituChecks.SilentFetchMeansNoUpdates | gitu/main.go:157-159 | a fetch that succeeds with empty output makes "no remote updates" true |
| GituChecks.NoRemoteUpdatesAfterFetch | gitu/main.go:156-161 | the refreshed check: true when the fetch failed; after a successful fetch, true iff the trimmed `status -uno` output contains "Your branch is up to date" |
| GituChecks.SilentFetchHidesBehindBranch | gitu/main.go:157-160 | a silent successful fetch followed by a status without "up to date" gives "no remote updates" as written but "updates" under the refreshed check |
| GituStatus.Append | gitu/main.go:121-131 | one append adds the name at the end of the chosen list and leaves the other four lists unchanged |
| GituStatus.RunChecksPassed | gitu/main.go:117-135 | after the first `n` checks, `allChecksPassed` holds iff none of them failed |
| GituStatus.RunChecksLists | gitu/main.go:119-135 | after the first `n` checks, a check's list has gained the project name iff that check is among them and failed; `updatedRepos` is untouched |
| GituStatus.ProcessWithLists | gitu/main.go:117-141 | for any check verdicts and pull outcome, each list grows by exactly the repository's contribution to it |
| GituStatus.ProcessedLists | gitu/main.go:105-142 | one `processRepository` call extends each list by the project name iff it failed that list's check, and `updatedRepos` iff all passed and the pull succeeded |
| GituStatus.FailedCheckTouchesOwnList | gitu/main.go:119-135 | a failed check appends the project name to its own list; a passed check leaves its list unchanged |
| GituStatus.UpdatedIffAllPassAndPulled | gitu/main.go:137-141 | the name is appended to `updatedRepos` iff no check failed and `gitPull` succeeded; any failed check leaves `updatedRepos` unchanged |
| GituStatus.PullFailureRecordsNothing | gitu/main.go:137-141 | when every check passes but the pull fails, all five lists are unchanged |
| GituStatus.ProcessedOnlyAppends | gitu/main.go:121-140 | each list keeps its old contents as a prefix and grows by at most one name |
| GituStatus.UpdateExcludesFailureLists | gitu/main.go:117-141 | a call that appends to `updatedRepos` appends to no failure list |
| GituStatus.RunAllLists | gitu/main.go:84-88 | after processing a sequence of repositories, each list is its old contents followed by every repository's contribution, in processing order |
| GituStatus.ConcatPermutation | gitu/main.go:84-88 | concatenating per-repository contributions over two permutations of the repositories gives permutations of each other |
| GituStatus.RunOrderIrrelevant | gitu/main.go:84-88 | processing the same repositories in any order leaves every list with the same names, counted with multiplicity |
| GituStatus.RunAllMembership | gitu/main.go:105-142 | after a run from empty lists, a name is in a check's list iff a repository of that name failed the check, and in `updatedRepos` iff one passed every check and pulled |
| GituStatus.UpdatedDisjointFromFailures | gitu/main.go:105-142 | when repository names are distinct, no name in `updatedRepos` is in any failure list |
| GituStatus.FourRepositoryScenario | gitu/main.go:105-161 | four repositories with up-to-date, uncommitted, unpushed and pulled outcomes land in exactly `noUpdates`, `uncommittedChanges`, `unpushedCommits` and `updatedRepos` |
| GituStatus.FailedBranchQueryScenario | gitu/main.go:144-146 | a repository whose branch query fails is listed as not on branch and is not added to `updatedRepos` |
| GituStatus.SilentFetchNeverUpdates | gitu/main.go:117-161 | as written, a fetch with empty output appends the name to `noUpdates` and leaves `updatedRepos` unchanged, whatever the other commands answer |
| GituStatus.RefreshedBehindRepoIsUpdated | gitu/main.go:117-161 | with the refreshed check, a repository on the branch, clean, with nothing unpushed, behind after the fetch and pulled successfully is appended to `updatedRepos` and to no other list |
| GituStatus.RepoStatus.constructor | gitu/main.go:64-70 | the five lists start empty |
| GituStatus.RepoStatus.Record | gitu/main.go:121-140 | one append under the mutex: the name goes to the end of the chosen list and the other four lists are unchanged |
| GituStatus.RepoStatus.RunCheckLoop | gitu/main.go:117-135 | the loop over the four checks in order, never stopping early, leaves the lists and `allChecksPassed` exactly as `RunChecks` says |
| GituStatus.RepoStatus.ProcessRepository | gitu/main.go:105-142 | the loop over the four checks and the guarded pull leave the lists exactly as `Processed` says |
| GituDiscovery.Visit | gitu/main.go:74-94 | the callback returns the error iff it is passed one; it returns `SkipDir` iff it gets a directory named `.git` without an error, and then schedules that directory's parent |
| GituDiscovery.Walk | gitu/main.go:74-94 | the walk schedules at most one repository per call, and an aborted walk has some listed entry for which the callback returns an error; `AbortedIffReachedStop` narrows this to a call the walk reached |
| GituDiscovery.WalkOne | gitu/main.go:74-94 | a single callback call that is hidden by a pruned directory or returns no error does not end the walk, and leaves the pruned directory the call sets |
| GituDiscovery.WalkSound | gitu/main.go:74-94 | every repository the walk schedules was returned via `SkipDir` by the callback for a call the walk actually made: no earlier error ended the walk and no earlier pruned directory hid it |
| GituDiscovery.DiscoverSound | gitu/main.go:79-80 | every scheduled repository is `filepath.Dir` of a `.git` directory that the walk reached, with no earlier error and not beneath an earlier `.git` directory |
| GituDiscovery.DiscoverSkipsPruned | gitu/main.go:79-90 | an entry beneath an already pruned `.git` directory is not visited: the walk continues as if it were absent |
| GituDiscovery.WalkComplete | gitu/main.go:74-94 | the converse of `WalkSound`: a `SkipDir` call the walk reaches (no earlier error ended it, no pruned directory hides it) schedules its repository |
| GituDiscovery.WalkCompleteUnpruned | gitu/main.go:74-94 | a `SkipDir` call with no stopping call before it and beneath no earlier `SkipDir` call's directory schedules its repository |
| GituDiscovery.ReachedStopAborts | gitu/main.go:75-77 | a reached call at which the callback returns an error ends the walk in error |
| GituDiscovery.AbortedAtReachedStop | gitu/main.go:75-77 | a walk that ends in error reached a call at which the callback returned an error |
| GituDiscovery.AbortedIffReachedStop | gitu/main.go:74-94 | the walk ends in error iff it reaches a call at which the callback returns an error |
| GituDiscovery.DiscoverComplete | gitu/main.go:79-90 | every `.git` directory the walk reaches without an error (no earlier error ended the walk, beneath no pruned `.git` directory) is discovered, even when an error lies inside an earlier pruned `.git` |
| GituDiscovery.DiscoverNested | gitu/main.go:79-90 | a `.git` directory beneath no earlier `.git` directory, with no error up to it, is discovered, so nested repositories are found |
| GituDiscovery.WalkAppend | gitu/main.go:74-77 | once an error has ended the walk nothing after it is looked at; otherwise the walk of a concatenation is the first walk's repositories followed by the second's |
| GituDiscovery.NoStopNoAbort | gitu/main.go:75-77 | a walk whose callback never returns an error is not aborted |
| GituDiscovery.FirstErrorStopsWalk | gitu/main.go:75-77 | an error the walk reaches (none ended it before, no pruned directory hides it) ends it: nothing after it yields a repository |
| GituMain.Gitu | gitu/main.go:52-103 | the report is the run of `processRepository` over the discovered repositories in walk order, starting from empty lists, and the walk error is reported iff the walk aborted |
| FsConfig.DefaultFlags | fs/main.go:43-48 | by default neither search pattern is set and the module number is 0 |
| FsConfig.SetFilePattern | fs/main.go:80-96 | for modules 1 to 9 the pattern `\.ext$` for the module's extension (java, yml, yaml, xml, txt, properties, json, py, php); for any other value the given file pattern |
| FsConfig.OverrideIsAnchoredExtension | fs/main.go:81-91 | every override is an escaped dot, lower-case letters and a `$` anchor |
| FsConfig.SearchPath | fs/main.go:60-63 | "." without positional arguments, otherwise the first one |
| FsConfig.ParseAndValidate | fs/main.go:53-76 | accepted iff exactly one search pattern is set and the given search path does not fail with "does not exist"; each error in its checking order; an accepted configuration carries the override, the flags and the search path |
| FsConfig.DefaultsNeedASearch | fs/main.go:43-55 | the default flags are rejected for lack of a search pattern |
| FsConfig.ValidatedHasOneSearch | fs/main.go:53-58 | a validated configuration has exactly one non-empty search pattern |
| FsSearch.CreateMatcher | fs/main.go:99-113 | a substring pattern always yields the substring matcher; otherwise a regex matcher iff the pattern compiles, and the compile error otherwise |
| FsSearch.Accepts | fs/main.go:100-112 | the substring matcher accepts a line iff the pattern occurs in it; the regex matcher iff the expression matches |
| FsSearch.SubstringMatcher | fs/main.go:100-104 | with a substring pattern the matcher is built without compiling anything and accepts every line holding the pattern |
| FsSearch.Skipped | fs/main.go:143-145 | an entry is skipped iff it is a directory, or the exclusion path occurs in its path, or its name fails the file pattern |
| FsSearch.EmptyExclusionSkipsAll | fs/main.go:143 | an empty exclusion path skips every entry |
| FsSearch.ExclusionAnywhere | fs/main.go:143 | the exclusion path excludes a file wherever it occurs in the path |
| FsSearch.SelectSound | fs/main.go:138-156 | every file handed to the search is a non-skipped entry reached before any walk error |
| FsSearch.SelectComplete | fs/main.go:138-156 | every non-skipped entry reached before any walk error is handed to the search |
| FsSearch.Select | fs/main.go:138-156 | at most one file per callback call is handed to the search, and the walk ends in error iff some call of the callback is passed an error |
| FsSearch.Emitted | fs/main.go:176-181 | at most one line is written per scanned line, and every written line is tagged with this file's path and accepted by the matcher |
| FsSearch.EmittedAppend | fs/main.go:176-181 | the lines written for two consecutive runs of lines are those of the first followed by those of the second, so file order is kept |
| FsSearch.EmittedMembership | fs/main.go:176-181 | a line is written iff it is some scanned line, trimmed of trailing `\r`/`\n`, that the matcher accepts, tagged with this file's path |
| FsSearch.EmittedLinesTrimmed | fs/main.go:177 | no written line ends in `\r` or `\n` |
| FsSearch.SubstringHits | fs/main.go:176-181 | with a substring matcher, the written lines are exactly the trimmed lines containing the pattern |
| FsSearch.SearchInFile | fs/main.go:165-186 | a file that cannot be opened gives no lines; otherwise the loop writes exactly `Emitted` of its lines |
| FsSearch.SearchAllMembership | fs/main.go:138-156 | a line is written iff its file was handed to the search and the line is one of that file's |
| FsSearch.WalkDirectory | fs/main.go:129-162 | an uncompilable file pattern is fatal; otherwise the written lines are the searches of the selected files in walk order, and the walk error is reported iff the walk ended in error |
| FsSearch.Fs | fs/main.go:27-39 | a configuration error, then a search-regex error, then a file-pattern error is fatal, in that order; otherwise the outcome of the walk with the configured matcher |

## Left out

- Subprocess execution: `exec.Command`/`CommandContext`, the ten-second timeout of `executeGitCommand`, standard-error capture and the log messages are left out. Each `git` invocation is an oracle answer, either failure or standard output. The answer depends only on the repository and the arguments, because each command is issued at most once per repository. The effect of `fetch` on a later `status -uno` is part of the oracle's answer.
- `gitPull` printing the pull output is left out; only success or failure is modelled.
- Concurrency is left out: goroutines, the semaphore, the `sync.WaitGroup` and the mutexes. The run is a sequential fold in walk order. `GituStatus.RunOrderIrrelevant` states what the mutex-guarded appends of the concurrent workers guarantee for any other order.
- Output lines of `fs` from different files can interleave when printed concurrently. The model writes the files one after another; order within a file is kept.
- The walk primitives are given as their sequence of callback calls in walk order: `filepath.Walk`, `filepath.WalkDir` and the lexical ordering of entries. `os.Getwd` is left out; the listing starts where the walk starts.
- `os.Stat` is a predicate "fails with a not-exist error". `os.Open` is an `Option` of the file's scanned lines.
- `bufio.Scanner`'s line splitting is left out. A file is the sequence of tokens the scanner yields before it stops. The token size limit and the log line on `scanner.Err` are not modelled.
- `regexp` compilation and matching are foreign: a compile predicate and a match oracle.
- Flag parsing, `printConfig`, `printResults`, `printList`, and all `fmt`/`log` output are left out. `log.Fatalf` becomes an error result. `Parallelism` is kept in the configuration but has no effect in a sequential model.
- GituChecks.GitPull: `git pull` runs without a timeout; the model assumes it terminates. A hung pull keeps its semaphore slot, so `wg.Wait()` never returns and no report is printed.
- GituMain.Gitu: assumes a positive parallelism. A negative `-p` panics in `make(chan struct{}, n)` before the walk; `-p 0` blocks forever on the semaphore at the first repository found, and Go aborts with a deadlock and no report.
- FsSearch.WalkDirectory: assumes a positive parallelism. A negative `-P` panics in `make(chan struct{}, n)` right after the file pattern compiles; `-P 0` blocks forever on the semaphore at the first selected file, and Go aborts with a deadlock.
- FsSearch.Fs: assumes a positive parallelism, as `WalkDirectory` does; `ParseAndValidate` accepts any `-P`, as the flag parsing does, and `Fs` then promises a walk outcome that the program reaches only for a positive value.
- FilePath.Dir: does not model `filepath.Clean`'s removal of `.` and `..` elements. It is exact for paths whose directory part is already clean, as the walk produces.
- Windows paths, volume names and the `filepath.FromSlash`/`ToSlash` conversions are left out. These conversions are the identity on Unix.
- Strings are sequences of Unicode code points. Invalid UTF-8 in command output is not modelled.

## Findings

| source | as written | input that shows it | evidently intended | confidence | as-written member | corrected member |
|---|---|---|---|---|---|---|
| gitu/main.go:156-161 | `noRemoteUpdates` returns true whenever `git fetch` prints nothing on standard output, so such a repository is listed in `noUpdates` and never pulled | a repository behind its upstream: `git fetch` succeeds and, as usual, reports only on standard error; `git status -uno` then says the branch is behind | only a failed fetch short-cuts to "no updates"; after a successful fetch the `status -uno` output decides, so the repository is pulled when every other check passes | medium, not executed | GituStatus.SilentFetchNeverUpdates | GituStatus.RefreshedBehindRepoIsUpdated |

The model of `processRepository` (`RepoStatus.ProcessRepository`, `Processed`) and of `main` follows the code as written. `ProcessedRefreshed` is the same evaluation with `NoRemoteUpdatesAfterFetch` in place of `noRemoteUpdates`; it is built from `ProcessWith`, so every lemma stated for `ProcessWith` (`ProcessWithLists`, `ProcessUpdate`) holds for it, and `RepoStatus.RunCheckLoop` runs either set of verdicts.
