/**
  The four policy checks of `gitu` and the command runner they are built on.

  The external `git` client is an oracle: `git(repoPath, args)` is `None` when
  `git -C repoPath args...` fails and `Some(out)` with its standard output when
  it succeeds. For the commands of `executeGitCommand` a failure is a non-zero
  exit, the ten-second timeout or a spawn failure; `git pull` runs without a
  timeout, and its answer is its exit status.
  During one evaluation of a repository every distinct command is issued at
  most once, so a function of (path, arguments) can answer any run.
*/
module GituChecks {
  import opened Wrappers
  import opened GoStrings

  type GitOracle = (string, seq<string>) -> Option<string>

  const REV_PARSE_HEAD: seq<string> := ["rev-parse", "--abbrev-ref", "HEAD"]
  const STATUS_PORCELAIN: seq<string> := ["status", "--porcelain"]
  const CHERRY: seq<string> := ["cherry", "-v"]
  const FETCH: seq<string> := ["fetch"]
  const STATUS_NO_UNTRACKED: seq<string> := ["status", "-uno"]
  const PULL: seq<string> := ["pull"]
  const UP_TO_DATE: string := "Your branch is up to date"

  /**
    `executeGitCommand`: any failed invocation reads as the empty string;
    otherwise the output with its leading and trailing spaces removed.
  */
  function ExecuteGitCommand(git: GitOracle, repoPath: string, args: seq<string>): (r: string)
    ensures git(repoPath, args).None? ==> r == ""
    ensures git(repoPath, args).Some? ==>
      exists a, b :: git(repoPath, args).value == a + r + b && AllSpace(a) && AllSpace(b)
    ensures NoEdgeSpace(r)
  {
    match git(repoPath, args)
    case None => ""
    case Some(out) =>
      TrimSpaceSplit(out);
      TrimSpace(out)
  }

  /** A failed or silent command gives the same empty answer: the checks cannot tell them apart. */
  lemma FailureLooksLikeSilence(git: GitOracle, repoPath: string, args: seq<string>)
    requires git(repoPath, args) == None || git(repoPath, args) == Some("")
    ensures ExecuteGitCommand(git, repoPath, args) == ""
  {
  }

  /** Output made of spaces only is empty once normalised. */
  lemma BlankOutputIsEmpty(git: GitOracle, repoPath: string, args: seq<string>)
    requires git(repoPath, args).Some? && AllSpace(git(repoPath, args).value)
    ensures ExecuteGitCommand(git, repoPath, args) == ""
  {
    var out := git(repoPath, args).value;
    assert out == out + [] + [];
    TrimSpaceUnique(out, out, [], []);
  }

  /** Output surrounded by spaces normalises to its core. */
  lemma PaddedOutput(git: GitOracle, repoPath: string, args: seq<string>, a: string, core: string, b: string)
    requires git(repoPath, args) == Some(a + core + b)
    requires AllSpace(a) && AllSpace(b) && NoEdgeSpace(core)
    ensures ExecuteGitCommand(git, repoPath, args) == core
  {
    TrimSpaceUnique(a + core + b, a, core, b);
  }

  /**
    `notOnBranch`: the current branch, as reported, differs from the target.
    A failed branch query reads as "", so it counts as "not on branch" for
    every non-empty target.
  */
  function NotOnBranch(git: GitOracle, repoPath: string, branchName: string): (b: bool)
    ensures git(repoPath, REV_PARSE_HEAD).None? ==> (b <==> branchName != "")
    ensures git(repoPath, REV_PARSE_HEAD).Some? ==> (b <==> TrimSpace(git(repoPath, REV_PARSE_HEAD).value) != branchName)
  {
    ExecuteGitCommand(git, repoPath, REV_PARSE_HEAD) != branchName
  }

  /** `hasUncommittedChanges`: `status --porcelain` succeeded and printed something other than white space. */
  function HasUncommittedChanges(git: GitOracle, repoPath: string): (b: bool)
    ensures b <==> git(repoPath, STATUS_PORCELAIN).Some? && !AllSpace(git(repoPath, STATUS_PORCELAIN).value)
  {
    NonEmptyIffNotBlank(git, repoPath, STATUS_PORCELAIN);
    ExecuteGitCommand(git, repoPath, STATUS_PORCELAIN) != ""
  }

  /** `hasUnpushedCommits`: `cherry -v` succeeded and listed something other than white space. */
  function HasUnpushedCommits(git: GitOracle, repoPath: string): (b: bool)
    ensures b <==> git(repoPath, CHERRY).Some? && !AllSpace(git(repoPath, CHERRY).value)
  {
    NonEmptyIffNotBlank(git, repoPath, CHERRY);
    ExecuteGitCommand(git, repoPath, CHERRY) != ""
  }

  /**
    `noRemoteUpdates`: true when the fetch failed or printed only white space;
    otherwise true iff the short status says the branch is up to date.
  */
  function NoRemoteUpdates(git: GitOracle, repoPath: string): (b: bool)
    ensures git(repoPath, FETCH).None? ==> b
    ensures git(repoPath, FETCH).Some? && AllSpace(git(repoPath, FETCH).value) ==> b
    ensures git(repoPath, FETCH).Some? && !AllSpace(git(repoPath, FETCH).value) ==>
      (b <==> Contains(ExecuteGitCommand(git, repoPath, STATUS_NO_UNTRACKED), UP_TO_DATE))
  {
    NonEmptyIffNotBlank(git, repoPath, FETCH);
    if ExecuteGitCommand(git, repoPath, FETCH) == "" then true
    else Contains(ExecuteGitCommand(git, repoPath, STATUS_NO_UNTRACKED), UP_TO_DATE)
  }

  /**
    `gitPull`: the pull counts as done iff `git pull` exits successfully,
    whatever it prints.
  */
  function GitPull(git: GitOracle, repoPath: string): (b: bool)
    ensures b <==> git(repoPath, PULL).Some?
  {
    match git(repoPath, PULL)
    case None => false
    case Some(_) => true
  }

  /** The normalised output is non-empty iff the command succeeded with output that is not all white space. */
  lemma NonEmptyIffNotBlank(git: GitOracle, repoPath: string, args: seq<string>)
    ensures ExecuteGitCommand(git, repoPath, args) != "" <==> git(repoPath, args).Some? && !AllSpace(git(repoPath, args).value)
  {
    if git(repoPath, args).Some? {
      SilentIffBlank(git, repoPath, args);
    }
  }

  /** A branch query that fails (a timeout, say) makes the repository "not on branch" for any named target. */
  lemma FailedBranchQueryIsNotOnBranch(git: GitOracle, repoPath: string, branchName: string)
    requires git(repoPath, REV_PARSE_HEAD).None?
    requires branchName != ""
    ensures NotOnBranch(git, repoPath, branchName)
  {
  }

  /** A branch reported with a trailing newline still matches the target. */
  lemma BranchWithNewlineMatches(git: GitOracle, repoPath: string, branchName: string)
    requires NoEdgeSpace(branchName)
    requires git(repoPath, REV_PARSE_HEAD) == Some(branchName + "\n")
    ensures !NotOnBranch(git, repoPath, branchName)
  {
    assert IsSpace('\n');
    assert branchName + "\n" == [] + branchName + "\n";
    PaddedOutput(git, repoPath, REV_PARSE_HEAD, [], branchName, "\n");
  }

  /** A successful command reads as empty exactly when its output is blank. */
  lemma SilentIffBlank(git: GitOracle, repoPath: string, args: seq<string>)
    requires git(repoPath, args).Some?
    ensures ExecuteGitCommand(git, repoPath, args) == "" <==> AllSpace(git(repoPath, args).value)
  {
    var out := git(repoPath, args).value;
    var k := LeadingSpace(out);
    assert TrimSpace(out) == "" ==> AllSpace(out) by {
      if TrimSpace(out) == "" {
        forall j | 0 <= j < |out| ensures IsSpace(out[j]) {
          assert out[j] == out[..k][j];
        }
      }
    }
    if AllSpace(out) {
      BlankOutputIsEmpty(git, repoPath, args);
    }
  }

  /**
    A fetch that succeeds but writes nothing to standard output counts as
    "no remote updates", whatever the status afterwards says.
  */
  lemma SilentFetchMeansNoUpdates(git: GitOracle, repoPath: string)
    requires git(repoPath, FETCH) == Some("")
    ensures NoRemoteUpdates(git, repoPath)
  {
  }

  /**
    The check `noRemoteUpdates` evidently means: refresh the remote-tracking
    state with `git fetch` and then let `status -uno` decide; a failed fetch
    leaves nothing known to pull.
  */
  function NoRemoteUpdatesAfterFetch(git: GitOracle, repoPath: string): (b: bool)
    ensures git(repoPath, FETCH).None? ==> b
    ensures git(repoPath, FETCH).Some? ==>
      (b <==> Contains(ExecuteGitCommand(git, repoPath, STATUS_NO_UNTRACKED), UP_TO_DATE))
  {
    match git(repoPath, FETCH)
    case None => true
    case Some(_) => Contains(ExecuteGitCommand(git, repoPath, STATUS_NO_UNTRACKED), UP_TO_DATE)
  }

  /**
    `git fetch` reports on standard error, so a successful fetch usually has an
    empty standard output. The check as written then says "no remote updates"
    even when the status afterwards says the branch is behind; the refreshed
    check says there is something to pull.
  */
  lemma SilentFetchHidesBehindBranch(git: GitOracle, repoPath: string)
    requires git(repoPath, FETCH) == Some("")
    requires !Contains(ExecuteGitCommand(git, repoPath, STATUS_NO_UNTRACKED), UP_TO_DATE)
    ensures NoRemoteUpdates(git, repoPath)
    ensures !NoRemoteUpdatesAfterFetch(git, repoPath)
  {
  }
}
