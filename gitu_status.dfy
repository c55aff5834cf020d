/**
  `processRepository` and `repoStatusStruct` of `gitu`: the ordered check list,
  the five result lists, and the run over every discovered repository.

  `Report` is the value of the five lists; `RepoStatus` is the shared object the
  source appends to. One call of `RepoStatus.ProcessRepository` changes the
  lists exactly as `Processed` says, and the lemmas below state what
  `Processed` and the whole run `RunAll` do to each list.
*/
module GituStatus {
  import opened GituChecks
  import opened FilePath
  import opened Wrappers
  import opened GoStrings

  /** The four violation checks, as the tags the source's `checks` slice carries. */
  datatype Check = NotOnBranchCheck | UncommittedChangesCheck | UnpushedCommitsCheck | NoRemoteUpdatesCheck

  /** The checks in the order `processRepository` evaluates them. */
  const CHECKS: seq<Check> := [NotOnBranchCheck, UncommittedChangesCheck, UnpushedCommitsCheck, NoRemoteUpdatesCheck]

  /** Whether a repository violates one check. */
  function Fails(check: Check, git: GitOracle, repoPath: string, branchName: string): bool
  {
    match check
    case NotOnBranchCheck => NotOnBranch(git, repoPath, branchName)
    case UncommittedChangesCheck => HasUncommittedChanges(git, repoPath)
    case UnpushedCommitsCheck => HasUnpushedCommits(git, repoPath)
    case NoRemoteUpdatesCheck => NoRemoteUpdates(git, repoPath)
  }

  /** The verdicts of the four checks on one repository. */
  function FailsOf(git: GitOracle, repoPath: string, branchName: string): Check -> bool
  {
    c => Fails(c, git, repoPath, branchName)
  }

  /** No check fails. */
  predicate AllPass(fails: Check -> bool)
  {
    forall c: Check :: !fails(c)
  }

  /** The repository violates none of the four checks. */
  predicate AllChecksPass(git: GitOracle, repoPath: string, branchName: string)
  {
    AllPass(FailsOf(git, repoPath, branchName))
  }

  /** One of the five result lists: the list of a failed check, or `updatedRepos`. */
  datatype Category = Failed(check: Check) | Updated

  /** The five lists of `repoStatusStruct`, in its field order. */
  datatype Report = Report(
    notOnBranch: seq<string>,
    uncommittedChanges: seq<string>,
    unpushedCommits: seq<string>,
    updatedRepos: seq<string>,
    noUpdates: seq<string>)

  const EMPTY_REPORT: Report := Report([], [], [], [], [])

  function List(r: Report, k: Category): seq<string>
  {
    match k
    case Failed(NotOnBranchCheck) => r.notOnBranch
    case Failed(UncommittedChangesCheck) => r.uncommittedChanges
    case Failed(UnpushedCommitsCheck) => r.unpushedCommits
    case Failed(NoRemoteUpdatesCheck) => r.noUpdates
    case Updated => r.updatedRepos
  }

  /** Two reports with the same five lists are the same report. */
  lemma ReportExtensional(r1: Report, r2: Report)
    requires forall k :: List(r1, k) == List(r2, k)
    ensures r1 == r2
  {
    assert List(r1, Failed(NotOnBranchCheck)) == List(r2, Failed(NotOnBranchCheck));
    assert List(r1, Failed(UncommittedChangesCheck)) == List(r2, Failed(UncommittedChangesCheck));
    assert List(r1, Failed(UnpushedCommitsCheck)) == List(r2, Failed(UnpushedCommitsCheck));
    assert List(r1, Failed(NoRemoteUpdatesCheck)) == List(r2, Failed(NoRemoteUpdatesCheck));
    assert List(r1, Updated) == List(r2, Updated);
  }

  /** One guarded append: `name` goes to the end of list `k` and every other list stays as it was. */
  function Append(r: Report, k: Category, name: string): (r': Report)
    ensures List(r', k) == List(r, k) + [name]
    ensures forall k' :: k' != k ==> List(r', k') == List(r, k')
  {
    match k
    case Failed(NotOnBranchCheck) => r.(notOnBranch := r.notOnBranch + [name])
    case Failed(UncommittedChangesCheck) => r.(uncommittedChanges := r.uncommittedChanges + [name])
    case Failed(UnpushedCommitsCheck) => r.(unpushedCommits := r.unpushedCommits + [name])
    case Failed(NoRemoteUpdatesCheck) => r.(noUpdates := r.noUpdates + [name])
    case Updated => r.(updatedRepos := r.updatedRepos + [name])
  }

  /** The state of the check loop: the lists so far and the `allChecksPassed` flag. */
  datatype Progress = Progress(report: Report, allChecksPassed: bool)

  /** The check loop after it has run `checks`, in order, for a project called `name`. */
  function RunChecks(r: Report, checks: seq<Check>, fails: Check -> bool, name: string): Progress
    decreases |checks|
  {
    if checks == [] then Progress(r, true)
    else
      var p := RunChecks(r, checks[..|checks| - 1], fails, name);
      var c := checks[|checks| - 1];
      if fails(c) then Progress(Append(p.report, Failed(c), name), false) else p
  }

  /** The whole of `processRepository` for given check verdicts and pull outcome. */
  function ProcessWith(r: Report, fails: Check -> bool, pulled: bool, name: string): Report
  {
    var p := RunChecks(r, CHECKS, fails, name);
    if p.allChecksPassed && pulled then Append(p.report, Updated, name) else p.report
  }

  /** The lists after `processRepository(repoPath, branchName, ...)`. */
  function Processed(r: Report, git: GitOracle, repoPath: string, branchName: string): Report
  {
    ProcessWith(r, FailsOf(git, repoPath, branchName), GitPull(git, repoPath), Base(repoPath))
  }

  /**
    What one project adds to list `k`: its name, once, to the list of every
    check it fails, and to `updatedRepos` iff it fails none and was pulled.
  */
  function ContributionWith(fails: Check -> bool, pulled: bool, name: string, k: Category): seq<string>
  {
    match k
    case Failed(c) => if fails(c) then [name] else []
    case Updated => if AllPass(fails) && pulled then [name] else []
  }

  function Contribution(git: GitOracle, repoPath: string, branchName: string, k: Category): seq<string>
  {
    ContributionWith(FailsOf(git, repoPath, branchName), GitPull(git, repoPath), Base(repoPath), k)
  }

  /** After the first `n` checks, `allChecksPassed` holds iff none of them failed. */
  lemma {:induction false} RunChecksPassed(r: Report, n: nat, fails: Check -> bool, name: string)
    requires n <= |CHECKS|
    ensures RunChecks(r, CHECKS[..n], fails, name).allChecksPassed <==> forall j :: 0 <= j < n ==> !fails(CHECKS[j])
  {
    if n > 0 {
      assert CHECKS[..n][..n - 1] == CHECKS[..n - 1];
      RunChecksPassed(r, n - 1, fails, name);
    }
  }

  /**
    After the first `n` checks, the list of each of them has gained the
    project name iff its check failed; every other list is as it was.
  */
  lemma {:induction false} RunChecksLists(r: Report, n: nat, fails: Check -> bool, name: string, k: Category)
    requires n <= |CHECKS|
    ensures List(RunChecks(r, CHECKS[..n], fails, name).report, k) ==
      List(r, k) + (if k.Failed? && k.check in CHECKS[..n] && fails(k.check) then [name] else [])
  {
    if n > 0 {
      var c := CHECKS[n - 1];
      assert CHECKS[..n] == CHECKS[..n - 1] + [c];
      assert CHECKS[..n][..n - 1] == CHECKS[..n - 1];
      assert c !in CHECKS[..n - 1];
      RunChecksLists(r, n - 1, fails, name, k);
      var p := RunChecks(r, CHECKS[..n - 1], fails, name);
      assert RunChecks(r, CHECKS[..n], fails, name) ==
        if fails(c) then Progress(Append(p.report, Failed(c), name), false) else p;
    }
  }

  /** The closed form of the check loop and the pull: each list grows by exactly the project's contribution. */
  lemma ProcessWithLists(r: Report, fails: Check -> bool, pulled: bool, name: string, k: Category)
    ensures List(ProcessWith(r, fails, pulled, name), k) == List(r, k) + ContributionWith(fails, pulled, name, k)
  {
    assert CHECKS[..|CHECKS|] == CHECKS;
    RunChecksPassed(r, |CHECKS|, fails, name);
    RunChecksLists(r, |CHECKS|, fails, name, Updated);
    RunChecksLists(r, |CHECKS|, fails, name, k);
    var p := RunChecks(r, CHECKS, fails, name);
    assert p.allChecksPassed <==> AllPass(fails) by {
      if !AllPass(fails) {
        var c: Check :| fails(c);
        assert c == CHECKS[0] || c == CHECKS[1] || c == CHECKS[2] || c == CHECKS[3];
      }
    }
    match k
    case Updated =>
    case Failed(c) =>
      assert c == CHECKS[0] || c == CHECKS[1] || c == CHECKS[2] || c == CHECKS[3];
  }

  /**
    The closed form of one `processRepository` call: every list is extended by
    exactly that repository's contribution to it and by nothing else.
  */
  lemma ProcessedLists(r: Report, git: GitOracle, repoPath: string, branchName: string, k: Category)
    ensures List(Processed(r, git, repoPath, branchName), k) == List(r, k) + Contribution(git, repoPath, branchName, k)
  {
    ProcessWithLists(r, FailsOf(git, repoPath, branchName), GitPull(git, repoPath), Base(repoPath), k);
  }

  /** Each failed check appends the project name to its own list; a passed check leaves its list alone. */
  lemma FailedCheckTouchesOwnList(r: Report, git: GitOracle, repoPath: string, branchName: string, c: Check)
    ensures Fails(c, git, repoPath, branchName) ==>
      List(Processed(r, git, repoPath, branchName), Failed(c)) == List(r, Failed(c)) + [Base(repoPath)]
    ensures !Fails(c, git, repoPath, branchName) ==>
      List(Processed(r, git, repoPath, branchName), Failed(c)) == List(r, Failed(c))
  {
    ProcessedLists(r, git, repoPath, branchName, Failed(c));
  }

  /**
    The name goes to `updatedRepos` iff no check failed and the pull succeeded;
    if any check failed, `updatedRepos` is left unchanged.
  */
  lemma UpdatedIffAllPassAndPulled(r: Report, git: GitOracle, repoPath: string, branchName: string)
    ensures List(Processed(r, git, repoPath, branchName), Updated) ==
      if AllChecksPass(git, repoPath, branchName) && GitPull(git, repoPath) then List(r, Updated) + [Base(repoPath)]
      else List(r, Updated)
    ensures (exists c: Check :: Fails(c, git, repoPath, branchName)) ==>
      List(Processed(r, git, repoPath, branchName), Updated) == List(r, Updated)
  {
    ProcessedLists(r, git, repoPath, branchName, Updated);
    if exists c: Check :: Fails(c, git, repoPath, branchName) {
      var c: Check :| Fails(c, git, repoPath, branchName);
      assert FailsOf(git, repoPath, branchName)(c);
    }
  }

  /** A repository that passes every check but whose pull fails leaves all five lists unchanged. */
  lemma PullFailureRecordsNothing(r: Report, git: GitOracle, repoPath: string, branchName: string)
    requires AllChecksPass(git, repoPath, branchName)
    requires !GitPull(git, repoPath)
    ensures Processed(r, git, repoPath, branchName) == r
  {
    forall k ensures List(Processed(r, git, repoPath, branchName), k) == List(r, k) {
      ProcessedLists(r, git, repoPath, branchName, k);
    }
    ReportExtensional(Processed(r, git, repoPath, branchName), r);
  }

  /** One call only appends: each list keeps its old contents as a prefix and grows by at most one name. */
  lemma ProcessedOnlyAppends(r: Report, git: GitOracle, repoPath: string, branchName: string, k: Category)
    ensures List(r, k) <= List(Processed(r, git, repoPath, branchName), k)
    ensures |List(Processed(r, git, repoPath, branchName), k)| <= |List(r, k)| + 1
  {
    ProcessedLists(r, git, repoPath, branchName, k);
  }

  /** When one call adds to `updatedRepos`, it adds to no failure list. */
  lemma UpdateExcludesFailureLists(r: Report, git: GitOracle, repoPath: string, branchName: string)
    requires List(Processed(r, git, repoPath, branchName), Updated) != List(r, Updated)
    ensures forall c :: List(Processed(r, git, repoPath, branchName), Failed(c)) == List(r, Failed(c))
  {
    ProcessedLists(r, git, repoPath, branchName, Updated);
    forall c ensures List(Processed(r, git, repoPath, branchName), Failed(c)) == List(r, Failed(c)) {
      ProcessedLists(r, git, repoPath, branchName, Failed(c));
    }
  }

  /** The whole run as a sequential fold of `processRepository` over the discovered repositories. */
  function RunAll(r: Report, repos: seq<string>, git: GitOracle, branchName: string): Report
    decreases |repos|
  {
    if repos == [] then r
    else Processed(RunAll(r, repos[..|repos| - 1], git, branchName), git, repos[|repos| - 1], branchName)
  }

  /** The per-repository contributions to list `k`, as a function of the repository path. */
  function ContributionOf(git: GitOracle, branchName: string, k: Category): string -> seq<string>
  {
    repoPath => Contribution(git, repoPath, branchName, k)
  }

  /** `f` applied to every path of `repos`, concatenated in order. */
  function Concat(repos: seq<string>, f: string -> seq<string>): seq<string>
    decreases |repos|
  {
    if repos == [] then [] else Concat(repos[..|repos| - 1], f) + f(repos[|repos| - 1])
  }

  lemma {:induction false} RunAllLists(r: Report, repos: seq<string>, git: GitOracle, branchName: string, k: Category)
    ensures List(RunAll(r, repos, git, branchName), k) == List(r, k) + Concat(repos, ContributionOf(git, branchName, k))
    decreases |repos|
  {
    if repos != [] {
      var init := repos[..|repos| - 1];
      RunAllLists(r, init, git, branchName, k);
      ProcessedLists(RunAll(r, init, git, branchName), git, repos[|repos| - 1], branchName, k);
    }
  }

  lemma {:induction false} ConcatAppend(a: seq<string>, b: seq<string>, f: string -> seq<string>)
    ensures Concat(a + b, f) == Concat(a, f) + Concat(b, f)
    decreases |b|
  {
    if b == [] {
      assert a + b == a;
    } else {
      assert (a + b)[..|a + b| - 1] == a + b[..|b| - 1];
      ConcatAppend(a, b[..|b| - 1], f);
    }
  }

  lemma {:induction false} MultisetRemoveLast(xs: seq<string>, ys: seq<string>, j: nat)
    requires multiset(xs) == multiset(ys)
    requires xs != [] && j < |ys| && ys[j] == xs[|xs| - 1]
    ensures multiset(xs[..|xs| - 1]) == multiset(ys[..j] + ys[j + 1..])
  {
    var x := xs[|xs| - 1];
    assert xs == xs[..|xs| - 1] + [x];
    assert ys == ys[..j] + [x] + ys[j + 1..];
    var a, b := multiset(xs[..|xs| - 1]), multiset(ys[..j] + ys[j + 1..]);
    assert a + multiset{x} == b + multiset{x};
    assert a == (a + multiset{x}) - multiset{x};
    assert b == (b + multiset{x}) - multiset{x};
  }

  /** `Concat` over `ys` split around its element at `j`. */
  lemma {:induction false} ConcatAround(ys: seq<string>, j: nat, f: string -> seq<string>)
    requires j < |ys|
    ensures Concat(ys, f) == Concat(ys[..j], f) + f(ys[j]) + Concat(ys[j + 1..], f)
  {
    var before, after := ys[..j], ys[j + 1..];
    assert ys == (before + [ys[j]]) + after;
    ConcatAppend(before + [ys[j]], after, f);
    ConcatAppend(before, [ys[j]], f);
    assert [ys[j]][..0] == [];
    assert Concat([ys[j]], f) == f(ys[j]);
  }

  /** Moving the middle piece of a concatenation to the end keeps the multiset. */
  lemma {:induction false} MultisetMiddleToEnd(a: seq<string>, b: seq<string>, c: seq<string>)
    ensures multiset(a + b + c) == multiset(a + c) + multiset(b)
  {
    assert multiset(a + b + c) == multiset(a) + multiset(b) + multiset(c);
    assert multiset(a + c) == multiset(a) + multiset(c);
  }

  lemma {:induction false} ConcatPermutation(xs: seq<string>, ys: seq<string>, f: string -> seq<string>)
    requires multiset(xs) == multiset(ys)
    ensures multiset(Concat(xs, f)) == multiset(Concat(ys, f))
    decreases |xs|
  {
    if xs == [] {
      assert |ys| == |multiset(ys)| == 0;
    } else {
      var x := xs[|xs| - 1];
      var init := xs[..|xs| - 1];
      assert x in multiset(ys);
      var j :| 0 <= j < |ys| && ys[j] == x;
      var before, after := ys[..j], ys[j + 1..];
      MultisetRemoveLast(xs, ys, j);
      ConcatPermutation(init, before + after, f);
      ConcatAround(ys, j, f);
      ConcatAppend(before, after, f);
      MultisetMiddleToEnd(Concat(before, f), f(x), Concat(after, f));
      assert Concat(xs, f) == Concat(init, f) + f(x);
    }
  }

  /**
    Order does not matter: two runs over the same repositories in any order
    leave every list with the same names, counted with multiplicity. This is
    what the mutex-guarded appends of the concurrent workers guarantee.
  */
  lemma RunOrderIrrelevant(r: Report, xs: seq<string>, ys: seq<string>, git: GitOracle, branchName: string, k: Category)
    requires multiset(xs) == multiset(ys)
    ensures multiset(List(RunAll(r, xs, git, branchName), k)) == multiset(List(RunAll(r, ys, git, branchName), k))
  {
    RunAllLists(r, xs, git, branchName, k);
    RunAllLists(r, ys, git, branchName, k);
    ConcatPermutation(xs, ys, ContributionOf(git, branchName, k));
  }

  lemma {:induction false} InConcat(repos: seq<string>, f: string -> seq<string>, name: string)
    ensures name in Concat(repos, f) <==> exists i :: 0 <= i < |repos| && name in f(repos[i])
    decreases |repos|
  {
    if repos != [] {
      var init := repos[..|repos| - 1];
      InConcat(init, f, name);
      if name in Concat(init, f) {
        var i :| 0 <= i < |init| && name in f(init[i]);
        assert repos[i] == init[i];
      }
      if exists i :: 0 <= i < |repos| && name in f(repos[i]) {
        var i :| 0 <= i < |repos| && name in f(repos[i]);
        if i < |init| { assert init[i] == repos[i]; }
      }
    }
  }

  /**
    After a whole run from empty lists, a name is in a check's list iff some
    repository of that name failed the check, and in `updatedRepos` iff some
    repository of that name passed every check and pulled successfully.
  */
  lemma {:induction false} RunAllMembership(repos: seq<string>, git: GitOracle, branchName: string, name: string)
    ensures forall c :: name in List(RunAll(EMPTY_REPORT, repos, git, branchName), Failed(c)) <==>
      exists i :: 0 <= i < |repos| && Base(repos[i]) == name && Fails(c, git, repos[i], branchName)
    ensures name in List(RunAll(EMPTY_REPORT, repos, git, branchName), Updated) <==>
      exists i :: 0 <= i < |repos| && Base(repos[i]) == name &&
        AllChecksPass(git, repos[i], branchName) && GitPull(git, repos[i])
  {
    forall c ensures name in List(RunAll(EMPTY_REPORT, repos, git, branchName), Failed(c)) <==>
      exists i :: 0 <= i < |repos| && Base(repos[i]) == name && Fails(c, git, repos[i], branchName)
    {
      RunAllHas(repos, git, branchName, name, Failed(c));
      forall i | 0 <= i < |repos| {
        ContributionMeaning(git, repos[i], branchName, name);
      }
    }
    RunAllHas(repos, git, branchName, name, Updated);
    forall i | 0 <= i < |repos| {
      ContributionMeaning(git, repos[i], branchName, name);
    }
  }

  /** After a run from empty lists, list `k` holds `name` iff some repository contributed it. */
  lemma {:induction false} RunAllHas(repos: seq<string>, git: GitOracle, branchName: string, name: string, k: Category)
    ensures name in List(RunAll(EMPTY_REPORT, repos, git, branchName), k) <==>
      exists i :: 0 <= i < |repos| && name in Contribution(git, repos[i], branchName, k)
  {
    RunAllLists(EMPTY_REPORT, repos, git, branchName, k);
    assert List(EMPTY_REPORT, k) == [];
    InConcat(repos, ContributionOf(git, branchName, k), name);
  }

  /** What a repository's contribution to each list holds. */
  lemma ContributionMeaning(git: GitOracle, repoPath: string, branchName: string, name: string)
    ensures forall c :: name in Contribution(git, repoPath, branchName, Failed(c)) <==>
      Base(repoPath) == name && Fails(c, git, repoPath, branchName)
    ensures name in Contribution(git, repoPath, branchName, Updated) <==>
      Base(repoPath) == name && AllChecksPass(git, repoPath, branchName) && GitPull(git, repoPath)
  {
  }


  /**
    When the discovered repositories have distinct display names, no name in
    `updatedRepos` is in any failure list.
  */
  lemma {:induction false} UpdatedDisjointFromFailures(repos: seq<string>, git: GitOracle, branchName: string, name: string)
    requires forall i, j :: 0 <= i < |repos| && 0 <= j < |repos| && Base(repos[i]) == Base(repos[j]) ==> i == j
    requires name in List(RunAll(EMPTY_REPORT, repos, git, branchName), Updated)
    ensures forall c :: name !in List(RunAll(EMPTY_REPORT, repos, git, branchName), Failed(c))
  {
    RunAllMembership(repos, git, branchName, name);
    var i :| 0 <= i < |repos| && Base(repos[i]) == name &&
      AllChecksPass(git, repos[i], branchName) && GitPull(git, repos[i]);
    forall c ensures name !in List(RunAll(EMPTY_REPORT, repos, git, branchName), Failed(c)) {
      assert !FailsOf(git, repos[i], branchName)(c);
      assert forall j :: 0 <= j < |repos| && Base(repos[j]) == name ==> !Fails(c, git, repos[j], branchName);
    }
  }

  /** A repository failing exactly check `c0` adds its name to that list only. */
  lemma ProcessOneFailure(r: Report, fails: Check -> bool, pulled: bool, name: string, c0: Check)
    requires forall c :: fails(c) <==> c == c0
    ensures ProcessWith(r, fails, pulled, name) == Append(r, Failed(c0), name)
  {
    assert fails(c0);
    forall k ensures List(ProcessWith(r, fails, pulled, name), k) == List(Append(r, Failed(c0), name), k) {
      ProcessWithLists(r, fails, pulled, name, k);
    }
    ReportExtensional(ProcessWith(r, fails, pulled, name), Append(r, Failed(c0), name));
  }

  /** A repository passing every check and pulling adds its name to `updatedRepos` only. */
  lemma ProcessUpdate(r: Report, fails: Check -> bool, name: string)
    requires AllPass(fails)
    ensures ProcessWith(r, fails, true, name) == Append(r, Updated, name)
  {
    forall k ensures List(ProcessWith(r, fails, true, name), k) == List(Append(r, Updated, name), k) {
      ProcessWithLists(r, fails, true, name, k);
    }
    ReportExtensional(ProcessWith(r, fails, true, name), Append(r, Updated, name));
  }

  /**
    Four repositories processed in turn: `a` is clean, on the branch and has
    nothing to pull; `b` has only uncommitted changes; `c` has only unpushed
    commits; `d` passes every check and its pull succeeds. The report lists
    each under exactly its own category, whatever the pulls of `a`, `b` and
    `c` would have done.
  */
  lemma FourRepositoryScenario(fa: Check -> bool, fb: Check -> bool, fc: Check -> bool, fd: Check -> bool,
                               pa: bool, pb: bool, pc: bool, a: string, b: string, c: string, d: string)
    requires forall k :: fa(k) <==> k == NoRemoteUpdatesCheck
    requires forall k :: fb(k) <==> k == UncommittedChangesCheck
    requires forall k :: fc(k) <==> k == UnpushedCommitsCheck
    requires AllPass(fd)
    ensures ProcessWith(ProcessWith(ProcessWith(ProcessWith(EMPTY_REPORT, fa, pa, a), fb, pb, b), fc, pc, c), fd, true, d)
      == Report([], [b], [c], [d], [a])
  {
    var r1 := ProcessWith(EMPTY_REPORT, fa, pa, a);
    ProcessOneFailure(EMPTY_REPORT, fa, pa, a, NoRemoteUpdatesCheck);
    var r2 := ProcessWith(r1, fb, pb, b);
    ProcessOneFailure(r1, fb, pb, b, UncommittedChangesCheck);
    var r3 := ProcessWith(r2, fc, pc, c);
    ProcessOneFailure(r2, fc, pc, c, UnpushedCommitsCheck);
    ProcessUpdate(r3, fd, d);
  }

  /**
    A repository whose branch query fails (it timed out, say) is listed as
    not on branch, is never pulled into `updatedRepos`, and the lists of other
    repositories are left as they were.
  */
  lemma FailedBranchQueryScenario(r: Report, git: GitOracle, repoPath: string, branchName: string)
    requires git(repoPath, REV_PARSE_HEAD).None? && branchName != ""
    ensures List(Processed(r, git, repoPath, branchName), Failed(NotOnBranchCheck)) == List(r, Failed(NotOnBranchCheck)) + [Base(repoPath)]
    ensures List(Processed(r, git, repoPath, branchName), Updated) == List(r, Updated)
  {
    FailedBranchQueryIsNotOnBranch(git, repoPath, branchName);
    FailedCheckTouchesOwnList(r, git, repoPath, branchName, NotOnBranchCheck);
    UpdatedIffAllPassAndPulled(r, git, repoPath, branchName);
  }

  /** The verdicts of the four checks with the refreshed remote check in place of the one as written. */
  function FailsOfRefreshed(git: GitOracle, repoPath: string, branchName: string): Check -> bool
  {
    c => if c == NoRemoteUpdatesCheck then NoRemoteUpdatesAfterFetch(git, repoPath) else Fails(c, git, repoPath, branchName)
  }

  /** `processRepository` with the refreshed remote check. */
  function ProcessedRefreshed(r: Report, git: GitOracle, repoPath: string, branchName: string): Report
  {
    ProcessWith(r, FailsOfRefreshed(git, repoPath, branchName), GitPull(git, repoPath), Base(repoPath))
  }

  /**
    As written, a fetch with empty standard output puts the repository in
    `noUpdates` and never in `updatedRepos`, whatever the other checks, the
    status and the pull would say.
  */
  lemma SilentFetchNeverUpdates(r: Report, git: GitOracle, repoPath: string, branchName: string)
    requires git(repoPath, FETCH) == Some("")
    ensures List(Processed(r, git, repoPath, branchName), Failed(NoRemoteUpdatesCheck))
      == List(r, Failed(NoRemoteUpdatesCheck)) + [Base(repoPath)]
    ensures List(Processed(r, git, repoPath, branchName), Updated) == List(r, Updated)
  {
    assert Fails(NoRemoteUpdatesCheck, git, repoPath, branchName);
    FailedCheckTouchesOwnList(r, git, repoPath, branchName, NoRemoteUpdatesCheck);
    UpdatedIffAllPassAndPulled(r, git, repoPath, branchName);
  }

  /**
    With the refreshed check, a repository that is on the branch, clean, has
    nothing unpushed, is reported behind its upstream after the fetch, and
    pulls successfully is added to `updatedRepos` and to nothing else.
  */
  lemma RefreshedBehindRepoIsUpdated(r: Report, git: GitOracle, repoPath: string, branchName: string)
    requires git(repoPath, FETCH).Some?
    requires !Contains(ExecuteGitCommand(git, repoPath, STATUS_NO_UNTRACKED), UP_TO_DATE)
    requires !NotOnBranch(git, repoPath, branchName)
    requires !HasUncommittedChanges(git, repoPath) && !HasUnpushedCommits(git, repoPath)
    requires GitPull(git, repoPath)
    ensures ProcessedRefreshed(r, git, repoPath, branchName) == Append(r, Updated, Base(repoPath))
  {
    var fails := FailsOfRefreshed(git, repoPath, branchName);
    assert AllPass(fails) by {
      forall c: Check ensures !fails(c) {
        match c
        case NotOnBranchCheck =>
        case UncommittedChangesCheck =>
        case UnpushedCommitsCheck =>
        case NoRemoteUpdatesCheck =>
      }
    }
    ProcessUpdate(r, fails, Base(repoPath));
  }

  /** `repoStatusStruct`: the five lists every repository's evaluation appends to. */
  class RepoStatus {
    var notOnBranch: seq<string>
    var uncommittedChanges: seq<string>
    var unpushedCommits: seq<string>
    var updatedRepos: seq<string>
    var noUpdates: seq<string>

    function Snapshot(): Report
      reads this
    {
      Report(notOnBranch, uncommittedChanges, unpushedCommits, updatedRepos, noUpdates)
    }

    constructor ()
      ensures Snapshot() == EMPTY_REPORT
    {
      notOnBranch, uncommittedChanges, unpushedCommits, updatedRepos, noUpdates := [], [], [], [], [];
    }

    /**
      One append under the mutex: `name` goes to the end of list `k`, and the
      other four lists are left alone.
    */
    method Record(k: Category, name: string)
      modifies this
      ensures Snapshot() == Append(old(Snapshot()), k, name)
    {
      match k {
        case Failed(NotOnBranchCheck) => notOnBranch := notOnBranch + [name];
        case Failed(UncommittedChangesCheck) => uncommittedChanges := uncommittedChanges + [name];
        case Failed(UnpushedCommitsCheck) => unpushedCommits := unpushedCommits + [name];
        case Failed(NoRemoteUpdatesCheck) => noUpdates := noUpdates + [name];
        case Updated => updatedRepos := updatedRepos + [name];
      }
    }

    /**
      The check loop of `processRepository`: evaluate every check in order,
      without stopping at a failure, and append `projectName` to the list of
      each one that fails; the result is `allChecksPassed`.
    */
    method RunCheckLoop(fails: Check -> bool, projectName: string) returns (allChecksPassed: bool)
      modifies this
      ensures Progress(Snapshot(), allChecksPassed) == RunChecks(old(Snapshot()), CHECKS, fails, projectName)
    {
      allChecksPassed := true;
      for i := 0 to |CHECKS|
        invariant RunChecks(old(Snapshot()), CHECKS[..i], fails, projectName)
          == Progress(Snapshot(), allChecksPassed)
      {
        var check := CHECKS[i];
        assert CHECKS[..i + 1][..i] == CHECKS[..i];
        if fails(check) {
          Record(Failed(check), projectName);
          allChecksPassed := false;
        }
      }
      assert CHECKS[..|CHECKS|] == CHECKS;
    }

    /**
      `processRepository`: run all four checks in order without stopping at a
      failure, append the project name to the list of each failed check, and
      pull (appending to `updatedRepos` on success) only when none failed.
    */
    method ProcessRepository(git: GitOracle, repoPath: string, branchName: string)
      modifies this
      ensures Snapshot() == Processed(old(Snapshot()), git, repoPath, branchName)
    {
      var projectName := Base(repoPath);
      var allChecksPassed := RunCheckLoop(FailsOf(git, repoPath, branchName), projectName);
      if allChecksPassed && GitPull(git, repoPath) {
        Record(Updated, projectName);
      }
    }
  }
}
