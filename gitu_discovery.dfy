/**
  Repository discovery in `gitu`'s `main`: the callback handed to
  `filepath.Walk`, and the walk itself over a pre-order listing of the tree.

  The walk primitive is given as the sequence of calls it would make on the
  whole tree, in walk order. Returning `SkipDir` for a directory means the
  walk does not call back for anything beneath it; returning an error ends
  the walk.
*/
module GituDiscovery {
  import opened Wrappers
  import opened FilePath

  const GIT_DIR: string := ".git"

  /** One call of the walk function: the path, whether it is a directory, and whether the walk passed an error. */
  datatype WalkEntry = WalkEntry(path: string, isDir: bool, failed: bool)

  /** The three things the callback can return: the error, `filepath.SkipDir` after scheduling a repository, or nil. */
  datatype Verdict = Stop | SkipDir(repoPath: string) | Continue

  /** A directory named `.git`: its parent is a repository root. */
  predicate IsGitDir(e: WalkEntry) {
    e.isDir && Base(e.path) == GIT_DIR
  }

  /**
    The callback of `filepath.Walk` in `main`: an error it is passed ends the
    walk; a `.git` directory schedules its parent and prunes only itself;
    anything else lets the walk go on.
  */
  function Visit(e: WalkEntry): (v: Verdict)
    ensures v.Stop? <==> e.failed
    ensures v.SkipDir? <==> !e.failed && e.isDir && Base(e.path) == GIT_DIR
    ensures v.SkipDir? ==> v.repoPath == Dir(e.path)
  {
    if e.failed then Stop
    else if IsGitDir(e) then SkipDir(Dir(e.path))
    else Continue
  }

  /** What the walk yields: the repositories scheduled, whether an error ended it, and the last pruned directory. */
  datatype WalkResult = WalkResult(repos: seq<string>, aborted: bool, pruned: Option<string>)

  /** `e` lies beneath the directory most recently pruned, so the walk makes no call for it. */
  predicate Hidden(e: WalkEntry, pruned: Option<string>) {
    pruned.Some? && Beneath(e.path, pruned.value)
  }

  /**
    The walk primitive with callback `visit` over `entries`, `pruned` being the
    last directory skipped: calls hidden by a pruned directory are not made, a
    `Stop` ends the walk, and a `SkipDir` records its repository and prunes
    the entry's directory.
  */
  function Walk(entries: seq<WalkEntry>, pruned: Option<string>, visit: WalkEntry -> Verdict): (r: WalkResult)
    ensures |r.repos| <= |entries|
    ensures r.aborted ==> exists i :: 0 <= i < |entries| && visit(entries[i]).Stop?
    decreases |entries|
  {
    if entries == [] then WalkResult([], false, pruned)
    else
      var e := entries[0];
      assert forall i :: 0 < i < |entries| ==> entries[i] == entries[1..][i - 1];
      if Hidden(e, pruned) then Walk(entries[1..], pruned, visit)
      else match visit(e)
        case Stop => WalkResult([], true, pruned)
        case SkipDir(repoPath) =>
          var rest := Walk(entries[1..], Some(e.path), visit);
          rest.(repos := [repoPath] + rest.repos)
        case Continue => Walk(entries[1..], pruned, visit)
  }

  /** The pruning state after the walk has looked at `e`. */
  function PrunedAfter(e: WalkEntry, pruned: Option<string>, visit: WalkEntry -> Verdict): Option<string>
  {
    if !Hidden(e, pruned) && visit(e).SkipDir? then Some(e.path) else pruned
  }

  /** Discovery: the walk of `main` from the working directory with the `.git` callback. */
  function Discover(entries: seq<WalkEntry>): WalkResult
  {
    Walk(entries, None, Visit)
  }

  /** `found` followed by what the rest of the walk yields. */
  function Then(found: seq<string>, rest: WalkResult): WalkResult {
    rest.(repos := found + rest.repos)
  }

  /** One step of the walk on a call the callback does not stop at. */
  lemma WalkStep(entries: seq<WalkEntry>, pruned: Option<string>, visit: WalkEntry -> Verdict)
    requires entries != [] && (Hidden(entries[0], pruned) || !visit(entries[0]).Stop?)
    ensures Walk(entries, pruned, visit) ==
      Then(if !Hidden(entries[0], pruned) && visit(entries[0]).SkipDir? then [visit(entries[0]).repoPath] else [],
           Walk(entries[1..], PrunedAfter(entries[0], pruned, visit), visit))
  {
  }

  lemma ThenThen(a: seq<string>, b: seq<string>, w: WalkResult)
    ensures Then(a, Then(b, w)) == Then(a + b, w)
  {
    assert a + (b + w.repos) == (a + b) + w.repos;
  }

  /** One call of the walk callback, seen from the whole walk: `found` were scheduled before call `i`. */
  lemma WalkAdvance(entries: seq<WalkEntry>, i: nat, found: seq<string>, pruned: Option<string>, visit: WalkEntry -> Verdict)
    requires i < |entries|
    ensures !Hidden(entries[i], pruned) && visit(entries[i]).Stop? ==>
      Then(found, Walk(entries[i..], pruned, visit)) == WalkResult(found, true, pruned)
    ensures Hidden(entries[i], pruned) || !visit(entries[i]).Stop? ==>
      Then(found, Walk(entries[i..], pruned, visit)) ==
        Then(found + (if !Hidden(entries[i], pruned) && visit(entries[i]).SkipDir? then [visit(entries[i]).repoPath] else []),
          Walk(entries[i + 1..], PrunedAfter(entries[i], pruned, visit), visit))
  {
    var rest := entries[i..];
    assert rest[0] == entries[i] && rest[1..] == entries[i + 1..];
    if !Hidden(entries[i], pruned) && visit(entries[i]).Stop? {
      assert found + [] == found;
    } else {
      WalkStep(rest, pruned, visit);
      ThenThen(found, if !Hidden(entries[i], pruned) && visit(entries[i]).SkipDir? then [visit(entries[i]).repoPath] else [],
        Walk(entries[i + 1..], PrunedAfter(entries[i], pruned, visit), visit));
    }
  }

  /** The walk reaches call `j`: nothing before it ended the walk, and no pruned directory hides it. */
  predicate Reached(entries: seq<WalkEntry>, pruned: Option<string>, visit: WalkEntry -> Verdict, j: int)
    requires 0 <= j < |entries|
  {
    var before := Walk(entries[..j], pruned, visit);
    !before.aborted && !Hidden(entries[j], before.pruned)
  }

  /** A walk of one call that does not stop leaves the pruning state `PrunedAfter` says. */
  lemma WalkOne(e: WalkEntry, pruned: Option<string>, visit: WalkEntry -> Verdict)
    requires Hidden(e, pruned) || !visit(e).Stop?
    ensures !Walk([e], pruned, visit).aborted
    ensures Walk([e], pruned, visit).pruned == PrunedAfter(e, pruned, visit)
  {
    assert [e][1..] == [];
  }

  /**
    Every repository the walk records was returned by the callback for a call
    the walk made: no earlier call ended the walk and no directory pruned
    before it hides it.
  */
  lemma {:induction false} WalkSound(entries: seq<WalkEntry>, pruned: Option<string>, visit: WalkEntry -> Verdict, repo: string)
    requires repo in Walk(entries, pruned, visit).repos
    ensures exists j :: 0 <= j < |entries| && Reached(entries, pruned, visit, j) && visit(entries[j]) == SkipDir(repo)
    decreases |entries|
  {
    var e := entries[0];
    if !Hidden(e, pruned) && visit(e) == SkipDir(repo) {
      assert entries[..0] == [];
      assert Reached(entries, pruned, visit, 0);
    } else {
      var p := PrunedAfter(e, pruned, visit);
      WalkSound(entries[1..], p, visit, repo);
      var j :| 0 <= j < |entries[1..]| && Reached(entries[1..], p, visit, j) && visit(entries[1..][j]) == SkipDir(repo);
      assert entries[j + 1] == entries[1..][j];
      WalkOne(e, pruned, visit);
      assert entries[..j + 1] == [e] + entries[1..][..j];
      WalkAppend([e], entries[1..][..j], pruned, visit);
      assert Reached(entries, pruned, visit, j + 1);
    }
  }

  /**
    Every scheduled repository is `filepath.Dir` of a `.git` directory the
    walk reached: no error ended the walk before it, it was not passed an
    error itself, and it lies beneath no `.git` directory pruned earlier.
  */
  lemma DiscoverSound(entries: seq<WalkEntry>, repo: string)
    requires repo in Discover(entries).repos
    ensures exists j ::
      && 0 <= j < |entries| && IsGitDir(entries[j]) && !entries[j].failed && repo == Dir(entries[j].path)
      && !Discover(entries[..j]).aborted && !Hidden(entries[j], Discover(entries[..j]).pruned)
  {
    WalkSound(entries, None, Visit, repo);
    var j :| 0 <= j < |entries| && Reached(entries, None, Visit, j) && Visit(entries[j]) == SkipDir(repo);
    assert IsGitDir(entries[j]) && !entries[j].failed && repo == Dir(entries[j].path);
  }

  /**
    Pruning: a call beneath the `.git` directory pruned last is never made,
    so even a `.git` directory or an error there contributes nothing, and the
    walk goes on after it with the same pruning state.
  */
  lemma DiscoverSkipsPruned(a: seq<WalkEntry>, e: WalkEntry, rest: seq<WalkEntry>)
    requires !Discover(a).aborted && Hidden(e, Discover(a).pruned)
    ensures Discover(a + [e] + rest) == Then(Discover(a).repos, Walk(rest, Discover(a).pruned, Visit))
  {
    assert a + [e] + rest == a + ([e] + rest);
    WalkAppend(a, [e] + rest, None, Visit);
    assert ([e] + rest)[0] == e && ([e] + rest)[1..] == rest;
  }

  /**
    The converse of `WalkSound`: a call the walk reaches, at which the
    callback returns `SkipDir`, schedules its repository.
  */
  lemma WalkComplete(entries: seq<WalkEntry>, pruned: Option<string>, visit: WalkEntry -> Verdict, j: nat)
    requires j < |entries| && Reached(entries, pruned, visit, j) && visit(entries[j]).SkipDir?
    ensures visit(entries[j]).repoPath in Walk(entries, pruned, visit).repos
  {
    assert entries == entries[..j] + entries[j..];
    WalkAppend(entries[..j], entries[j..], pruned, visit);
    assert entries[j..][0] == entries[j];
  }

  /** A reached call at which the callback returns an error ends the walk in error. */
  lemma ReachedStopAborts(entries: seq<WalkEntry>, pruned: Option<string>, visit: WalkEntry -> Verdict, j: nat)
    requires j < |entries| && Reached(entries, pruned, visit, j) && visit(entries[j]).Stop?
    ensures Walk(entries, pruned, visit).aborted
  {
    assert entries == entries[..j] + entries[j..];
    WalkAppend(entries[..j], entries[j..], pruned, visit);
    assert entries[j..][0] == entries[j];
  }

  /** A walk that ends in error reached a call at which the callback returned the error. */
  lemma {:induction false} AbortedAtReachedStop(entries: seq<WalkEntry>, pruned: Option<string>, visit: WalkEntry -> Verdict)
    requires Walk(entries, pruned, visit).aborted
    ensures exists j :: 0 <= j < |entries| && Reached(entries, pruned, visit, j) && visit(entries[j]).Stop?
    decreases |entries|
  {
    var e := entries[0];
    if !Hidden(e, pruned) && visit(e).Stop? {
      assert entries[..0] == [];
      assert Reached(entries, pruned, visit, 0);
    } else {
      var p := PrunedAfter(e, pruned, visit);
      WalkStep(entries, pruned, visit);
      AbortedAtReachedStop(entries[1..], p, visit);
      var j :| 0 <= j < |entries[1..]| && Reached(entries[1..], p, visit, j) && visit(entries[1..][j]).Stop?;
      assert entries[j + 1] == entries[1..][j];
      WalkOne(e, pruned, visit);
      assert entries[..j + 1] == [e] + entries[1..][..j];
      WalkAppend([e], entries[1..][..j], pruned, visit);
      assert Reached(entries, pruned, visit, j + 1);
    }
  }

  /** The walk ends in error iff it reaches a call at which the callback returns an error. */
  lemma AbortedIffReachedStop(entries: seq<WalkEntry>, pruned: Option<string>, visit: WalkEntry -> Verdict)
    ensures Walk(entries, pruned, visit).aborted <==>
      exists j :: 0 <= j < |entries| && Reached(entries, pruned, visit, j) && visit(entries[j]).Stop?
  {
    if Walk(entries, pruned, visit).aborted {
      AbortedAtReachedStop(entries, pruned, visit);
    }
    if exists j :: 0 <= j < |entries| && Reached(entries, pruned, visit, j) && visit(entries[j]).Stop? {
      var j :| 0 <= j < |entries| && Reached(entries, pruned, visit, j) && visit(entries[j]).Stop?;
      ReachedStopAborts(entries, pruned, visit, j);
    }
  }

  /**
    A sufficient condition for `WalkComplete` stated on the listing alone: no
    earlier call stops, and no earlier `SkipDir` call's directory contains
    the call.
  */
  lemma {:induction false} WalkCompleteUnpruned(entries: seq<WalkEntry>, pruned: Option<string>, visit: WalkEntry -> Verdict, j: nat)
    requires j < |entries| && visit(entries[j]).SkipDir?
    requires forall i :: 0 <= i < j ==> !visit(entries[i]).Stop?
    requires forall i :: 0 <= i < j && visit(entries[i]).SkipDir? ==> !Beneath(entries[j].path, entries[i].path)
    requires !Hidden(entries[j], pruned)
    ensures visit(entries[j]).repoPath in Walk(entries, pruned, visit).repos
    decreases j
  {
    if j > 0 {
      var p := PrunedAfter(entries[0], pruned, visit);
      assert entries[1..][j - 1] == entries[j];
      forall i | 0 <= i < j - 1 ensures !visit(entries[1..][i]).Stop? {
        assert entries[1..][i] == entries[i + 1];
      }
      forall i | 0 <= i < j - 1 && visit(entries[1..][i]).SkipDir?
        ensures !Beneath(entries[1..][j - 1].path, entries[1..][i].path)
      {
        assert entries[1..][i] == entries[i + 1];
      }
      WalkCompleteUnpruned(entries[1..], p, visit, j - 1);
    }
  }

  /**
    Every `.git` directory the walk reaches without an error is discovered:
    no error before it ended the walk and it lies beneath no `.git` directory
    pruned earlier.
  */
  lemma DiscoverComplete(entries: seq<WalkEntry>, j: nat)
    requires j < |entries| && IsGitDir(entries[j]) && !entries[j].failed
    requires !Discover(entries[..j]).aborted && !Hidden(entries[j], Discover(entries[..j]).pruned)
    ensures Dir(entries[j].path) in Discover(entries).repos
  {
    assert Reached(entries, None, Visit, j);
    WalkComplete(entries, None, Visit, j);
  }

  /**
    Pruning removes only the `.git` directory's own subtree: a `.git`
    directory that lies beneath no earlier `.git` directory is found, so
    repositories nested in another repository's working tree are discovered,
    provided no error comes first.
  */
  lemma DiscoverNested(entries: seq<WalkEntry>, j: nat)
    requires j < |entries| && IsGitDir(entries[j])
    requires forall i :: 0 <= i <= j ==> !entries[i].failed
    requires forall i :: 0 <= i < j && IsGitDir(entries[i]) ==> !Beneath(entries[j].path, entries[i].path)
    ensures Dir(entries[j].path) in Discover(entries).repos
  {
    WalkCompleteUnpruned(entries, None, Visit, j);
  }

  /**
    The walk is compositional, and an error ends it: once the first part of
    the listing has aborted, nothing after it is looked at; otherwise the rest
    is walked with the pruning state the first part left behind.
  */
  lemma {:induction false} WalkAppend(a: seq<WalkEntry>, b: seq<WalkEntry>, pruned: Option<string>, visit: WalkEntry -> Verdict)
    ensures Walk(a, pruned, visit).aborted ==> Walk(a + b, pruned, visit) == Walk(a, pruned, visit)
    ensures !Walk(a, pruned, visit).aborted ==>
      Walk(a + b, pruned, visit) == Then(Walk(a, pruned, visit).repos, Walk(b, Walk(a, pruned, visit).pruned, visit))
    decreases |a|
  {
    if a == [] {
      assert a + b == b;
    } else {
      assert (a + b)[0] == a[0];
      assert (a + b)[1..] == a[1..] + b;
      WalkAppend(a[1..], b, PrunedAfter(a[0], pruned, visit), visit);
      if Hidden(a[0], pruned) || !visit(a[0]).Stop? {
        WalkStep(a, pruned, visit);
        WalkStep(a + b, pruned, visit);
        var first := if !Hidden(a[0], pruned) && visit(a[0]).SkipDir? then [visit(a[0]).repoPath] else [];
        var w := Walk(a[1..], PrunedAfter(a[0], pruned, visit), visit);
        if !w.aborted {
          ThenThen(first, w.repos, Walk(b, w.pruned, visit));
        }
      }
    }
  }

  /** A listing in which the callback never stops is walked to the end. */
  lemma {:induction false} NoStopNoAbort(entries: seq<WalkEntry>, pruned: Option<string>, visit: WalkEntry -> Verdict)
    requires forall i :: 0 <= i < |entries| ==> !visit(entries[i]).Stop?
    ensures !Walk(entries, pruned, visit).aborted
    decreases |entries|
  {
    if entries != [] {
      forall i | 0 <= i < |entries[1..]| ensures !visit(entries[1..][i]).Stop? {
        assert entries[1..][i] == entries[i + 1];
      }
      NoStopNoAbort(entries[1..], PrunedAfter(entries[0], pruned, visit), visit);
    }
  }

  /** The first error the walk reaches ends it: what follows it yields no repository. */
  lemma FirstErrorStopsWalk(a: seq<WalkEntry>, e: WalkEntry, rest: seq<WalkEntry>)
    requires !Discover(a).aborted
    requires e.failed && !Hidden(e, Discover(a).pruned)
    ensures Discover(a + [e] + rest) == WalkResult(Discover(a).repos, true, Discover(a).pruned)
  {
    assert a + [e] + rest == a + ([e] + rest);
    WalkAppend(a, [e] + rest, None, Visit);
    assert ([e] + rest)[0] == e;
  }
}

/** `main` of `gitu`: walk the tree and process each repository as it is found. */
module GituMain {
  import opened Wrappers
  import opened GituChecks
  import opened GituStatus
  import opened GituDiscovery

  /**
    Walk `entries` from the working directory, calling `processRepository`
    for each repository the callback schedules, until the walk ends or fails.
    The result is the five lists that `printResults` would print, and whether
    the walk reported an error.
  */
  method Gitu(git: GitOracle, entries: seq<WalkEntry>, branchName: string) returns (report: Report, walkFailed: bool)
    ensures report == RunAll(EMPTY_REPORT, Discover(entries).repos, git, branchName)
    ensures walkFailed == Discover(entries).aborted
  {
    var visit: WalkEntry -> Verdict := Visit;
    var status := new RepoStatus();
    var pruned: Option<string> := None;
    var found: seq<string> := [];
    var i := 0;
    walkFailed := false;
    assert entries[i..] == entries;
    while i < |entries| && !walkFailed
      invariant 0 <= i <= |entries|
      invariant !walkFailed ==> Discover(entries) == Then(found, Walk(entries[i..], pruned, visit))
      invariant walkFailed ==> Discover(entries) == WalkResult(found, true, pruned)
      invariant status.Snapshot() == RunAll(EMPTY_REPORT, found, git, branchName)
      decreases |entries| - i, !walkFailed
    {
      var e := entries[i];
      WalkAdvance(entries, i, found, pruned, visit);
      if Hidden(e, pruned) {
        i := i + 1;
      } else {
        var v := visit(e);
        match v {
          case Stop =>
            walkFailed := true;
          case SkipDir(repoPath) =>
            status.ProcessRepository(git, repoPath, branchName);
            assert (found + [repoPath])[..|found|] == found;
            found := found + [repoPath];
            pruned := Some(e.path);
            i := i + 1;
          case Continue =>
            i := i + 1;
        }
      }
    }
    if !walkFailed {
      assert entries[i..] == [];
      assert found + [] == found;
    }
    report := status.Snapshot();
  }
}
