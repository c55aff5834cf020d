/**
  The parts of Go's `path/filepath` the tools use, for `/`-separated paths
  (no volume names): `Base`, `Dir`, and the "strictly beneath a directory"
  relation the tree walk uses when a directory is pruned.
*/
module FilePath {
  import opened GoStrings

  const SEPARATOR: char := '/'

  /** Index of the last separator in `p`, or -1 when there is none. */
  function LastSeparator(p: string): (i: int)
    ensures -1 <= i < |p|
    ensures 0 <= i ==> p[i] == SEPARATOR
    ensures forall k :: i < k < |p| ==> p[k] != SEPARATOR
  {
    if p == [] then -1
    else if p[|p| - 1] == SEPARATOR then |p| - 1
    else LastSeparator(p[..|p| - 1])
  }

  /** Every character of `p` is a separator. */
  predicate AllSeparators(p: string) {
    forall k :: 0 <= k < |p| ==> p[k] == SEPARATOR
  }

  /**
    `filepath.Base`: the last element of `p` once trailing separators are
    removed, that is the longest suffix of the trimmed path holding no
    separator; "." for the empty path and "/" for a path of separators only.
  */
  function Base(p: string): (r: string)
    ensures r != []
    ensures p == [] ==> r == "."
    ensures p != [] && AllSeparators(p) ==> r == "/"
    ensures !AllSeparators(p) ==>
      var q := TrimRight(p, [SEPARATOR]);
      && |r| <= |q| && r == q[|q| - |r|..]
      && SEPARATOR !in r
      && (|r| == |q| || q[|q| - |r| - 1] == SEPARATOR)
  {
    if p == [] then "."
    else
      var q := TrimRight(p, [SEPARATOR]);
      if q == [] then
        "/"
      else
        q[LastSeparator(q) + 1..]
  }

  /**
    `filepath.Dir` on a path whose directory part is already clean: "." when
    there is no separator; otherwise the part before the last separator with
    its trailing separators removed, or "/" when that part holds only
    separators.
  */
  function Dir(p: string): (r: string)
    ensures r != []
    ensures LastSeparator(p) < 0 ==> r == "."
    ensures LastSeparator(p) >= 0 ==>
      || (r == "/" && forall k :: 0 <= k <= LastSeparator(p) ==> p[k] == SEPARATOR)
      || (&& |r| <= LastSeparator(p) && r == p[..|r|] && r[|r| - 1] != SEPARATOR
          && forall k :: |r| <= k <= LastSeparator(p) ==> p[k] == SEPARATOR)
  {
    var prefix := p[..LastSeparator(p) + 1];
    if prefix == [] then "."
    else
      var d := TrimRight(prefix, [SEPARATOR]);
      if d == [] then "/" else d
  }

  /** A path in the shape a tree walk produces: no trailing or doubled separator. */
  predicate IsWalkPath(p: string) {
    && p != []
    && (p == "/" || p[|p| - 1] != SEPARATOR)
    && forall k :: 0 < k < |p| && p[k] == SEPARATOR ==> p[k - 1] != SEPARATOR
  }

  /** A string that does not end in a cut-set character is its own `TrimRight`. */
  lemma TrimRightNothingToCut(s: string, cutset: string)
    requires s != [] && s[|s| - 1] !in cutset
    ensures TrimRight(s, cutset) == s
  {
  }

  /** Below a non-root parent, `Dir` of a walk path is everything before its last separator. */
  lemma DirOfWalkPath(p: string, i: int)
    requires IsWalkPath(p)
    requires i == LastSeparator(p) && i > 0
    ensures Dir(p) == p[..i]
  {
    var prefix := p[..i + 1];
    assert prefix[|prefix| - 1] == SEPARATOR;
    assert prefix[..|prefix| - 1] == p[..i];
    assert p[i - 1] != SEPARATOR;
    TrimRightNothingToCut(p[..i], [SEPARATOR]);
    assert TrimRight(prefix, [SEPARATOR]) == p[..i];
  }

  /** Below a non-root parent, `Base` of a walk path is everything after its last separator. */
  lemma BaseOfWalkPath(p: string, i: int)
    requires IsWalkPath(p)
    requires i == LastSeparator(p) && i > 0
    ensures Base(p) == p[i + 1..]
  {
    assert p != "/";
    TrimRightNothingToCut(p, [SEPARATOR]);
  }

  /** For a walk path below a non-root parent, `Dir` and `Base` split it at its last separator. */
  lemma DirJoinBase(p: string)
    requires IsWalkPath(p)
    requires LastSeparator(p) > 0
    ensures Dir(p) + [SEPARATOR] + Base(p) == p
  {
    var i := LastSeparator(p);
    DirOfWalkPath(p, i);
    BaseOfWalkPath(p, i);
    SplitAt(p, i);
  }

  lemma SplitAt(p: string, i: nat)
    requires i < |p| && p[i] == SEPARATOR
    ensures p[..i] + [SEPARATOR] + p[i + 1..] == p
  {
    assert p[..i] + [SEPARATOR] + p[i + 1..] == p[..i] + p[i..];
  }

  /** `p` lies strictly inside directory `d`. */
  predicate Beneath(p: string, d: string) {
    |d| < |p| && p[..|d|] == d && p[|d|] == SEPARATOR
  }
}
