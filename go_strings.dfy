/**
  The few functions of Go's `strings` package the two tools rely on:
  `TrimSpace`, `TrimRight` with a cut set, and `Contains`. Strings are
  sequences of Unicode scalar values; a Go string holding valid UTF-8 is the
  same sequence of runes, so byte-wise and rune-wise answers agree.
*/
module GoStrings {

  /** Go's `unicode.IsSpace`: the Latin-1 spaces and the Unicode White_Space set. */
  predicate IsSpace(c: char) {
    || 0x09 <= c as int <= 0x0D
    || c == ' '
    || c as int == 0x85
    || c as int == 0xA0
    || c as int == 0x1680
    || 0x2000 <= c as int <= 0x200A
    || c as int == 0x2028
    || c as int == 0x2029
    || c as int == 0x202F
    || c as int == 0x205F
    || c as int == 0x3000
  }

  predicate AllSpace(s: string) {
    forall k :: 0 <= k < |s| ==> IsSpace(s[k])
  }

  /** Every character of `s` at an index from `lo` up to (not including) `hi` is a space. */
  predicate SpacesIn(s: string, lo: int, hi: int) {
    forall k :: lo <= k < hi && 0 <= k < |s| ==> IsSpace(s[k])
  }

  /** Neither the first nor the last character of `s` is a space. */
  predicate NoEdgeSpace(s: string) {
    s == [] || (!IsSpace(s[0]) && !IsSpace(s[|s| - 1]))
  }

  /** The number of spaces at the front of `s`: they are all spaces, and the next character is not. */
  function LeadingSpace(s: string): (n: nat)
    ensures n <= |s| && SpacesIn(s, 0, n)
    ensures n < |s| ==> !IsSpace(s[n])
  {
    if s == [] || !IsSpace(s[0]) then 0
    else
      var m := LeadingSpace(s[1..]);
      assert forall k :: 1 <= k < m + 1 ==> s[k] == s[1..][k - 1];
      m + 1
  }

  /** The number of spaces at the end of `s`: they are all spaces, and the character before them is not. */
  function TrailingSpace(s: string): (n: nat)
    ensures n <= |s| && SpacesIn(s, |s| - n, |s|)
    ensures n < |s| ==> !IsSpace(s[|s| - n - 1])
  {
    if s == [] || !IsSpace(s[|s| - 1]) then 0
    else
      var m := TrailingSpace(s[..|s| - 1]);
      assert forall k :: |s| - 1 - m <= k < |s| - 1 ==> s[k] == s[..|s| - 1][k];
      m + 1
  }

  /** The leading-space count is the one run of spaces that ends at a non-space or at the end. */
  lemma LeadingSpaceUnique(s: string, n: nat)
    requires n <= |s| && SpacesIn(s, 0, n)
    requires n < |s| ==> !IsSpace(s[n])
    ensures LeadingSpace(s) == n
  {
  }

  /** The trailing-space count is the one run of spaces that starts after a non-space or at the start. */
  lemma TrailingSpaceUnique(s: string, n: nat)
    requires n <= |s| && SpacesIn(s, |s| - n, |s|)
    requires n < |s| ==> !IsSpace(s[|s| - n - 1])
    ensures TrailingSpace(s) == n
  {
  }

  /**
    Go's `strings.TrimSpace`: `s` is the result with some spaces in front and
    some behind, and the result neither starts nor ends with a space.
  */
  function TrimSpace(s: string): (r: string)
    ensures LeadingSpace(s) + |r| <= |s|
    ensures r == s[LeadingSpace(s)..LeadingSpace(s) + |r|]
    ensures SpacesIn(s, 0, LeadingSpace(s)) && SpacesIn(s, LeadingSpace(s) + |r|, |s|)
    ensures NoEdgeSpace(r)
  {
    var i := LeadingSpace(s);
    var j := |s| - TrailingSpace(s);
    if j <= i then
      assert i == |s|;
      []
    else s[i..j]
  }

  /** The input is the trimmed string with the removed spaces on either side. */
  lemma TrimSpaceSplit(s: string)
    ensures exists a, b :: s == a + TrimSpace(s) + b && AllSpace(a) && AllSpace(b)
  {
    var k := LeadingSpace(s);
    var r := TrimSpace(s);
    var a, b := s[..k], s[k + |r|..];
    assert s == a + r + b by {
      assert s[..k] + s[k..k + |r|] == s[..k + |r|];
    }
    assert AllSpace(a) by {
      forall j | 0 <= j < |a| ensures IsSpace(a[j]) {
        assert a[j] == s[j];
      }
    }
    assert AllSpace(b) by {
      forall j | 0 <= j < |b| ensures IsSpace(b[j]) {
        assert b[j] == s[k + |r| + j];
      }
    }
  }

  /**
    `TrimSpace` is determined by its contract: whenever `s` is `r` wrapped in
    spaces and `r` has no space at either edge, the trimmed `s` is `r`.
  */
  lemma TrimSpaceUnique(s: string, a: string, r: string, b: string)
    requires s == a + r + b
    requires AllSpace(a) && AllSpace(b) && NoEdgeSpace(r)
    ensures TrimSpace(s) == r
  {
    forall k | 0 <= k < |a| ensures s[k] == a[k] { }
    forall k | |a| + |r| <= k < |s| ensures s[k] == b[k - |a| - |r|] { }
    if r == [] {
      LeadingSpaceUnique(s, |s|);
    } else {
      assert s[|a|] == r[0] && s[|a| + |r| - 1] == r[|r| - 1];
      LeadingSpaceUnique(s, |a|);
      TrailingSpaceUnique(s, |b|);
      assert s[|a|..|a| + |r|] == r;
    }
  }

  /** Trimming twice is trimming once. */
  lemma TrimSpaceIdempotent(s: string)
    ensures TrimSpace(TrimSpace(s)) == TrimSpace(s)
  {
    var r := TrimSpace(s);
    assert r == [] + r + [];
    TrimSpaceUnique(r, [], r, []);
  }

  /** Go's `strings.TrimRight(s, cutset)`: drop trailing characters that occur in `cutset`. */
  function TrimRight(s: string, cutset: string): (r: string)
    ensures |r| <= |s| && r == s[..|r|]
    ensures forall k :: |r| <= k < |s| ==> s[k] in cutset
    ensures r == [] || r[|r| - 1] !in cutset
  {
    if s == [] || s[|s| - 1] !in cutset then s else TrimRight(s[..|s| - 1], cutset)
  }

  /** `sub` occurs in `s` starting at index `i`. */
  predicate OccursAt(s: string, sub: string, i: nat) {
    i + |sub| <= |s| && s[i..i + |sub|] == sub
  }

  /** Go's `strings.Contains`: `sub` occurs somewhere in `s` (the empty string occurs everywhere). */
  function Contains(s: string, sub: string): (b: bool)
    ensures b <==> exists i: nat :: OccursAt(s, sub, i)
    decreases |s|
  {
    if |s| < |sub| then
      assert forall i: nat :: !OccursAt(s, sub, i);
      false
    else if s[..|sub|] == sub then
      assert OccursAt(s, sub, 0);
      true
    else
      var rest := Contains(s[1..], sub);
      assert forall i: nat :: OccursAt(s[1..], sub, i) <==> OccursAt(s, sub, i + 1) by {
        forall i: nat ensures OccursAt(s[1..], sub, i) <==> OccursAt(s, sub, i + 1) {
          if i + 1 + |sub| <= |s| {
            assert s[1..][i..i + |sub|] == s[i + 1..i + 1 + |sub|];
          }
        }
      }
      assert !OccursAt(s, sub, 0);
      assert (exists i: nat :: OccursAt(s, sub, i)) ==> exists i: nat :: OccursAt(s[1..], sub, i) by {
        if exists i: nat :: OccursAt(s, sub, i) {
          var i: nat :| OccursAt(s, sub, i);
          assert i != 0;
          assert OccursAt(s[1..], sub, i - 1);
        }
      }
      rest
  }

  /** Every string contains the empty string. */
  lemma ContainsEmpty(s: string)
    ensures Contains(s, "")
  {
    assert OccursAt(s, "", 0);
  }

  /** A string contains each of its own infixes. */
  lemma ContainsInfix(a: string, sub: string, b: string)
    ensures Contains(a + sub + b, sub)
  {
    assert (a + sub + b)[|a|..|a| + |sub|] == sub;
    assert OccursAt(a + sub + b, sub, |a|);
  }
}
