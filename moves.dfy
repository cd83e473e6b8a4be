/** Facts about an ordered list of move names: distinctness, where a name
    last occurs, and how many distinct names a list holds. */
module Moves {

  /** No name occurs twice in s. */
  predicate Distinct(s: seq<string>) {
    forall i, j :: 0 <= i < j < |s| ==> s[i] != s[j]
  }

  /** The set of names in s (what a JavaScript `new Set(s)` holds). */
  function Names(s: seq<string>): set<string> {
    set x | x in s
  }

  /** Index of the last occurrence of x in s. */
  function LastIndexOf(s: seq<string>, x: string): (k: nat)
    requires x in s
    ensures k < |s| && s[k] == x
    ensures forall j :: k < j < |s| ==> s[j] != x
  {
    if s[|s| - 1] == x then |s| - 1 else LastIndexOf(s[..|s| - 1], x)
  }

  /** An index at which the member x of s sits. */
  lemma MemberIndex(s: seq<string>, x: string) returns (k: nat)
    requires x in s
    ensures k < |s| && s[k] == x
  {
    k :| 0 <= k < |s| && s[k] == x;
  }

  /** In a list without duplicates, the last occurrence of s[k] is k itself. */
  lemma DistinctLastIndex(s: seq<string>, k: nat)
    requires Distinct(s) && k < |s|
    ensures LastIndexOf(s, s[k]) == k
  {
  }

  /** A list never holds more distinct names than it has entries. */
  lemma {:induction false} NamesAtMostLength(s: seq<string>)
    ensures |Names(s)| <= |s|
  {
    if s != [] {
      assert Names(s) == {s[0]} + Names(s[1..]);
      NamesAtMostLength(s[1..]);
    }
  }

  /** A list without duplicates holds exactly as many names as entries. */
  lemma {:induction false} DistinctNamesCount(s: seq<string>)
    requires Distinct(s)
    ensures |Names(s)| == |s|
  {
    if s != [] {
      assert Names(s) == {s[0]} + Names(s[1..]);
      assert s[0] !in Names(s[1..]);
      DistinctNamesCount(s[1..]);
    }
  }

  /** A list with a repeated name holds fewer names than entries. */
  lemma DuplicateLosesName(s: seq<string>, a: nat, b: nat)
    requires a < b < |s| && s[a] == s[b]
    ensures |Names(s)| < |s|
  {
    var t := s[..b] + s[b + 1..];
    assert Names(s) == Names(t) by {
      forall x | x in Names(s) ensures x in Names(t) {
        var i :| 0 <= i < |s| && s[i] == x;
        if i < b {
          assert t[i] == x;
        } else if i == b {
          assert t[a] == x;
        } else {
          assert t[i - 1] == x;
        }
      }
    }
    NamesAtMostLength(t);
  }

  /** Comparing the size of the set of names with the length decides
      distinctness, in both directions. */
  lemma DistinctIffNamesCount(s: seq<string>)
    ensures Distinct(s) <==> |Names(s)| == |s|
  {
    if Distinct(s) {
      DistinctNamesCount(s);
    } else {
      var a, b :| 0 <= a < b < |s| && s[a] == s[b];
      DuplicateLosesName(s, a, b);
    }
  }
}
