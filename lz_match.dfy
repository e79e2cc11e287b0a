/**
 * `lz_match`, the comparison loop shared by the dictionary coders: lab7, lab8
 * and lab11 carry identical copies, and `match` in research/lz77.py is the
 * same loop over a Python list.
 */
module Matching {

  /** The `length` items at `p1` and at `p2` agree pairwise, both runs lying inside `s`. */
  predicate Matches<T(==)>(s: seq<T>, p1: nat, p2: nat, length: nat)
  {
    p1 + length <= |s| && p2 + length <= |s| && s[p1..p1 + length] == s[p2..p2 + length]
  }

  /** Item `i` of a matching run equals item `i` of the run it matches. */
  lemma MatchesAt<T>(s: seq<T>, p1: nat, p2: nat, length: nat, i: nat)
    requires Matches(s, p1, p2, length) && i < length
    ensures s[p1 + i] == s[p2 + i]
  {
    assert s[p1..p1 + length][i] == s[p2..p2 + length][i];
  }

  /** Compares the two runs position by position and stops at the first difference. */
  method LzMatch<T(==)>(s: seq<T>, p1: nat, p2: nat, length: nat) returns (b: bool)
    requires p1 + length <= |s| && p2 + length <= |s|
    ensures b == Matches(s, p1, p2, length)
  {
    for i := 0 to length
      invariant s[p1..p1 + i] == s[p2..p2 + i]
    {
      if s[p1 + i] != s[p2 + i] {
        assert s[p1..p1 + length][i] != s[p2..p2 + length][i];
        return false;
      }
      assert s[p1..p1 + i + 1] == s[p1..p1 + i] + [s[p1 + i]];
      assert s[p2..p2 + i + 1] == s[p2..p2 + i] + [s[p2 + i]];
    }
    return true;
  }
}
