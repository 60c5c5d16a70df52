/** Sequences of symbols and the transitions (adjacent pairs) they contain. */
module Transitions {

  /** Every symbol is a row index of an n-by-n matrix. */
  predicate InRange(s: seq<nat>, n: nat)
  {
    forall k | 0 <= k < |s| :: s[k] < n
  }

  /** No symbol follows itself. */
  predicate NoImmediateRepeat(s: seq<nat>)
  {
    forall k | 1 <= k < |s| :: s[k - 1] != s[k]
  }

  /** The multiset of adjacent pairs (s[i], s[i+1]) among the first k
      symbols of s. */
  function Pairs(s: seq<nat>, k: nat): (p: multiset<(nat, nat)>)
    requires k <= |s|
    ensures |p| == if k < 2 then 0 else k - 1
  {
    if k < 2 then multiset{}
    else Pairs(s, k - 1) + multiset{(s[k - 2], s[k - 1])}
  }

  /** A sequence without immediate repeats has no self-transition. */
  lemma {:induction false} NoSelfPairs(s: seq<nat>, k: nat, a: nat)
    requires k <= |s| && NoImmediateRepeat(s)
    ensures Pairs(s, k)[(a, a)] == 0
  {
    if k >= 2 {
      NoSelfPairs(s, k - 1, a);
      assert s[k - 2] != s[k - 1];
    }
  }

  /** Every transition among in-range symbols joins two in-range symbols. */
  lemma {:induction false} PairsInRange(s: seq<nat>, k: nat, n: nat, x: (nat, nat))
    requires k <= |s| && InRange(s[..k], n) && x in Pairs(s, k)
    ensures x.0 < n && x.1 < n
  {
    assert s[..k][k - 2] == s[k - 2] && s[..k][k - 1] == s[k - 1];
    if x != (s[k - 2], s[k - 1]) {
      var t := s[..k - 1];
      assert InRange(t, n) by {
        forall i | 0 <= i < |t| ensures t[i] < n {
          assert t[i] == s[..k][i];
        }
      }
      PairsInRange(s, k - 1, n, x);
    }
  }

  /** How often the transition from a to b occurs among the first k
      symbols of s: cell (a, b) of the count matrix lines 96-97 fill, read
      off directly. */
  function PairCount(s: seq<nat>, k: nat, a: nat, b: nat): (c: nat)
    requires k <= |s|
    ensures c <= if k < 2 then 0 else k - 1
    ensures a == b && NoImmediateRepeat(s) ==> c == 0
  {
    if k < 2 then 0
    else PairCount(s, k - 1, a, b) + (if s[k - 2] == a && s[k - 1] == b then 1 else 0)
  }

  /** The direct count agrees with the multiset of pairs. */
  lemma {:induction false} PairCountIsMultiplicity(s: seq<nat>, k: nat, a: nat, b: nat)
    requires k <= |s|
    ensures PairCount(s, k, a, b) == Pairs(s, k)[(a, b)]
  {
    if k >= 2 {
      PairCountIsMultiplicity(s, k - 1, a, b);
    }
  }

  /** The count among the first k symbols depends on those symbols only. */
  lemma {:induction false} PairCountOfPrefix(s: seq<nat>, t: seq<nat>, k: nat, a: nat, b: nat)
    requires k <= |s| && k <= |t| && s[..k] == t[..k]
    ensures PairCount(s, k, a, b) == PairCount(t, k, a, b)
  {
    if k >= 2 {
      assert s[..k - 1] == s[..k][..k - 1] && t[..k - 1] == t[..k][..k - 1];
      assert s[k - 2] == s[..k][k - 2] && t[k - 2] == t[..k][k - 2];
      assert s[k - 1] == s[..k][k - 1] && t[k - 1] == t[..k][k - 1];
      PairCountOfPrefix(s, t, k - 1, a, b);
    }
  }
}
