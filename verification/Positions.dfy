/**
 Positions picked from a sequence, in order: what a comprehension or a filtering loop selects, said
 without the comprehension.
 */
module Positions {

  ghost predicate Increasing(s: seq<nat>) {
    forall i, j :: 0 <= i < j < |s| ==> s[i] < s[j]
  }

  /** One later position more. */
  lemma Append(at: seq<nat>, n: nat)
    requires Increasing(at) && forall i :: i in at ==> i < n
    ensures Increasing(at + [n]) && forall i :: i in at + [n] <==> i in at || i == n
  {
    forall k | 0 <= k < |at|
      ensures at[k] < n
    {
      assert at[k] in at;
    }
  }

  /** Pairs of positions, ordered by the first and then by the second. */
  ghost predicate PairsIncreasing(s: seq<(nat, nat)>) {
    forall k, l :: 0 <= k < l < |s| ==> s[k].0 < s[l].0 || (s[k].0 == s[l].0 && s[k].1 < s[l].1)
  }

  function Paired(n: nat, js: seq<nat>): (s: seq<(nat, nat)>)
    ensures |s| == |js|
  {
    seq(|js|, k requires 0 <= k < |js| => (n, js[k]))
  }

  /** The pairs of one later first position more. */
  lemma AppendPairs(at: seq<(nat, nat)>, n: nat, js: seq<nat>)
    requires PairsIncreasing(at) && Increasing(js) && forall pair :: pair in at ==> pair.0 < n
    ensures PairsIncreasing(at + Paired(n, js))
    ensures forall i: nat, j: nat :: (i, j) in at + Paired(n, js) <==> (i, j) in at || (i == n && j in js)
  {
    var more := Paired(n, js);
    forall i: nat, j: nat
      ensures (i, j) in more <==> i == n && j in js
    {
      if i == n && j in js {
        var k :| 0 <= k < |js| && js[k] == j;
        assert more[k] == (n, j);
      }
    }
    forall k | 0 <= k < |at|
      ensures at[k].0 < n
    {
      assert at[k] in at;
    }
  }

  /** All positions below `m`. */
  function AllBelow(m: nat): (js: seq<nat>)
    ensures |js| == m
  {
    seq(m, j => j)
  }

  lemma AllBelowIsAll(m: nat)
    ensures Increasing(AllBelow(m)) && forall i: nat :: i in AllBelow(m) <==> i < m
  {
    forall i: nat
      ensures i in AllBelow(m) <==> i < m
    {
      if i < m {
        assert AllBelow(m)[i] == i;
      }
    }
  }
}
