/**
 Recency: the distinct paths of a request history in the order of their last use, oldest first.
 The cache of kglite/__init__.py is proved to hold exactly the end of this sequence.
 */
module Recency {
  import opened Prelude

  type Path = string

  function Without(s: seq<Path>, p: Path): (r: seq<Path>)
    ensures p !in r && |r| <= |s|
    ensures forall q :: q in r <==> q in s && q != p
  {
    if s == [] then []
    else if s[0] == p then Without(s[1..], p)
    else [s[0]] + Without(s[1..], p)
  }

  /** Distinct paths, least recently used first. */
  function ByLastUse(history: seq<Path>): (r: seq<Path>)
    ensures forall q :: q in r <==> q in history
  {
    if history == [] then []
    else
      var last := history[|history| - 1];
      assert forall q :: q in history <==> q in history[..|history| - 1] || q == last;
      Without(ByLastUse(history[..|history| - 1]), last) + [last]
  }

  function Newest(s: seq<Path>, n: nat): seq<Path> {
    if |s| <= n then s else s[|s| - n..]
  }

  lemma {:induction false} WithoutKeepsOrder(s: seq<Path>, p: Path, i: nat, j: nat)
    requires Distinct(s) && i < j < |Without(s, p)|
    ensures exists k, l :: 0 <= k < l < |s| && s[k] == Without(s, p)[i] && s[l] == Without(s, p)[j]
    decreases |s|
  {
    if s[0] == p {
      WithoutKeepsOrder(s[1..], p, i, j);
      var k, l :| 0 <= k < l < |s[1..]| && s[1..][k] == Without(s[1..], p)[i] && s[1..][l] == Without(s[1..], p)[j];
      assert s[k + 1] == Without(s, p)[i] && s[l + 1] == Without(s, p)[j];
    } else if i == 0 {
      assert Without(s, p)[j] in Without(s[1..], p);
      var l :| 0 <= l < |s[1..]| && s[1..][l] == Without(s, p)[j];
      assert s[0] == Without(s, p)[i] && s[l + 1] == Without(s, p)[j];
    } else {
      WithoutKeepsOrder(s[1..], p, i - 1, j - 1);
      var k, l :| 0 <= k < l < |s[1..]| && s[1..][k] == Without(s[1..], p)[i - 1]
          && s[1..][l] == Without(s[1..], p)[j - 1];
      assert s[k + 1] == Without(s, p)[i] && s[l + 1] == Without(s, p)[j];
    }
  }

  lemma WithoutNoRepeats(s: seq<Path>, p: Path)
    requires Distinct(s)
    ensures Distinct(Without(s, p))
  {
    forall i, j | 0 <= i < j < |Without(s, p)|
      ensures Without(s, p)[i] != Without(s, p)[j]
    {
      WithoutKeepsOrder(s, p, i, j);
    }
  }

  lemma {:induction false} ByLastUseNoRepeats(history: seq<Path>)
    ensures Distinct(ByLastUse(history))
  {
    if history != [] {
      var rest := history[..|history| - 1];
      ByLastUseNoRepeats(rest);
      WithoutNoRepeats(ByLastUse(rest), history[|history| - 1]);
    }
  }

  /** The position of the last use of `p`. */
  function LastUse(history: seq<Path>, p: Path): (i: nat)
    requires p in history
    ensures i < |history| && history[i] == p && p !in history[i + 1..]
  {
    if history[|history| - 1] == p then |history| - 1
    else
      var rest := history[..|history| - 1];
      var i := LastUse(rest, p);
      assert history[i + 1..] == rest[i + 1..] + [history[|history| - 1]];
      i
  }

  /** The order really is that of last use. */
  lemma {:induction false} ByLastUseIsSorted(history: seq<Path>, i: nat, j: nat)
    requires i < j < |ByLastUse(history)|
    ensures LastUse(history, ByLastUse(history)[i]) < LastUse(history, ByLastUse(history)[j])
    decreases |history|
  {
    var rest, last := history[..|history| - 1], history[|history| - 1];
    var before := ByLastUse(rest);
    assert Without(before, last)[i] != last by {
      assert Without(before, last)[i] in Without(before, last);
    }
    if j < |Without(before, last)| {
      assert Without(before, last)[j] != last by {
        assert Without(before, last)[j] in Without(before, last);
      }
      ByLastUseNoRepeats(rest);
      WithoutKeepsOrder(before, last, i, j);
      var k: nat, l: nat :| k < l < |before| && before[k] == Without(before, last)[i]
          && before[l] == Without(before, last)[j];
      ByLastUseIsSorted(rest, k, l);
    }
  }

  lemma {:induction false} WithoutAbsent(s: seq<Path>, p: Path)
    requires p !in s
    ensures Without(s, p) == s
  {
    if s != [] {
      WithoutAbsent(s[1..], p);
    }
  }

  lemma {:induction false} WithoutSplits(a: seq<Path>, b: seq<Path>, p: Path)
    ensures Without(a + b, p) == Without(a, p) + Without(b, p)
    decreases |a|
  {
    if a == [] {
      assert a + b == b;
    } else {
      assert (a + b)[1..] == a[1..] + b;
      WithoutSplits(a[1..], b, p);
    }
  }

  lemma {:induction false} WithoutOne(s: seq<Path>, p: Path)
    requires Distinct(s) && p in s
    ensures |Without(s, p)| == |s| - 1
    decreases |s|
  {
    if s[0] == p {
      assert p !in s[1..];
      WithoutAbsent(s[1..], p);
    } else {
      WithoutOne(s[1..], p);
    }
  }

  lemma NewestOfEnd(a: seq<Path>, b: seq<Path>)
    ensures Newest(a + b, |b|) == b
  {
    if a == [] {
      assert a + b == b;
    }
  }

  lemma HitSplit(gone: seq<Path>, now: seq<Path>, p: Path)
    requires p !in gone && p in now && Distinct(now)
    ensures Without(gone + now, p) + [p] == gone + (Without(now, p) + [p])
    ensures |Without(now, p) + [p]| == |now|
  {
    hide Without;
    WithoutSplits(gone, now, p);
    WithoutAbsent(gone, p);
    WithoutOne(now, p);
    assert gone + Without(now, p) + [p] == gone + (Without(now, p) + [p]);
  }

  lemma MissSplit(gone: seq<Path>, now: seq<Path>, p: Path)
    requires p !in now && now != []
    ensures Without(gone + now, p) + [p] == (Without(gone, p) + [now[0]]) + (now[1..] + [p])
  {
    hide Without;
    WithoutSplits(gone, now, p);
    WithoutAbsent(now, p);
    assert now == [now[0]] + now[1..];
  }

  lemma PrefixMisses(gone: seq<Path>, now: seq<Path>, p: Path)
    requires Distinct(gone + now) && p in now
    ensures p !in gone && Distinct(now)
  {
    var s := gone + now;
    var j :| 0 <= j < |now| && now[j] == p;
    assert s[|gone| + j] == p;
    assert forall i :: 0 <= i < |gone| ==> s[i] == gone[i];
    forall i, k | 0 <= i < k < |now|
      ensures now[i] != now[k]
    {
      assert s[|gone| + i] == now[i] && s[|gone| + k] == now[k];
    }
  }

  lemma NewestHit(s: seq<Path>, n: nat, p: Path)
    requires Distinct(s) && n > 0 && p in Newest(s, n)
    ensures Newest(Without(s, p) + [p], n) == Without(Newest(s, n), p) + [p]
  {
    hide Without, Distinct;
    var now := Newest(s, n);
    var gone := s[..|s| - |now|];
    assert s == gone + now;
    PrefixMisses(gone, now, p);
    HitSplit(gone, now, p);
    if |s| > n {
      NewestOfEnd(gone, Without(now, p) + [p]);
    } else {
      assert now == s && gone + (Without(now, p) + [p]) == Without(now, p) + [p];
    }
  }

  lemma NewestMiss(s: seq<Path>, n: nat, p: Path)
    requires n > 0 && p !in Newest(s, n)
    ensures var now := Newest(s, n);
            Newest(Without(s, p) + [p], n) == (if |now| == n then now[1..] else now) + [p]
  {
    hide Without;
    var now := Newest(s, n);
    if |s| >= n {
      var gone := s[..|s| - |now|];
      assert s == gone + now;
      MissSplit(gone, now, p);
      NewestOfEnd(Without(gone, p) + [now[0]], now[1..] + [p]);
    } else {
      WithoutAbsent(s, p);
    }
  }
}
