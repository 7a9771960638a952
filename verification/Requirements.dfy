/**
 Requirement strings as intervals, and contradictions inside one resolution unit:
 scripts/check_version_consistency.py.

 A requirement arrives here cut into clauses by the script's own patterns: an operator, a base
 version whose missing components are zero, and how many components the text named.
 */
module Requirements {
  import opened Prelude
  import opened Versions

  datatype Op = Caret | Compatible | Tilde | Exact | AtLeast | Greater | Below | UpTo | NotEqual

  datatype Piece =
    | Blank
    | Unreadable
    | Wildcard(base: Version, parts: nat)
    | Plain(op: Option<Op>, base: Version, parts: nat)

  datatype Spec = Declined | Pieces(pieces: seq<Piece>)

  /** Components the text did not name read as zero. */
  predicate Named(base: Version, parts: nat) {
    parts >= 1 && (parts == 1 ==> base.minor == 0) && (parts <= 2 ==> base.patch == 0)
  }

  predicate WellRead(p: Piece) {
    p.Wildcard? || p.Plain? ==> Named(p.base, p.parts)
  }

  function NextCaret(v: Version, parts: nat): Version {
    if v.major != 0 || parts == 1 then Version(v.major + 1, 0, 0)
    else if v.minor != 0 || parts == 2 then Version(0, v.minor + 1, 0)
    else Version(0, 0, v.patch + 1)
  }

  function NextPrefix(v: Version, parts: nat): Version {
    if parts >= 3 then Version(v.major, v.minor, v.patch + 1)
    else if parts == 2 then Version(v.major, v.minor + 1, 0)
    else Version(v.major + 1, 0, 0)
  }

  /** The interval of one clause; a bare version means caret, and `!=` constrains nothing. */
  function ClauseInterval(p: Piece): Option<Interval> {
    match p
    case Blank => None
    case Unreadable => None
    case Wildcard(base, parts) => Some(Interval(base, NextPrefix(base, parts)))
    case Plain(op, base, parts) =>
      match (if op.None? then Caret else op.value)
      case Caret => Some(Interval(base, NextCaret(base, parts)))
      case Compatible => Some(Interval(base, NextCaret(base, parts)))
      case Tilde => Some(Interval(base,
          if parts >= 2 then Version(base.major, base.minor + 1, 0) else Version(base.major + 1, 0, 0)))
      case Exact => Some(Interval(base, NextPrefix(base, parts)))
      case AtLeast => Some(Interval(base, INF))
      case Greater => Some(Interval(Version(base.major, base.minor, base.patch + 1), INF))
      case Below => Some(Interval(ZERO, base))
      case UpTo => Some(Interval(ZERO, Version(base.major, base.minor, base.patch + 1)))
      case NotEqual => None
  }

  function Folded(pieces: seq<Piece>): Interval {
    if pieces == [] then FULL
    else
      var before := Folded(pieces[..|pieces| - 1]);
      var clause := ClauseInterval(pieces[|pieces| - 1]);
      if clause.None? then before else before.Intersect(clause.value)
  }

  method ParseRequirement(spec: Spec) returns (r: Option<Interval>)
    ensures r.None? <==> spec.Declined? || Unreadable in spec.pieces
                         || forall p :: p in spec.pieces ==> p.Blank? || (p.Plain? && p.op == Some(NotEqual))
    ensures r.Some? ==> r.value == Folded(spec.pieces)
  {
    if spec.Declined? {
      return None;
    }
    var result, sawClause := FULL, false;
    var pieces := spec.pieces;
    for i := 0 to |pieces|
      invariant Unreadable !in pieces[..i]
      invariant result == Folded(pieces[..i])
      invariant sawClause <==> exists p :: p in pieces[..i] && ClauseInterval(p).Some?
    {
      var piece := pieces[i];
      assert pieces[..i + 1] == pieces[..i] + [piece] && pieces[..i + 1][..i] == pieces[..i];
      assert piece in pieces;
      if piece.Unreadable? {
        return None;
      }
      var clause := ClauseInterval(piece);
      if clause.Some? {
        result := result.Intersect(clause.value);
        sawClause := true;
      }
    }
    assert pieces[..|pieces|] == pieces;
    return if sawClause then Some(result) else None;
  }

  // ----- what a clause means

  predicate AgreeThrough(a: Version, b: Version, last: nat) {
    forall i: nat :: i <= last ==> Component(a, i) == Component(b, i)
  }

  function LastNamed(parts: nat): nat {
    if parts >= 3 then 2 else if parts == 2 then 1 else 0
  }

  /** The leftmost non-zero component, or the last named one when all are zero. */
  function HeldFixed(base: Version, parts: nat): nat {
    if base.major != 0 then 0
    else if base.minor != 0 then 1
    else if base.patch != 0 then 2
    else LastNamed(parts)
  }

  /** What a clause says of a version, in the words of the requirement syntax. */
  predicate Means(p: Piece, v: Version) {
    match p
    case Blank => true
    case Unreadable => true
    case Wildcard(base, parts) => AgreeThrough(base, v, LastNamed(parts))
    case Plain(op, base, parts) =>
      match (if op.None? then Caret else op.value)
      case Caret => AtMost(base, v) && AgreeThrough(base, v, HeldFixed(base, parts))
      case Compatible => AtMost(base, v) && AgreeThrough(base, v, HeldFixed(base, parts))
      case Tilde => AtMost(base, v) && AgreeThrough(base, v, if parts >= 2 then 1 else 0)
      case Exact => AgreeThrough(base, v, LastNamed(parts))
      case AtLeast => AtMost(base, v)
      case Greater => Less(base, v)
      case Below => Less(v, base)
      case UpTo => AtMost(v, base)
      case NotEqual => true
  }

  lemma AgreeThroughSpelled(a: Version, b: Version)
    ensures AgreeThrough(a, b, 0) <==> a.major == b.major
    ensures AgreeThrough(a, b, 1) <==> a.major == b.major && a.minor == b.minor
    ensures AgreeThrough(a, b, 2) <==> a == b
  {
    assert Component(a, 0) == a.major && Component(a, 1) == a.minor && Component(a, 2) == a.patch;
    assert Component(b, 0) == b.major && Component(b, 1) == b.minor && Component(b, 2) == b.patch;
  }

  /** One clause: its interval holds a real version exactly when its meaning does. */
  lemma ClauseIntervalIsItsMeaning(p: Piece, v: Version)
    requires WellRead(p) && v.major < 0x4000_0000
    ensures ClauseInterval(p).Some? ==> (ClauseInterval(p).value.Contains(v) <==> Means(p, v))
    ensures ClauseInterval(p).None? ==> Means(p, v)
  {
    hide AgreeThrough;
    if p.Wildcard? || p.Plain? {
      AgreeThroughSpelled(p.base, v);
    }
  }

  /** The whole requirement: a version is in the interval exactly when every clause's meaning holds. */
  lemma {:induction false} RequirementIsEveryMeaning(pieces: seq<Piece>, v: Version)
    requires forall p :: p in pieces ==> WellRead(p)
    ensures Folded(pieces).Contains(v) <==> v.major < 0x4000_0000 && forall p :: p in pieces ==> Means(p, v)
  {
    hide Means;
    if pieces != [] {
      var rest, last := pieces[..|pieces| - 1], pieces[|pieces| - 1];
      assert forall p :: p in pieces <==> p in rest || p == last;
      RequirementIsEveryMeaning(rest, v);
      if Less(v, INF) {
        ClauseIntervalIsItsMeaning(last, v);
      }
      if ClauseInterval(last).Some? {
        IntersectMeansBoth(Folded(rest), ClauseInterval(last).value, v);
      }
    }
  }

  /** The bounds of the fold: each is the bound of some clause, or the default, and the tightest. */
  ghost predicate LowestOf(pieces: seq<Piece>, lo: Version) {
    && (lo == ZERO || exists p :: p in pieces && ClauseInterval(p).Some? && ClauseInterval(p).value.lo == lo)
    && forall p :: p in pieces && ClauseInterval(p).Some? ==> AtMost(ClauseInterval(p).value.lo, lo)
  }

  ghost predicate HighestOf(pieces: seq<Piece>, hi: Version) {
    && (hi == INF || exists p :: p in pieces && ClauseInterval(p).Some? && ClauseInterval(p).value.hi == hi)
    && AtMost(hi, INF)
    && forall p :: p in pieces && ClauseInterval(p).Some? ==> AtMost(hi, ClauseInterval(p).value.hi)
  }

  lemma {:induction false} FoldBounds(pieces: seq<Piece>)
    ensures LowestOf(pieces, Folded(pieces).lo) && HighestOf(pieces, Folded(pieces).hi)
  {
    hide ClauseInterval;
    if pieces != [] {
      FoldBounds(pieces[..|pieces| - 1]);
      assert forall p :: p in pieces <==> p in pieces[..|pieces| - 1] || p == pieces[|pieces| - 1];
    }
  }

  /** The order of the clauses, and how often each is repeated, make no difference. */
  lemma OrderAndRepetitionDoNotMatter(a: seq<Piece>, b: seq<Piece>)
    requires forall p :: p in a <==> p in b
    ensures Folded(a) == Folded(b)
  {
    hide ClauseInterval;
    FoldBounds(a);
    FoldBounds(b);
  }

  // ----- contradictions

  function IntersectAll(reqs: seq<Interval>): Interval {
    if reqs == [] then FULL else IntersectAll(reqs[..|reqs| - 1]).Intersect(reqs[|reqs| - 1])
  }

  ghost predicate SatisfiedByAll(reqs: seq<Interval>, v: Version) {
    forall i :: 0 <= i < |reqs| ==> reqs[i].Contains(v)
  }

  /** No version is in both. */
  ghost predicate NoCommonVersion(a: Interval, b: Interval) {
    forall v :: !(a.Contains(v) && b.Contains(v))
  }

  lemma DisjointIff(a: Interval, b: Interval)
    ensures Disjoint(a, b) <==> NoCommonVersion(a, b)
  {
    NonEmptyMeansInhabited(a.Intersect(b));
    forall v
      ensures a.Intersect(b).Contains(v) <==> a.Contains(v) && b.Contains(v)
    {
      IntersectMeansBoth(a, b, v);
    }
  }

  predicate Disjoint(a: Interval, b: Interval) {
    !a.Intersect(b).NonEmpty()
  }

  /** Every interval a requirement reads as ends at INF at the latest. */
  lemma ParsedEndsByInf(pieces: seq<Piece>)
    ensures AtMost(Folded(pieces).hi, INF)
  {
    FoldBounds(pieces);
  }

  lemma {:induction false} IntersectAllMeansAll(reqs: seq<Interval>, v: Version)
    ensures IntersectAll(reqs).Contains(v) <==> Less(v, INF) && SatisfiedByAll(reqs, v)
  {
    if reqs != [] {
      var rest, last := reqs[..|reqs| - 1], reqs[|reqs| - 1];
      IntersectAllMeansAll(rest, v);
      IntersectMeansBoth(IntersectAll(rest), last, v);
      assert SatisfiedByAll(reqs, v) ==> last.Contains(v) && forall i :: 0 <= i < |rest| ==> rest[i] == reqs[i];
      if SatisfiedByAll(rest, v) && last.Contains(v) {
        assert forall i :: 0 <= i < |reqs| ==> reqs[i] == if i < |rest| then rest[i] else last;
      }
    }
  }

  /** Both bounds of a non-empty intersection are bounds of single requirements. */
  lemma {:induction false} BoundsAreAttained(reqs: seq<Interval>) returns (i: nat, j: nat)
    requires reqs != [] && forall k :: 0 <= k < |reqs| ==> AtMost(reqs[k].hi, INF)
    ensures i < |reqs| && j < |reqs| && IntersectAll(reqs).lo == reqs[i].lo && IntersectAll(reqs).hi == reqs[j].hi
  {
    var rest, last := reqs[..|reqs| - 1], reqs[|reqs| - 1];
    i, j := |rest|, |rest|;
    if rest != [] {
      var a, b := BoundsAreAttained(rest);
      var all, before := IntersectAll(reqs), IntersectAll(rest);
      i := if all.lo == last.lo then |rest| else a;
      j := if all.hi == last.hi then |rest| else b;
    }
  }

  lemma BoundedByAll(reqs: seq<Interval>, v: Version)
    requires |reqs| >= 1 && SatisfiedByAll(reqs, v) && forall k :: 0 <= k < |reqs| ==> AtMost(reqs[k].hi, INF)
    ensures Less(v, INF)
  {
    assert reqs[0].Contains(v);
  }

  lemma EmptyMeansDisjointBounds(reqs: seq<Interval>)
    requires |reqs| >= 2 && forall k :: 0 <= k < |reqs| ==> AtMost(reqs[k].hi, INF)
    ensures !IntersectAll(reqs).NonEmpty() <==> forall v :: !SatisfiedByAll(reqs, v)
    ensures !IntersectAll(reqs).NonEmpty() <==> exists i, j :: 0 <= i < j < |reqs| && Disjoint(reqs[i], reqs[j])
  {
    NonEmptyMeansInhabited(IntersectAll(reqs));
    forall v
      ensures IntersectAll(reqs).Contains(v) <==> SatisfiedByAll(reqs, v)
    {
      IntersectAllMeansAll(reqs, v);
      if SatisfiedByAll(reqs, v) {
        BoundedByAll(reqs, v);
      }
    }
    if !IntersectAll(reqs).NonEmpty() {
      var i, j := BoundsAreAttained(reqs);
      if i == j {
        var other := if i == 0 then 1 else 0;
        assert Disjoint(reqs[i], reqs[other]) && Disjoint(reqs[other], reqs[i]);
        assert if i < other then Disjoint(reqs[i], reqs[other]) else Disjoint(reqs[other], reqs[i]);
      } else {
        assert Disjoint(reqs[i], reqs[j]) && Disjoint(reqs[j], reqs[i]);
      }
    } else {
      var v := IntersectAll(reqs).lo;
      assert IntersectAll(reqs).Contains(v) && SatisfiedByAll(reqs, v);
      forall i, j | 0 <= i < j < |reqs|
        ensures !Disjoint(reqs[i], reqs[j])
      {
        IntersectMeansBoth(reqs[i], reqs[j], v);
      }
    }
  }

  /** One-dimensional Helly: with two or more requirements, the running intersection is empty exactly
      when no version satisfies them all, exactly when some two of them are already disjoint. */
  lemma EmptyMeansSomePairIsDisjoint(reqs: seq<Interval>)
    requires |reqs| >= 2 && forall k :: 0 <= k < |reqs| ==> AtMost(reqs[k].hi, INF)
    ensures !IntersectAll(reqs).NonEmpty() <==> forall v :: !SatisfiedByAll(reqs, v)
    ensures !IntersectAll(reqs).NonEmpty() <==>
              exists i, j :: 0 <= i < j < |reqs| && NoCommonVersion(reqs[i], reqs[j])
  {
    EmptyMeansDisjointBounds(reqs);
    hide NoCommonVersion, Disjoint, SatisfiedByAll, IntersectAll;
    forall i, j | 0 <= i < j < |reqs|
      ensures Disjoint(reqs[i], reqs[j]) <==> NoCommonVersion(reqs[i], reqs[j])
    {
      DisjointIff(reqs[i], reqs[j]);
    }
  }

  method MinimalConflict(reqs: seq<Interval>) returns (pair: Option<(nat, nat)>)
    ensures pair.Some? ==> pair.value.0 < pair.value.1 < |reqs|
    ensures pair.Some? ==> var (i, j) := pair.value;
              && NoCommonVersion(reqs[i], reqs[j])
              && (forall k, l :: 0 <= k < i && k < l < |reqs| ==> !NoCommonVersion(reqs[k], reqs[l]))
              && (forall l :: i < l < j ==> !NoCommonVersion(reqs[i], reqs[l]))
    ensures pair.None? ==> forall i, j :: 0 <= i < j < |reqs| ==> !NoCommonVersion(reqs[i], reqs[j])
  {
    hide NoCommonVersion, Disjoint;
    for i := 0 to |reqs|
      invariant forall k, l :: 0 <= k < i && k < l < |reqs| ==> !NoCommonVersion(reqs[k], reqs[l])
    {
      for j := i + 1 to |reqs|
        invariant forall l :: i < l < j ==> !NoCommonVersion(reqs[i], reqs[l])
      {
        DisjointIff(reqs[i], reqs[j]);
        if Disjoint(reqs[i], reqs[j]) {
          return Some((i, j));
        }
      }
    }
    return None;
  }

  /** The contradiction check of one resolution unit: what it reports, if anything. */
  method Contradiction(reqs: seq<Interval>) returns (report: Option<seq<nat>>)
    requires forall k :: 0 <= k < |reqs| ==> AtMost(reqs[k].hi, INF)
    ensures report.Some? <==> |reqs| >= 2 && forall v :: !SatisfiedByAll(reqs, v)
    ensures report.Some? ==> var pair := report.value;
              |pair| == 2 && pair[0] < pair[1] < |reqs| && NoCommonVersion(reqs[pair[0]], reqs[pair[1]])
  {
    if |reqs| < 2 {
      return None;
    }
    EmptyMeansSomePairIsDisjoint(reqs);
    var acc := FULL;
    for k := 0 to |reqs|
      invariant acc == IntersectAll(reqs[..k])
    {
      assert reqs[..k + 1][..k] == reqs[..k];
      acc := acc.Intersect(reqs[k]);
    }
    assert reqs[..|reqs|] == reqs;
    if acc.NonEmpty() {
      return None;
    }
    var everything: seq<nat> := seq(|reqs|, i => i);
    var pair := MinimalConflict(reqs);
    return Some(if pair.Some? then [pair.value.0, pair.value.1] else everything);
  }
}
