/**
 Versions and their order, and the half-open intervals of scripts/check_version_consistency.py.
 */
module Versions {
  import opened Prelude

  datatype Version = Version(major: nat, minor: nat, patch: nat)

  /** Tuple order. */
  predicate Less(a: Version, b: Version) {
    a.major < b.major || (a.major == b.major && (a.minor < b.minor || (a.minor == b.minor && a.patch < b.patch)))
  }

  predicate AtMost(a: Version, b: Version) {
    a == b || Less(a, b)
  }

  function Component(v: Version, i: nat): nat {
    if i == 0 then v.major else if i == 1 then v.minor else v.patch
  }

  /** A version is less than another when it is less at the first component in which they differ. */
  lemma LessIff(a: Version, b: Version)
    ensures Less(a, b) <==> exists i: nat :: FirstDifference(a, b, i) && Component(a, i) < Component(b, i)
    ensures a == b <==> forall i: nat :: !FirstDifference(a, b, i)
  {
    assert FirstDifference(a, b, 0) <==> a.major != b.major;
    assert FirstDifference(a, b, 1) <==> a.major == b.major && a.minor != b.minor;
    assert FirstDifference(a, b, 2) <==> a.major == b.major && a.minor == b.minor && a.patch != b.patch;
  }

  ghost predicate FirstDifference(a: Version, b: Version, i: nat) {
    i <= 2 && Component(a, i) != Component(b, i) && forall j: nat :: j < i ==> Component(a, j) == Component(b, j)
  }

  const ZERO := Version(0, 0, 0)

  /** The stand-in for no upper bound: 2 to the 30th, as a major version. */
  const INF := Version(0x4000_0000, 0, 0)

  datatype Interval = Interval(lo: Version, hi: Version) {
    predicate NonEmpty() { Less(lo, hi) }

    predicate Contains(v: Version) { AtMost(lo, v) && Less(v, hi) }

    function Intersect(other: Interval): Interval {
      Interval(if Less(lo, other.lo) then other.lo else lo, if Less(other.hi, hi) then other.hi else hi)
    }
  }

  const FULL := Interval(ZERO, INF)

  /** An interval is non-empty exactly when some version is in it. */
  lemma NonEmptyMeansInhabited(i: Interval)
    ensures i.NonEmpty() <==> exists v :: i.Contains(v)
  {
    if i.NonEmpty() {
      assert i.Contains(i.lo);
    }
  }

  lemma IntersectMeansBoth(a: Interval, b: Interval, v: Version)
    ensures a.Intersect(b).Contains(v) <==> a.Contains(v) && b.Contains(v)
  {
  }
}
