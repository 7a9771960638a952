/** Python's order on strings, and on triples of strings. */
module TextOrder {

  /** `a < b` */
  predicate Before(a: string, b: string) {
    b != [] && (a == [] || a[0] < b[0] || (a[0] == b[0] && Before(a[1..], b[1..])))
  }

  lemma {:induction false} BeforeIsTotal(a: string, b: string)
    ensures a == b || Before(a, b) || Before(b, a)
    ensures Before(a, b) ==> a != b && !Before(b, a)
    decreases |a|
  {
    if a != [] && b != [] && a[0] == b[0] {
      BeforeIsTotal(a[1..], b[1..]);
      assert a == [a[0]] + a[1..] && b == [b[0]] + b[1..];
    }
  }

  lemma {:induction false} BeforeIsTransitive(a: string, b: string, c: string)
    requires Before(a, b) && Before(b, c)
    ensures Before(a, c)
    decreases |a|
  {
    if a != [] && a[0] == b[0] && b[0] == c[0] {
      BeforeIsTransitive(a[1..], b[1..], c[1..]);
    }
  }

  /** Up to `k` the two agree, and there `a` ends or has the smaller character. */
  ghost predicate SmallerAt(a: string, b: string, k: nat) {
    k <= |a| && k < |b| && a[..k] == b[..k] && (k == |a| || a[k] < b[k])
  }

  /** A text comes before another when it is a proper prefix of it, or smaller at their first difference. */
  lemma {:induction false} BeforeIff(a: string, b: string)
    ensures Before(a, b) <==> exists k: nat :: SmallerAt(a, b, k)
    decreases |a|
  {
    if b != [] && (a == [] || a[0] < b[0]) {
      assert SmallerAt(a, b, 0);
    } else if a != [] && b != [] && a[0] == b[0] {
      BeforeIff(a[1..], b[1..]);
      if k: nat :| SmallerAt(a[1..], b[1..], k) {
        assert a[..k + 1] == [a[0]] + a[1..][..k] && b[..k + 1] == [b[0]] + b[1..][..k];
        assert SmallerAt(a, b, k + 1);
      }
      if k: nat :| SmallerAt(a, b, k) {
        assert k > 0;
        assert a[1..][..k - 1] == a[..k][1..] && b[1..][..k - 1] == b[..k][1..];
        assert SmallerAt(a[1..], b[1..], k - 1);
      }
    } else {
      forall k: nat
        ensures !SmallerAt(a, b, k)
      {
        if 0 < k <= |a| && k < |b| {
          assert a[..k][0] == a[0] && b[..k][0] == b[0];
        }
      }
    }
  }

  type Key = (string, string, string)

  predicate KeyBefore(a: Key, b: Key) {
    Before(a.0, b.0) || (a.0 == b.0 && (Before(a.1, b.1) || (a.1 == b.1 && Before(a.2, b.2))))
  }

  lemma KeyIsTotal(a: Key, b: Key)
    ensures a == b || KeyBefore(a, b) || KeyBefore(b, a)
    ensures KeyBefore(a, b) ==> a != b && !KeyBefore(b, a)
  {
    BeforeIsTotal(a.0, b.0);
    BeforeIsTotal(b.0, a.0);
    BeforeIsTotal(a.1, b.1);
    BeforeIsTotal(b.1, a.1);
    BeforeIsTotal(a.2, b.2);
    BeforeIsTotal(b.2, a.2);
  }

  lemma KeyIsTransitive(a: Key, b: Key, c: Key)
    requires KeyBefore(a, b) && KeyBefore(b, c)
    ensures KeyBefore(a, c)
  {
    if Before(a.0, b.0) && Before(b.0, c.0) {
      BeforeIsTransitive(a.0, b.0, c.0);
    }
    if Before(a.1, b.1) && Before(b.1, c.1) {
      BeforeIsTransitive(a.1, b.1, c.1);
    }
    if Before(a.2, b.2) && Before(b.2, c.2) {
      BeforeIsTransitive(a.2, b.2, c.2);
    }
  }
}
