/**
 Nested delimiters over an arbitrary lexer.

 `_skip_comment_or_literal` (for block comments) and `_balanced_end` (for brackets and braces)
 in scripts/check_source_quality.py are the same loop: a cursor moves over lexemes, a depth counts
 openers minus closers, and the loop stops at depth zero or at the end of the text.  The loop is
 `Scan`; the inductive grammar it is proved against is `Matches`.
 */
module Nesting {
  import opened Prelude

  /** What the lexer sees at a position, and the position just after it. */
  datatype Lexeme = Open(next: nat) | Close(next: nat) | Other(next: nat)

  type Lexer = nat -> Lexeme

  ghost predicate Advances(lex: Lexer, n: nat) {
    forall i: nat :: i < n ==> i < lex(i).next <= n
  }

  /** The cursor/depth loop, as a function: where it stops. */
  function Scan(lex: Lexer, n: nat, i: nat, depth: nat): (e: nat)
    requires Advances(lex, n) && i <= n
    ensures i <= e <= n
    ensures depth == 0 || i < n || e == n
    decreases n - i
  {
    if i == n || depth == 0 then
      i
    else
      match lex(i)
      case Open(next) => Scan(lex, n, next, depth + 1)
      case Close(next) => Scan(lex, n, next, depth - 1)
      case Other(next) => Scan(lex, n, next, depth)
  }

  /** A derivation: a well-nested run followed by the closer of the enclosing group. */
  datatype Group =
    | Closed
    | Skip(rest: Group)
    | Nest(inner: Group, mid: nat, rest: Group)

  /** `g` derives the text from `i` to just past, at `e`, the closer of the group that `i` is inside. */
  ghost predicate Matches(g: Group, lex: Lexer, n: nat, i: nat, e: nat) {
    i < n &&
    match g
    case Closed => lex(i) == Close(e)
    case Skip(rest) => lex(i).Other? && Matches(rest, lex, n, lex(i).next, e)
    case Nest(inner, mid, rest) =>
      lex(i).Open? && Matches(inner, lex, n, lex(i).next, mid) && Matches(rest, lex, n, mid, e)
  }

  /** `e` is just past the closer that matches the opener whose inside starts at `i`. */
  ghost predicate ClosesAt(lex: Lexer, n: nat, i: nat, e: nat) {
    exists g :: Matches(g, lex, n, i, e)
  }

  /** The loop crosses one derived group by dropping exactly one level. */
  lemma {:induction false} ScanCrossesGroup(g: Group, lex: Lexer, n: nat, i: nat, e: nat, depth: nat)
    requires Advances(lex, n) && Matches(g, lex, n, i, e) && depth > 0
    ensures i < e <= n
    ensures Scan(lex, n, i, depth) == Scan(lex, n, e, depth - 1)
    decreases g
  {
    match g
    case Closed =>
    case Skip(rest) =>
      ScanCrossesGroup(rest, lex, n, lex(i).next, e, depth);
    case Nest(inner, mid, rest) =>
      ScanCrossesGroup(inner, lex, n, lex(i).next, mid, depth + 1);
      ScanCrossesGroup(rest, lex, n, mid, e, depth);
  }

  /** Either a derivation exists, or the loop runs to the end of the text at every depth. */
  lemma {:induction false} DeriveOrExhaust(lex: Lexer, n: nat, i: nat) returns (r: Option<(Group, nat)>)
    requires Advances(lex, n) && i <= n
    ensures r.Some? ==> i < r.value.1 <= n && Matches(r.value.0, lex, n, i, r.value.1)
    ensures r.None? ==> forall depth: nat :: depth > 0 ==> Scan(lex, n, i, depth) == n
    decreases n - i
  {
    if i == n {
      return None;
    }
    match lex(i)
    case Close(next) =>
      return Some((Closed, next));
    case Other(next) =>
      var rest := DeriveOrExhaust(lex, n, next);
      if rest.None? {
        return None;
      }
      return Some((Skip(rest.value.0), rest.value.1));
    case Open(next) =>
      var inner := DeriveOrExhaust(lex, n, next);
      if inner.None? {
        return None;
      }
      var rest := DeriveOrExhaust(lex, n, inner.value.1);
      if rest.None? {
        forall depth: nat | depth > 0
          ensures Scan(lex, n, i, depth) == n
        {
          ScanCrossesGroup(inner.value.0, lex, n, next, inner.value.1, depth + 1);
        }
        return None;
      }
      return Some((Nest(inner.value.0, inner.value.1, rest.value.0), rest.value.1));
  }

  /** The loop started just inside an opener returns the position just past its matching closer in
      the grammar, and the length of the text exactly when the grammar has no matching closer (or
      when that closer is the last thing in the text). */
  lemma ScanIsTheMatchingCloser(lex: Lexer, n: nat, i: nat)
    requires Advances(lex, n) && i <= n
    ensures forall e: nat :: ClosesAt(lex, n, i, e) ==> Scan(lex, n, i, 1) == e
    ensures (forall e: nat :: !ClosesAt(lex, n, i, e)) ==> Scan(lex, n, i, 1) == n
    ensures Scan(lex, n, i, 1) < n ==> ClosesAt(lex, n, i, Scan(lex, n, i, 1))
  {
    forall e: nat | ClosesAt(lex, n, i, e)
      ensures Scan(lex, n, i, 1) == e
    {
      var g :| Matches(g, lex, n, i, e);
      ScanCrossesGroup(g, lex, n, i, e, 1);
    }
    var r := DeriveOrExhaust(lex, n, i);
    if r.Some? {
      assert ClosesAt(lex, n, i, r.value.1);
    }
  }

  /** A scan that stops inside the text stopped just past a closer. */
  lemma {:induction false} ScanStopsAfterCloser(lex: Lexer, n: nat, i: nat, depth: nat) returns (k: nat)
    requires Advances(lex, n) && i <= n && depth > 0 && Scan(lex, n, i, depth) < n
    ensures i <= k < n && lex(k) == Close(Scan(lex, n, i, depth))
    decreases n - i
  {
    match lex(i)
    case Open(next) =>
      k := ScanStopsAfterCloser(lex, n, next, depth + 1);
    case Other(next) =>
      k := ScanStopsAfterCloser(lex, n, next, depth);
    case Close(next) =>
      if depth == 1 {
        k := i;
      } else {
        k := ScanStopsAfterCloser(lex, n, next, depth - 1);
      }
  }
}
