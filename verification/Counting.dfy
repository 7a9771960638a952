/**
 Nested delimiters without a grammar: a group ends where the closers counted since its opening first
 outnumber the openers.  The loop of Nesting is proved to stop exactly there.
 */
module Counting {
  import opened Nesting

  /** From each position below `n` to a later one, no further than `n`. */
  type Walk = nat -> nat

  ghost predicate Walks(next: Walk, n: nat) {
    forall i: nat :: i < n ==> i < next(i) <= n
  }

  ghost predicate Visits(next: Walk, n: nat, i: nat, p: nat)
    requires Walks(next, n)
    decreases n - i
  {
    p == i || (i < n && i < p && Visits(next, n, next(i), p))
  }

  /** How many of the positions visited from `i` on, before `p`, are hits. */
  ghost function Count(next: Walk, n: nat, hit: nat -> bool, i: nat, p: nat): nat
    requires Walks(next, n)
    decreases n - i
  {
    if i >= p || i >= n then 0 else (if hit(i) then 1 else 0) + Count(next, n, hit, next(i), p)
  }

  /** The walk from `i` first has seen more closers than openers at `e`, or never has, and `e` is the end. */
  ghost predicate FirstExcess(next: Walk, n: nat, opens: nat -> bool, closes: nat -> bool, i: nat, e: nat)
    requires Walks(next, n)
  {
    && e <= n && Visits(next, n, i, e)
    && (forall p: nat :: p < e && Visits(next, n, i, p) ==> Count(next, n, closes, i, p) <= Count(next, n, opens, i, p))
    && (e < n ==> Count(next, n, closes, i, e) == Count(next, n, opens, i, e) + 1)
  }

  /** There is only one such position. */
  lemma FirstExcessIsUnique(
      next: Walk, n: nat, opens: nat -> bool, closes: nat -> bool, i: nat, e: nat, f: nat)
    requires Walks(next, n)
    requires FirstExcess(next, n, opens, closes, i, e) && FirstExcess(next, n, opens, closes, i, f)
    ensures e == f
  {
  }

  /** The lexer opens and closes where it is said to, and moves along the walk. */
  ghost predicate Reads(lex: Lexer, n: nat, next: Walk, opens: nat -> bool, closes: nat -> bool) {
    forall i: nat :: i < n ==> lex(i).next == next(i) && (lex(i).Open? <==> opens(i)) && (lex(i).Close? <==> closes(i))
  }

  /** The loop entered at a depth stops where the closers seen outnumber the openers seen by that depth. */
  lemma {:induction false} ScanCounts(
      lex: Lexer, n: nat, next: Walk, opens: nat -> bool, closes: nat -> bool, i: nat, depth: nat)
    requires Advances(lex, n) && Walks(next, n) && Reads(lex, n, next, opens, closes) && i <= n
    ensures var e := Scan(lex, n, i, depth);
            && Visits(next, n, i, e)
            && (forall p: nat :: p < e && Visits(next, n, i, p) ==>
                  Count(next, n, closes, i, p) < Count(next, n, opens, i, p) + depth)
            && (e < n ==> Count(next, n, closes, i, e) == Count(next, n, opens, i, e) + depth)
    decreases n - i
  {
    if i < n && depth > 0 {
      var depth' := if opens(i) then depth + 1 else if closes(i) then depth - 1 else depth;
      ScanCounts(lex, n, next, opens, closes, next(i), depth');
      var e := Scan(lex, n, i, depth);
      assert e == Scan(lex, n, next(i), depth');
      assert next(i) <= e;
    }
  }

  lemma ScanIsFirstExcess(lex: Lexer, n: nat, next: Walk, opens: nat -> bool, closes: nat -> bool, i: nat)
    requires Advances(lex, n) && Walks(next, n) && Reads(lex, n, next, opens, closes) && i <= n
    ensures FirstExcess(next, n, opens, closes, i, Scan(lex, n, i, 1))
  {
    ScanCounts(lex, n, next, opens, closes, i, 1);
  }
}
