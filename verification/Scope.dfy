/**
 Heading scope: which headings govern a position, and the stack that keeps track of them.

 Two scripts keep such a stack: `_doc_section_state` in scripts/check_version_consistency.py, which
 pushes only some headings, and `anchor_paths` in examples/html_to_vault.py, which pushes them all.
 */
module Scope {
  import opened Prelude
  import opened Positions

  /** The heading level at each position; None where there is no heading. */
  type Levels = seq<Option<nat>>

  /** The rule: a heading governs a later position when no heading of the same or a shallower level lies
      after it, up to and including that position. */
  predicate Governs(levels: Levels, h: nat, i: nat) {
    h <= i < |levels| && levels[h].Some? &&
    forall j :: h < j <= i && levels[j].Some? ==> levels[j].value > levels[h].value
  }

  /** `stack` holds, in order, exactly the kept headings before `n` that govern the position before `n`. */
  ghost predicate IsStack(levels: Levels, kept: nat -> bool, n: nat, stack: seq<nat>) {
    && n <= |levels| && Increasing(stack)
    && forall h: nat :: h in stack <==> h < n && kept(h) && Governs(levels, h, n - 1)
  }

  lemma GovernsStep(levels: Levels, h: nat, n: nat)
    requires 0 < n < |levels| && h < n
    ensures Governs(levels, h, n) <==>
              Governs(levels, h, n - 1) && (levels[n].Some? ==> levels[n].value > levels[h].value)
  {
  }

  /** A position without a heading leaves the stack alone. */
  lemma PlainStep(levels: Levels, kept: nat -> bool, n: nat, stack: seq<nat>)
    requires n < |levels| && levels[n].None? && IsStack(levels, kept, n, stack)
    ensures IsStack(levels, kept, n + 1, stack)
  {
    forall h: nat
      ensures h in stack <==> h < n + 1 && kept(h) && Governs(levels, h, n)
    {
      if 0 < n && h < n {
        GovernsStep(levels, h, n);
      }
    }
  }

  /** Levels grow along the stack. */
  lemma LevelsIncrease(levels: Levels, kept: nat -> bool, n: nat, stack: seq<nat>, i: nat, j: nat)
    requires IsStack(levels, kept, n, stack) && i < j < |stack|
    ensures stack[j] < n && levels[stack[i]].Some? && levels[stack[j]].Some?
    ensures levels[stack[i]].value < levels[stack[j]].value
  {
    assert stack[i] in stack && stack[j] in stack;
  }

  /** What popping every entry at the heading's level or deeper takes, and what it leaves. */
  ghost predicate PoppedFor(levels: Levels, n: nat, stack: seq<nat>, popped: seq<nat>)
    requires n < |levels| && levels[n].Some?
  {
    && popped <= stack
    && (forall k :: 0 <= k < |stack| ==> stack[k] < n && levels[stack[k]].Some?)
    && (forall k :: |popped| <= k < |stack| ==> levels[stack[k]].value >= levels[n].value)
    && (popped != [] ==> levels[popped[|popped| - 1]].value < levels[n].value)
  }

  lemma PoppedAreShallower(levels: Levels, kept: nat -> bool, n: nat, stack: seq<nat>, popped: seq<nat>, h: nat)
    requires n < |levels| && levels[n].Some? && IsStack(levels, kept, n, stack) && PoppedFor(levels, n, stack, popped)
    requires h in stack
    ensures h < n && levels[h].Some? && (h in popped <==> levels[h].value < levels[n].value)
  {
    var k: nat :| k < |stack| && stack[k] == h;
    if k < |popped| {
      assert popped[k] == h;
      assert stack[|popped| - 1] == popped[|popped| - 1];
      if k < |popped| - 1 {
        LevelsIncrease(levels, kept, n, stack, k, |popped| - 1);
      }
    }
  }

  /** Popping leaves exactly the kept headings that still govern; the heading itself is pushed when it
      is kept. */
  lemma HeadingStep(levels: Levels, kept: nat -> bool, n: nat, stack: seq<nat>, popped: seq<nat>)
    requires n < |levels| && levels[n].Some? && IsStack(levels, kept, n, stack) && PoppedFor(levels, n, stack, popped)
    ensures IsStack(levels, kept, n + 1, if kept(n) then popped + [n] else popped)
  {
    hide PoppedFor;
    PoppedIsPrefix(levels, n, stack, popped);
    forall h: nat
      ensures h in popped <==> h < n && kept(h) && Governs(levels, h, n)
    {
      if h in stack {
        PoppedAreShallower(levels, kept, n, stack, popped, h);
      }
      if 0 < n && h < n {
        GovernsStep(levels, h, n);
      }
    }
    PushHolds(levels, kept, n, popped);
  }

  lemma PushHolds(levels: Levels, kept: nat -> bool, n: nat, popped: seq<nat>)
    requires n < |levels| && levels[n].Some? && Increasing(popped)
    requires forall h: nat :: h in popped <==> h < n && kept(h) && Governs(levels, h, n)
    ensures IsStack(levels, kept, n + 1, if kept(n) then popped + [n] else popped)
  {
    assert Governs(levels, n, n);
    forall k | 0 <= k < |popped|
      ensures popped[k] < n
    {
      assert popped[k] in popped;
    }
    assert forall h: nat :: h in popped + [n] <==> h in popped || h == n;
    assert forall h: nat :: Governs(levels, h, n) ==> h <= n;
  }

  lemma PoppedIsPrefix(levels: Levels, n: nat, stack: seq<nat>, popped: seq<nat>)
    requires n < |levels| && levels[n].Some? && PoppedFor(levels, n, stack, popped)
    ensures popped <= stack && forall h :: h in popped ==> h in stack
    ensures Increasing(stack) ==> Increasing(popped)
  {
  }

  /** The governing headings in order, read off the rule. */
  function Governing(levels: Levels, i: nat, upTo: nat): seq<nat> {
    if upTo == 0 then []
    else Governing(levels, i, upTo - 1) + if Governs(levels, upTo - 1, i) then [upTo - 1] else []
  }

  function ChainAt(levels: Levels, i: nat): seq<nat> {
    Governing(levels, i, i + 1)
  }

  lemma {:induction false} GoverningIsTheRule(levels: Levels, i: nat, upTo: nat)
    ensures Increasing(Governing(levels, i, upTo))
    ensures forall h: nat :: h in Governing(levels, i, upTo) <==> h < upTo && Governs(levels, h, i)
    decreases upTo
  {
    hide Governs;
    if upTo > 0 {
      GoverningIsTheRule(levels, i, upTo - 1);
      var before := Governing(levels, i, upTo - 1);
      assert forall k :: 0 <= k < |before| ==> before[k] in before;
    }
  }

  lemma EmptyOrMember(s: seq<nat>)
    ensures s == [] || exists h: nat :: h in s
  {
    if s != [] {
      assert s[0] in s;
    }
  }

  /** An increasing sequence is determined by its members. */
  lemma {:induction false} SameMembersSameSequence(a: seq<nat>, b: seq<nat>)
    requires Increasing(a) && Increasing(b) && forall h: nat :: h in a <==> h in b
    ensures a == b
    decreases |a|
  {
    EmptyOrMember(a);
    EmptyOrMember(b);
    if a != [] {
      var x, y := a[|a| - 1], b[|b| - 1];
      assert x in b && y in a;
      assert x == y;
      var a', b' := a[..|a| - 1], b[..|b| - 1];
      forall h: nat
        ensures h in a' <==> h in b'
      {
        assert h in a <==> h in a' || h == x;
        assert h in b <==> h in b' || h == x;
        assert x !in a' && x !in b';
      }
      SameMembersSameSequence(a', b');
      assert a == a' + [x] && b == b' + [x];
    }
  }

  /** Every heading is kept. */
  function All(): nat -> bool {
    h => true
  }

  /** A stack of all headings is exactly the chain. */
  lemma StackIsTheChain(levels: Levels, n: nat, stack: seq<nat>)
    requires n < |levels| && IsStack(levels, All(), n + 1, stack)
    ensures stack == ChainAt(levels, n)
  {
    GoverningIsTheRule(levels, n, n + 1);
    SameMembersSameSequence(stack, ChainAt(levels, n));
  }
}
