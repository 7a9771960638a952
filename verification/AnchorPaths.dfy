/**
 The heading path of every id in a page's body: `anchor_paths` in examples/html_to_vault.py.

 The page arrives as the sequence of its elements: whether each is a heading (or a term that becomes
 one) and at what level, its text, and its id, empty when it has none.
 */
module AnchorPaths {
  import opened Prelude
  import opened Scope

  datatype Element = Element(level: Option<nat>, text: string, id: string)

  function LevelsOf(page: seq<Element>): (r: Levels)
    ensures |r| == |page|
  {
    seq(|page|, i requires 0 <= i < |page| => page[i].level)
  }

  function Texts(page: seq<Element>, at: seq<nat>): (r: seq<string>)
    requires forall k :: k in at ==> k < |page|
    ensures |r| == |at|
  {
    seq(|at|, i requires 0 <= i < |at| => assert at[i] in at; page[at[i]].text)
  }

  lemma ChainInBounds(page: seq<Element>, i: nat)
    ensures forall k :: k in ChainAt(LevelsOf(page), i) ==> k < |page|
  {
    GoverningIsTheRule(LevelsOf(page), i, i + 1);
  }

  /** The texts of the headings that govern an element, outermost first. */
  function HeadingPath(page: seq<Element>, i: nat): seq<string> {
    ChainInBounds(page, i);
    Texts(page, ChainAt(LevelsOf(page), i))
  }

  /** The path lists the texts of the chain of headings over element `i`, in the chain's order: outermost
      first. */
  ghost predicate SpellsChain(page: seq<Element>, i: nat, path: seq<string>) {
    var chain := ChainAt(LevelsOf(page), i);
    |path| == |chain| && forall k :: 0 <= k < |chain| ==> chain[k] < |page| && path[k] == page[chain[k]].text
  }

  lemma HeadingPathSpellsChain(page: seq<Element>, i: nat)
    ensures SpellsChain(page, i, HeadingPath(page, i))
  {
    ChainInBounds(page, i);
    var chain := ChainAt(LevelsOf(page), i);
    assert forall k :: 0 <= k < |chain| ==> chain[k] in chain;
  }

  /** `i` is where the id first occurs. */
  predicate FirstAt(page: seq<Element>, id: string, i: nat) {
    i < |page| && id != "" && page[i].id == id && forall j :: 0 <= j < i ==> page[j].id != id
  }

  ghost predicate StackOf(page: seq<Element>, n: nat, stack: seq<(nat, string)>, at: seq<nat>) {
    && IsStack(LevelsOf(page), All(), n, at) && |stack| == |at|
    && forall k :: 0 <= k < |at| ==>
      at[k] < |page| && page[at[k]].level == Some(stack[k].0) && page[at[k]].text == stack[k].1
  }

  function StackTexts(stack: seq<(nat, string)>): (r: seq<string>)
    ensures |r| == |stack|
  {
    seq(|stack|, i requires 0 <= i < |stack| => stack[i].1)
  }

  lemma StackTextsAreThePath(page: seq<Element>, i: nat, stack: seq<(nat, string)>, at: seq<nat>)
    requires i < |page| && StackOf(page, i + 1, stack, at)
    ensures StackTexts(stack) == HeadingPath(page, i)
  {
    StackIsTheChain(LevelsOf(page), i, at);
  }

  /** Levels grow strictly along the stack. */
  lemma StackLevelsIncrease(page: seq<Element>, n: nat, stack: seq<(nat, string)>, at: seq<nat>, i: nat, j: nat)
    requires StackOf(page, n, stack, at) && i < j < |stack|
    ensures stack[i].0 < stack[j].0
  {
    LevelsIncrease(LevelsOf(page), All(), n, at, i, j);
  }

  lemma PopsAreScopePops(page: seq<Element>, n: nat, stack: seq<(nat, string)>, at: seq<nat>, left: nat)
    requires n < |page| && page[n].level.Some? && StackOf(page, n, stack, at) && left <= |stack|
    requires forall k :: left <= k < |stack| ==> stack[k].0 >= page[n].level.value
    requires left > 0 ==> stack[left - 1].0 < page[n].level.value
    ensures left <= |at| && PoppedFor(LevelsOf(page), n, at, at[..left])
  {
    forall k | 0 <= k < |at|
      ensures at[k] < n
    {
      assert at[k] in at;
    }
  }

  lemma PushHolds(page: seq<Element>, n: nat, stack: seq<(nat, string)>, at: seq<nat>, left: nat)
    requires n < |page| && page[n].level.Some? && StackOf(page, n, stack, at) && left <= |stack|
    requires PoppedFor(LevelsOf(page), n, at, at[..left])
    ensures StackOf(page, n + 1, stack[..left] + [(page[n].level.value, page[n].text)], at[..left] + [n])
  {
    hide IsStack, PoppedFor;
    HeadingStep(LevelsOf(page), All(), n, at, at[..left]);
  }

  /** After a heading at position `n`: what is deeper or as deep is popped, and the heading pushed. */
  method PushHeading(
      page: seq<Element>, ghost n: nat, level: nat, text: string, stack: seq<(nat, string)>, ghost at: seq<nat>)
    returns (after: seq<(nat, string)>, ghost at': seq<nat>)
    requires n < |page| && page[n].level == Some(level) && page[n].text == text && StackOf(page, n, stack, at)
    ensures StackOf(page, n + 1, after, at')
    ensures SpellsChain(page, n, StackTexts(after)) && forall k :: 0 <= k < |after| ==>
            StackTexts(after)[k] == after[k].1
  {
    hide StackOf, PoppedFor;
    after := stack;
    while after != [] && after[|after| - 1].0 >= level
      invariant |after| <= |stack| && after == stack[..|after|]
      invariant forall k :: |after| <= k < |stack| ==> stack[k].0 >= level
    {
      after := after[..|after| - 1];
    }
    PopsAreScopePops(page, n, stack, at, |after|);
    PushHolds(page, n, stack, at, |after|);
    after, at' := after + [(level, text)], at[..|after|] + [n];
    StackTextsAreThePath(page, n, after, at');
    HeadingPathSpellsChain(page, n);
  }

  /** Each id with a heading over its first occurrence maps to the exact chain of headings there; an id
      whose first occurrence has none is left out, whatever its later occurrences. */
  method PathsOf(page: seq<Element>) returns (result: map<string, seq<string>>)
    ensures forall id, i :: FirstAt(page, id, i) ==> (id in result <==> ChainAt(LevelsOf(page), i) != [])
    ensures forall id, i :: FirstAt(page, id, i) && id in result ==> SpellsChain(page, i, result[id])
    ensures forall id :: id in result ==> exists i :: FirstAt(page, id, i)
  {
    hide StackOf;
    var stack: seq<(nat, string)> := [];
    ghost var at: seq<nat> := [];
    var paths: map<string, seq<string>> := map[];
    EmptyStack(page);
    for i := 0 to |page|
      invariant StackOf(page, i, stack, at)
      invariant forall id, j: nat :: j < i && FirstAt(page, id, j) ==> id in paths && paths[id] == HeadingPath(page, j)
      invariant forall id :: id in paths ==> exists j: nat :: j < i && FirstAt(page, id, j)
    {
      var element := page[i];
      if element.level.Some? {
        stack, at := PushHeading(page, i, element.level.value, element.text, stack, at);
      } else {
        NoHeading(page, i, stack, at);
      }
      StackTextsAreThePath(page, i, stack, at);
      if element.id != "" && element.id !in paths {
        assert FirstAt(page, element.id, i) by {
          if j: nat :| j < i && page[j].id == element.id {
            var first := FirstOccurrence(page, element.id, j);
          }
        }
        paths := paths[element.id := StackTexts(stack)];
      } else if element.id != "" {
        var j: nat :| j < i && FirstAt(page, element.id, j);
        assert !FirstAt(page, element.id, i);
      }
    }
    forall i
      ensures SpellsChain(page, i, HeadingPath(page, i))
    {
      HeadingPathSpellsChain(page, i);
    }
    result := map id | id in paths && paths[id] != [] :: paths[id];
  }

  lemma EmptyStack(page: seq<Element>)
    ensures StackOf(page, 0, [], [])
  {
  }

  lemma NoHeading(page: seq<Element>, n: nat, stack: seq<(nat, string)>, at: seq<nat>)
    requires n < |page| && page[n].level.None? && StackOf(page, n, stack, at)
    ensures StackOf(page, n + 1, stack, at)
  {
    PlainStep(LevelsOf(page), All(), n, at);
  }

  lemma {:induction false} FirstOccurrence(page: seq<Element>, id: string, j: nat) returns (i: nat)
    requires j < |page| && page[j].id == id && id != ""
    ensures i <= j && FirstAt(page, id, i)
    decreases j
  {
    if k: nat :| k < j && page[k].id == id {
      i := FirstOccurrence(page, id, k);
    } else {
      i := j;
    }
  }
}
