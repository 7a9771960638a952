/**
 When the rows form a tree, the walk of Outline is the recursive preorder of that tree.
 */
module OutlineTree {
  import opened Prelude
  import opened TextOrder
  import opened Outline

  /** A measure that grows from parent to child: what makes the parent relation acyclic. */
  type Rank = Token -> nat

  /** The rows form a tree: every token has one row, one row is the root, and every other row's parent
      is a row of smaller rank. */
  ghost predicate IsTree(rows: seq<Row>, rank: Rank, bound: nat) {
    && (forall i, j :: 0 <= i < j < |rows| ==> rows[i].token != rows[j].token)
    && (forall a, b :: a in rows && b in rows && a.parent.None? && b.parent.None? ==> a == b)
    && (exists row :: row in rows && row.parent.None?)
    && (forall row :: row in rows ==> rank(row.token) <= bound)
    && (forall row :: row in rows && row.parent.Some? ==>
          row.parent.value in Tokens(rows) && rank(row.parent.value) < rank(row.token))
  }

  lemma RowIsUnique(rows: seq<Row>, rank: Rank, bound: nat, a: Row, b: Row)
    requires IsTree(rows, rank, bound) && a in rows && b in rows && a.token == b.token
    ensures a == b
  {
    var i :| 0 <= i < |rows| && rows[i] == a;
    var j :| 0 <= j < |rows| && rows[j] == b;
    assert i == j;
  }

  /** The recursive preorder with the children in key order. */
  ghost function Preorder(rows: seq<Row>, rank: Rank, bound: nat, token: Token, depth: nat): seq<Line>
    requires IsTree(rows, rank, bound) && token in Tokens(rows)
    decreases bound - rank(token), 1, 0
  {
    OrderedIsTheSortedChildren(rows, token);
    [Line(token, depth)] + PreorderAll(rows, rank, bound, token, Ordered(rows, token), depth + 1)
  }

  ghost function PreorderAll(
      rows: seq<Row>, rank: Rank, bound: nat, parent: Token, children: seq<Row>, depth: nat): seq<Line>
    requires IsTree(rows, rank, bound) && parent in Tokens(rows)
    requires forall row :: row in children ==> row in rows && row.parent == Some(parent)
    decreases bound - rank(parent), 0, |children|
  {
    if children == [] then []
    else
      assert children[0] in rows;
      Preorder(rows, rank, bound, children[0].token, depth)
      + PreorderAll(rows, rank, bound, parent, children[1..], depth)
  }

  // ----- no token occurs twice in a preorder

  /** `u` is `token` or one of its descendants. */
  ghost predicate Under(rows: seq<Row>, rank: Rank, bound: nat, u: Token, token: Token)
    requires IsTree(rows, rank, bound)
    decreases rank(u)
  {
    u in Tokens(rows) &&
    (|| u == token
     || exists row ::
          row in rows && row.token == u && row.parent.Some? && Under(rows, rank, bound, row.parent.value, token))
  }

  lemma {:induction false} UnderRanks(rows: seq<Row>, rank: Rank, bound: nat, u: Token, token: Token)
    requires IsTree(rows, rank, bound) && Under(rows, rank, bound, u, token)
    ensures rank(token) <= rank(u) && (u != token ==> rank(token) < rank(u))
    decreases rank(u)
  {
    if u != token {
      var row :| row in rows && row.token == u && row.parent.Some? && Under(rows, rank, bound, row.parent.value, token);
      UnderRanks(rows, rank, bound, row.parent.value, token);
    }
  }

  lemma {:induction false} SiblingsShareNothing(rows: seq<Row>, rank: Rank, bound: nat, u: Token, a: Row, b: Row)
    requires IsTree(rows, rank, bound) && a in rows && b in rows && a.parent.Some? && a.parent == b.parent && a != b
    ensures !(Under(rows, rank, bound, u, a.token) && Under(rows, rank, bound, u, b.token))
    decreases rank(u)
  {
    if Under(rows, rank, bound, u, a.token) && Under(rows, rank, bound, u, b.token) {
      if u == a.token || u == b.token {
        var (me, other) := if u == a.token then (a, b) else (b, a);
        if me.token == other.token {
          RowIsUnique(rows, rank, bound, a, b);
        }
        var row :| row in rows && row.token == u && row.parent.Some?
            && Under(rows, rank, bound, row.parent.value, other.token);
        RowIsUnique(rows, rank, bound, row, me);
        UnderRanks(rows, rank, bound, row.parent.value, other.token);
      } else {
        var row :| row in rows && row.token == u && row.parent.Some?
            && Under(rows, rank, bound, row.parent.value, a.token);
        var row' :| row' in rows && row'.token == u && row'.parent.Some?
            && Under(rows, rank, bound, row'.parent.value, b.token);
        RowIsUnique(rows, rank, bound, row, row');
        SiblingsShareNothing(rows, rank, bound, row.parent.value, a, b);
      }
    }
  }

  lemma {:induction false} ChildIsUnder(rows: seq<Row>, rank: Rank, bound: nat, u: Token, row: Row)
    requires IsTree(rows, rank, bound) && row in rows && row.parent.Some? && Under(rows, rank, bound, u, row.token)
    ensures Under(rows, rank, bound, u, row.parent.value)
    decreases rank(u)
  {
    if u == row.token {
      assert row.parent.value in Tokens(rows);
    } else {
      var row' :| row' in rows && row'.token == u && row'.parent.Some?
          && Under(rows, rank, bound, row'.parent.value, row.token);
      ChildIsUnder(rows, rank, bound, row'.parent.value, row);
    }
  }

  lemma ChildRanks(rows: seq<Row>, rank: Rank, bound: nat, row: Row)
    requires IsTree(rows, rank, bound) && row in rows && row.parent.Some?
    ensures rank(row.parent.value) < rank(row.token) <= bound
  {
  }

  lemma ItselfUnder(rows: seq<Row>, rank: Rank, bound: nat, token: Token)
    requires IsTree(rows, rank, bound) && token in Tokens(rows)
    ensures Under(rows, rank, bound, token, token)
  {
  }

  ghost predicate DistinctTokens(children: seq<Row>) {
    forall i, j :: 0 <= i < j < |children| ==> children[i].token != children[j].token
  }

  ghost predicate LinesUnder(rows: seq<Row>, rank: Rank, bound: nat, lines: seq<Line>, token: Token)
    requires IsTree(rows, rank, bound)
  {
    forall line :: line in lines ==> Under(rows, rank, bound, line.token, token)
  }

  ghost predicate DistinctLines(lines: seq<Line>) {
    Distinct(TokensOf(lines))
  }

  lemma LinesAt(lines: seq<Line>)
    ensures DistinctLines(lines) <==> forall i, j :: 0 <= i < j < |lines| ==> lines[i].token != lines[j].token
  {
    var tokens := TokensOf(lines);
    assert forall i :: 0 <= i < |lines| ==> tokens[i] == lines[i].token;
  }

  lemma {:induction false} PreorderIsDistinct(rows: seq<Row>, rank: Rank, bound: nat, token: Token, depth: nat)
    requires IsTree(rows, rank, bound) && token in Tokens(rows)
    ensures LinesUnder(rows, rank, bound, Preorder(rows, rank, bound, token, depth), token)
    ensures DistinctLines(Preorder(rows, rank, bound, token, depth))
    decreases bound - rank(token), 1, 0
  {
    hide IsTree, Ordered, PreorderAll, Under, DistinctLines;
    PreorderStep(rows, rank, bound, Line(token, depth));
    OrderedIsDistinct(rows, rank, bound, token);
    ItselfUnder(rows, rank, bound, token);
    var children := Ordered(rows, token);
    var below := PreorderAll(rows, rank, bound, token, children, depth + 1);
    PreorderAllIsDistinct(rows, rank, bound, token, children, depth + 1);
    forall line | line in below
      ensures Under(rows, rank, bound, line.token, token) && line.token != token
    {
      var row :| row in children && Under(rows, rank, bound, line.token, row.token);
      ChildIsUnder(rows, rank, bound, line.token, row);
      ChildRanks(rows, rank, bound, row);
      UnderRanks(rows, rank, bound, line.token, row.token);
    }
    LinesAt([Line(token, depth)]);
    DistinctJoins([Line(token, depth)], below);
  }

  lemma {:induction false} PreorderAllIsDistinct(
      rows: seq<Row>, rank: Rank, bound: nat, parent: Token, children: seq<Row>, depth: nat)
    requires IsTree(rows, rank, bound) && parent in Tokens(rows) && DistinctTokens(children)
    requires forall row :: row in children ==> row in rows && row.parent == Some(parent)
    ensures forall line :: line in PreorderAll(rows, rank, bound, parent, children, depth) ==>
              exists row :: row in children && Under(rows, rank, bound, line.token, row.token)
    ensures DistinctLines(PreorderAll(rows, rank, bound, parent, children, depth))
    decreases bound - rank(parent), 0, |children|
  {
    hide IsTree, Under, Preorder, DistinctLines;
    if children == [] {
      LinesAt([]);
    } else {
      var first, rest := children[0], children[1..];
      assert first in rows;
      ChildRanks(rows, rank, bound, first);
      var here := Preorder(rows, rank, bound, first.token, depth);
      var there := PreorderAll(rows, rank, bound, parent, rest, depth);
      PreorderIsDistinct(rows, rank, bound, first.token, depth);
      PreorderAllIsDistinct(rows, rank, bound, parent, rest, depth);
      assert forall row :: row in rest ==> row in children;
      forall a, b | a in here && b in there
        ensures a.token != b.token
      {
        var row :| row in rest && Under(rows, rank, bound, b.token, row.token);
        var k :| 0 <= k < |rest| && rest[k] == row;
        assert children[k + 1] == row && children[0].token != children[k + 1].token;
        SiblingsShareNothing(rows, rank, bound, a.token, first, row);
      }
      DistinctJoins(here, there);
    }
  }

  lemma DistinctJoins(a: seq<Line>, b: seq<Line>)
    requires DistinctLines(a) && DistinctLines(b) && forall x, y :: x in a && y in b ==> x.token != y.token
    ensures DistinctLines(a + b)
  {
    hide DistinctLines;
    LinesAt(a);
    LinesAt(b);
    LinesAt(a + b);
    forall i, j | 0 <= i < j < |a + b|
      ensures (a + b)[i].token != (a + b)[j].token
    {
      if i < |a| <= j {
        assert a[i] in a && b[j - |a|] in b;
      }
    }
  }

  lemma OrderedIsDistinct(rows: seq<Row>, rank: Rank, bound: nat, token: Token)
    requires IsTree(rows, rank, bound)
    ensures DistinctTokens(Ordered(rows, token))
  {
    OrderedIsTheSortedChildren(rows, token);
    ChildrenAreDistinct(rows, rank, bound, token, |rows|);
    assert rows[..|rows|] == rows;
    var children, ordered := Children(rows, token), Ordered(rows, token);
    forall i, j | 0 <= i < j < |ordered|
      ensures ordered[i].token != ordered[j].token
    {
      if ordered[i].token == ordered[j].token {
        assert ordered[i] in ordered && ordered[j] in ordered;
        RowIsUnique(rows, rank, bound, ordered[i], ordered[j]);
        TwiceInMultiset(ordered, i, j);
      }
    }
  }

  lemma TwiceInMultiset(s: seq<Row>, i: nat, j: nat)
    requires i < j < |s| && s[i] == s[j]
    ensures multiset(s)[s[i]] >= 2
  {
    assert s == s[..j] + [s[j]] + s[j + 1..];
    assert s[i] in s[..j];
  }

  lemma {:induction false} ChildrenAreDistinct(rows: seq<Row>, rank: Rank, bound: nat, token: Token, n: nat)
    requires IsTree(rows, rank, bound) && n <= |rows|
    ensures forall row :: multiset(Children(rows[..n], token))[row] <= 1
    decreases n
  {
    if n > 0 {
      assert rows[..n][..n - 1] == rows[..n - 1];
      ChildrenAreDistinct(rows, rank, bound, token, n - 1);
      assert rows[n - 1] !in rows[..n - 1];
      assert rows[n - 1] !in Children(rows[..n - 1], token);
    }
  }

  // ----- the walk is the preorder

  /** What the stack still stands for: the preorders of its entries, the top first. */
  ghost function StackPreorder(rows: seq<Row>, rank: Rank, bound: nat, stack: seq<Line>): seq<Line>
    requires IsTree(rows, rank, bound) && forall line :: line in stack ==> line.token in Tokens(rows)
  {
    if stack == [] then []
    else
      var top := stack[|stack| - 1];
      Preorder(rows, rank, bound, top.token, top.depth) + StackPreorder(rows, rank, bound, stack[..|stack| - 1])
  }

  lemma {:induction false} ReversedRows(descending: seq<Row>)
    ensures forall row :: row in Reversed(descending) <==> row in descending
  {
    ReversedKeepsRows(descending);
    forall row
      ensures row in Reversed(descending) <==> row in descending
    {
      assert row in Reversed(descending) <==> row in multiset(Reversed(descending));
      assert row in descending <==> row in multiset(descending);
    }
  }

  lemma StackPush(rows: seq<Row>, rank: Rank, bound: nat, stack: seq<Line>, top: Line)
    requires IsTree(rows, rank, bound) && top.token in Tokens(rows)
    requires forall line :: line in stack ==> line.token in Tokens(rows)
    ensures StackPreorder(rows, rank, bound, stack + [top])
         == Preorder(rows, rank, bound, top.token, top.depth) + StackPreorder(rows, rank, bound, stack)
  {
    assert (stack + [top])[..|stack|] == stack;
  }

  lemma AllStep(rows: seq<Row>, rank: Rank, bound: nat, parent: Token, first: Row, rest: seq<Row>, depth: nat)
    requires IsTree(rows, rank, bound) && parent in Tokens(rows)
    requires forall row :: row in [first] + rest ==> row in rows && row.parent == Some(parent)
    ensures forall row :: row in rest ==> row in rows && row.parent == Some(parent)
    ensures first in rows
    ensures PreorderAll(rows, rank, bound, parent, [first] + rest, depth)
         == Preorder(rows, rank, bound, first.token, depth) + PreorderAll(rows, rank, bound, parent, rest, depth)
  {
    hide IsTree;
    assert first in [first] + rest && forall row :: row in rest ==> row in [first] + rest;
    assert ([first] + rest)[0] == first && ([first] + rest)[1..] == rest;
  }

  lemma {:induction false} PushedStandsForTheChildren(
      rows: seq<Row>, rank: Rank, bound: nat, rest: seq<Line>, parent: Token, descending: seq<Row>, depth: nat)
    requires IsTree(rows, rank, bound) && parent in Tokens(rows)
    requires forall line :: line in rest ==> line.token in Tokens(rows)
    requires forall row :: row in descending ==> row in rows && row.parent == Some(parent)
    ensures forall line :: line in rest + Pushed(descending, depth) ==> line.token in Tokens(rows)
    ensures forall row :: row in Reversed(descending) ==> row in rows && row.parent == Some(parent)
    ensures StackPreorder(rows, rank, bound, rest + Pushed(descending, depth))
         == PreorderAll(rows, rank, bound, parent, Reversed(descending), depth) + StackPreorder(rows, rank, bound, rest)
    decreases |descending|
  {
    hide IsTree, Preorder, StackPreorder;
    ReversedRows(descending);
    if descending == [] {
      assert rest + Pushed(descending, depth) == rest;
    } else {
      var first, others := descending[|descending| - 1], descending[..|descending| - 1];
      assert rest + Pushed(descending, depth) == (rest + Pushed(others, depth)) + [Line(first.token, depth)];
      assert Reversed(descending) == [first] + Reversed(others);
      PushedStandsForTheChildren(rows, rank, bound, rest, parent, others, depth);
      StackPush(rows, rank, bound, rest + Pushed(others, depth), Line(first.token, depth));
      AllStep(rows, rank, bound, parent, first, Reversed(others), depth);
    }
  }

  lemma PreorderStep(rows: seq<Row>, rank: Rank, bound: nat, top: Line)
    requires IsTree(rows, rank, bound) && top.token in Tokens(rows)
    ensures forall row :: row in Ordered(rows, top.token) ==> row in rows && row.parent == Some(top.token)
    ensures Preorder(rows, rank, bound, top.token, top.depth)
         == [top] + PreorderAll(rows, rank, bound, top.token, Ordered(rows, top.token), top.depth + 1)
  {
    hide IsTree, PreorderAll, Ordered;
    OrderedIsTheSortedChildren(rows, top.token);
  }

  /** Popping a node and pushing its children leaves the stack standing for what it stood for, less
      the node's own line. */
  lemma PopStandsForTheRest(rows: seq<Row>, rank: Rank, bound: nat, rest: seq<Line>, top: Line)
    requires IsTree(rows, rank, bound) && top.token in Tokens(rows)
    requires forall line :: line in rest ==> line.token in Tokens(rows)
    ensures StackPreorder(rows, rank, bound, rest + [top]) ==
            [top] + StackPreorder(rows, rank, bound, After(rows, rest, top))
  {
    hide IsTree, StackPreorder, PreorderAll, Preorder, Descending, Children, Reversed;
    var descending := Descending(Children(rows, top.token));
    PreorderStep(rows, rank, bound, top);
    ReversedRows(descending);
    StackPush(rows, rank, bound, rest, top);
    PushedStandsForTheChildren(rows, rank, bound, rest, top.token, descending, top.depth + 1);
  }

  lemma {:induction false} WalkIsStackPreorder(
      rows: seq<Row>, rank: Rank, bound: nat, stack: seq<Line>, rendered: set<Token>)
    requires IsTree(rows, rank, bound) && forall line :: line in stack ==> line.token in Tokens(rows)
    requires DistinctLines(StackPreorder(rows, rank, bound, stack))
    requires forall line :: line in StackPreorder(rows, rank, bound, stack) ==> line.token !in rendered
    ensures WalkFrom(rows, stack, rendered) == StackPreorder(rows, rank, bound, stack)
    decreases Tokens(rows) - rendered, |stack|
  {
    hide IsTree, Preorder, PreorderAll, After, WalkFrom, DistinctLines;
    if stack == [] {
      WalkFromEmpty(rows, rendered);
    } else {
      var top, rest := stack[|stack| - 1], stack[..|stack| - 1];
      assert stack == rest + [top];
      WalkFromStep(rows, rest, top, rendered);
      PopStandsForTheRest(rows, rank, bound, rest, top);
      var below := StackPreorder(rows, rank, bound, After(rows, rest, top));
      TailStaysDistinct(top, below, rendered);
      WalkIsStackPreorder(rows, rank, bound, After(rows, rest, top), rendered + {top.token});
    }
  }

  lemma TailStaysDistinct(top: Line, below: seq<Line>, rendered: set<Token>)
    requires DistinctLines([top] + below) && forall line :: line in [top] + below ==> line.token !in rendered
    ensures DistinctLines(below) && top.token !in rendered
    ensures forall line :: line in below ==> line.token !in rendered + {top.token}
  {
    hide DistinctLines;
    var all := [top] + below;
    LinesAt(all);
    LinesAt(below);
    forall i, j | 0 <= i < j < |below|
      ensures below[i].token != below[j].token
    {
      assert all[i + 1] == below[i] && all[j + 1] == below[j];
    }
    assert all[0] == top && top in all;
    forall line | line in below
      ensures line in all && line.token != top.token
    {
      var i :| 0 <= i < |below| && below[i] == line;
      assert all[i + 1] == line;
    }
  }

  lemma {:induction false} RootOfTree(rows: seq<Row>)
    requires exists row :: row in rows && row.parent.None?
    ensures Root(rows).Some? && exists row :: row in rows && row.parent.None? && row.token == Root(rows).value
  {
    var rest, last := rows[..|rows| - 1], rows[|rows| - 1];
    if last.parent.Some? {
      var row :| row in rows && row.parent.None?;
      assert row in rest;
      RootOfTree(rest);
      var row' :| row' in rest && row'.parent.None? && row'.token == Root(rest).value;
      assert row' in rows;
    }
  }

  /** On a tree the explicit-stack walk renders the recursive preorder. */
  lemma WalkIsPreorder(rows: seq<Row>, rank: Rank, bound: nat)
    requires IsTree(rows, rank, bound)
    ensures Root(rows).Some? && Root(rows).value in Tokens(rows)
    ensures Rendered(rows) == Preorder(rows, rank, bound, Root(rows).value, 0)
  {
    RootOfTree(rows);
    RootIsARow(rows);
    var root := Root(rows).value;
    PreorderIsDistinct(rows, rank, bound, root, 0);
    var stack := [Line(root, 0)];
    assert stack[..0] == [];
    assert StackPreorder(rows, rank, bound, stack) == Preorder(rows, rank, bound, root, 0);
    WalkIsStackPreorder(rows, rank, bound, stack, {});
  }

  // ----- every row is rendered

  lemma {:induction false} EveryRowIsUnderTheRoot(rows: seq<Row>, rank: Rank, bound: nat, row: Row, root: Row)
    requires IsTree(rows, rank, bound) && row in rows && root in rows && root.parent.None?
    ensures Under(rows, rank, bound, row.token, root.token)
    decreases rank(row.token)
  {
    if row.parent.Some? {
      var parent :| parent in rows && parent.token == row.parent.value;
      EveryRowIsUnderTheRoot(rows, rank, bound, parent, root);
    } else {
      assert row == root;
    }
  }

  lemma {:induction false} AllContainsEach(
      rows: seq<Row>, rank: Rank, bound: nat, parent: Token, children: seq<Row>, depth: nat, row: Row)
    requires IsTree(rows, rank, bound) && parent in Tokens(rows) && row in children
    requires forall row :: row in children ==> row in rows && row.parent == Some(parent)
    ensures forall line :: line in Preorder(rows, rank, bound, row.token, depth) ==>
            line in PreorderAll(rows, rank, bound, parent, children, depth)
    decreases |children|
  {
    if children[0] != row {
      AllContainsEach(rows, rank, bound, parent, children[1..], depth, row);
    }
  }

  /** A node's preorder holds its whole subtree. */
  lemma {:induction false} PreorderIsComplete(
      rows: seq<Row>, rank: Rank, bound: nat, token: Token, depth: nat, u: Token)
    requires IsTree(rows, rank, bound) && token in Tokens(rows) && Under(rows, rank, bound, u, token)
    ensures exists line :: line in Preorder(rows, rank, bound, token, depth) && line.token == u
    decreases bound - rank(token)
  {
    if u == token {
      assert Line(token, depth) in Preorder(rows, rank, bound, token, depth);
    } else {
      var child := ChildTowards(rows, rank, bound, token, u);
      OrderedIsTheSortedChildren(rows, token);
      PreorderIsComplete(rows, rank, bound, child.token, depth + 1, u);
      var line :| line in Preorder(rows, rank, bound, child.token, depth + 1) && line.token == u;
      AllContainsEach(rows, rank, bound, token, Ordered(rows, token), depth + 1, child);
      assert line in Preorder(rows, rank, bound, token, depth);
    }
  }

  /** The child of `token` whose subtree `u` is in. */
  lemma {:induction false} ChildTowards(
      rows: seq<Row>, rank: Rank, bound: nat, token: Token, u: Token) returns (child: Row)
    requires IsTree(rows, rank, bound) && Under(rows, rank, bound, u, token) && u != token
    ensures child in rows && child.parent == Some(token) && Under(rows, rank, bound, u, child.token)
    decreases rank(u)
  {
    var row :| row in rows && row.token == u && row.parent.Some? && Under(rows, rank, bound, row.parent.value, token);
    if row.parent.value == token {
      child := row;
    } else {
      child := ChildTowards(rows, rank, bound, token, row.parent.value);
    }
  }

  /** On a tree every row is rendered, and each of them once. */
  lemma EachRowOnce(rows: seq<Row>, rank: Rank, bound: nat, row: Row)
    requires IsTree(rows, rank, bound) && row in rows
    ensures exists i :: 0 <= i < |Rendered(rows)| && Rendered(rows)[i].token == row.token
    ensures forall i, j :: 0 <= i < j < |Rendered(rows)| ==> Rendered(rows)[i].token != Rendered(rows)[j].token
  {
    hide DistinctLines, Preorder, Rendered, Under;
    WalkIsPreorder(rows, rank, bound);
    RootOfTree(rows);
    var root :| root in rows && root.parent.None? && root.token == Root(rows).value;
    EveryRowIsUnderTheRoot(rows, rank, bound, row, root);
    PreorderIsComplete(rows, rank, bound, root.token, 0, row.token);
    PreorderIsDistinct(rows, rank, bound, root.token, 0);
    LinesAt(Rendered(rows));
    var line :| line in Rendered(rows) && line.token == row.token;
    var i :| 0 <= i < |Rendered(rows)| && Rendered(rows)[i] == line;
  }
}
