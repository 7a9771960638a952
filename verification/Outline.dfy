/**
 The tree walk of `outline` in kglite/__init__.py: an explicit stack instead of recursion, so that a
 deep tree cannot exhaust the call stack.
 */
module Outline {
  import opened Prelude
  import opened TextOrder

  type Token = string

  datatype Row = Row(token: Token, parent: Option<Token>, id: string, idType: string)

  datatype Line = Line(token: Token, depth: nat)

  function KeyOf(row: Row): Key {
    (row.id, row.idType, row.token)
  }

  // ----- the children of a node, and their order

  function Children(rows: seq<Row>, token: Token): (r: seq<Row>)
    ensures forall row :: row in r <==> row in rows && row.parent == Some(token)
  {
    if rows == [] then []
    else
      var rest, last := rows[..|rows| - 1], rows[|rows| - 1];
      assert forall row :: row in rows <==> row in rest || row == last;
      Children(rest, token) + if last.parent == Some(token) then [last] else []
  }

  /** The insertion step of a stable sort into descending key order. */
  function InsertDescending(sorted: seq<Row>, row: Row): seq<Row> {
    if sorted == [] then [row]
    else if KeyBefore(KeyOf(sorted[0]), KeyOf(row)) then [row] + sorted
    else [sorted[0]] + InsertDescending(sorted[1..], row)
  }

  /** `sorted(rows, key=..., reverse=True)` */
  function Descending(rows: seq<Row>): seq<Row> {
    if rows == [] then [] else InsertDescending(Descending(rows[..|rows| - 1]), rows[|rows| - 1])
  }

  function Reversed<T>(s: seq<T>): (r: seq<T>)
    ensures |r| == |s|
  {
    if s == [] then [] else [s[|s| - 1]] + Reversed(s[..|s| - 1])
  }

  /** The children in the order the outline lists them. */
  function Ordered(rows: seq<Row>, token: Token): seq<Row> {
    Reversed(Descending(Children(rows, token)))
  }

  lemma {:induction false} InsertKeepsRows(sorted: seq<Row>, row: Row)
    ensures multiset(InsertDescending(sorted, row)) == multiset(sorted) + multiset{row}
    decreases |sorted|
  {
    if sorted != [] {
      assert sorted == [sorted[0]] + sorted[1..];
      if !KeyBefore(KeyOf(sorted[0]), KeyOf(row)) {
        InsertKeepsRows(sorted[1..], row);
      }
    }
  }

  lemma {:induction false} DescendingKeepsRows(rows: seq<Row>)
    ensures multiset(Descending(rows)) == multiset(rows)
  {
    if rows != [] {
      var rest, last := rows[..|rows| - 1], rows[|rows| - 1];
      DescendingKeepsRows(rest);
      InsertKeepsRows(Descending(rest), last);
      assert rows == rest + [last];
    }
  }

  lemma {:induction false} ReversedKeepsRows<T>(s: seq<T>)
    ensures multiset(Reversed(s)) == multiset(s)
  {
    if s != [] {
      ReversedKeepsRows(s[..|s| - 1]);
      assert s == s[..|s| - 1] + [s[|s| - 1]];
    }
  }

  ghost predicate InDescendingOrder(s: seq<Row>) {
    forall i, j :: 0 <= i < j < |s| ==> !KeyBefore(KeyOf(s[i]), KeyOf(s[j]))
  }

  lemma {:induction false} InsertSorts(sorted: seq<Row>, row: Row)
    requires InDescendingOrder(sorted)
    ensures InDescendingOrder(InsertDescending(sorted, row))
    decreases |sorted|
  {
    if sorted != [] {
      if KeyBefore(KeyOf(sorted[0]), KeyOf(row)) {
        forall j | 0 <= j < |sorted|
          ensures !KeyBefore(KeyOf(row), KeyOf(sorted[j]))
        {
          if KeyBefore(KeyOf(row), KeyOf(sorted[j])) {
            KeyIsTransitive(KeyOf(sorted[0]), KeyOf(row), KeyOf(sorted[j]));
            KeyIsTotal(KeyOf(sorted[0]), KeyOf(sorted[0]));
          }
        }
      } else {
        var rest := InsertDescending(sorted[1..], row);
        InsertSorts(sorted[1..], row);
        InsertKeepsRows(sorted[1..], row);
        forall j | 0 <= j < |rest|
          ensures !KeyBefore(KeyOf(sorted[0]), KeyOf(rest[j]))
        {
          assert rest[j] in multiset(rest);
          assert rest[j] in sorted[1..] || rest[j] == row;
        }
      }
    }
  }

  lemma {:induction false} DescendingSorts(rows: seq<Row>)
    ensures InDescendingOrder(Descending(rows))
  {
    if rows != [] {
      DescendingSorts(rows[..|rows| - 1]);
      InsertSorts(Descending(rows[..|rows| - 1]), rows[|rows| - 1]);
    }
  }

  lemma {:induction false} ReversedAt<T>(s: seq<T>, k: nat)
    requires k < |s|
    ensures Reversed(s)[k] == s[|s| - 1 - k]
    decreases |s|
  {
    if k > 0 {
      ReversedAt(s[..|s| - 1], k - 1);
    }
  }

  /** By id, then by the type of the id, then by token. */
  ghost predicate ListedBefore(a: Row, b: Row) {
    || Before(a.id, b.id)
    || (a.id == b.id && Before(a.idType, b.idType))
    || (a.id == b.id && a.idType == b.idType && Before(a.token, b.token))
  }

  /** The children are listed in ascending key order, and all of them are. */
  lemma OrderedIsTheSortedChildren(rows: seq<Row>, token: Token)
    ensures multiset(Ordered(rows, token)) == multiset(Children(rows, token))
    ensures forall i, j :: 0 <= i < j < |Ordered(rows, token)| ==>
              !ListedBefore(Ordered(rows, token)[j], Ordered(rows, token)[i])
    ensures forall row :: row in Ordered(rows, token) <==> row in rows && row.parent == Some(token)
  {
    var children := Children(rows, token);
    var descending := Descending(children);
    DescendingKeepsRows(children);
    DescendingSorts(children);
    ReversedKeepsRows(descending);
    forall i, j | 0 <= i < j < |Ordered(rows, token)|
      ensures !ListedBefore(Ordered(rows, token)[j], Ordered(rows, token)[i])
    {
      ReversedAt(descending, i);
      ReversedAt(descending, j);
    }
    forall row
      ensures row in Ordered(rows, token) <==> row in children
    {
      assert row in Ordered(rows, token) <==> row in multiset(Ordered(rows, token));
      assert row in children <==> row in multiset(children);
    }
  }

  // ----- the walk

  function Tokens(rows: seq<Row>): set<Token> {
    set row | row in rows :: row.token
  }

  function TokensOf(lines: seq<Line>): (r: seq<Token>)
    ensures |r| == |lines|
  {
    seq(|lines|, i requires 0 <= i < |lines| => lines[i].token)
  }

  function Root(rows: seq<Row>): Option<Token> {
    if rows == [] then None
    else if rows[|rows| - 1].parent.None? then Some(rows[|rows| - 1].token)
    else Root(rows[..|rows| - 1])
  }

  /** The entries one node pushes, the one to pop first on top. */
  function Pushed(descending: seq<Row>, depth: nat): (r: seq<Line>)
    ensures |r| == |descending|
  {
    seq(|descending|, i requires 0 <= i < |descending| => Line(descending[i].token, depth))
  }

  lemma ChildrenStep(rows: seq<Row>, row: Row, token: Token)
    ensures Children(rows + [row], token) == Children(rows, token) + if row.parent == Some(token) then [row] else []
  {
    assert (rows + [row])[..|rows|] == rows;
  }

  /** The dictionary lists the children of every parent that has some, in row order. */
  ghost predicate Groups(children: map<Token, seq<Row>>, rows: seq<Row>) {
    forall token :: Children(rows, token) == if token in children then children[token] else []
  }

  lemma GroupsStep(children: map<Token, seq<Row>>, rows: seq<Row>, row: Row)
    requires Groups(children, rows)
    ensures row.parent.None? ==> Groups(children, rows + [row])
    ensures row.parent.Some? ==>
              var p := row.parent.value; var found := if p in children then children[p] else [];
              Groups(children[p := found + [row]], rows + [row])
  {
    hide Children;
    forall token
      ensures Children(rows + [row], token) == Children(rows, token) + if row.parent == Some(token) then [row] else []
    {
      ChildrenStep(rows, row, token);
    }
  }

  /** The root is the last row without a parent. */
  lemma {:induction false} RootIsLastWithoutParent(rows: seq<Row>) returns (i: nat)
    ensures Root(rows).Some? ==>
              i < |rows| && rows[i].parent.None? && Root(rows).value == rows[i].token
              && forall j :: i < j < |rows| ==> rows[j].parent.Some?
    ensures Root(rows).None? ==> forall j :: 0 <= j < |rows| ==> rows[j].parent.Some?
  {
    i := 0;
    if rows != [] {
      i := |rows| - 1;
      if rows[i].parent.Some? {
        i := RootIsLastWithoutParent(rows[..|rows| - 1]);
      }
    }
  }

  method ChildrenByParent(rows: seq<Row>) returns (children: map<Token, seq<Row>>, root: Option<Token>)
    ensures Groups(children, rows)
    ensures root == Root(rows)
  {
    hide Groups;
    children, root := map[], None;
    NoChildren();
    for i := 0 to |rows|
      invariant Groups(children, rows[..i])
      invariant root == Root(rows[..i])
    {
      var row := rows[i];
      assert rows[..i + 1] == rows[..i] + [row] && rows[..i + 1][..i] == rows[..i];
      GroupsStep(children, rows[..i], row);
      if row.parent.None? {
        root := Some(row.token);
      } else {
        var p := row.parent.value;
        children := children[p := (if p in children then children[p] else []) + [row]];
      }
    }
    assert rows[..|rows|] == rows;
  }

  lemma NoChildren()
    ensures Groups(map[], [])
  {
  }

  /** What the loop still renders, given its stack and the tokens it has rendered. */
  function WalkFrom(rows: seq<Row>, stack: seq<Line>, rendered: set<Token>): seq<Line>
    requires forall line :: line in stack ==> line.token in Tokens(rows)
    decreases Tokens(rows) - rendered, |stack|
  {
    if stack == [] then []
    else
      var top, rest := stack[|stack| - 1], stack[..|stack| - 1];
      if top.token in rendered then WalkFrom(rows, rest, rendered)
      else
        [top] + WalkFrom(rows, After(rows, rest, top), rendered + {top.token})
  }

  function Rendered(rows: seq<Row>): seq<Line> {
    if Root(rows).None? then []
    else
      RootIsARow(rows);
      WalkFrom(rows, [Line(Root(rows).value, 0)], {})
  }

  /** The stack after a node that has not been rendered yet is popped. */
  function After(rows: seq<Row>, rest: seq<Line>, top: Line): (next: seq<Line>)
    requires forall line :: line in rest ==> line.token in Tokens(rows)
    ensures forall line :: line in next ==> line.token in Tokens(rows)
  {
    PushedAreRows(rows, top.token, top.depth + 1);
    rest + Pushed(Descending(Children(rows, top.token)), top.depth + 1)
  }

  lemma WalkFromEmpty(rows: seq<Row>, rendered: set<Token>)
    ensures WalkFrom(rows, [], rendered) == []
  {
  }

  lemma WalkFromStep(rows: seq<Row>, rest: seq<Line>, top: Line, rendered: set<Token>)
    requires forall line :: line in rest + [top] ==> line.token in Tokens(rows)
    requires top in rest + [top]
    ensures forall line :: line in rest ==> line.token in Tokens(rows)
    ensures WalkFrom(rows, rest + [top], rendered) ==
            if top.token in rendered then WalkFrom(rows, rest, rendered)
            else [top] + WalkFrom(rows, After(rows, rest, top), rendered + {top.token})
  {
    assert forall line :: line in rest ==> line in rest + [top];
    assert (rest + [top])[..|rest|] == rest;
  }

  method Walk(rows: seq<Row>) returns (lines: seq<Line>)
    ensures lines == Rendered(rows)
  {
    hide WalkFrom, Children, Descending;
    var children, root := ChildrenByParent(rows);
    lines := [];
    if root.None? {
      return;
    }
    RootIsARow(rows);
    var stack := [Line(root.value, 0)];
    var rendered: set<Token> := {};
    assert Rendered(rows) == WalkFrom(rows, stack, rendered);
    while stack != []
      invariant forall line :: line in stack ==> line.token in Tokens(rows)
      invariant lines + WalkFrom(rows, stack, rendered) == Rendered(rows)
      decreases Tokens(rows) - rendered, |stack|
    {
      var top, rest := stack[|stack| - 1], stack[..|stack| - 1];
      assert stack == rest + [top];
      WalkFromStep(rows, rest, top, rendered);
      stack := rest;
      if top.token !in rendered {
        rendered := rendered + {top.token};
        lines := lines + [top];
        var found := if top.token in children then children[top.token] else [];
        stack := stack + Pushed(Descending(found), top.depth + 1);
        assert stack == After(rows, rest, top);
      }
    }
    WalkFromEmpty(rows, rendered);
  }

  lemma {:induction false} RootIsARow(rows: seq<Row>)
    requires Root(rows).Some?
    ensures Root(rows).value in Tokens(rows)
  {
    if rows[|rows| - 1].parent.Some? {
      RootIsARow(rows[..|rows| - 1]);
      assert forall row :: row in rows[..|rows| - 1] ==> row in rows;
    }
  }

  lemma PushedAreRows(rows: seq<Row>, token: Token, depth: nat)
    ensures forall line :: line in Pushed(Descending(Children(rows, token)), depth) ==> line.token in Tokens(rows)
  {
    var found := Children(rows, token);
    DescendingKeepsRows(found);
    forall i | 0 <= i < |Descending(found)|
      ensures Descending(found)[i] in rows
    {
      assert Descending(found)[i] in multiset(Descending(found));
      assert Descending(found)[i] in found;
    }
  }

  /** Whatever the rows, cycles included: the walk ends, and renders only tokens of the rows, none of
      them twice. */
  lemma {:induction false} WalkRendersOnce(rows: seq<Row>, stack: seq<Line>, rendered: set<Token>)
    requires forall line :: line in stack ==> line.token in Tokens(rows)
    ensures var tokens := TokensOf(WalkFrom(rows, stack, rendered));
            Distinct(tokens) && forall token :: token in tokens ==> token in Tokens(rows) && token !in rendered
    decreases Tokens(rows) - rendered, |stack|
  {
    hide Children, Descending;
    if stack != [] {
      var top, rest := stack[|stack| - 1], stack[..|stack| - 1];
      if top.token in rendered {
        WalkRendersOnce(rows, rest, rendered);
      } else {
        var next := After(rows, rest, top);
        WalkRendersOnce(rows, next, rendered + {top.token});
        var after := WalkFrom(rows, next, rendered + {top.token});
        assert TokensOf([top] + after) == [top.token] + TokensOf(after);
      }
    }
  }

  lemma AnyRowsRenderOnce(rows: seq<Row>)
    ensures Distinct(TokensOf(Rendered(rows)))
    ensures forall line :: line in Rendered(rows) ==> line.token in Tokens(rows)
  {
    if Root(rows).Some? {
      RootIsARow(rows);
      WalkRendersOnce(rows, [Line(Root(rows).value, 0)], {});
      forall line | line in Rendered(rows)
        ensures line.token in Tokens(rows)
      {
        var i :| 0 <= i < |Rendered(rows)| && Rendered(rows)[i] == line;
        assert TokensOf(Rendered(rows))[i] == line.token;
      }
    }
  }
}
