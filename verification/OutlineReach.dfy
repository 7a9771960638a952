/**
 On arbitrary rows, shared children and cycles included, the walk of Outline renders exactly the tokens
 that can be reached from the root, each at the length of a way to it.
 */
module OutlineReach {
  import opened Prelude
  import opened TextOrder
  import opened Outline

  ghost predicate Child(rows: seq<Row>, parent: Token, token: Token) {
    exists row :: row in rows && row.parent == Some(parent) && row.token == token
  }

  /** Some way of `steps` steps from parent to child leads from the root to the token. */
  ghost predicate Reaches(rows: seq<Row>, root: Token, token: Token, steps: nat)
    decreases steps
  {
    if steps == 0 then token == root
    else exists parent :: Child(rows, parent, token) && Reaches(rows, root, parent, steps - 1)
  }

  lemma PushedAreChildren(rows: seq<Row>, token: Token, depth: nat)
    ensures forall line :: line in Pushed(Descending(Children(rows, token)), depth) ==>
              line.depth == depth && Child(rows, token, line.token)
    ensures forall child :: Child(rows, token, child) ==>
              Line(child, depth) in Pushed(Descending(Children(rows, token)), depth)
  {
    hide Descending;
    var found := Children(rows, token);
    var descending := Descending(found);
    var pushed := Pushed(descending, depth);
    DescendingKeepsRows(found);
    forall row
      ensures row in descending <==> row in rows && row.parent == Some(token)
    {
      assert row in descending <==> row in multiset(descending);
      assert row in found <==> row in multiset(found);
    }
    forall line | line in pushed
      ensures line.depth == depth && Child(rows, token, line.token)
    {
      var i :| 0 <= i < |pushed| && pushed[i] == line;
      assert descending[i] in descending;
    }
    forall child | Child(rows, token, child)
      ensures Line(child, depth) in pushed
    {
      var row :| row in rows && row.parent == Some(token) && row.token == child;
      var i :| 0 <= i < |descending| && descending[i] == row;
      assert pushed[i] == Line(child, depth);
    }
  }

  /** What the walk renders can be reached. */
  lemma {:induction false} WalkReaches(rows: seq<Row>, root: Token, stack: seq<Line>, rendered: set<Token>)
    requires forall line :: line in stack ==> line.token in Tokens(rows)
    requires forall line :: line in stack ==> Reaches(rows, root, line.token, line.depth)
    ensures forall line :: line in WalkFrom(rows, stack, rendered) ==> Reaches(rows, root, line.token, line.depth)
    decreases Tokens(rows) - rendered, |stack|
  {
    hide Children, Descending, Pushed, Child;
    if stack != [] {
      var top, rest := stack[|stack| - 1], stack[..|stack| - 1];
      if top.token in rendered {
        WalkReaches(rows, root, rest, rendered);
      } else {
        var next := After(rows, rest, top);
        PushedAreChildren(rows, top.token, top.depth + 1);
        forall line | line in next
          ensures Reaches(rows, root, line.token, line.depth)
        {
          if line !in rest {
            assert Child(rows, top.token, line.token) && line.depth == top.depth + 1;
          }
        }
        WalkReaches(rows, root, next, rendered + {top.token});
      }
    }
  }

  /** Every child of what has been rendered has been rendered too, or waits on the stack. */
  ghost predicate Pending(rows: seq<Row>, rendered: set<Token>, stack: seq<Line>) {
    forall a, b :: a in rendered && Child(rows, a, b) ==> b in rendered || Waits(stack, b)
  }

  ghost predicate Waits(stack: seq<Line>, token: Token) {
    exists line :: line in stack && line.token == token
  }

  function Done(rendered: set<Token>, lines: seq<Line>): set<Token> {
    rendered + set line | line in lines :: line.token
  }

  /** What the walk leaves rendered holds what was on the stack, and is closed under children. */
  lemma {:induction false} WalkCloses(rows: seq<Row>, stack: seq<Line>, rendered: set<Token>)
    requires forall line :: line in stack ==> line.token in Tokens(rows)
    requires Pending(rows, rendered, stack)
    ensures var done := Done(rendered, WalkFrom(rows, stack, rendered));
            && (forall line :: line in stack ==> line.token in done)
            && forall a, b :: a in done && Child(rows, a, b) ==> b in done
    decreases Tokens(rows) - rendered, |stack|
  {
    hide Children, Descending, Pushed, Child, Waits, Pending;
    if stack == [] {
      NothingWaits(rows, rendered);
    } else {
      var top, rest := stack[|stack| - 1], stack[..|stack| - 1];
      assert forall line :: line in stack <==> line in rest || line == top;
      if top.token in rendered {
        assert rest + [top] == stack;
        DropRendered(rows, rendered, rest, top);
        WalkCloses(rows, rest, rendered);
      } else {
        var next := After(rows, rest, top);
        assert rest + [top] == stack;
        PopPending(rows, rendered, rest, top);
        WalkCloses(rows, next, rendered + {top.token});
        var after := WalkFrom(rows, next, rendered + {top.token});
        assert Done(rendered, [top] + after) == Done(rendered + {top.token}, after);
        assert forall line :: line in rest ==> line in next;
      }
    }
  }

  lemma NothingWaits(rows: seq<Row>, rendered: set<Token>)
    requires Pending(rows, rendered, [])
    ensures forall a, b :: a in rendered && Child(rows, a, b) ==> b in rendered
  {
    assert forall b :: !Waits([], b);
  }

  lemma DropRendered(rows: seq<Row>, rendered: set<Token>, rest: seq<Line>, top: Line)
    requires Pending(rows, rendered, rest + [top]) && top.token in rendered
    ensures Pending(rows, rendered, rest)
  {
    hide Child;
    assert forall b :: Waits(rest + [top], b) ==> Waits(rest, b) || b == top.token;
  }

  lemma PopPending(rows: seq<Row>, rendered: set<Token>, rest: seq<Line>, top: Line)
    requires Pending(rows, rendered, rest + [top]) && forall line :: line in rest ==> line.token in Tokens(rows)
    ensures Pending(rows, rendered + {top.token}, After(rows, rest, top))
  {
    hide Child, Children, Descending, Pushed;
    var next := After(rows, rest, top);
    PushedAreChildren(rows, top.token, top.depth + 1);
    assert forall b :: Waits(rest + [top], b) ==> Waits(rest, b) || b == top.token;
    assert forall b :: Waits(rest, b) ==> Waits(next, b);
    forall b | Child(rows, top.token, b)
      ensures Waits(next, b)
    {
      assert Line(b, top.depth + 1) in next;
    }
  }

  lemma {:induction false} ClosedHoldsReachable(rows: seq<Row>, root: Token, done: set<Token>, token: Token, steps: nat)
    requires root in done && forall a, b :: a in done && Child(rows, a, b) ==> b in done
    requires Reaches(rows, root, token, steps)
    ensures token in done
    decreases steps
  {
    if steps > 0 {
      var parent :| Child(rows, parent, token) && Reaches(rows, root, parent, steps - 1);
      ClosedHoldsReachable(rows, root, done, parent, steps - 1);
    }
  }

  /** A token is rendered exactly when it can be reached from the root, and at the length of a way to it. */
  lemma RenderedIffReachable(rows: seq<Row>, token: Token)
    requires Root(rows).Some?
    ensures (exists line :: line in Rendered(rows) && line.token == token) <==>
              exists steps: nat :: Reaches(rows, Root(rows).value, token, steps)
    ensures forall line :: line in Rendered(rows) ==> Reaches(rows, Root(rows).value, line.token, line.depth)
  {
    hide WalkFrom, Child;
    var root := Root(rows).value;
    RootIsARow(rows);
    var stack := [Line(root, 0)];
    WalkReaches(rows, root, stack, {});
    WalkCloses(rows, stack, {});
    var done := Done({}, Rendered(rows));
    assert stack[0] in stack;
    assert Rendered(rows) == WalkFrom(rows, stack, {});
    if line :| line in Rendered(rows) && line.token == token {
      assert Reaches(rows, root, token, line.depth);
    }
    if steps: nat :| Reaches(rows, root, token, steps) {
      ClosedHoldsReachable(rows, root, done, token, steps);
      assert token in done;
    }
  }
}
