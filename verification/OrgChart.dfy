/**
 A day's delivery to the org chart: `apply_delivery` in examples/bitemporal_org_chart.py.

 The chart's Cypher statements are direct updates here.  A writing statement reads every version of
 a record, so none of the matches below filters on validity.
 */
module OrgChart {
  import opened Prelude

  type Date = int
  type Id = string

  datatype Assignment = Assignment(
    employee: string, team: string, validFrom: Option<Date>, validTo: Option<Date>,
    recordedFrom: Date, recordedTo: Option<Date>)

  datatype Link = Link(team: string, department: string, validFrom: Date, recordedFrom: Date, recordedTo: Option<Date>)

  datatype LinkRow = LinkRow(team: string, name: string, department: string, validFrom: Date)

  datatype AssignmentRow = AssignmentRow(
    id: Id, employee: string, team: string, validFrom: Option<Date>, validTo: Option<Date>)

  datatype Chart = Chart(
    employees: set<string>, departments: set<string>, teams: map<string, string>,
    links: set<Link>, assignments: map<Id, Assignment>, of: set<(Id, string)>, to: set<(Id, string)>)

  datatype Delivery = Delivery(t: Date, supersedes: seq<Id>, links: seq<LinkRow>, assignments: seq<AssignmentRow>)

  datatype Refusal = NotCurrent(found: nat) | InvertedInterval(id: Id)

  // ----- the four statements

  /** The ids of the "was" check that are current, or were closed by this same date. */
  function Found(c: Chart, ids: seq<Id>, t: Date): set<Id> {
    set id | id in ids && id in c.assignments &&
             (c.assignments[id].recordedTo.None? || c.assignments[id].recordedTo == Some(t))
  }

  function Close(c: Chart, ids: seq<Id>, t: Date): Chart {
    c.(assignments := map id | id in c.assignments ::
         if id in ids && c.assignments[id].recordedTo.None? then c.assignments[id].(recordedTo := Some(t))
         else c.assignments[id])
  }

  /** `MERGE (m)-[:PART_OF {valid_from, recorded_from}]->(d)` matches on the two dates given. */
  predicate HasLink(c: Chart, row: LinkRow, t: Date) {
    exists l :: l in c.links && l.team == row.team && l.department == row.department
                && l.validFrom == row.validFrom && l.recordedFrom == t
  }

  function AddLink(c: Chart, row: LinkRow, t: Date): Chart {
    if row.department !in c.departments then c
    else
      c.(teams := if row.team in c.teams then c.teams else c.teams[row.team := row.name],
         links := if HasLink(c, row, t) then c.links
                  else c.links + {Link(row.team, row.department, row.validFrom, t, None)})
  }

  function AddLinks(c: Chart, rows: seq<LinkRow>, t: Date): Chart {
    if rows == [] then c else AddLink(AddLinks(c, rows[..|rows| - 1], t), rows[|rows| - 1], t)
  }

  predicate Inverted(row: AssignmentRow) {
    row.validFrom.Some? && row.validTo.Some? && row.validTo.value < row.validFrom.value
  }

  function ImageOf(row: AssignmentRow, t: Date): Assignment {
    Assignment(row.employee, row.team, row.validFrom, row.validTo, t, None)
  }

  /** A row whose employee or team is missing matches nothing; a new image must not be inverted. */
  function AddAssignment(c: Chart, row: AssignmentRow, t: Date): Result<Chart, Refusal> {
    if row.employee !in c.employees || row.team !in c.teams then Ok(c)
    else if row.id !in c.assignments && Inverted(row) then Err(InvertedInterval(row.id))
    else
      Ok(c.(assignments := if row.id in c.assignments then c.assignments
                           else c.assignments[row.id := ImageOf(row, t)],
            of := c.of + {(row.id, row.employee)},
            to := c.to + {(row.id, row.team)}))
  }

  function AddAssignments(c: Chart, rows: seq<AssignmentRow>, t: Date): Result<Chart, Refusal> {
    if rows == [] then Ok(c)
    else
      match AddAssignments(c, rows[..|rows| - 1], t)
      case Err(e) => Err(e)
      case Ok(before) => AddAssignment(before, rows[|rows| - 1], t)
  }

  function Deliver(c: Chart, d: Delivery): Result<Chart, Refusal> {
    var found := |Found(c, d.supersedes, d.t)|;
    if found != |d.supersedes| then Err(NotCurrent(found))
    else AddAssignments(AddLinks(Close(c, d.supersedes, d.t), d.links, d.t), d.assignments, d.t)
  }

  class Graph {
    var chart: Chart

    constructor (c: Chart)
      ensures chart == c
    {
      chart := c;
    }

    /** One transaction: a refused or failing delivery leaves the chart as it was. */
    method ApplyDelivery(d: Delivery) returns (r: Result<(), Refusal>)
      modifies this
      ensures match Deliver(old(chart), d)
              case Ok(c) => r == Ok(()) && chart == c
              case Err(e) => r == Err(e) && chart == old(chart)
    {
      var t := d.t;
      var found := |Found(chart, d.supersedes, t)|;
      if found != |d.supersedes| {
        return Err(NotCurrent(found));
      }
      var tx := Close(chart, d.supersedes, t);
      ghost var closed := tx;
      for i := 0 to |d.links|
        invariant tx == AddLinks(closed, d.links[..i], t)
      {
        assert d.links[..i + 1][..i] == d.links[..i];
        tx := AddLink(tx, d.links[i], t);
      }
      assert d.links[..|d.links|] == d.links;
      ghost var linked := tx;
      for i := 0 to |d.assignments|
        invariant AddAssignments(linked, d.assignments[..i], t) == Ok(tx)
      {
        assert d.assignments[..i + 1][..i] == d.assignments[..i];
        var next := AddAssignment(tx, d.assignments[i], t);
        if next.Err? {
          ErrorsStick(linked, d.assignments, t, i + 1);
          return Err(next.error);
        }
        tx := next.value;
      }
      assert d.assignments[..|d.assignments|] == d.assignments;
      chart := tx;
      return Ok(());
    }
  }

  lemma {:induction false} ErrorsStick(c: Chart, rows: seq<AssignmentRow>, t: Date, i: nat)
    requires i <= |rows| && AddAssignments(c, rows[..i], t).Err?
    ensures AddAssignments(c, rows, t) == AddAssignments(c, rows[..i], t)
    decreases |rows|
  {
    if i < |rows| {
      assert rows[..|rows| - 1][..i] == rows[..i];
      ErrorsStick(c, rows[..|rows| - 1], t, i);
    } else {
      assert rows[..i] == rows;
    }
  }

  // ----- applied twice is applied once

  /** Everything the row could add is there, or the row matches nothing. */
  ghost predicate LinkSettled(c: Chart, row: LinkRow, t: Date) {
    row.department in c.departments ==> row.team in c.teams && exists l :: l in c.links && Matches(l, row, t)
  }

  /** The link the row stands for: its team, its department, its day of validity, and this delivery. */
  ghost predicate Matches(l: Link, row: LinkRow, t: Date) {
    l.team == row.team && l.department == row.department && l.validFrom == row.validFrom && l.recordedFrom == t
  }

  ghost predicate AssignmentSettled(c: Chart, row: AssignmentRow) {
    row.employee in c.employees && row.team in c.teams ==>
      row.id in c.assignments && (row.id, row.employee) in c.of && (row.id, row.team) in c.to
  }

  lemma {:induction false} LinksSettle(c: Chart, rows: seq<LinkRow>, t: Date)
    ensures var after := AddLinks(c, rows, t);
            && (forall row :: row in rows ==> LinkSettled(after, row, t))
            && after.departments == c.departments && after.employees == c.employees
            && after.assignments == c.assignments && after.of == c.of && after.to == c.to
            && c.links <= after.links && (forall l :: l in after.links - c.links ==> l.recordedFrom == t)
            && (forall l :: l in after.links && l !in c.links ==>
                  exists row :: row in rows && row.department in c.departments
                      && l == Link(row.team, row.department, row.validFrom, t, None))
            && c.teams.Keys <= after.teams.Keys
            && (forall team :: team in c.teams ==> after.teams[team] == c.teams[team])
  {
    if rows != [] {
      var rest, last := rows[..|rows| - 1], rows[|rows| - 1];
      LinksSettle(c, rest, t);
      var before, after := AddLinks(c, rest, t), AddLinks(c, rows, t);
      assert last in rows && forall row :: row in rest ==> row in rows;
      forall row | row in rows
        ensures LinkSettled(after, row, t)
      {
        if row in rest {
          assert LinkSettled(before, row, t);
          if l :| l in before.links && Matches(l, row, t) {
            assert l in after.links;
          }
        } else {
          assert row == last;
          if last.department in c.departments && !HasLink(before, last, t) {
            var l := Link(last.team, last.department, last.validFrom, t, None);
            assert l in after.links && Matches(l, last, t);
          }
        }
      }
    }
  }

  lemma {:induction false} SettledLinksAddNothing(c: Chart, rows: seq<LinkRow>, t: Date)
    requires forall row :: row in rows ==> LinkSettled(c, row, t)
    ensures AddLinks(c, rows, t) == c
  {
    if rows != [] {
      SettledLinksAddNothing(c, rows[..|rows| - 1], t);
      assert LinkSettled(c, rows[|rows| - 1], t);
    }
  }

  /** The part of a chart that adding assignments leaves alone, and the part it only extends. */
  ghost predicate Extends(c: Chart, after: Chart, t: Date) {
    && after.departments == c.departments && after.employees == c.employees
    && after.teams == c.teams && after.links == c.links
    && (forall id :: id in c.assignments ==> id in after.assignments && after.assignments[id] == c.assignments[id])
    && (forall id :: id in after.assignments && id !in c.assignments ==> after.assignments[id].recordedFrom == t)
    && c.of <= after.of && c.to <= after.to
  }

  lemma {:induction false} AssignmentsSettle(c: Chart, rows: seq<AssignmentRow>, t: Date)
    requires AddAssignments(c, rows, t).Ok?
    ensures var after := AddAssignments(c, rows, t).value;
            Extends(c, after, t) && forall row :: row in rows ==> AssignmentSettled(after, row)
  {
    if rows != [] {
      AssignmentsSettle(c, rows[..|rows| - 1], t);
      assert forall row :: row in rows ==> row in rows[..|rows| - 1] || row == rows[|rows| - 1];
    }
  }

  lemma {:induction false} SettledAssignmentsAddNothing(c: Chart, rows: seq<AssignmentRow>, t: Date)
    requires forall row :: row in rows ==> AssignmentSettled(c, row)
    ensures AddAssignments(c, rows, t) == Ok(c)
  {
    if rows != [] {
      SettledAssignmentsAddNothing(c, rows[..|rows| - 1], t);
      assert AssignmentSettled(c, rows[|rows| - 1]);
      var row := rows[|rows| - 1];
      if row.employee in c.employees && row.team in c.teams {
        assert c.of + {(row.id, row.employee)} == c.of && c.to + {(row.id, row.team)} == c.to;
      }
    }
  }

  /** The ids of a delivery that passed the "was" check are all images, and distinct. */
  lemma {:induction false} CheckedIdsExist(c: Chart, ids: seq<Id>, t: Date)
    ensures |Found(c, ids, t)| <= |ids|
    ensures |Found(c, ids, t)| == |ids| ==> forall id :: id in ids ==> id in Found(c, ids, t) && Supersedable(c, id, t)
  {
    if ids != [] {
      var rest, last := ids[..|ids| - 1], ids[|ids| - 1];
      CheckedIdsExist(c, rest, t);
      assert forall id :: id in ids <==> id in rest || id == last;
      if last in Found(c, ids, t) {
        assert Found(c, ids, t) == Found(c, rest, t) + {last};
      } else {
        assert Found(c, ids, t) == Found(c, rest, t);
      }
    }
  }

  /** A delivery that was accepted can be delivered again, and changes nothing. */
  lemma DeliveredTwiceIsDeliveredOnce(c: Chart, d: Delivery)
    requires Deliver(c, d).Ok?
    ensures Deliver(Deliver(c, d).value, d) == Deliver(c, d)
  {
    var closed := Close(c, d.supersedes, d.t);
    var linked := AddLinks(closed, d.links, d.t);
    var after := AddAssignments(linked, d.assignments, d.t).value;
    LinksSettle(closed, d.links, d.t);
    AssignmentsSettle(linked, d.assignments, d.t);
    CheckedIdsExist(c, d.supersedes, d.t);
    assert Found(after, d.supersedes, d.t) == Found(c, d.supersedes, d.t);
    forall id | id in d.supersedes && id in after.assignments
      ensures after.assignments[id].recordedTo == Some(d.t)
    {
      assert id in Found(c, d.supersedes, d.t);
      assert after.assignments[id] == closed.assignments[id];
    }
    assert Close(after, d.supersedes, d.t).assignments == after.assignments;
    forall row | row in d.links
      ensures LinkSettled(after, row, d.t)
    {
      assert LinkSettled(linked, row, d.t);
    }
    SettledLinksAddNothing(after, d.links, d.t);
    SettledAssignmentsAddNothing(after, d.assignments, d.t);
  }

  // ----- what was known before the delivery stays known

  /** The recording test of the queries: half-open. */
  predicate KnownAt(recordedFrom: Date, recordedTo: Option<Date>, tau: Date) {
    recordedFrom <= tau && (recordedTo.None? || recordedTo.value > tau)
  }

  /** The assignments known at `tau`, without the mark that says when they stopped being current. */
  function KnownAssignments(c: Chart, tau: Date): map<Id, Assignment> {
    map id | id in c.assignments && KnownAt(c.assignments[id].recordedFrom, c.assignments[id].recordedTo, tau) ::
      c.assignments[id].(recordedTo := None)
  }

  function KnownLinks(c: Chart, tau: Date): set<Link> {
    set l | l in c.links && KnownAt(l.recordedFrom, l.recordedTo, tau)
  }

  /** The hops a query follows at `tau`: they start at a known assignment, but carry no date themselves. */
  function KnownHops(c: Chart, tau: Date): (set<(Id, string)>, set<(Id, string)>) {
    (set hop | hop in c.of && hop.0 in KnownAssignments(c, tau),
     set hop | hop in c.to && hop.0 in KnownAssignments(c, tau))
  }

  lemma DeliveryShape(c: Chart, d: Delivery)
    requires Deliver(c, d).Ok?
    ensures var after := Deliver(c, d).value;
            && (forall id :: id in c.assignments ==>
                  id in after.assignments && after.assignments[id] == Close(c, d.supersedes, d.t).assignments[id])
            && (forall id :: id in after.assignments && id !in c.assignments ==>
                  after.assignments[id].recordedFrom == d.t)
            && c.links <= after.links && (forall l :: l in after.links - c.links ==> l.recordedFrom == d.t)
            && c.of <= after.of && c.to <= after.to
  {
    var closed := Close(c, d.supersedes, d.t);
    LinksSettle(closed, d.links, d.t);
    AssignmentsSettle(AddLinks(closed, d.links, d.t), d.assignments, d.t);
  }

  /** Whatever a delivery dated `t` does, the assignments and department links known before `t` stay
      exactly those known before. */
  lemma DeliveryKeepsThePast(c: Chart, d: Delivery, tau: Date)
    requires Deliver(c, d).Ok? && tau < d.t
    ensures var after := Deliver(c, d).value;
            KnownAssignments(after, tau) == KnownAssignments(c, tau) && KnownLinks(after, tau) == KnownLinks(c, tau)
  {
    DeliveryShape(c, d);
    var after := Deliver(c, d).value;
    forall id
      ensures id in KnownAssignments(after, tau) <==> id in KnownAssignments(c, tau)
      ensures id in KnownAssignments(c, tau) ==> KnownAssignments(after, tau)[id] == KnownAssignments(c, tau)[id]
    {
      if id in after.assignments && id !in c.assignments {
        assert after.assignments[id].recordedFrom == d.t;
      }
    }
    assert forall l :: l in after.links && l !in c.links ==> l in after.links - c.links;
  }

  /** A team that is there, or that a link of the delivery brings: checked before the delivery. */
  predicate WillHaveTeam(c: Chart, d: Delivery, team: string) {
    team in c.teams || exists l :: l in d.links && l.team == team && l.department in c.departments
  }

  /** A row that reaches its anchors and names an assignment already known at `tau`, with an employee or a
      team that assignment has no hop to: all of it checked before the delivery. */
  predicate Reanchors(c: Chart, d: Delivery, row: AssignmentRow, tau: Date) {
    && row.employee in c.employees && WillHaveTeam(c, d, row.team)
    && row.id in KnownAssignments(c, tau)
    && ((row.id, row.employee) !in c.of || (row.id, row.team) !in c.to)
  }

  /** The links after the statement: those there were, and an open one for each row whose department exists
      and for which there was none. */
  lemma {:induction false} LinksExactly(c: Chart, rows: seq<LinkRow>, t: Date)
    ensures forall l :: l in AddLinks(c, rows, t).links <==> l in c.links || BroughtBy(c, rows, t, l)
    ensures AddLinks(c, rows, t).departments == c.departments
  {
    if rows != [] {
      var rest, last := rows[..|rows| - 1], rows[|rows| - 1];
      LinksExactly(c, rest, t);
      var before := AddLinks(c, rest, t);
      assert forall row :: row in rows <==> row in rest || row == last;
      assert HasLink(before, last, t) <==> exists l :: l in before.links && Matches(l, last, t);
      forall l
        ensures l in AddLinks(c, rows, t).links <==> l in c.links || BroughtBy(c, rows, t, l)
      {
        if BroughtBy(c, rows, t, l) && !BroughtBy(c, rest, t, l) {
          assert Matches(l, last, t) && last.department in c.departments;
          assert l == Link(last.team, last.department, last.validFrom, t, None);
          if k :| k in before.links && Matches(k, last, t) {
            assert BroughtBy(c, rest, t, k) && k == l;
          }
        }
        if l in AddLinks(c, rows, t).links && l !in before.links {
          assert Matches(l, last, t);
          assert forall k :: k in c.links ==> !Matches(k, last, t);
        }
      }
    }
  }

  ghost predicate BroughtBy(c: Chart, rows: seq<LinkRow>, t: Date, l: Link) {
    l.recordedTo.None? &&
    exists row :: row in rows && row.department in c.departments && Matches(l, row, t)
                  && forall k :: k in c.links ==> !Matches(k, row, t)
  }

  /** Row `i` is the first to bring this team: the first with it whose department exists. */
  ghost predicate FirstBringing(c: Chart, rows: seq<LinkRow>, team: string, i: nat) {
    && i < |rows| && rows[i].team == team && rows[i].department in c.departments
    && forall j :: 0 <= j < i ==> !(rows[j].team == team && rows[j].department in c.departments)
  }

  /** A new team has the name its first row gives it; an old one keeps its name. */
  lemma {:induction false} TeamNames(c: Chart, rows: seq<LinkRow>, t: Date)
    ensures var after := AddLinks(c, rows, t);
            && after.departments == c.departments
            && (forall team :: team in c.teams ==> team in after.teams && after.teams[team] == c.teams[team])
            && (forall team, i: nat :: team !in c.teams && FirstBringing(c, rows, team, i) ==>
                  team in after.teams && after.teams[team] == rows[i].name)
  {
    if rows != [] {
      var n := |rows| - 1;
      var rest := rows[..n];
      TeamNames(c, rest, t);
      TeamsAfterLinks(c, rest, t);
      assert forall j :: 0 <= j < n ==> rest[j] == rows[j] && rest[j] in rest;
      assert forall team, i: nat :: i < n ==> (FirstBringing(c, rows, team, i) <==> FirstBringing(c, rest, team, i));
      assert FirstBringing(c, rows, rows[n].team, n) ==>
               forall l :: l in rest ==> !(l.team == rows[n].team && l.department in c.departments);
    }
  }

  lemma {:induction false} TeamsAfterLinks(c: Chart, rows: seq<LinkRow>, t: Date)
    ensures forall team :: team in AddLinks(c, rows, t).teams <==>
              team in c.teams || exists l :: l in rows && l.team == team && l.department in c.departments
    ensures AddLinks(c, rows, t).departments == c.departments
  {
    if rows != [] {
      var rest, last := rows[..|rows| - 1], rows[|rows| - 1];
      TeamsAfterLinks(c, rest, t);
      assert forall l :: l in rows <==> l in rest || l == last;
    }
  }

  lemma {:induction false} NewHopsComeFromRows(c: Chart, rows: seq<AssignmentRow>, t: Date)
    requires AddAssignments(c, rows, t).Ok?
    ensures var after := AddAssignments(c, rows, t).value;
            && (forall hop :: hop in after.of && hop !in c.of ==>
                  exists row :: row in rows && row.employee in c.employees && row.team in c.teams
                      && hop == (row.id, row.employee))
            && (forall hop :: hop in after.to && hop !in c.to ==>
                  exists row :: row in rows && row.employee in c.employees && row.team in c.teams
                      && hop == (row.id, row.team))
  {
    if rows != [] {
      var rest, last := rows[..|rows| - 1], rows[|rows| - 1];
      NewHopsComeFromRows(c, rest, t);
      AssignmentsSettle(c, rest, t);
      assert last in rows && forall row :: row in rest ==> row in rows;
    }
  }

  /** The hops have no recording period, so the past of a query that follows them is kept exactly when
      no row of the delivery puts a new hop on an image that was already known. */
  lemma PastHopsAreKeptIff(c: Chart, d: Delivery, tau: Date)
    requires Deliver(c, d).Ok? && tau < d.t
    ensures var after := Deliver(c, d).value;
            KnownHops(after, tau) == KnownHops(c, tau) <==>
                forall row :: row in d.assignments ==> !Reanchors(c, d, row, tau)
  {
    DeliveryKeepsThePast(c, d, tau);
    DeliveryShape(c, d);
    var closed := Close(c, d.supersedes, d.t);
    var linked := AddLinks(closed, d.links, d.t);
    var after := Deliver(c, d).value;
    LinksSettle(closed, d.links, d.t);
    AssignmentsSettle(linked, d.assignments, d.t);
    NewHopsComeFromRows(linked, d.assignments, d.t);
    TeamsAfterLinks(closed, d.links, d.t);
    assert forall team :: team in linked.teams <==> WillHaveTeam(c, d, team);
    if row :| row in d.assignments && Reanchors(c, d, row, tau) {
      assert AssignmentSettled(after, row);
      assert (row.id, row.employee) in KnownHops(after, tau).0 && (row.id, row.team) in KnownHops(after, tau).1;
    } else {
      assert forall hop :: hop in after.of && hop.0 in KnownAssignments(c, tau) ==> hop in c.of;
      assert forall hop :: hop in after.to && hop.0 in KnownAssignments(c, tau) ==> hop in c.to;
      assert KnownHops(after, tau).0 == KnownHops(c, tau).0 && KnownHops(after, tau).1 == KnownHops(c, tau).1;
    }
  }

  const STAFF := Assignment("ada", "data", None, None, 1, None)
  const CHART :=
    Chart({"ada", "ben"}, {}, map["data" := "Data"], {}, map["a" := STAFF], {("a", "ada")}, {("a", "data")})
  const CORRECTION := Delivery(5, [], [], [AssignmentRow("a", "ben", "data", None, None)])

  /** It does happen: a later delivery that reuses an assignment's id for another employee is accepted, and
      a query about an earlier date then finds that employee too. */
  lemma ReusedIdChangesThePast()
    ensures Deliver(CHART, CORRECTION).Ok? && 3 < CORRECTION.t
    ensures Reanchors(CHART, CORRECTION, CORRECTION.assignments[0], 3)
    ensures KnownHops(Deliver(CHART, CORRECTION).value, 3) != KnownHops(CHART, 3)
  {
    var row := CORRECTION.assignments[0];
    assert CORRECTION.assignments[..0] == [];
    assert Found(CHART, [], 5) == {};
    assert Close(CHART, [], 5).assignments == CHART.assignments;
    assert AddLinks(CHART, [], 5) == CHART && AddAssignments(CHART, [], 5) == Ok(CHART);
    assert AddAssignments(CHART, [row], 5) == AddAssignment(CHART, row, 5) by { assert [row][..0] == []; }
    assert "ada"[0] != "ben"[0];
    assert row in CORRECTION.assignments;
    PastHopsAreKeptIff(CHART, CORRECTION, 3);
  }

  // ----- what the delivery says from its own date on

  lemma DistinctStep(rest: seq<Id>, last: Id)
    ensures Distinct(rest + [last]) <==> Distinct(rest) && last !in rest
  {
    var ids := rest + [last];
    assert forall i :: 0 <= i < |rest| ==> ids[i] == rest[i];
    assert ids[|rest|] == last;
  }

  /** An image that is current, or was closed by a delivery of this same date. */
  ghost predicate Supersedable(c: Chart, id: Id, t: Date) {
    id in c.assignments && (c.assignments[id].recordedTo.None? || c.assignments[id].recordedTo == Some(t))
  }

  /** The "was" check passes exactly when the superseded ids are distinct images, each current or closed
      by this same date. */
  lemma {:induction false} CheckPassesIff(c: Chart, ids: seq<Id>, t: Date)
    ensures |Found(c, ids, t)| == |ids| <==> Distinct(ids) && forall id :: id in ids ==> Supersedable(c, id, t)
  {
    if ids != [] {
      var rest, last := ids[..|ids| - 1], ids[|ids| - 1];
      CheckPassesIff(c, rest, t);
      CheckedIdsExist(c, rest, t);
      FoundStep(c, rest, last, t);
      DistinctStep(rest, last);
      hide Distinct;
      assert ids == rest + [last];
      assert forall id :: id in ids <==> id in rest || id == last;
    }
  }

  lemma FoundStep(c: Chart, rest: seq<Id>, last: Id, t: Date)
    ensures Found(c, rest + [last], t) == Found(c, rest, t) + if last in Found(c, [last], t) then {last} else {}
    ensures forall id :: id in Found(c, rest, t) ==> id in rest
  {
    assert forall id :: id in rest + [last] <==> id in rest || id == last;
  }

  predicate Reaches(c: Chart, row: AssignmentRow) {
    row.employee in c.employees && row.team in c.teams
  }

  /** Row `i` is the first of the delivery that creates its image. */
  ghost predicate Creates(before: Chart, linked: Chart, rows: seq<AssignmentRow>, i: nat) {
    && i < |rows| && rows[i].id !in before.assignments && Reaches(linked, rows[i])
    && forall j :: 0 <= j < i && rows[j].id == rows[i].id ==> !Reaches(linked, rows[j])
  }

  lemma CreatesInRest(c: Chart, rows: seq<AssignmentRow>)
    requires rows != []
    ensures forall i: nat :: i < |rows| - 1 ==> (Creates(c, c, rows, i) <==> Creates(c, c, rows[..|rows| - 1], i))
  {
    assert forall j :: 0 <= j < |rows| - 1 ==> rows[j] == rows[..|rows| - 1][j];
  }

  lemma EarlierRowsAreIn(c: Chart, rows: seq<AssignmentRow>, t: Date)
    requires rows != [] && AddAssignments(c, rows[..|rows| - 1], t).Ok?
    ensures var before := AddAssignments(c, rows[..|rows| - 1], t).value;
            Extends(c, before, t) && forall j: nat :: j < |rows| - 1 && Reaches(c, rows[j]) ==>
                rows[j].id in before.assignments
  {
    hide Extends, AddAssignments;
    var rest := rows[..|rows| - 1];
    AssignmentsSettle(c, rest, t);
    SameAnchors(c, AddAssignments(c, rest, t).value, t);
    forall j: nat | j < |rows| - 1 && Reaches(c, rows[j])
      ensures rows[j].id in AddAssignments(c, rest, t).value.assignments
    {
      assert rest[j] == rows[j] && AssignmentSettled(AddAssignments(c, rest, t).value, rest[j]);
    }
  }

  lemma SameAnchors(c: Chart, after: Chart, t: Date)
    requires Extends(c, after, t)
    ensures after.employees == c.employees && after.teams == c.teams
    ensures forall id :: id in c.assignments ==> id in after.assignments
  {
  }

  lemma {:induction false} CreatedImages(c: Chart, rows: seq<AssignmentRow>, t: Date)
    requires AddAssignments(c, rows, t).Ok?
    ensures var after := AddAssignments(c, rows, t).value;
            && (forall i: nat :: Creates(c, c, rows, i) ==>
                  rows[i].id in after.assignments && IsImageOf(after.assignments[rows[i].id], rows[i], t)
                      && !EndsBeforeItStarts(rows[i]))
            && (forall id :: id in after.assignments && id !in c.assignments ==>
                  exists i: nat :: Creates(c, c, rows, i) && rows[i].id == id)
  {
    hide AddAssignment, IsImageOf, EndsBeforeItStarts, Extends;
    if rows != [] {
      var rest, n := rows[..|rows| - 1], |rows| - 1;
      CreatedImages(c, rest, t);
      EarlierRowsAreIn(c, rows, t);
      var before, after := AddAssignments(c, rest, t).value, AddAssignments(c, rows, t).value;
      AssignmentStep(before, rows[n], t);
      SameAnchors(c, before, t);
      CreatesInRest(c, rows);
      forall id | id in after.assignments && id !in c.assignments
        ensures exists i: nat :: Creates(c, c, rows, i) && rows[i].id == id
      {
        if id in before.assignments {
          var i: nat :| Creates(c, c, rest, i) && rest[i].id == id;
          assert Creates(c, c, rows, i) && rows[i].id == id;
        } else {
          assert id == rows[n].id && Creates(c, c, rows, n);
        }
      }
    }
  }

  lemma AssignmentStep(c: Chart, row: AssignmentRow, t: Date)
    requires AddAssignment(c, row, t).Ok?
    ensures var after := AddAssignment(c, row, t).value;
            && (forall id :: id in c.assignments ==>
              id in after.assignments && after.assignments[id] == c.assignments[id])
            && (forall id :: id in after.assignments && id !in c.assignments ==> id == row.id && Reaches(c, row))
            && (Reaches(c, row) && row.id !in c.assignments ==>
                  row.id in after.assignments && IsImageOf(after.assignments[row.id], row, t)
                      && !EndsBeforeItStarts(row))
  {
  }

  /** Adding fails at the first row whose new image would be inverted. */
  lemma {:induction false} FailureNamesAnInvertedImage(c: Chart, rows: seq<AssignmentRow>, t: Date)
    requires AddAssignments(c, rows, t).Err?
    ensures exists i: nat ::
              Creates(c, c, rows, i) && EndsBeforeItStarts(rows[i])
                  && AddAssignments(c, rows, t) == Err(InvertedInterval(rows[i].id))
  {
    var rest, n := rows[..|rows| - 1], |rows| - 1;
    CreatesInRest(c, rows);
    if AddAssignments(c, rest, t).Err? {
      FailureNamesAnInvertedImage(c, rest, t);
      var i: nat :| Creates(c, c, rest, i) && EndsBeforeItStarts(rest[i])
          && AddAssignments(c, rest, t) == Err(InvertedInterval(rest[i].id));
      assert Creates(c, c, rows, i) && rows[i] == rest[i];
    } else {
      var before := AddAssignments(c, rest, t).value;
      EarlierRowsAreIn(c, rows, t);
      assert Creates(c, c, rows, n) && EndsBeforeItStarts(rows[n]);
    }
  }

  /** A delivery is rolled back exactly when the "was" check fails or a row would create an inverted image. */
  lemma DeliveryFailsIff(c: Chart, d: Delivery)
    ensures var linked := AddLinks(Close(c, d.supersedes, d.t), d.links, d.t);
            Deliver(c, d).Err? <==>
              || !Distinct(d.supersedes) || (exists id :: id in d.supersedes && !Supersedable(c, id, d.t))
              || (exists i: nat :: Creates(c, linked, d.assignments, i) && EndsBeforeItStarts(d.assignments[i]))
  {
    hide Found, Inverted, Distinct, EndsBeforeItStarts, Supersedable;
    var closed := Close(c, d.supersedes, d.t);
    var linked := AddLinks(closed, d.links, d.t);
    CheckPassesIff(c, d.supersedes, d.t);
    LinksSettle(closed, d.links, d.t);
    assert forall i: nat :: Creates(c, linked, d.assignments, i) <==> Creates(linked, linked, d.assignments, i);
    if AddAssignments(linked, d.assignments, d.t).Err? {
      FailureNamesAnInvertedImage(linked, d.assignments, d.t);
    } else {
      CreatedImages(linked, d.assignments, d.t);
    }
  }

  /** The image the row describes, open, and recorded by this delivery. */
  ghost predicate IsImageOf(a: Assignment, row: AssignmentRow, t: Date) {
    && a.employee == row.employee && a.team == row.team && a.validFrom == row.validFrom && a.validTo == row.validTo
    && a.recordedFrom == t && a.recordedTo.None?
  }

  ghost predicate EndsBeforeItStarts(row: AssignmentRow) {
    row.validFrom.Some? && row.validTo.Some? && row.validTo.value < row.validFrom.value
  }

  /** From its date on: a superseded image is no longer known, one the delivery does not name is as it
      was, and the images it adds are those of the rows that create one, and known. */
  lemma DeliveryTakesEffect(c: Chart, d: Delivery, tau: Date, id: Id)
    requires Deliver(c, d).Ok? && d.t <= tau
    ensures var after := Deliver(c, d).value; var linked := AddLinks(Close(c, d.supersedes, d.t), d.links, d.t);
            && (id in d.supersedes ==> id in c.assignments && id !in KnownAssignments(after, tau))
            && (id in c.assignments && id !in d.supersedes ==>
                  id in after.assignments && after.assignments[id] == c.assignments[id])
            && (id !in c.assignments ==>
                  (id in after.assignments <==>
                    exists i: nat :: Creates(c, linked, d.assignments, i) && d.assignments[i].id == id))
            && (forall i: nat :: Creates(c, linked, d.assignments, i) ==>
                  d.assignments[i].id in KnownAssignments(after, tau)
                  && IsImageOf(after.assignments[d.assignments[i].id], d.assignments[i], d.t))
  {
    var closed := Close(c, d.supersedes, d.t);
    var linked := AddLinks(closed, d.links, d.t);
    LinksSettle(closed, d.links, d.t);
    DeliveryShape(c, d);
    CheckedIdsExist(c, d.supersedes, d.t);
    CreatedImages(linked, d.assignments, d.t);
    assert forall i: nat :: Creates(c, linked, d.assignments, i) <==> Creates(linked, linked, d.assignments, i);
  }
}
