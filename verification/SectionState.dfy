/**
 The state a documentation line inherits from its headings: `_doc_section_state` in
 scripts/check_version_consistency.py.

 A line arrives as its pattern matches leave it: a code fence, a heading, or anything else.
 */
module SectionState {
  import opened Prelude
  import opened Scope
  import TextOrder

  /** A record heading's sort key: its date (empty when undated), then its version. */
  datatype Rank = Rank(date: string, version: (int, int, int))

  datatype Line =
    | Fence
    | Heading(level: nat, marked: bool, record: Option<Rank>)
    | Other

  datatype State = Suppressed | Citation

  predicate RankBefore(a: Rank, b: Rank) {
    || TextOrder.Before(a.date, b.date)
    || (a.date == b.date &&
        (|| a.version.0 < b.version.0
         || (a.version.0 == b.version.0 &&
             (a.version.1 < b.version.1 || (a.version.1 == b.version.1 && a.version.2 < b.version.2)))))
  }

  function Component(v: (int, int, int), i: nat): int {
    if i == 0 then v.0 else if i == 1 then v.1 else v.2
  }

  /** The versions agree before `i`, and there the first is smaller. */
  ghost predicate SmallerVersionAt(a: (int, int, int), b: (int, int, int), i: nat) {
    i <= 2 && Component(a, i) < Component(b, i) && forall j: nat :: j < i ==> Component(a, j) == Component(b, j)
  }

  /** A record is older by its date, as text; the same day by its version. */
  lemma RankBeforeIff(a: Rank, b: Rank)
    ensures RankBefore(a, b) <==>
              || TextOrder.Before(a.date, b.date)
              || (a.date == b.date && exists i: nat :: SmallerVersionAt(a.version, b.version, i))
  {
    var v, w := a.version, b.version;
    assert SmallerVersionAt(v, w, 0) <==> v.0 < w.0;
    assert SmallerVersionAt(v, w, 1) <==> v.0 == w.0 && v.1 < w.1;
    assert SmallerVersionAt(v, w, 2) <==> v.0 == w.0 && v.1 == w.1 && v.2 < w.2;
  }

  lemma RankIsTotal(a: Rank, b: Rank)
    ensures a == b || RankBefore(a, b) || RankBefore(b, a)
    ensures RankBefore(a, b) ==> a != b && !RankBefore(b, a)
  {
    TextOrder.BeforeIsTotal(a.date, b.date);
    TextOrder.BeforeIsTotal(b.date, a.date);
  }

  lemma RankIsTransitive(a: Rank, b: Rank, c: Rank)
    requires RankBefore(a, b) && RankBefore(b, c)
    ensures RankBefore(a, c)
  {
    if TextOrder.Before(a.date, b.date) && TextOrder.Before(b.date, c.date) {
      TextOrder.BeforeIsTransitive(a.date, b.date, c.date);
    }
  }

  // ----- what is declared

  /** Whether a fence is open after the first `n` lines. */
  function InFence(lines: seq<Line>, n: nat): bool
    requires n <= |lines|
  {
    n > 0 && (InFence(lines, n - 1) != lines[n - 1].Fence?)
  }

  /** A heading outside every code fence. */
  predicate IsHeading(lines: seq<Line>, i: nat) {
    i < |lines| && lines[i].Heading? && !InFence(lines, i)
  }

  function LevelsOf(lines: seq<Line>): (r: Levels)
    ensures |r| == |lines|
  {
    seq(|lines|, i requires 0 <= i < |lines| => if IsHeading(lines, i) then Some(lines[i].level) else None)
  }

  predicate IsRecord(lines: seq<Line>, i: nat) {
    IsHeading(lines, i) && lines[i].record.Some?
  }

  /** A record older than some other record of the document. */
  ghost predicate IsOlderRecord(lines: seq<Line>, i: nat) {
    IsRecord(lines, i) &&
    exists j: nat :: IsRecord(lines, j) && RankBefore(lines[i].record.value, lines[j].record.value)
  }

  ghost function KindOf(lines: seq<Line>, i: nat): Option<State> {
    if IsHeading(lines, i) && lines[i].marked then Some(Suppressed)
    else if IsOlderRecord(lines, i) then Some(Citation)
    else None
  }

  /** Line `i` is in the section of a heading of this kind. */
  ghost predicate InSection(lines: seq<Line>, i: nat, kind: State) {
    exists h: nat :: Governs(LevelsOf(lines), h, i) && KindOf(lines, h) == Some(kind)
  }

  /** The declared state: suppression wins over citation. */
  ghost function DeclaredState(lines: seq<Line>, i: nat): Option<State> {
    if InSection(lines, i, Suppressed) then Some(Suppressed)
    else if InSection(lines, i, Citation) then Some(Citation)
    else None
  }

  // ----- the code

  method NewestRank(lines: seq<Line>) returns (newest: Option<Rank>)
    ensures IsNewest(lines, newest)
  {
    newest := None;
    var inFence := false;
    for i := 0 to |lines|
      invariant inFence == InFence(lines, i)
      invariant newest.None? ==> forall j: nat :: j < i ==> !IsRecord(lines, j)
      invariant newest.Some? ==> exists j: nat :: j < i && IsRecord(lines, j) && lines[j].record == newest
      invariant newest.Some? ==> forall j: nat :: j < i && IsRecord(lines, j) ==>
          !RankBefore(newest.value, lines[j].record.value)
    {
      var line := lines[i];
      if line.Fence? {
        inFence := !inFence;
      } else if !inFence && line.Heading? && line.record.Some? {
        assert IsRecord(lines, i);
        var rank := line.record.value;
        if newest.None? {
          RankIsTotal(rank, rank);
          newest := Some(rank);
        } else if RankBefore(newest.value, rank) {
          RankIsTotal(rank, rank);
          forall j: nat | j < i && IsRecord(lines, j)
            ensures !RankBefore(rank, lines[j].record.value)
          {
            if RankBefore(rank, lines[j].record.value) {
              RankIsTransitive(newest.value, rank, lines[j].record.value);
            }
          }
          newest := Some(rank);
        }
      }
    }
  }

  /** Not being of the newest rank is the same as being older than some record. */
  lemma OlderMeansNotNewest(lines: seq<Line>, newest: Option<Rank>, i: nat)
    requires IsRecord(lines, i) && IsNewest(lines, newest)
    ensures IsOlderRecord(lines, i) <==> lines[i].record != newest
  {
    RankIsTotal(lines[i].record.value, newest.value);
    if IsOlderRecord(lines, i) {
      var j: nat :| IsRecord(lines, j) && RankBefore(lines[i].record.value, lines[j].record.value);
    }
  }

  ghost function Special(lines: seq<Line>): nat -> bool {
    (h: nat) => KindOf(lines, h).Some?
  }

  /** The script's stack: levels and kinds, at the positions the scope rule names. */
  ghost predicate Mirrors(lines: seq<Line>, stack: seq<(nat, State)>, at: seq<nat>) {
    |stack| == |at| && forall k :: 0 <= k < |at| ==>
      IsHeading(lines, at[k]) && stack[k].0 == lines[at[k]].level && KindOf(lines, at[k]) == Some(stack[k].1)
  }

  ghost predicate StackOf(lines: seq<Line>, n: nat, stack: seq<(nat, State)>, at: seq<nat>) {
    IsStack(LevelsOf(lines), Special(lines), n, at) && Mirrors(lines, stack, at)
  }

  /** The newest rank of the document, as the first pass leaves it. */
  ghost predicate IsNewest(lines: seq<Line>, newest: Option<Rank>) {
    && (newest.None? ==> forall i: nat :: !IsRecord(lines, i))
    && (newest.Some? ==> exists i: nat :: IsRecord(lines, i) && lines[i].record == newest)
    && (newest.Some? ==> forall i: nat :: IsRecord(lines, i) ==> !RankBefore(newest.value, lines[i].record.value))
  }

  lemma KindAsWritten(lines: seq<Line>, newest: Option<Rank>, i: nat)
    requires IsHeading(lines, i) && IsNewest(lines, newest)
    ensures KindOf(lines, i) ==
            if lines[i].marked then Some(Suppressed)
            else if lines[i].record.Some? && lines[i].record != newest then Some(Citation)
            else None
  {
    if lines[i].record.Some? {
      OlderMeansNotNewest(lines, newest, i);
    }
  }

  lemma PopsAreScopePops(lines: seq<Line>, n: nat, stack: seq<(nat, State)>, at: seq<nat>, left: nat)
    requires IsHeading(lines, n) && StackOf(lines, n, stack, at) && left <= |stack|
    requires forall k :: left <= k < |stack| ==> stack[k].0 >= lines[n].level
    requires left > 0 ==> stack[left - 1].0 < lines[n].level
    ensures left <= |at| && PoppedFor(LevelsOf(lines), n, at, at[..left])
    ensures Mirrors(lines, stack[..left], at[..left])
  {
    forall k | 0 <= k < |at|
      ensures at[k] < n && LevelsOf(lines)[at[k]] == Some(stack[k].0)
    {
      assert at[k] in at;
    }
  }

  lemma PushMirrors(lines: seq<Line>, n: nat, stack: seq<(nat, State)>, at: seq<nat>, kind: State)
    requires Mirrors(lines, stack, at) && IsHeading(lines, n) && KindOf(lines, n) == Some(kind)
    ensures Mirrors(lines, stack + [(lines[n].level, kind)], at + [n])
  {
  }

  /** A heading: pop what is as deep or deeper, then push it if it opens a special section. */
  method EnterHeading(
      lines: seq<Line>, ghost n: nat, line: Line, newest: Option<Rank>, stack: seq<(nat, State)>, ghost at: seq<nat>)
    returns (after: seq<(nat, State)>, ghost at': seq<nat>)
    requires IsHeading(lines, n) && line == lines[n] && IsNewest(lines, newest) && StackOf(lines, n, stack, at)
    ensures StackOf(lines, n + 1, after, at')
    ensures forall kind :: HasKind(after, kind) <==> InSection(lines, n, kind)
  {
    hide HasKind, InSection, Mirrors, IsNewest, IsStack, KindOf, PoppedFor;
    after := stack;
    while after != [] && after[|after| - 1].0 >= line.level
      invariant |after| <= |stack| && after == stack[..|after|]
      invariant forall k :: |after| <= k < |stack| ==> stack[k].0 >= line.level
    {
      after := after[..|after| - 1];
    }
    PopsAreScopePops(lines, n, stack, at, |after|);
    at' := at[..|after|];
    KindAsWritten(lines, newest, n);
    HeadingStep(LevelsOf(lines), Special(lines), n, at, at');
    if line.marked {
      PushMirrors(lines, n, after, at', Suppressed);
      after, at' := after + [(line.level, Suppressed)], at' + [n];
    } else if line.record.Some? && line.record != newest {
      PushMirrors(lines, n, after, at', Citation);
      after, at' := after + [(line.level, Citation)], at' + [n];
    }
    StackKindsAreSections(lines, n, after, at');
  }

  method DocSectionState(lines: seq<Line>) returns (states: seq<Option<State>>)
    ensures |states| == |lines|
    ensures forall i :: 0 <= i < |lines| ==> states[i] == DeclaredState(lines, i)
  {
    hide StackOf, IsNewest, DeclaredState;
    var newest := NewestRank(lines);
    states := [];
    var stack: seq<(nat, State)> := [];
    ghost var at: seq<nat> := [];
    var inFence := false;
    EmptyStack(lines);
    for i := 0 to |lines|
      invariant inFence == InFence(lines, i) && |states| == i
      invariant forall j :: 0 <= j < i ==> states[j] == DeclaredState(lines, j)
      invariant StackOf(lines, i, stack, at)
    {
      var line := lines[i];
      if !line.Fence? && !inFence && line.Heading? {
        stack, at := EnterHeading(lines, i, line, newest, stack, at);
      } else {
        NoHeading(lines, i, stack, at);
        if line.Fence? {
          inFence := !inFence;
        }
      }
      StackAnswers(lines, i, stack, at);
      states := states + [if HasKind(stack, Suppressed) then Some(Suppressed)
                          else if HasKind(stack, Citation) then Some(Citation)
                          else None];
    }
  }

  predicate HasKind(stack: seq<(nat, State)>, kind: State) {
    exists k :: 0 <= k < |stack| && stack[k].1 == kind
  }

  lemma EmptyStack(lines: seq<Line>)
    ensures StackOf(lines, 0, [], [])
  {
  }

  lemma NoHeading(lines: seq<Line>, n: nat, stack: seq<(nat, State)>, at: seq<nat>)
    requires n < |lines| && !IsHeading(lines, n) && StackOf(lines, n, stack, at)
    ensures StackOf(lines, n + 1, stack, at)
  {
    PlainStep(LevelsOf(lines), Special(lines), n, at);
  }

  /** The kinds on the stack are the kinds of the sections the line is in. */
  lemma StackKindsAreSections(lines: seq<Line>, i: nat, stack: seq<(nat, State)>, at: seq<nat>)
    requires i < |lines| && StackOf(lines, i + 1, stack, at)
    ensures forall kind :: HasKind(stack, kind) <==> InSection(lines, i, kind)
  {
    forall kind
      ensures InSection(lines, i, kind) <==> HasKind(stack, kind)
    {
      if InSection(lines, i, kind) {
        var h: nat :| Governs(LevelsOf(lines), h, i) && KindOf(lines, h) == Some(kind);
        assert Special(lines)(h) && h in at;
        var k :| 0 <= k < |at| && at[k] == h;
        assert stack[k].1 == kind;
      }
      if k :| 0 <= k < |stack| && stack[k].1 == kind {
        assert at[k] in at;
        assert Governs(LevelsOf(lines), at[k], i) && KindOf(lines, at[k]) == Some(kind);
      }
    }
  }

  lemma StackAnswers(lines: seq<Line>, i: nat, stack: seq<(nat, State)>, at: seq<nat>)
    requires i < |lines| && StackOf(lines, i + 1, stack, at)
    ensures DeclaredState(lines, i) ==
            if HasKind(stack, Suppressed) then Some(Suppressed)
            else if HasKind(stack, Citation) then Some(Citation)
            else None
  {
    hide HasKind, InSection;
    StackKindsAreSections(lines, i, stack, at);
  }
}
