/**
 Collision-free names in examples/html_to_vault.py: note paths, block ids, and the canonical page of
 an id.

 Lower-casing is any character-by-character folding that leaves digits and the two separators alone.
 */
module VaultPaths {
  import opened Prelude
  import opened TextOrder

  // ----- numbered suffixes

  function Digit(d: nat): char
    requires d < 10
  {
    '0' + d as char
  }

  predicate IsDigit(c: char) {
    '0' <= c <= '9'
  }

  /** `str(n)` */
  function Decimal(n: nat): (s: string)
    ensures forall c :: c in s ==> IsDigit(c)
  {
    if n < 10 then [Digit(n)] else Decimal(n / 10) + [Digit(n % 10)]
  }

  function ValueOf(s: string): int {
    if s == [] then 0 else 10 * ValueOf(s[..|s| - 1]) + (s[|s| - 1] as int - '0' as int)
  }

  lemma {:induction false} DecimalReadsBack(n: nat)
    ensures ValueOf(Decimal(n)) == n
  {
    if n >= 10 {
      DecimalReadsBack(n / 10);
      assert Decimal(n)[..|Decimal(n)| - 1] == Decimal(n / 10);
    } else {
      assert Decimal(n)[..0] == [];
    }
  }

  /** And it has no leading zero. */
  lemma {:induction false} DecimalIsPlain(n: nat)
    ensures Decimal(n) != [] && (Decimal(n)[0] == '0' ==> n == 0 && |Decimal(n)| == 1)
  {
    if n >= 10 {
      DecimalIsPlain(n / 10);
    }
  }

  // ----- folding case

  type Fold = char -> string

  ghost predicate KeepsSeparators(fold: Fold) {
    forall c :: IsDigit(c) || c == '_' || c == '-' ==> fold(c) == [c]
  }

  function Lower(fold: Fold, s: string): string {
    if s == [] then [] else Lower(fold, s[..|s| - 1]) + fold(s[|s| - 1])
  }

  lemma {:induction false} LowerJoins(fold: Fold, a: string, b: string)
    ensures Lower(fold, a + b) == Lower(fold, a) + Lower(fold, b)
    decreases |b|
  {
    if b == [] {
      assert a + b == a;
    } else {
      assert (a + b)[..|a + b| - 1] == a + b[..|b| - 1];
      LowerJoins(fold, a, b[..|b| - 1]);
    }
  }

  lemma {:induction false} LowerKeepsSeparators(fold: Fold, s: string)
    requires KeepsSeparators(fold) && forall c :: c in s ==> IsDigit(c) || c == '_' || c == '-'
    ensures Lower(fold, s) == s
  {
    if s != [] {
      assert s[|s| - 1] in s;
      LowerKeepsSeparators(fold, s[..|s| - 1]);
      assert s == s[..|s| - 1] + [s[|s| - 1]];
    }
  }

  /** Each character is folded on its own. */
  lemma LowerOfOne(fold: Fold, c: char)
    ensures Lower(fold, [c]) == fold(c)
  {
    assert [c][..0] == [];
  }

  function Numbered(base: string, sep: char, k: nat): string {
    base + [sep] + Decimal(k)
  }

  lemma LowerNumbered(fold: Fold, base: string, sep: char, k: nat)
    requires KeepsSeparators(fold) && (sep == '_' || sep == '-')
    ensures Lower(fold, Numbered(base, sep, k)) == Lower(fold, base) + ([sep] + Decimal(k))
  {
    assert Numbered(base, sep, k) == base + ([sep] + Decimal(k));
    LowerJoins(fold, base, [sep] + Decimal(k));
    LowerKeepsSeparators(fold, [sep] + Decimal(k));
  }

  lemma SamePrefixCancels(start: string, a: string, b: string)
    requires start + a == start + b
    ensures a == b
  {
    assert (start + a)[|start|..] == a && (start + b)[|start|..] == b;
  }

  /** Two different suffixes give two different names, even ignoring case. */
  lemma NumberedDiffer(fold: Fold, base: string, sep: char, j: nat, k: nat)
    requires KeepsSeparators(fold) && (sep == '_' || sep == '-')
    requires Lower(fold, Numbered(base, sep, j)) == Lower(fold, Numbered(base, sep, k))
    ensures j == k
  {
    hide Lower, Numbered, Decimal, KeepsSeparators;
    LowerNumbered(fold, base, sep, j);
    LowerNumbered(fold, base, sep, k);
    SamePrefixCancels(Lower(fold, base), [sep] + Decimal(j), [sep] + Decimal(k));
    SamePrefixCancels([sep], Decimal(j), Decimal(k));
    DecimalReadsBack(j);
    DecimalReadsBack(k);
  }

  /** The name chosen: the base when it is free, else its first free numbered form, counting from 2. */
  ghost predicate FirstFree(fold: Fold, used: set<string>, base: string, sep: char, name: string) {
    && Lower(fold, name) !in used
    && (Lower(fold, base) !in used ==> name == base)
    && (Lower(fold, base) in used ==>
          exists k: nat ::
            && k >= 2 && name == base + [sep] + Decimal(k)
            && forall j: nat :: 2 <= j < k ==> Lower(fold, base + [sep] + Decimal(j)) in used)
  }

  /** The numbered forms below `n`, counting from 2, ignoring case. */
  ghost function NumberedBelow(fold: Fold, base: string, sep: char, n: nat): set<string> {
    if n <= 2 then {} else NumberedBelow(fold, base, sep, n - 1) + {Lower(fold, Numbered(base, sep, n - 1))}
  }

  lemma {:induction false} NumberedBelowMembers(fold: Fold, base: string, sep: char, n: nat)
    ensures forall key :: key in NumberedBelow(fold, base, sep, n) <==>
              exists j: nat :: 2 <= j < n && key == Lower(fold, Numbered(base, sep, j))
    decreases n
  {
    hide Lower, Numbered;
    if n > 2 {
      NumberedBelowMembers(fold, base, sep, n - 1);
    }
  }

  lemma {:induction false} NumberedBelowCount(fold: Fold, base: string, sep: char, n: nat)
    requires KeepsSeparators(fold) && (sep == '_' || sep == '-') && n >= 2
    ensures |NumberedBelow(fold, base, sep, n)| == n - 2
    decreases n
  {
    hide Lower, Numbered, KeepsSeparators;
    if n > 2 {
      NumberedBelowCount(fold, base, sep, n - 1);
      var key := Lower(fold, Numbered(base, sep, n - 1));
      if key in NumberedBelow(fold, base, sep, n - 1) {
        NumberedBelowMembers(fold, base, sep, n - 1);
        var j: nat :| 2 <= j < n - 1 && key == Lower(fold, Numbered(base, sep, j));
        NumberedDiffer(fold, base, sep, j, n - 1);
      }
    }
  }

  /** The suffix loop.  It ends because each failed suffix is a different member of the finite set of
      names used. */
  method Disambiguate(fold: Fold, used: set<string>, base: string, sep: char) returns (candidate: string)
    requires KeepsSeparators(fold) && (sep == '_' || sep == '-')
    ensures FirstFree(fold, used, base, sep, candidate)
  {
    hide Lower, Numbered, KeepsSeparators;
    candidate := base;
    var suffix := 1;
    while Lower(fold, candidate) in used
      invariant suffix >= 1
      invariant suffix == 1 ==> candidate == base
      invariant suffix > 1 ==> candidate == Numbered(base, sep, suffix) && Lower(fold, base) in used
      invariant NumberedBelow(fold, base, sep, suffix) <= used
      decreases |used| + 1 - suffix
    {
      if suffix > 1 {
        NumberedBelowCount(fold, base, sep, suffix + 1);
        SubsetIsNoLarger(NumberedBelow(fold, base, sep, suffix + 1), used);
      }
      suffix := suffix + 1;
      candidate := Numbered(base, sep, suffix);
    }
    if suffix > 1 {
      NumberedIsFirstFree(fold, used, base, sep, suffix);
    }
  }

  lemma NumberedIsFirstFree(fold: Fold, used: set<string>, base: string, sep: char, suffix: nat)
    requires suffix >= 2 && Lower(fold, base) in used && NumberedBelow(fold, base, sep, suffix) <= used
    requires Lower(fold, Numbered(base, sep, suffix)) !in used
    ensures FirstFree(fold, used, base, sep, Numbered(base, sep, suffix))
  {
    hide Lower;
    NumberedBelowMembers(fold, base, sep, suffix);
    forall j: nat | 2 <= j < suffix
      ensures Lower(fold, base + [sep] + Decimal(j)) in used
    {
      assert Numbered(base, sep, j) == base + [sep] + Decimal(j);
    }
    assert Numbered(base, sep, suffix) == base + [sep] + Decimal(suffix);
  }

  lemma SubsetIsNoLarger(a: set<string>, b: set<string>)
    requires a <= b
    ensures |a| <= |b|
  {
    assert b == a + (b - a);
  }

  // ----- `assign_paths`

  /** A page as far as its path is concerned: where the table of contents puts it, and its cleaned title
      and route. */
  datatype Note = Note(placement: Option<(string, string)>, title: string, route: string)

  function Join(directory: string, stem: string): string {
    if directory == "" || (stem != "" && stem[0] == '/') then stem
    else if directory[|directory| - 1] == '/' then directory + stem
    else directory + "/" + stem
  }

  function PlainPath(note: Note, loose: string): string {
    if note.placement.Some? then Join(note.placement.value.0, note.placement.value.1) else Join(loose, note.title)
  }

  /** The name a note gets, given the names before it. */
  ghost predicate Assigned(fold: Fold, used: set<string>, note: Note, loose: string, name: string) {
    var plain := PlainPath(note, loose);
    FirstFree(fold, used, if Lower(fold, plain) in used then plain + "_" + note.route else plain, '_', name)
  }

  /** The directory and the name are joined by exactly one slash; a name that starts with one, or that has no
      directory, stands alone. */
  lemma JoinShape(directory: string, stem: string)
    ensures directory == [] || (stem != [] && stem[0] == '/') ==> Join(directory, stem) == stem
    ensures directory != [] && !(stem != [] && stem[0] == '/') ==>
              directory <= Join(directory, stem)
              && exists cut: nat :: JoinedAt(directory, stem, Join(directory, stem), cut)
  {
    if directory != [] && !(stem != [] && stem[0] == '/') {
      var cut := if directory[|directory| - 1] == '/' then |directory| else |directory| + 1;
      assert JoinedAt(directory, stem, Join(directory, stem), cut);
    }
  }

  ghost predicate JoinedAt(directory: string, stem: string, joined: string, cut: nat) {
    && 0 < cut <= |joined| && joined[cut - 1] == '/' && joined[cut..] == stem
    && (joined[..cut] == directory || joined[..cut - 1] == directory)
    && (joined[..cut - 1] == directory ==> directory == [] || directory[|directory| - 1] != '/')
  }

  /** A placed note's plain path is its directory and stem there; an unplaced one's its title, under the
      default directory. */
  lemma PlainPathIs(note: Note, loose: string)
    ensures forall directory, stem :: note.placement == Some((directory, stem)) ==>
            PlainPath(note, loose) == Join(directory, stem)
    ensures note.placement.None? ==> PlainPath(note, loose) == Join(loose, note.title)
  {
  }

  function Keys(fold: Fold, names: seq<string>): set<string> {
    set n | n in names :: Lower(fold, n)
  }

  method AssignPaths(fold: Fold, notes: seq<Note>, loose: string) returns (names: seq<string>)
    requires KeepsSeparators(fold)
    ensures |names| == |notes|
    ensures forall i :: 0 <= i < |names| ==> Assigned(fold, Keys(fold, names[..i]), notes[i], loose, names[i])
  {
    hide Lower, KeepsSeparators, FirstFree;
    names := [];
    var used: set<string> := {};
    for i := 0 to |notes|
      invariant |names| == i && used == Keys(fold, names)
      invariant forall j :: 0 <= j < i ==> Assigned(fold, Keys(fold, names[..j]), notes[j], loose, names[j])
    {
      var candidate := PlainPath(notes[i], loose);
      if Lower(fold, candidate) in used {
        candidate := candidate + "_" + notes[i].route;
      }
      candidate := Disambiguate(fold, used, candidate, '_');
      used := used + {Lower(fold, candidate)};
      ghost var before := names;
      names := names + [candidate];
      assert forall j :: 0 <= j < i ==> names[..j] == before[..j];
      assert names[..i] == before;
    }
  }

  /** Notes get pairwise different paths, ignoring case, extension included. */
  lemma PathsAreDistinct(fold: Fold, notes: seq<Note>, loose: string, names: seq<string>, i: nat, j: nat)
    requires |names| == |notes| && i < j < |names|
    requires forall k :: 0 <= k < |names| ==> Assigned(fold, Keys(fold, names[..k]), notes[k], loose, names[k])
    ensures Lower(fold, names[i] + ".md") != Lower(fold, names[j] + ".md")
  {
    assert names[i] in names[..j];
    LowerJoins(fold, names[i], ".md");
    LowerJoins(fold, names[j], ".md");
    SameEndCancels(Lower(fold, names[i]), Lower(fold, names[j]), Lower(fold, ".md"));
  }

  lemma SameEndCancels(a: string, b: string, end: string)
    ensures a + end == b + end ==> a == b
  {
    if a + end == b + end {
      assert a == (a + end)[..|a|] && b == (b + end)[..|b|];
    }
  }

  /** A note keeps its plain path exactly when no earlier note has that path, ignoring case. */
  lemma PlainPathKeptIff(fold: Fold, notes: seq<Note>, loose: string, names: seq<string>, i: nat)
    requires |names| == |notes| && i < |names|
    requires forall k :: 0 <= k < |names| ==> Assigned(fold, Keys(fold, names[..k]), notes[k], loose, names[k])
    ensures Lower(fold, names[i]) == Lower(fold, PlainPath(notes[i], loose)) <==>
              forall j :: 0 <= j < i ==> Lower(fold, names[j]) != Lower(fold, PlainPath(notes[i], loose))
  {
    assert forall j :: 0 <= j < i ==> names[j] in names[..i];
    assert Assigned(fold, Keys(fold, names[..i]), notes[i], loose, names[i]);
  }

  // ----- `name_blocks`

  function Exact(): Fold {
    c => [c]
  }

  lemma {:induction false} ExactIsIdentity(s: string)
    ensures Lower(Exact(), s) == s
  {
    if s != [] {
      ExactIsIdentity(s[..|s| - 1]);
    }
  }

  /** A paragraph: its id with everything but letters, digits and dashes replaced, and whether it stands
      inside a table. */
  datatype Paragraph = Paragraph(slug: string, inTable: bool)

  /** The ids given so far. */
  function Given(names: seq<Option<string>>): set<string> {
    set n | n in names && n.Some? :: n.value
  }

  /** Paragraph `i` gets no id, or its slug, or the slug's first free numbered form. */
  ghost predicate NamedAt(before: set<string>, paragraphs: seq<Paragraph>, names: seq<Option<string>>, i: nat)
    requires i < |names| <= |paragraphs|
  {
    match names[i]
    case None => paragraphs[i].slug == "" || paragraphs[i].inTable
    case Some(name) =>
      && paragraphs[i].slug != "" && !paragraphs[i].inTable
      && FirstFree(Exact(), before + Given(names[..i]), paragraphs[i].slug, '-', name)
  }

  ghost predicate Named(before: set<string>, paragraphs: seq<Paragraph>, names: seq<Option<string>>) {
    |names| <= |paragraphs| && forall i: nat :: i < |names| ==> NamedAt(before, paragraphs, names, i)
  }

  lemma NamedStep(before: set<string>, paragraphs: seq<Paragraph>, names: seq<Option<string>>, name: Option<string>)
    requires Named(before, paragraphs, names) && |names| < |paragraphs|
    requires NamedAt(before, paragraphs, names + [name], |names|)
    ensures Named(before, paragraphs, names + [name])
  {
    hide FirstFree;
    forall i: nat | i < |names|
      ensures NamedAt(before, paragraphs, names + [name], i)
    {
      assert (names + [name])[..i] == names[..i];
      assert NamedAt(before, paragraphs, names, i);
    }
  }

  /** Ids named so are new, and no two paragraphs share one. */
  lemma NamedAreNewAndDistinct(before: set<string>, paragraphs: seq<Paragraph>, names: seq<Option<string>>, i: nat)
    requires Named(before, paragraphs, names) && i < |names| && names[i].Some?
    ensures names[i].value !in before
    ensures forall j: nat :: j < i && names[j].Some? ==> names[j].value != names[i].value
  {
    assert NamedAt(before, paragraphs, names, i);
    ExactIsIdentity(names[i].value);
    assert forall j :: 0 <= j < i ==> names[j] == names[..i][j] && names[j] in names[..i];
  }

  class Body {
    var ids: set<string>

    constructor ()
      ensures ids == {}
    {
      ids := {};
    }

    /** Each citable paragraph gets its slug, or the slug's first free numbered form: an id nothing else has,
        across calls too. */
    method NameBlocks(paragraphs: seq<Paragraph>) returns (names: seq<Option<string>>)
      modifies this
      ensures |names| == |paragraphs| && Named(old(ids), paragraphs, names)
      ensures ids == old(ids) + Given(names)
      ensures forall i :: 0 <= i < |names| && names[i].Some? ==> names[i].value !in old(ids)
      ensures forall i, j :: 0 <= i < j < |names| && names[i].Some? && names[j].Some? ==>
              names[i].value != names[j].value
    {
      hide Lower, FirstFree, Named;
      names := [];
      NoneNamed(ids, paragraphs);
      for i := 0 to |paragraphs|
        invariant |names| == i && ids == old(ids) + Given(names) && Named(old(ids), paragraphs, names)
      {
        var p := paragraphs[i];
        var name: Option<string> := None;
        if p.slug != "" && !p.inTable {
          var candidate := Disambiguate(Exact(), ids, p.slug, '-');
          name := Some(candidate);
          ids := ids + {candidate};
        }
        assert (names + [name])[..i] == names;
        NamedStep(old(ids), paragraphs, names, name);
        names := names + [name];
      }
      forall i: nat | i < |names| && names[i].Some?
        ensures names[i].value !in old(ids)
        ensures forall j: nat :: j < i && names[j].Some? ==> names[j].value != names[i].value
      {
        NamedAreNewAndDistinct(old(ids), paragraphs, names, i);
      }
    }
  }

  lemma NoneNamed(before: set<string>, paragraphs: seq<Paragraph>)
    ensures Named(before, paragraphs, [])
  {
  }

  // ----- `canonical`

  /** A page carrying the id: its path in the corpus, and its first place in the table of contents. */
  datatype Page = Page(rel: string, placement: Option<(nat, string)>)

  function DepthOf(p: Page): nat {
    if p.placement.None? then 10_000 else p.placement.value.0
  }

  function PathKey(p: Page): Key {
    (if p.placement.None? then "" else p.placement.value.1, p.rel, "")
  }

  predicate PageBefore(a: Page, b: Page) {
    DepthOf(a) < DepthOf(b) || (DepthOf(a) == DepthOf(b) && KeyBefore(PathKey(a), PathKey(b)))
  }

  predicate SameKey(a: Page, b: Page) {
    DepthOf(a) == DepthOf(b) && PathKey(a) == PathKey(b)
  }

  /** `sorted(pages, key=key)[0]`: the first of the pages with the least key. */
  function Canonical(pages: seq<Page>): (r: Page)
    requires pages != []
    ensures r in pages
  {
    if |pages| == 1 then pages[0]
    else
      var best := Canonical(pages[..|pages| - 1]);
      if PageBefore(pages[|pages| - 1], best) then pages[|pages| - 1] else best
  }

  lemma PageOrder(a: Page, b: Page, c: Page)
    ensures SameKey(a, b) || PageBefore(a, b) || PageBefore(b, a)
    ensures PageBefore(a, b) ==> !SameKey(a, b) && !PageBefore(b, a)
    ensures PageBefore(a, b) && PageBefore(b, c) ==> PageBefore(a, c)
  {
    hide KeyBefore;
    KeyIsTotal(PathKey(a), PathKey(b));
    KeyIsTotal(PathKey(b), PathKey(a));
    if KeyBefore(PathKey(a), PathKey(b)) && KeyBefore(PathKey(b), PathKey(c)) {
      KeyIsTransitive(PathKey(a), PathKey(b), PathKey(c));
    }
  }

  /** A page is preferred by depth, ten thousand when the table of contents does not place it; then by its path
      there, none before any; then by its file. */
  ghost predicate Preferred(a: Page, b: Page) {
    var depthA := match a.placement case Some((depth, _)) => depth case None => 10_000;
    var depthB := match b.placement case Some((depth, _)) => depth case None => 10_000;
    var pathA := match a.placement case Some((_, path)) => path case None => "";
    var pathB := match b.placement case Some((_, path)) => path case None => "";
    || depthA < depthB
    || (depthA == depthB && Before(pathA, pathB))
    || (depthA == depthB && pathA == pathB && Before(a.rel, b.rel))
  }

  lemma PreferredIff(a: Page, b: Page)
    ensures Preferred(a, b) <==> PageBefore(a, b)
  {
  }

  /** The canonical page is one of the pages, and none of them is preferred to it. */
  lemma CanonicalIsPreferred(pages: seq<Page>)
    requires pages != []
    ensures Canonical(pages) in pages && forall p :: p in pages ==> !Preferred(p, Canonical(pages))
  {
    CanonicalIsLeast(pages);
    forall p | p in pages
      ensures !Preferred(p, Canonical(pages))
    {
      PreferredIff(p, Canonical(pages));
    }
  }

  /** No page comes before the canonical one. */
  lemma {:induction false} CanonicalIsLeast(pages: seq<Page>)
    requires pages != []
    ensures forall p :: p in pages ==> !PageBefore(p, Canonical(pages))
  {
    hide PageBefore, SameKey;
    var last := pages[|pages| - 1];
    PageOrder(last, last, last);
    if |pages| > 1 {
      var rest := pages[..|pages| - 1];
      CanonicalIsLeast(rest);
      forall p | p in rest
        ensures !PageBefore(p, Canonical(pages))
      {
        PageOrder(p, last, Canonical(rest));
      }
    }
  }

  /** The order of the input makes no difference. */
  ghost predicate OrderFree(pages: seq<Page>)
    requires pages != []
  {
    forall other: seq<Page> :: other != [] && multiset(other) == multiset(pages) ==>
        Canonical(other) == Canonical(pages)
  }

  lemma NoTiesOrderFree(pages: seq<Page>)
    requires pages != [] && forall p :: p in pages && SameKey(p, Canonical(pages)) ==> p == Canonical(pages)
    ensures OrderFree(pages)
  {
    hide PageBefore, SameKey, Canonical;
    CanonicalIsLeast(pages);
    forall other: seq<Page> | other != [] && multiset(other) == multiset(pages)
      ensures Canonical(other) == Canonical(pages)
    {
      CanonicalIsLeast(other);
      SameMembers(pages, other);
      PageOrder(Canonical(other), Canonical(pages), Canonical(pages));
    }
  }

  /** Each page is one file of the corpus, so its path in the corpus is its own. */
  ghost predicate DistinctFiles(pages: seq<Page>) {
    forall i, j :: 0 <= i < j < |pages| ==> pages[i].rel != pages[j].rel
  }

  /** The choice never depends on the order in which the files were scanned. */
  lemma CanonicalIgnoresOrder(pages: seq<Page>)
    requires pages != [] && DistinctFiles(pages)
    ensures OrderFree(pages)
  {
    hide PageBefore, Canonical;
    NoTiesOrderFree(pages);
  }

  lemma SameMembers(a: seq<Page>, b: seq<Page>)
    requires multiset(a) == multiset(b)
    ensures forall p :: p in a <==> p in b
  {
    forall p
      ensures p in a <==> p in b
    {
      assert p in a <==> p in multiset(a);
      assert p in b <==> p in multiset(b);
    }
  }
}
