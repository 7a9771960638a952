/**
 Blanking `#[cfg(test)]` items, from scripts/check_source_quality.py.

 Two scanners walk the same text: one looks for attributes from the start of the file, the other
 looks for the end of an item from wherever the first one stopped.  The token grid below, the
 positions a scan from the start of the file visits, is what they have to agree on.
 */
module TestItems {
  import opened Prelude
  import opened Nesting
  import opened Counting
  import opened RustTokens

  // ----- the token grid

  /** One step of a scan: over a whole comment or literal, or over one character. */
  function Next(s: string, c: nat): (e: nat)
    requires c < |s|
    ensures c < e <= |s|
  {
    var t := TokenEnd(s, c);
    if t.Some? then t.value else c + 1
  }

  /** A scan started at `from` visits `p`. */
  predicate OnGrid(s: string, from: nat, p: nat)
    decreases |s| - from
  {
    p == from || (from < |s| && from < p && OnGrid(s, Next(s, from), p))
  }

  lemma {:induction false} GridJoins(s: string, a: nat, b: nat, c: nat)
    requires OnGrid(s, a, b) && OnGrid(s, b, c)
    ensures a <= b <= c && OnGrid(s, a, c)
    decreases |s| - a
  {
    GridForward(s, b, c);
    if a != b {
      GridJoins(s, Next(s, a), b, c);
    }
  }

  lemma {:induction false} GridForward(s: string, a: nat, b: nat)
    requires OnGrid(s, a, b)
    ensures a <= b
    decreases |s| - a
  {
    if a != b {
      GridForward(s, Next(s, a), b);
    }
  }

  lemma GridStep(s: string, a: nat, b: nat)
    requires OnGrid(s, a, b) && b < |s|
    ensures OnGrid(s, a, Next(s, b))
  {
    assert OnGrid(s, b, Next(s, b));
    GridJoins(s, a, b, Next(s, b));
  }

  /** A position a scan passes without visiting lies inside one of its comments or literals. */
  lemma {:induction false} OffGridIsInsideToken(s: string, from: nat, p: nat, q: nat) returns (a: nat)
    requires OnGrid(s, from, q) && from <= p <= q && !OnGrid(s, from, p)
    ensures a < |s| && OnGrid(s, from, a) && a < p < Next(s, a) <= q && TokenEnd(s, a).Some?
    decreases |s| - from
  {
    if p < Next(s, from) {
      a := from;
      GridForward(s, Next(s, from), q);
    } else {
      a := OffGridIsInsideToken(s, Next(s, from), p, q);
    }
  }

  // ----- `_balanced_end`

  function DelimiterLexeme(s: string, i: nat, opening: char, closing: char): Lexeme {
    if i >= |s| then Other(i + 1)
    else
      var t := TokenEnd(s, i);
      if t.Some? then Other(t.value)
      else if s[i] == opening then Open(i + 1)
      else if s[i] == closing then Close(i + 1)
      else Other(i + 1)
  }

  /** Comments and literals are single lexemes: nothing inside one can open or close a group. */
  function DelimiterLexer(s: string, opening: char, closing: char): (lex: Lexer)
    ensures Advances(lex, |s|)
  {
    (i: nat) => DelimiterLexeme(s, i, opening, closing)
  }

  function GroupEnd(s: string, inside: nat, opening: char, closing: char): (e: nat)
    requires inside <= |s|
    ensures inside <= e <= |s|
  {
    Scan(DelimiterLexer(s, opening, closing), |s|, inside, 1)
  }

  method BalancedEnd(source: string, index: nat, opening: char, closing: char) returns (cursor: nat)
    requires index < |source|
    ensures cursor == GroupEnd(source, index + 1, opening, closing)
  {
    hide TokenEnd;
    ghost var lex := DelimiterLexer(source, opening, closing);
    var depth: nat := 1;
    cursor := index + 1;
    while cursor < |source| && depth > 0
      invariant index < cursor <= |source|
      invariant Scan(lex, |source|, cursor, depth) == Scan(lex, |source|, index + 1, 1)
      decreases |source| - cursor
    {
      var skipped := SkipCommentOrLiteral(source, cursor);
      if skipped.Some? {
        cursor := skipped.value;
      } else {
        if source[cursor] == opening {
          depth := depth + 1;
        } else if source[cursor] == closing {
          depth := depth - 1;
        }
        cursor := cursor + 1;
      }
    }
  }

  /** `m` is just past the delimiter that matches the one at `index` in the well-nested grammar over
      whole tokens. */
  ghost predicate MatchEndsAt(s: string, index: nat, opening: char, closing: char, m: nat) {
    ClosesAt(DelimiterLexer(s, opening, closing), |s|, index + 1, m)
  }

  /** The position `BalancedEnd` returns is the end of that match; without a match it is the end of
      the text. */
  lemma BalancedEndMatches(s: string, index: nat, opening: char, closing: char)
    requires index < |s|
    ensures forall m: nat :: MatchEndsAt(s, index, opening, closing, m) ==>
            GroupEnd(s, index + 1, opening, closing) == m
    ensures var e := GroupEnd(s, index + 1, opening, closing);
            e < |s| ==> MatchEndsAt(s, index, opening, closing, e)
  {
    ScanIsTheMatchingCloser(DelimiterLexer(s, opening, closing), |s|, index + 1);
  }

  /** The loop stays on the token grid, and a delimiter inside a comment or literal is never the one
      it stops at: the character before its result is visited by the token scan, starts no token,
      and is the closing character. */
  lemma {:induction false} GroupScanStaysOnGrid(s: string, i: nat, opening: char, closing: char, depth: nat)
    requires i <= |s| && opening != closing
    ensures var e := Scan(DelimiterLexer(s, opening, closing), |s|, i, depth);
            && OnGrid(s, i, e)
            && (0 < depth && e < |s| ==>
                  i < e && OnGrid(s, i, e - 1) && TokenEnd(s, e - 1).None? && s[e - 1] == closing)
    decreases |s| - i
  {
    hide TokenEnd;
    var lex := DelimiterLexer(s, opening, closing);
    if i < |s| && depth > 0 {
      assert lex(i).next == Next(s, i);
      match lex(i)
      case Open(next) =>
        GroupScanStaysOnGrid(s, next, opening, closing, depth + 1);
      case Close(next) =>
        GroupScanStaysOnGrid(s, next, opening, closing, depth - 1);
      case Other(next) =>
        GroupScanStaysOnGrid(s, next, opening, closing, depth);
    }
  }

  // ----- the same, by counting what a reader sees

  /** The walk of the token scan. */
  ghost function TokenWalk(s: string): (next: Walk)
    ensures Walks(next, |s|)
  {
    (p: nat) => if p < |s| then Next(s, p) else p + 1
  }

  /** The character stands here outside every comment and literal, for a scan that visits the place. */
  ghost function Visible(s: string, c: char): nat -> bool {
    (p: nat) => p < |s| && TokenEnd(s, p).None? && s[p] == c
  }

  /** How many visible `c` the token scan from `i` meets before `p`. */
  ghost function Seen(s: string, c: char, i: nat, p: nat): nat {
    Count(TokenWalk(s), |s|, Visible(s, c), i, p)
  }

  /** A group ends just past the visible closer with which, for the first time, more closers than openers
      have been seen since its opening; or at the end of the text when that never happens. */
  lemma GroupEndsAtFirstExcess(s: string, inside: nat, opening: char, closing: char)
    requires inside <= |s| && opening != closing
    ensures var e := GroupEnd(s, inside, opening, closing);
            FirstExcess(TokenWalk(s), |s|, Visible(s, opening), Visible(s, closing), inside, e)
  {
    hide TokenEnd;
    ScanIsFirstExcess(DelimiterLexer(s, opening, closing), |s|, TokenWalk(s), Visible(s, opening),
        Visible(s, closing), inside);
  }

  /** So `BalancedEnd` returns a position exactly when it is that one. */
  lemma BalancedEndIff(s: string, index: nat, opening: char, closing: char, e: nat)
    requires index < |s| && opening != closing
    ensures e == GroupEnd(s, index + 1, opening, closing) <==>
              FirstExcess(TokenWalk(s), |s|, Visible(s, opening), Visible(s, closing), index + 1, e)
  {
    GroupEndsAtFirstExcess(s, index + 1, opening, closing);
    if FirstExcess(TokenWalk(s), |s|, Visible(s, opening), Visible(s, closing), index + 1, e) {
      FirstExcessIsUnique(TokenWalk(s), |s|, Visible(s, opening), Visible(s, closing), index + 1, e,
                          GroupEnd(s, index + 1, opening, closing));
    }
  }

  lemma GroupEndOnGrid(s: string, from: nat, inside: nat, opening: char, closing: char)
    requires OnGrid(s, from, inside) && inside <= |s| && opening != closing
    ensures OnGrid(s, from, GroupEnd(s, inside, opening, closing))
  {
    hide TokenEnd;
    GroupScanStaysOnGrid(s, inside, opening, closing, 1);
    GridJoins(s, from, inside, GroupEnd(s, inside, opening, closing));
  }

  // ----- `_cfg_test_item_end`

  function SkipSpaces(s: string, c: nat): (e: nat)
    requires c <= |s|
    ensures c <= e <= |s| && (e < |s| ==> !IsSpace(s[e]))
    decreases |s| - c
  {
    if c < |s| && IsSpace(s[c]) then SkipSpaces(s, c + 1) else c
  }

  /** Past whitespace, comments and further attributes: where the item itself starts. */
  function ItemStart(s: string, c: nat): (e: nat)
    requires c <= |s|
    ensures c <= e <= |s|
    decreases |s| - c
  {
    var w := SkipSpaces(s, c);
    if Two(s, w, '/', '/') || Two(s, w, '/', '*') then ItemStart(s, TokenEnd(s, w).value)
    else if Two(s, w, '#', '[') then ItemStart(s, GroupEnd(s, w + 2, '[', ']'))
    else w
  }

  function Deeper(open: char, close: char, c: char, depth: nat): nat {
    if c == open then depth + 1 else if c == close && depth > 0 then depth - 1 else depth
  }

  /** The end of the item whose text starts at `c`: just past its `;`, or past its braces. */
  function BodyEnd(s: string, c: nat, parens: nat, brackets: nat): (e: nat)
    requires c <= |s|
    ensures c <= e <= |s|
    decreases |s| - c
  {
    if c == |s| then |s|
    else if TokenEnd(s, c).Some? then BodyEnd(s, TokenEnd(s, c).value, parens, brackets)
    else if s[c] == '{' && parens == 0 && brackets == 0 then GroupEnd(s, c + 1, '{', '}')
    else if s[c] == ';' && parens == 0 && brackets == 0 then c + 1
    else BodyEnd(s, c + 1, Deeper('(', ')', s[c], parens), Deeper('[', ']', s[c], brackets))
  }

  function ItemEnd(s: string, c: nat): (e: nat)
    requires c <= |s|
    ensures c <= e <= |s|
  {
    BodyEnd(s, ItemStart(s, c), 0, 0)
  }

  method FindItemStart(source: string, index: nat) returns (cursor: nat)
    requires index <= |source|
    ensures cursor == ItemStart(source, index) && cursor <= |source|
  {
    hide TokenEnd;
    cursor := index;
    while cursor < |source|
      invariant index <= cursor <= |source|
      invariant ItemStart(source, cursor) == ItemStart(source, index)
      decreases |source| - cursor
    {
      ghost var before := cursor;
      while cursor < |source| && IsSpace(source[cursor])
        invariant before <= cursor <= |source|
        invariant SkipSpaces(source, cursor) == SkipSpaces(source, before)
        decreases |source| - cursor
      {
        cursor := cursor + 1;
      }
      var skipped := None;
      if cursor < |source| {
        skipped := SkipCommentOrLiteral(source, cursor);
        if Two(source, cursor, '/', '/') || Two(source, cursor, '/', '*') {
          CommentIsToken(source, cursor);
        }
      }
      if skipped.Some? && (Two(source, cursor, '/', '/') || Two(source, cursor, '/', '*')) {
        cursor := skipped.value;
      } else if Two(source, cursor, '#', '[') {
        cursor := BalancedEnd(source, cursor + 1, '[', ']');
      } else {
        return;
      }
    }
  }

  method CfgTestItemEnd(source: string, index: nat) returns (e: nat)
    requires index <= |source|
    ensures e == ItemEnd(source, index)
  {
    hide TokenEnd;
    var cursor := FindItemStart(source, index);
    var parens: nat, brackets: nat := 0, 0;
    while cursor < |source|
      invariant cursor <= |source|
      invariant BodyEnd(source, cursor, parens, brackets) == ItemEnd(source, index)
      decreases |source| - cursor
    {
      var skipped := SkipCommentOrLiteral(source, cursor);
      if skipped.Some? {
        cursor := skipped.value;
      } else {
        var c := source[cursor];
        if c == '(' {
          parens := parens + 1;
        } else if c == ')' {
          parens := if parens > 0 then parens - 1 else 0;
        } else if c == '[' {
          brackets := brackets + 1;
        } else if c == ']' {
          brackets := if brackets > 0 then brackets - 1 else 0;
        } else if c == '{' && parens == 0 && brackets == 0 {
          e := BalancedEnd(source, cursor, '{', '}');
          return;
        } else if c == ';' && parens == 0 && brackets == 0 {
          return cursor + 1;
        }
        cursor := cursor + 1;
      }
    }
    return |source|;
  }

  /** The depth a scan from `from` has counted when it reaches `p`, one kind of delimiter at a time:
      visible openers add one, visible closers take one back but never below zero. */
  function DepthAt(s: string, from: nat, p: nat, open: char, close: char, depth: nat): nat
    requires OnGrid(s, from, p)
    decreases |s| - from
  {
    if p == from then depth
    else DepthAt(s, Next(s, from), p, open, close,
                 if TokenEnd(s, from).Some? then depth else Deeper(open, close, s[from], depth))
  }

  /** `p` is a visible `;` or opening brace outside every parenthesis and bracket opened since `from`. */
  ghost predicate EndsItem(s: string, from: nat, parens: nat, brackets: nat, p: nat) {
    && p < |s| && OnGrid(s, from, p) && TokenEnd(s, p).None?
    && (s[p] == ';' || s[p] == '{')
    && DepthAt(s, from, p, '(', ')', parens) == 0 && DepthAt(s, from, p, '[', ']', brackets) == 0
  }

  /** What an item ends at, counted from `from`: the first `;` or opening brace at depth zero. */
  ghost predicate FirstItemEnder(s: string, from: nat, parens: nat, brackets: nat, p: nat) {
    EndsItem(s, from, parens, brackets, p) && forall q: nat :: q < p ==> !EndsItem(s, from, parens, brackets, q)
  }

  /** An item ends just past its first top-level `;`, or past the group its first top-level brace
      opens, or at the end of the text when it has neither. */
  lemma {:induction false} ItemEndsAtFirstEnder(s: string, c: nat, parens: nat, brackets: nat) returns (p: nat)
    requires c <= |s|
    ensures p < |s| ==> FirstItemEnder(s, c, parens, brackets, p)
    ensures p < |s| ==> BodyEnd(s, c, parens, brackets) ==
                        if s[p] == ';' then p + 1 else GroupEnd(s, p + 1, '{', '}')
    ensures p >= |s| ==> BodyEnd(s, c, parens, brackets) == |s|
                         && forall q: nat :: !EndsItem(s, c, parens, brackets, q)
    decreases |s| - c
  {
    hide TokenEnd;
    if c == |s| {
      return c;
    }
    if EndsItem(s, c, parens, brackets, c) {
      forall q: nat | q < c ensures !EndsItem(s, c, parens, brackets, q) {
        if OnGrid(s, c, q) { GridForward(s, c, q); }
      }
      return c;
    }
    var parens', brackets' := parens, brackets;
    if TokenEnd(s, c).None? {
      parens', brackets' := Deeper('(', ')', s[c], parens), Deeper('[', ']', s[c], brackets);
    }
    p := ItemEndsAtFirstEnder(s, Next(s, c), parens', brackets');
    forall q: nat
      ensures EndsItem(s, c, parens, brackets, q) == EndsItem(s, Next(s, c), parens', brackets', q)
    {
      if OnGrid(s, Next(s, c), q) { GridForward(s, Next(s, c), q); }
    }
  }

  /** No delimiter of the kind that was opened since `from` is still open at `p`: from no place on have more
      openers than closers been seen. */
  ghost predicate Outside(s: string, open: char, close: char, from: nat, p: nat) {
    forall q: nat :: q <= p && OnGrid(s, from, q) ==> Seen(s, open, q, p) <= Seen(s, close, q, p)
  }

  lemma SeenStep(s: string, c: char, i: nat, p: nat)
    requires i < p && i < |s|
    ensures Seen(s, c, i, p) == (if TokenEnd(s, i).None? && s[i] == c then 1 else 0) + Seen(s, c, Next(s, i), p)
  {
  }

  /** The counted depth, which never falls below zero, is zero exactly outside. */
  lemma {:induction false} DepthIsZeroIff(s: string, from: nat, p: nat, open: char, close: char, depth: nat)
    requires OnGrid(s, from, p) && open != close && p <= |s|
    ensures DepthAt(s, from, p, open, close, depth) == 0 <==>
              depth + Seen(s, open, from, p) <= Seen(s, close, from, p) && Outside(s, open, close, from, p)
    decreases |s| - from
  {
    hide TokenEnd, Seen;
    GridForward(s, from, p);
    if from == p {
      NothingSeen(s, p);
    } else {
      var next := Next(s, from);
      var depth' := if TokenEnd(s, from).Some? then depth else Deeper(open, close, s[from], depth);
      GridForward(s, next, p);
      DepthIsZeroIff(s, next, p, open, close, depth');
      SeenStep(s, open, from, p);
      SeenStep(s, close, from, p);
      OutsideStep(s, open, close, from, p);
    }
  }

  lemma NothingSeen(s: string, p: nat)
    ensures forall c :: Seen(s, c, p, p) == 0
    ensures forall open, close :: Outside(s, open, close, p, p)
  {
  }

  lemma OutsideStep(s: string, open: char, close: char, from: nat, p: nat)
    requires from < |s| && from < p && OnGrid(s, Next(s, from), p)
    ensures Outside(s, open, close, from, p) <==>
              Outside(s, open, close, Next(s, from), p) && Seen(s, open, from, p) <= Seen(s, close, from, p)
  {
    hide TokenEnd, Seen;
    forall q: nat
      ensures OnGrid(s, from, q) <==> q == from || OnGrid(s, Next(s, from), q)
    {
      if OnGrid(s, Next(s, from), q) {
        GridForward(s, Next(s, from), q);
      }
    }
    GridForward(s, Next(s, from), p);
  }

  /** A visible `;` or opening brace outside all parentheses and brackets. */
  ghost predicate TopLevelEnder(s: string, from: nat, p: nat) {
    && p < |s| && OnGrid(s, from, p) && TokenEnd(s, p).None? && (s[p] == ';' || s[p] == '{')
    && Outside(s, '(', ')', from, p) && Outside(s, '[', ']', from, p)
  }

  /** An item, from where it starts, ends just past its first top-level `;`, or with the group its first
      top-level brace opens, whichever comes first; or at the end of the text when it has neither. */
  lemma ItemEndsAtFirstTopLevelEnder(s: string, c: nat) returns (p: nat)
    requires c <= |s|
    ensures var b, e := ItemStart(s, c), ItemEnd(s, c);
            && (p < |s| ==> TopLevelEnder(s, b, p) && forall q: nat :: q < p ==> !TopLevelEnder(s, b, q))
            && (p < |s| && s[p] == ';' ==> e == p + 1)
            && (p < |s| && s[p] == '{' ==> FirstExcess(TokenWalk(s), |s|, Visible(s, '{'), Visible(s, '}'), p + 1, e))
            && (p >= |s| ==> e == |s| && forall q: nat :: !TopLevelEnder(s, b, q))
  {
    hide TokenEnd;
    var b := ItemStart(s, c);
    p := ItemEndsAtFirstEnder(s, b, 0, 0);
    forall q: nat
      ensures EndsItem(s, b, 0, 0, q) <==> TopLevelEnder(s, b, q)
    {
      if q < |s| && OnGrid(s, b, q) {
        DepthIsZeroIff(s, b, q, '(', ')', 0);
        DepthIsZeroIff(s, b, q, '[', ']', 0);
        GridForward(s, b, q);
      }
    }
    if p < |s| && s[p] == '{' {
      GroupEndsAtFirstExcess(s, p + 1, '{', '}');
    }
  }

  lemma {:induction false} SpacesOnGrid(s: string, c: nat)
    requires c <= |s|
    ensures OnGrid(s, c, SkipSpaces(s, c))
    decreases |s| - c
  {
    if c < |s| && IsSpace(s[c]) {
      SpaceStartsNoToken(s, c);
      SpacesOnGrid(s, c + 1);
    }
  }

  lemma SpaceStartsNoToken(s: string, c: nat)
    requires c < |s| && IsSpace(s[c])
    ensures TokenEnd(s, c).None?
  {
    hide TokenEnd;
    PlainCharacter(s, c);
  }

  lemma {:induction false} ItemStartOnGrid(s: string, c: nat)
    requires c <= |s|
    ensures OnGrid(s, c, ItemStart(s, c))
    decreases |s| - c
  {
    hide TokenEnd, GroupEnd;
    var w := SkipSpaces(s, c);
    SpacesOnGrid(s, c);
    if Two(s, w, '/', '/') || Two(s, w, '/', '*') {
      CommentIsToken(s, w);
      GridStep(s, c, w);
      ItemStartOnGrid(s, Next(s, w));
      GridJoins(s, c, Next(s, w), ItemStart(s, c));
    } else if Two(s, w, '#', '[') {
      PlainCharacter(s, w);
      PlainCharacter(s, w + 1);
      GridStep(s, c, w);
      GridStep(s, c, w + 1);
      var e := GroupEnd(s, w + 2, '[', ']');
      GroupEndOnGrid(s, c, w + 2, '[', ']');
      ItemStartOnGrid(s, e);
      GridJoins(s, c, e, ItemStart(s, c));
    }
  }

  /** Whitespace, comments and attributes, one after the other, from `a` to `b`. */
  predicate Preamble(s: string, a: nat, b: nat)
    decreases |s| - a
  {
    a == b ||
    (a < |s| && a < b &&
     (if IsSpace(s[a]) then Preamble(s, a + 1, b)
      else if Two(s, a, '/', '/') || Two(s, a, '/', '*') then TokenEnd(s, a).Some?
          && Preamble(s, TokenEnd(s, a).value, b)
      else Two(s, a, '#', '[') && Preamble(s, GroupEnd(s, a + 2, '[', ']'), b)))
  }

  /** The item starts at the first character that is none of those. */
  lemma {:induction false} ItemStartsAfterThePreamble(s: string, c: nat)
    requires c <= |s|
    ensures var e := ItemStart(s, c);
            && Preamble(s, c, e)
            && (e < |s| ==> !IsSpace(s[e]) && !Two(s, e, '/', '/') && !Two(s, e, '/', '*') && !Two(s, e, '#', '['))
    decreases |s| - c
  {
    hide TokenEnd, GroupEnd;
    if c < |s| {
      if IsSpace(s[c]) {
        ItemStartsAfterThePreamble(s, c + 1);
        assert SkipSpaces(s, c) == SkipSpaces(s, c + 1);
      } else if Two(s, c, '/', '/') || Two(s, c, '/', '*') {
        CommentIsToken(s, c);
        ItemStartsAfterThePreamble(s, TokenEnd(s, c).value);
      } else if Two(s, c, '#', '[') {
        ItemStartsAfterThePreamble(s, GroupEnd(s, c + 2, '[', ']'));
      }
    }
  }

  lemma {:induction false} BodyEndOnGrid(s: string, c: nat, parens: nat, brackets: nat)
    requires c <= |s|
    ensures OnGrid(s, c, BodyEnd(s, c, parens, brackets))
    decreases |s| - c
  {
    hide TokenEnd;
    if c < |s| {
      if TokenEnd(s, c).Some? {
        BodyEndOnGrid(s, Next(s, c), parens, brackets);
      } else if s[c] == '{' && parens == 0 && brackets == 0 {
        GroupEndOnGrid(s, c, c + 1, '{', '}');
      } else if s[c] == ';' && parens == 0 && brackets == 0 {
      } else {
        BodyEndOnGrid(s, c + 1, Deeper('(', ')', s[c], parens), Deeper('[', ']', s[c], brackets));
      }
    }
  }

  // ----- `_cfg_test_markers`

  const ATTRIBUTE := "#[cfg(test)]"

  /** `s.rfind("\n", 0, c) + 1` */
  function LineStart(s: string, c: nat): (p: nat)
    requires c <= |s|
    ensures p <= c && (p == 0 || s[p - 1] == '\n') && forall k :: p <= k < c ==> s[k] != '\n'
  {
    if c == 0 || s[c - 1] == '\n' then c else LineStart(s, c - 1)
  }

  predicate Blank(s: string, from: nat, to: nat)
    requires to <= |s|
  {
    forall k :: from <= k < to ==> IsSpace(s[k])
  }

  function SkipTabs(s: string, c: nat): (e: nat)
    requires c <= |s|
    ensures c <= e <= |s| && forall k :: c <= k < e ==> s[k] == ' ' || s[k] == '\t'
    decreases |s| - c
  {
    if c < |s| && (s[c] == ' ' || s[c] == '\t') then SkipTabs(s, c + 1) else c
  }

  /** The attribute, trailing blanks, and the end of the line or of the text. */
  function MarkerEnd(s: string, c: nat): (r: Option<nat>)
    ensures r.Some? ==> c < r.value <= |s|
  {
    if !At(s, c, ATTRIBUTE) then None
    else
      var t := SkipTabs(s, c + |ATTRIBUTE|);
      if t == |s| then Some(t)
      else if s[t] == '\n' then Some(t + 1)
      else if Two(s, t, '\r', '\n') then Some(t + 2)
      else None
  }

  /** A line-level attribute at `c`: from the start of its line to the end of its line. */
  function MarkerAt(s: string, c: nat): (r: Option<(nat, nat)>)
    requires c < |s|
    ensures r.Some? ==> r.value.0 <= c < r.value.1 <= |s|
  {
    if TokenEnd(s, c).None? && s[c] == '#' && Blank(s, LineStart(s, c), c) && MarkerEnd(s, c).Some?
    then Some((LineStart(s, c), MarkerEnd(s, c).value))
    else None
  }

  /** The text at `c` is the attribute, alone on its line but for blanks, and `end` is past the line's end. */
  ghost predicate AloneOnItsLine(s: string, start: nat, c: nat, end: nat) {
    && start <= c && c + 12 <= end <= |s| && s[c..c + 12] == "#[cfg(test)]"
    && (start == 0 || s[start - 1] == '\n') && (forall k :: start <= k < c ==> IsSpace(s[k]) && s[k] != '\n')
    && exists t: nat :: LineEndsAt(s, c, t, end)
  }

  /** After the attribute at `c`, blanks up to `t`, and there the end of the line or of the text, up to `end`. */
  ghost predicate LineEndsAt(s: string, c: nat, t: nat, end: nat) {
    && c + 12 <= t <= |s| && (forall k :: c + 12 <= k < t ==> s[k] == ' ' || s[k] == '\t')
    && (|| (t == |s| && end == t)
        || (t < |s| && s[t] == '\n' && end == t + 1)
        || (t + 1 < |s| && s[t] == '\r' && s[t + 1] == '\n' && end == t + 2))
  }

  lemma SpellsAttribute(s: string, c: nat)
    ensures At(s, c, ATTRIBUTE) <==> c + 12 <= |s| && s[c..c + 12] == "#[cfg(test)]"
  {
    var lit := "#[cfg(test)]";
    if c + 12 <= |s| {
      var text := s[c..c + 12];
      assert |lit| == 12;
      assert forall k :: 0 <= k < 12 ==> text[k] == s[c + k];
    }
  }

  /** Outside comments and literals, a marker is found exactly there. */
  lemma MarkerAtIff(s: string, c: nat, start: nat, end: nat)
    requires c < |s| && TokenEnd(s, c).None?
    ensures MarkerAt(s, c) == Some((start, end)) <==> AloneOnItsLine(s, start, c, end)
  {
    hide TokenEnd, At;
    SpellsAttribute(s, c);
    if At(s, c, ATTRIBUTE) {
      assert s[c] == s[c..c + 12][0] == '#';
      var t := SkipTabs(s, c + 12);
      TabsEnd(s, c + 12);
      if MarkerEnd(s, c) == Some(end) {
        assert LineEndsAt(s, c, t, end);
      }
    }
  }

  lemma {:induction false} TabsEnd(s: string, c: nat)
    requires c <= |s|
    ensures var t := SkipTabs(s, c); t < |s| ==> s[t] != ' ' && s[t] != '\t'
    decreases |s| - c
  {
    if c < |s| && (s[c] == ' ' || s[c] == '\t') {
      TabsEnd(s, c + 1);
    }
  }

  lemma {:induction false} NoGridInside(s: string, from: nat, c: nat, q: nat)
    requires OnGrid(s, from, c) && OnGrid(s, from, q) && c < q && c < |s|
    ensures Next(s, c) <= q && OnGrid(s, Next(s, c), q)
    decreases |s| - from
  {
    if c != from {
      GridForward(s, Next(s, from), q);
      NoGridInside(s, Next(s, from), c, q);
    } else {
      GridForward(s, Next(s, c), q);
    }
  }

  lemma NothingBetween(s: string, c: nat)
    requires c < |s| && OnGrid(s, 0, c)
    ensures forall q: nat :: c < q < Next(s, c) ==> !OnGrid(s, 0, q)
  {
    forall q: nat | c < q < Next(s, c)
      ensures !OnGrid(s, 0, q)
    {
      if OnGrid(s, 0, q) {
        NoGridInside(s, 0, c, q);
      }
    }
  }

  /** Nothing in a marker but its first character is a hash, and nothing in it starts a token. */
  lemma MarkerCharacter(s: string, c: nat, k: nat)
    requires c < |s| && MarkerAt(s, c).Some? && c <= k < MarkerAt(s, c).value.1
    ensures TokenEnd(s, k).None? && (k > c ==> s[k] != '#')
  {
    hide TokenEnd;
    if k < c + |ATTRIBUTE| {
      assert s[k] == ATTRIBUTE[k - c];
      if s[k] == 'c' {
        assert s[k + 1] == ATTRIBUTE[k + 1 - c];
      }
      PlainCharacter(s, k);
    } else {
      assert IsSpace(s[k]);
      SpaceStartsNoToken(s, k);
    }
  }

  lemma {:induction false} MarkerOnGrid(s: string, c: nat, k: nat)
    requires c < |s| && MarkerAt(s, c).Some? && c <= k <= MarkerAt(s, c).value.1
    ensures OnGrid(s, c, k)
    decreases k
  {
    if k > c {
      MarkerOnGrid(s, c, k - 1);
      MarkerCharacter(s, c, k - 1);
      GridStep(s, c, k - 1);
    }
  }

  lemma MarkerIsPlainText(s: string, c: nat)
    requires c < |s| && MarkerAt(s, c).Some? && OnGrid(s, 0, c)
    ensures OnGrid(s, 0, MarkerAt(s, c).value.1)
    ensures forall q: nat :: c < q < MarkerAt(s, c).value.1 ==> MarkerAt(s, q).None?
  {
    MarkerOnGrid(s, c, MarkerAt(s, c).value.1);
    GridJoins(s, 0, c, MarkerAt(s, c).value.1);
    forall q: nat | c < q < MarkerAt(s, c).value.1
      ensures MarkerAt(s, q).None?
    {
      MarkerCharacter(s, c, q);
    }
  }

  /** The markers a scan standing at `c` still has to find. */
  function MarkersFrom(s: string, c: nat): seq<(nat, nat)>
    requires c <= |s|
    decreases |s| - c
  {
    if c == |s| then []
    else if MarkerAt(s, c).Some? then [MarkerAt(s, c).value] + MarkersFrom(s, MarkerAt(s, c).value.1)
    else MarkersFrom(s, Next(s, c))
  }

  method CfgTestMarkers(source: string) returns (markers: seq<(nat, nat)>)
    ensures markers == MarkersFrom(source, 0)
  {
    hide TokenEnd;
    markers := [];
    var cursor := 0;
    while cursor < |source|
      invariant cursor <= |source|
      invariant markers + MarkersFrom(source, cursor) == MarkersFrom(source, 0)
      decreases |source| - cursor
    {
      var skipped := SkipCommentOrLiteral(source, cursor);
      if skipped.Some? {
        cursor := skipped.value;
      } else {
        var marker := MarkerAt(source, cursor);
        if marker.Some? {
          markers := markers + [marker.value];
          cursor := marker.value.1;
        } else {
          cursor := cursor + 1;
        }
      }
    }
  }

  ghost predicate IsMarker(s: string, c: nat, m: (nat, nat)) {
    c < |s| && OnGrid(s, 0, c) && MarkerAt(s, c) == Some(m)
  }

  /** The markers found from `c` on are exactly the attributes at or after `c` that a scan of the
      whole text visits. */
  lemma {:induction false} MarkersAreTheVisibleAttributes(s: string, c: nat)
    requires c <= |s| && OnGrid(s, 0, c)
    ensures forall m :: m in MarkersFrom(s, c) <==> exists p: nat :: c <= p && IsMarker(s, p, m)
    decreases |s| - c
  {
    hide TokenEnd;
    if c < |s| {
      var next := Next(s, c);
      NothingBetween(s, c);
      GridStep(s, 0, c);
      if MarkerAt(s, c).Some? {
        MarkerIsPlainText(s, c);
        next := MarkerAt(s, c).value.1;
      }
      MarkersAreTheVisibleAttributes(s, next);
      assert forall p: nat, m :: c < p < next ==> !IsMarker(s, p, m);
      forall m
        ensures m in MarkersFrom(s, c) <==> exists p: nat :: c <= p && IsMarker(s, p, m)
      {
        if MarkerAt(s, c) == Some(m) {
          assert IsMarker(s, c, m);
        }
      }
    }
  }

  // ----- the blanking loop of `_strip_test_items`

  /** `k` lies in the range of a marker: from the start of its line to the end of the item it controls. */
  predicate InRange(s: string, m: (nat, nat), k: nat) {
    m.1 <= |s| && m.0 <= k < ItemEnd(s, m.1)
  }

  predicate InRanges(s: string, markers: seq<(nat, nat)>, k: nat) {
    exists m :: m in markers && InRange(s, m, k)
  }

  function Blanked(c: char): char {
    if c == '\r' || c == '\n' then c else ' '
  }

  /** One range of the loop: every character of it but a line break becomes a space. */
  method BlankRange(production: array<char>, start: nat, end: nat)
    requires start <= end <= production.Length
    modifies production
    ensures forall k :: 0 <= k < production.Length ==>
              production[k] == if start <= k < end then Blanked(old(production[k])) else old(production[k])
  {
    for index := start to end
      invariant forall k :: 0 <= k < production.Length ==>
        production[k] == if start <= k < index then Blanked(old(production[k])) else old(production[k])
    {
      if production[index] != '\r' && production[index] != '\n' {
        production[index] := ' ';
      }
    }
  }

  lemma {:induction false} MarkersInBounds(s: string, c: nat)
    requires c <= |s|
    ensures forall m :: m in MarkersFrom(s, c) ==> m.0 < m.1 <= |s|
    decreases |s| - c
  {
    hide TokenEnd;
    if c < |s| {
      MarkersInBounds(s, if MarkerAt(s, c).Some? then MarkerAt(s, c).value.1 else Next(s, c));
    }
  }

  method BlankTestItems(source: string) returns (production: array<char>)
    ensures fresh(production) && production.Length == |source|
    ensures forall k :: 0 <= k < |source| ==>
              production[k] == if InRanges(source, MarkersFrom(source, 0), k) then Blanked(source[k]) else source[k]
  {
    hide ItemEnd, MarkersFrom;
    production := new char[|source|](i requires 0 <= i < |source| => source[i]);
    var markers := CfgTestMarkers(source);
    MarkersInBounds(source, 0);
    for n := 0 to |markers|
      invariant forall k :: 0 <= k < |source| ==>
        production[k] == if InRanges(source, markers[..n], k) then Blanked(source[k]) else source[k]
    {
      var (start, markerEnd) := markers[n];
      assert markers[n] in markers;
      var end := CfgTestItemEnd(source, markerEnd);
      BlankRange(production, start, end);
      assert markers[..n + 1] == markers[..n] + [markers[n]];
      assert forall m :: m in markers[..n + 1] <==> m in markers[..n] || m == markers[n];
      assert forall k :: InRanges(source, markers[..n + 1], k) <==>
          InRanges(source, markers[..n], k) || InRange(source, markers[n], k);
    }
    assert markers[..|markers|] == markers;
  }

  // ----- the two scanners agree

  /** The start of the line of a visited position is visited too, when only whitespace separates them. */
  lemma LineStartOnGrid(s: string, c: nat)
    requires c < |s| && OnGrid(s, 0, c) && Blank(s, LineStart(s, c), c)
    ensures OnGrid(s, 0, LineStart(s, c))
  {
    var p := LineStart(s, c);
    if !OnGrid(s, 0, p) {
      var a := OffGridIsInsideToken(s, 0, p, c);
      TokenShape(s, a);
      assert false;
    }
  }

  /** Every blanked range starts and ends where the scan of the whole file visits. */
  lemma RangesOnTokenBoundaries(s: string, c: nat, m: (nat, nat))
    requires IsMarker(s, c, m)
    ensures m.0 <= c < m.1 <= ItemEnd(s, m.1) <= |s|
    ensures OnGrid(s, 0, m.0) && OnGrid(s, 0, m.1) && OnGrid(s, 0, ItemEnd(s, m.1))
  {
    LineStartOnGrid(s, c);
    MarkerIsPlainText(s, c);
    var b := ItemStart(s, m.1);
    ItemStartOnGrid(s, m.1);
    BodyEndOnGrid(s, b, 0, 0);
    GridJoins(s, 0, m.1, b);
    GridJoins(s, 0, b, ItemEnd(s, m.1));
  }

  /** So no comment or literal is ever cut in half: one the whole-file scan recognises lies entirely
      inside a blanked range or entirely outside it. */
  lemma NoLiteralIsCut(s: string, c: nat, m: (nat, nat), a: nat)
    requires IsMarker(s, c, m)
    requires a < |s| && OnGrid(s, 0, a) && TokenEnd(s, a).Some?
    ensures var e := TokenEnd(s, a).value; var end := ItemEnd(s, m.1);
            e <= m.0 || end <= a || (m.0 <= a && e <= end)
  {
    RangesOnTokenBoundaries(s, c, m);
    NothingBetween(s, a);
  }

  /** What the blanked text says of each character: it is a space when, and only when changed, it
      lies between a visible attribute's line start and its item's end; line breaks all survive. */
  lemma BlankingIsExact(s: string, out: string, k: nat)
    requires |out| == |s| && k < |s|
    requires out[k] == if InRanges(s, MarkersFrom(s, 0), k) then Blanked(s[k]) else s[k]
    ensures (exists c: nat, m: (nat, nat) :: IsMarker(s, c, m) && InRange(s, m, k))
              ==> out[k] == (if s[k] == '\r' || s[k] == '\n' then s[k] else ' ')
    ensures !(exists c: nat, m: (nat, nat) :: IsMarker(s, c, m) && InRange(s, m, k)) ==> out[k] == s[k]
    ensures (s[k] == '\n' <==> out[k] == '\n') && (s[k] == '\r' <==> out[k] == '\r')
  {
    MarkersAreTheVisibleAttributes(s, 0);
    if m :| m in MarkersFrom(s, 0) && InRange(s, m, k) {
      var c: nat :| IsMarker(s, c, m);
    }
  }
}
