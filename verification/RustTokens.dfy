/**
 Comments and literals of Rust text, as scripts/check_source_quality.py recognises them.

 `SkipCommentOrLiteral` is the cursor code; `TokenEnd` is its value as a function.  The lemmas
 after it say what each branch means without reference to the cursor code: first newline, nested
 block comments, first terminator, first unescaped quote.
 */
module RustTokens {
  import opened Prelude
  import opened Nesting
  import opened Counting

  /** `s.startswith(lit, i)` */
  predicate At(s: string, i: nat, lit: string) {
    i + |lit| <= |s| && forall k :: 0 <= k < |lit| ==> s[i + k] == lit[k]
  }

  /** `s.startswith([a, b], i)` */
  predicate Two(s: string, i: nat, a: char, b: char) {
    i + 1 < |s| && s[i] == a && s[i + 1] == b
  }

  /** `s.find(lit, i)`: the first occurrence at or after `i`. */
  function Find(s: string, i: nat, lit: string): (r: Option<nat>)
    ensures r.Some? ==> i <= r.value && r.value + |lit| <= |s|
    decreases |s| - i
  {
    if At(s, i, lit) then Some(i)
    else if i >= |s| then None
    else Find(s, i + 1, lit)
  }

  lemma {:induction false} FindIsFirst(s: string, i: nat, lit: string)
    ensures var r := Find(s, i, lit);
            && (r.Some? ==> At(s, r.value, lit) && forall q: nat :: i <= q < r.value ==> !At(s, q, lit))
            && (r.None? ==> forall q: nat :: i <= q ==> !At(s, q, lit))
    decreases |s| - i
  {
    if !At(s, i, lit) && i < |s| {
      FindIsFirst(s, i + 1, lit);
    }
  }

  // ----- block comments

  function BlockLexeme(s: string, i: nat): Lexeme {
    if Two(s, i, '/', '*') then Open(i + 2)
    else if Two(s, i, '*', '/') then Close(i + 2)
    else Other(i + 1)
  }

  function BlockLexer(s: string): (lex: Lexer)
    ensures Advances(lex, |s|)
  {
    (i: nat) => BlockLexeme(s, i)
  }

  function BlockEnd(s: string, i: nat): (e: nat)
    requires i <= |s|
    ensures i <= e <= |s|
  {
    Scan(BlockLexer(s), |s|, i, 1)
  }

  // ----- raw strings: (b|c)? r #{0,255} "

  function HashRun(s: string, i: nat): (e: nat)
    requires i <= |s|
    ensures i <= e <= |s| && (e < |s| ==> s[e] != '#')
    decreases |s| - i
  {
    if i < |s| && s[i] == '#' then HashRun(s, i + 1) else i
  }

  /** The opening of a raw string: the position just past its quote, and how many hashes it carries. */
  function RawOpening(s: string, i: nat): (r: Option<(nat, nat)>)
    requires i < |s|
    ensures r.Some? ==> i + 2 <= r.value.0 <= |s| && s[r.value.0 - 1] == '"'
  {
    var p := if s[i] == 'b' || s[i] == 'c' then i + 1 else i;
    if p < |s| && s[p] == 'r' then
      var h := HashRun(s, p + 1);
      if h - (p + 1) <= 255 && h < |s| && s[h] == '"' then Some((h + 1, h - (p + 1))) else None
    else None
  }

  function Hashes(n: nat): (t: string)
    ensures |t| == n && (n > 0 ==> t[n - 1] == '#')
  {
    if n == 0 then "" else Hashes(n - 1) + "#"
  }

  // ----- quoted strings and characters

  /** Where the string whose body starts at `c` ends. */
  function StringEnd(s: string, c: nat): (e: nat)
    requires c <= |s| + 1
    ensures e <= |s| && (c < |s| ==> c < e)
    decreases |s| + 1 - c
  {
    if c >= |s| then |s|
    else if s[c] == '\\' then StringEnd(s, c + 2)
    else if s[c] == '"' then c + 1
    else StringEnd(s, c + 1)
  }

  /** `'x'` or `'\x'`; anything else opened by a quote is a lifetime. */
  function CharEnd(s: string, i: nat): (r: Option<nat>)
    requires i < |s|
    ensures r.Some? ==> i + 1 < r.value <= |s| && s[i] == '\'' && s[r.value - 1] == '\''
  {
    if s[i] != '\'' then None
    else
      var c := if i + 1 < |s| && s[i + 1] == '\\' then i + 3 else i + 2;
      if c < |s| && s[c] == '\'' then Some(c + 1) else None
  }

  /** The comment or literal starting at `i`, if one does: the position just past it. */
  function TokenEnd(s: string, i: nat): (r: Option<nat>)
    requires i < |s|
    ensures r.Some? ==> i < r.value <= |s|
  {
    if Two(s, i, '/', '/') then
      var newline := Find(s, i + 2, "\n");
      Some(if newline.Some? then newline.value else |s|)
    else if Two(s, i, '/', '*') then
      Some(BlockEnd(s, i + 2))
    else
      var raw := RawOpening(s, i);
      if raw.Some? then
        var end := Find(s, raw.value.0, "\"" + Hashes(raw.value.1));
        Some(if end.Some? then end.value + 1 + raw.value.1 else |s|)
      else
        var q := if Two(s, i, 'b', '"') || Two(s, i, 'c', '"') then i + 1 else i;
        if q < |s| && s[q] == '"' then Some(StringEnd(s, q + 1))
        else CharEnd(s, i)
  }

  /** The block-comment loop, entered just past the opener. */
  method SkipBlock(source: string, start: nat) returns (cursor: nat)
    requires start <= |source|
    ensures cursor == BlockEnd(source, start)
  {
    var depth: nat := 1;
    cursor := start;
    while cursor < |source| && depth > 0
      invariant start <= cursor <= |source|
      invariant Scan(BlockLexer(source), |source|, cursor, depth) == BlockEnd(source, start)
      decreases |source| - cursor
    {
      if Two(source, cursor, '/', '*') {
        depth := depth + 1;
        cursor := cursor + 2;
      } else if Two(source, cursor, '*', '/') {
        depth := depth - 1;
        cursor := cursor + 2;
      } else {
        cursor := cursor + 1;
      }
    }
  }

  /** The string loop, entered just past the opening quote. */
  method SkipString(source: string, start: nat) returns (e: nat)
    requires start <= |source|
    ensures e == StringEnd(source, start)
  {
    var cursor := start;
    while cursor < |source|
      invariant start <= cursor <= |source| + 1
      invariant StringEnd(source, cursor) == StringEnd(source, start)
      decreases |source| + 1 - cursor
    {
      if source[cursor] == '\\' {
        cursor := cursor + 2;
      } else if source[cursor] == '"' {
        return cursor + 1;
      } else {
        cursor := cursor + 1;
      }
    }
    return |source|;
  }

  /** The scanner itself. */
  method SkipCommentOrLiteral(source: string, index: nat) returns (r: Option<nat>)
    requires index < |source|
    ensures r == TokenEnd(source, index)
  {
    if Two(source, index, '/', '/') {
      var newline := Find(source, index + 2, "\n");
      return Some(if newline.None? then |source| else newline.value);
    }
    if Two(source, index, '/', '*') {
      var cursor := SkipBlock(source, index + 2);
      return Some(cursor);
    }
    var raw := RawOpening(source, index);
    if raw.Some? {
      var end := Find(source, raw.value.0, "\"" + Hashes(raw.value.1));
      return Some(if end.None? then |source| else end.value + 1 + raw.value.1);
    }
    var quoteIndex := if Two(source, index, 'b', '"') || Two(source, index, 'c', '"') then index + 1 else index;
    if quoteIndex < |source| && source[quoteIndex] == '"' {
      var cursor := SkipString(source, quoteIndex + 1);
      return Some(cursor);
    }
    return CharEnd(source, index);
  }

  // ----- what the branches mean

  /** The number of consecutive backslashes just before `p`, looking back no further than `from`. */
  function Backslashes(s: string, from: nat, p: nat): nat
    requires p <= |s|
    decreases p
  {
    if p > from && s[p - 1] == '\\' then 1 + Backslashes(s, from, p - 1) else 0
  }

  /** A quote closes a string body when an even number of backslashes stands before it. */
  predicate Unescaped(s: string, from: nat, p: nat) {
    p < |s| && s[p] == '"' && Backslashes(s, from, p) % 2 == 0
  }

  lemma {:induction false} BackslashesFromLater(s: string, from: nat, later: nat, p: nat)
    requires from <= later <= p <= |s|
    ensures Backslashes(s, from, p) ==
            if Backslashes(s, later, p) == p - later
            then p - later + Backslashes(s, from, later)
            else Backslashes(s, later, p)
    decreases p
  {
    if p > later {
      BackslashesFromLater(s, from, later, p - 1);
      BackslashesBounded(s, later, p - 1);
    }
  }

  lemma {:induction false} BackslashesBounded(s: string, from: nat, p: nat)
    requires from <= p <= |s|
    ensures Backslashes(s, from, p) <= p - from
    decreases p
  {
    if p > from && s[p - 1] == '\\' {
      BackslashesBounded(s, from, p - 1);
    }
  }

  ghost predicate NoQuoteBefore(s: string, c: nat, p: nat) {
    forall q: nat :: c <= q < p ==> !Unescaped(s, c, q)
  }

  /** Skipping an escape, or a character that is not a backslash, changes no later verdict. */
  lemma UnescapedShift(s: string, c: nat, next: nat, p: nat)
    requires c < next <= p < |s|
    requires next == if s[c] == '\\' then c + 2 else c + 1
    ensures Unescaped(s, c, p) == Unescaped(s, next, p)
  {
    BackslashesFromLater(s, c, next, p);
    if s[c] == '\\' {
      assert Backslashes(s, c, c + 1) == 1;
    } else {
      assert Backslashes(s, c, c + 1) == 0;
    }
  }

  /** A string literal ends just past the first quote that an even number of backslashes precedes,
      or at the end of the text when there is none. */
  lemma {:induction false} StringEndsAtFirstUnescapedQuote(s: string, c: nat)
    requires c <= |s|
    ensures var e := StringEnd(s, c);
            || (e > c && Unescaped(s, c, e - 1) && NoQuoteBefore(s, c, e - 1))
            || (e == |s| && NoQuoteBefore(s, c, |s|))
    decreases |s| - c
  {
    if c < |s| && s[c] != '"' {
      var next := if s[c] == '\\' then c + 2 else c + 1;
      if next <= |s| {
        StringEndsAtFirstUnescapedQuote(s, next);
        forall p: nat | next <= p < |s|
          ensures Unescaped(s, c, p) == Unescaped(s, next, p)
        {
          UnescapedShift(s, c, next, p);
        }
        assert s[c] == '\\' ==> Backslashes(s, c, c + 1) == 1;
      }
    }
  }

  /** A block comment ends just past the closer that matches its opener in the nested grammar, and
      runs to the end of the text when nothing matches it. */
  lemma BlockCommentNests(s: string, i: nat)
    requires i < |s| && Two(s, i, '/', '*')
    ensures forall e: nat :: ClosesAt(BlockLexer(s), |s|, i + 2, e) ==> TokenEnd(s, i) == Some(e)
    ensures TokenEnd(s, i) != Some(|s|) ==> ClosesAt(BlockLexer(s), |s|, i + 2, TokenEnd(s, i).value)
  {
    ScanIsTheMatchingCloser(BlockLexer(s), |s|, i + 2);
  }

  /** Two characters at a time over a comment mark, one over anything else. */
  ghost function BlockWalk(s: string): (next: Walk)
    ensures Walks(next, |s|)
  {
    (p: nat) => if Two(s, p, '/', '*') || Two(s, p, '*', '/') then p + 2 else p + 1
  }

  ghost function MarkAt(s: string, a: char, b: char): nat -> bool {
    (p: nat) => p + 1 < |s| && s[p] == a && s[p + 1] == b
  }

  /** A block comment ends where its closing marks first outnumber the opening marks inside it. */
  lemma BlockCommentEndsAtFirstExcess(s: string, i: nat)
    requires i + 1 < |s| && s[i] == '/' && s[i + 1] == '*'
    ensures TokenEnd(s, i).Some?
    ensures FirstExcess(BlockWalk(s), |s|, MarkAt(s, '/', '*'), MarkAt(s, '*', '/'), i + 2, TokenEnd(s, i).value)
  {
    ScanIsFirstExcess(BlockLexer(s), |s|, BlockWalk(s), MarkAt(s, '/', '*'), MarkAt(s, '*', '/'), i + 2);
  }

  /** A line comment ends before the first newline after its slashes, or at the end of the text. */
  lemma LineCommentEndsAtNewline(s: string, i: nat)
    requires i < |s| && Two(s, i, '/', '/')
    ensures var e := TokenEnd(s, i);
            e.Some? && i + 2 <= e.value && (e.value == |s| || s[e.value] == '\n')
                && forall k :: i + 2 <= k < e.value ==> s[k] != '\n'
  {
    FindIsFirst(s, i + 2, "\n");
    var newline := Find(s, i + 2, "\n");
    if newline.Some? {
      assert s[newline.value + 0] == "\n"[0];
    }
    forall k | i + 2 <= k < TokenEnd(s, i).value
      ensures s[k] != '\n'
    {
      assert !At(s, k, "\n");
    }
  }

  lemma {:induction false} HashRunCounts(s: string, i: nat)
    requires i <= |s|
    ensures forall k :: i <= k < HashRun(s, i) ==> s[k] == '#'
    decreases |s| - i
  {
    if i < |s| && s[i] == '#' {
      HashRunCounts(s, i + 1);
    }
  }

  lemma {:induction false} HashesAreHashes(n: nat)
    ensures forall k :: 0 <= k < n ==> Hashes(n)[k] == '#'
  {
    if n > 0 {
      HashesAreHashes(n - 1);
    }
  }

  /** `e` is just past a quote followed by `hashes` hashes. */
  ghost predicate Terminates(s: string, e: nat, hashes: nat) {
    hashes < e <= |s| && s[e - hashes - 1] == '"' && forall k :: e - hashes <= k < e ==> s[k] == '#'
  }

  /** A raw string ends just past the first quote that as many hashes follow as its opening carries. */
  lemma RawStringEndsAtTerminator(s: string, i: nat)
    requires i < |s| && !Two(s, i, '/', '/') && !Two(s, i, '/', '*') && RawOpening(s, i).Some?
    ensures var (body, hashes) := RawOpening(s, i).value; var e := TokenEnd(s, i);
            e.Some? && (e.value == |s| || Terminates(s, e.value, hashes))
            && forall k :: body + hashes < k < e.value ==> !Terminates(s, k, hashes)
  {
    var (body, hashes) := RawOpening(s, i).value;
    var t := "\"" + Hashes(hashes);
    var e := TokenEnd(s, i).value;
    FindIsFirst(s, body, t);
    HashesAreHashes(hashes);
    assert t[0] == '"' && forall k :: 0 < k < |t| ==> t[k] == '#';
    var end := Find(s, body, t);
    if end.Some? {
      assert s[end.value + 0] == t[0];
      forall k | e - hashes <= k < e
        ensures s[k] == '#'
      {
        var j := k - end.value;
        assert s[end.value + j] == t[j];
      }
    }
    forall k | body + hashes < k < e
      ensures !Terminates(s, k, hashes)
    {
      if Terminates(s, k, hashes) {
        assert At(s, k - hashes - 1, t);
      }
    }
  }

  /** A quote opens a character literal exactly when it closes after one character, or after an escape;
      otherwise it is a lifetime, and no token at all. */
  lemma CharLiteralOrLifetime(s: string, i: nat)
    requires i < |s| && s[i] == '\''
    ensures TokenEnd(s, i) == if i + 3 < |s| && s[i + 1] == '\\' && s[i + 3] == '\'' then Some(i + 4)
                              else if i + 2 < |s| && s[i + 1] != '\\' && s[i + 2] == '\'' then Some(i + 3)
                              else None
  {
  }

  /** A quote, bare or after a `b` or `c`, opens a string that ends at its first unescaped quote. */
  lemma StringLiteralSpan(s: string, i: nat)
    requires i < |s| && (s[i] == '"' || Two(s, i, 'b', '"') || Two(s, i, 'c', '"'))
    ensures var body := if s[i] == '"' then i + 1 else i + 2; var e := TokenEnd(s, i);
            && e.Some? && body <= e.value
            && (|| (e.value > body && Unescaped(s, body, e.value - 1) && NoQuoteBefore(s, body, e.value - 1))
                || (e.value == |s| && NoQuoteBefore(s, body, |s|)))
  {
    hide Unescaped, NoQuoteBefore;
    StringEndsAtFirstUnescapedQuote(s, if s[i] == '"' then i + 1 else i + 2);
  }

  /** The text at `i` is an optional `b` or `c`, an `r`, exactly `hashes` hashes, and a quote. */
  predicate OpensRaw(s: string, i: nat, hashes: nat) {
    i < |s| &&
    var p := if s[i] == 'b' || s[i] == 'c' then i + 1 else i;
    && p + hashes + 1 < |s| && s[p] == 'r' && s[p + hashes + 1] == '"'
    && forall k :: p < k <= p + hashes ==> s[k] == '#'
  }

  /** A raw string opens with at most 255 hashes, and carries as many as stand before its quote. */
  lemma RawOpeningIff(s: string, i: nat, hashes: nat)
    requires i < |s|
    ensures RawOpening(s, i).Some? && RawOpening(s, i).value.1 == hashes <==> hashes <= 255 && OpensRaw(s, i, hashes)
    ensures OpensRaw(s, i, hashes) && hashes <= 255 ==>
              RawOpening(s, i).value.0 == if s[i] == 'r' then i + hashes + 2 else i + hashes + 3
  {
    var p := if s[i] == 'b' || s[i] == 'c' then i + 1 else i;
    if p < |s| && s[p] == 'r' {
      HashRunCounts(s, p + 1);
      if OpensRaw(s, i, hashes) {
        assert s[p + hashes + 1] != '#';
        var h := HashRun(s, p + 1);
        assert h == |s| || s[h] != '#';
      }
    }
  }

  lemma RawStringShape(s: string, i: nat)
    requires i < |s| && !Two(s, i, '/', '/') && !Two(s, i, '/', '*') && RawOpening(s, i).Some?
    requires TokenEnd(s, i).value < |s|
    ensures s[TokenEnd(s, i).value - 1] in "\"#"
  {
    var hashes := RawOpening(s, i).value.1;
    var t := "\"" + Hashes(hashes);
    var end := Find(s, RawOpening(s, i).value.0, t);
    FindIsFirst(s, RawOpening(s, i).value.0, t);
    if end.Some? {
      assert s[end.value + hashes] == t[hashes];
    }
  }

  /** Only six characters can start a token, and a bare letter only with a quote or an `r` after it. */
  lemma PlainCharacter(s: string, i: nat)
    requires i < |s| && s[i] != '/' && s[i] != '"' && s[i] != '\'' && s[i] != 'r'
    requires (s[i] == 'b' || s[i] == 'c') && i + 1 < |s| ==> s[i + 1] != '"' && s[i + 1] != 'r'
    ensures TokenEnd(s, i).None?
  {
  }

  lemma CommentIsToken(s: string, i: nat)
    requires Two(s, i, '/', '/') || Two(s, i, '/', '*')
    ensures TokenEnd(s, i).Some?
  {
  }

  /** No token starts with whitespace; a token that ends before the end of the text either ends with
      a character that is not whitespace, or is a line comment and holds no newline. */
  lemma TokenShape(s: string, i: nat)
    requires i < |s| && TokenEnd(s, i).Some?
    ensures !IsSpace(s[i])
    ensures var e := TokenEnd(s, i).value;
            e == |s| || !IsSpace(s[e - 1]) || '\n' !in s[i..e]
  {
    var e := TokenEnd(s, i).value;
    if e < |s| {
      if Two(s, i, '/', '/') {
        LineCommentEndsAtNewline(s, i);
      } else if Two(s, i, '/', '*') {
        var k := ScanStopsAfterCloser(BlockLexer(s), |s|, i + 2, 1);
      } else if RawOpening(s, i).Some? {
        RawStringShape(s, i);
      } else if Two(s, i, 'b', '"') || Two(s, i, 'c', '"') {
        StringEndsWithQuote(s, i + 2);
      } else if s[i] == '"' {
        StringEndsWithQuote(s, i + 1);
      }
    }
  }

  lemma {:induction false} StringEndsWithQuote(s: string, c: nat)
    requires c <= |s| + 1 && StringEnd(s, c) < |s|
    ensures StringEnd(s, c) > 0 && s[StringEnd(s, c) - 1] == '"'
    decreases |s| + 1 - c
  {
    if s[c] == '\\' {
      StringEndsWithQuote(s, c + 2);
    } else if s[c] != '"' {
      StringEndsWithQuote(s, c + 1);
    }
  }

  /** A character literal: one character, or an escape, between single quotes. */
  predicate IsCharLiteral(s: string, i: nat) {
    || (i + 3 < |s| && s[i] == '\'' && s[i + 1] == '\\' && s[i + 3] == '\'')
    || (i + 2 < |s| && s[i] == '\'' && s[i + 1] != '\\' && s[i + 2] == '\'')
  }

  /** Nothing else is a token. */
  lemma TokenStartsIff(s: string, i: nat)
    requires i < |s|
    ensures TokenEnd(s, i).Some? <==>
              || (i + 1 < |s| && s[i] == '/' && (s[i + 1] == '/' || s[i + 1] == '*'))
              || (exists hashes: nat :: hashes <= 255 && OpensRaw(s, i, hashes))
              || s[i] == '"' || (i + 1 < |s| && (s[i] == 'b' || s[i] == 'c') && s[i + 1] == '"')
              || IsCharLiteral(s, i)
  {
    if RawOpening(s, i).Some? {
      RawOpeningIff(s, i, RawOpening(s, i).value.1);
    }
    if hashes: nat :| hashes <= 255 && OpensRaw(s, i, hashes) {
      RawOpeningIff(s, i, hashes);
    }
  }
}
