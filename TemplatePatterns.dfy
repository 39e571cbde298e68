/**
 * The two line patterns of the control-block balance checker
 * (tools/analyze_template.py), written as string predicates.
 *
 *   open pattern:  @(if|for|switch|case|empty|else)\b\s*(\([^\)]*\))?\s*\{   searched anywhere
 *   close pattern: ^\s*\}\s*(?:@else|@empty|@case)?                           at the start of the line
 *
 * Each pattern is given twice: as a deterministic matcher (what the checker
 * evaluates) and as a declarative description of the regular language it
 * accepts; the matcher's contract ties the two together.
 */
module TemplatePatterns {

  datatype Option<+T> = None | Some(value: T)

  /** The six control-flow directives that the open pattern recognises. */
  datatype Keyword = If | For | Switch | Case | Empty | Else

  /** The number of characters of the text of a directive. */
  function NameLength(k: Keyword): nat
  {
    match k
    case If => 2
    case For => 3
    case Switch => 6
    case Case => 4
    case Empty => 5
    case Else => 4
  }

  /**
   * Character i of the text of a directive (for i below its length): the texts are
   * `if`, `for`, `switch`, `case`, `empty` and `else`.
   */
  function NameChar(k: Keyword, i: nat): char
  {
    match k
    case If => if i == 0 then 'i' else 'f'
    case For => if i == 0 then 'f' else if i == 1 then 'o' else 'r'
    case Switch =>
      if i == 0 then 's' else if i == 1 then 'w' else if i == 2 then 'i'
      else if i == 3 then 't' else if i == 4 then 'c' else 'h'
    case Case => if i == 0 then 'c' else if i == 1 then 'a' else if i == 2 then 's' else 'e'
    case Empty => if i == 0 then 'e' else if i == 1 then 'm' else if i == 2 then 'p' else if i == 3 then 't' else 'y'
    case Else => if i == 0 then 'e' else if i == 1 then 'l' else if i == 2 then 's' else 'e'
  }

  /** `\s` of a Python `str` pattern: exactly the characters for which `str.isspace()` holds. */
  predicate IsSpace(c: char)
  {
    ('\t' <= c <= '\r') || ('\U{1C}' <= c <= '\U{1F}') || c == ' ' ||
    c == '\U{85}' || c == '\U{A0}' || c == '\U{1680}' ||
    ('\U{2000}' <= c <= '\U{200A}') || c == '\U{2028}' || c == '\U{2029}' ||
    c == '\U{202F}' || c == '\U{205F}' || c == '\U{3000}'
  }

  /** A word character for `\b`, restricted to ASCII (letters, digits, underscore). */
  predicate IsWordChar(c: char)
  {
    ('a' <= c <= 'z') || ('A' <= c <= 'Z') || ('0' <= c <= '9') || c == '_'
  }

  /** Every character of s[i..j] is whitespace. */
  predicate AllSpace(s: string, i: nat, j: nat)
    requires i <= j <= |s|
  {
    forall k :: i <= k < j ==> IsSpace(s[k])
  }

  /** No character of s[i..j] is a closing parenthesis (the class `[^\)]`). */
  predicate NoCloseParen(s: string, i: nat, j: nat)
    requires i <= j <= |s|
  {
    forall k :: i <= k < j ==> s[k] != ')'
  }

  /** The greedy `\s*` starting at i: the first position at or after i that is not whitespace. */
  function SkipSpaces(s: string, i: nat): (j: nat)
    requires i <= |s|
    ensures i <= j <= |s|
    ensures AllSpace(s, i, j)
    ensures j == |s| || !IsSpace(s[j])
    decreases |s| - i
  {
    if i == |s| || !IsSpace(s[i]) then i else SkipSpaces(s, i + 1)
  }

  /** `[^\)]*\)` starting at i: the position of the first `)` at or after i, if any. */
  function FindCloseParen(s: string, i: nat): (r: Option<nat>)
    requires i <= |s|
    ensures r.Some? ==> i <= r.value < |s| && s[r.value] == ')' && NoCloseParen(s, i, r.value)
    ensures r.None? ==> NoCloseParen(s, i, |s|)
    decreases |s| - i
  {
    if i == |s| then None
    else if s[i] == ')' then Some(i)
    else FindCloseParen(s, i + 1)
  }

  // ---------------------------------------------------------------------------
  // The open pattern
  // ---------------------------------------------------------------------------

  /** `k\b` matches at p: the text of k starts at p and is not followed by a word character. */
  predicate NameAt(s: string, p: nat, k: Keyword)
  {
    var n := NameLength(k);
    p + n <= |s| && (forall i :: 0 <= i < n ==> s[p + i] == NameChar(k, i)) &&
    (p + n == |s| || !IsWordChar(s[p + n]))
  }

  /** No directive name is a prefix of another, so at most one `k\b` matches at a position. */
  lemma NameAtUnique(s: string, p: nat, k1: Keyword, k2: Keyword)
    requires NameAt(s, p, k1) && NameAt(s, p, k2)
    ensures k1 == k2
  {
    assert s[p] == NameChar(k1, 0) == NameChar(k2, 0);
    assert s[p + 1] == NameChar(k1, 1) == NameChar(k2, 1);
  }

  /** The alternation `(if|for|switch|case|empty|else)\b` tried at p, alternatives in source order. */
  function KeywordAt(s: string, p: nat): Option<Keyword>
  {
    if NameAt(s, p, If) then Some(If)
    else if NameAt(s, p, For) then Some(For)
    else if NameAt(s, p, Switch) then Some(Switch)
    else if NameAt(s, p, Case) then Some(Case)
    else if NameAt(s, p, Empty) then Some(Empty)
    else if NameAt(s, p, Else) then Some(Else)
    else None
  }

  lemma KeywordAtSpec(s: string, p: nat)
    ensures forall k :: KeywordAt(s, p) == Some(k) <==> NameAt(s, p, k)
  {
    var r := KeywordAt(s, p);
    KeywordAtSound(s, p);
    forall k | NameAt(s, p, k) ensures r == Some(k) {
      KeywordAtFinds(s, p, k);
      NameAtUnique(s, p, r.value, k);
    }
  }

  lemma KeywordAtSound(s: string, p: nat)
    ensures KeywordAt(s, p).Some? ==> NameAt(s, p, KeywordAt(s, p).value)
  {
  }

  lemma KeywordAtFinds(s: string, p: nat, k: Keyword)
    requires NameAt(s, p, k)
    ensures KeywordAt(s, p).Some?
  {
  }

  /**
   * The regular language `\s*(\([^\)]*\))?\s*\{` holds of s[q..e]: blanks then `{`,
   * or blanks, a parenthesised group without `)` inside, blanks, then `{`.
   */
  ghost predicate TailSpan(s: string, q: nat, e: nat)
  {
    q < e <= |s| && s[e - 1] == '{' &&
    (AllSpace(s, q, e - 1) || exists a: nat, b: nat :: GroupSpan(s, q, a, b, e))
  }

  /** The blanks, the group s[a..b+1] and the blanks again of a tail span s[q..e] that has the group. */
  ghost predicate GroupSpan(s: string, q: nat, a: nat, b: nat, e: nat)
  {
    q <= a < b < e - 1 && e <= |s| && AllSpace(s, q, a) && s[a] == '(' &&
    NoCloseParen(s, a + 1, b) && s[b] == ')' && AllSpace(s, b + 1, e - 1)
  }

  /** Some prefix of s[q..] belongs to the tail language (the regex does not anchor its end). */
  ghost predicate TailMatches(s: string, q: nat)
  {
    exists e: nat :: TailSpan(s, q, e)
  }

  /** A `\s*` run ending at the end of the line or just before a non-blank character is the one SkipSpaces finds. */
  lemma SkipSpacesExact(s: string, i: nat, j: nat)
    requires i <= j <= |s| && AllSpace(s, i, j) && (j == |s| || !IsSpace(s[j]))
    ensures SkipSpaces(s, i) == j
  {
  }

  /** A `[^\)]*\)` run is the one FindCloseParen finds. */
  lemma FindCloseParenExact(s: string, i: nat, j: nat)
    requires i <= j < |s| && NoCloseParen(s, i, j) && s[j] == ')'
    ensures FindCloseParen(s, i) == Some(j)
  {
  }

  /**
   * The tail of the open pattern, `\s*(\([^\)]*\))?\s*\{`, evaluated from position q:
   * the end of the span it matches, if it matches. The optional group is taken
   * greedily; without it the next non-blank character would have to be `{`.
   */
  function TailEnd(s: string, q: nat): Option<nat>
    requires q <= |s|
  {
    var j := SkipSpaces(s, q);
    if j == |s| then None
    else if s[j] == '{' then Some(j + 1)
    else if s[j] == '(' then
      match FindCloseParen(s, j + 1)
      case None => None
      case Some(c) =>
        var e := SkipSpaces(s, c + 1);
        if e < |s| && s[e] == '{' then Some(e + 1) else None
    else None
  }

  /** The matcher only reports spans of the tail language. */
  lemma TailEndSound(s: string, q: nat)
    requires q <= |s|
    ensures TailEnd(s, q).Some? ==> TailSpan(s, q, TailEnd(s, q).value)
  {
    var j := SkipSpaces(s, q);
    if TailEnd(s, q).Some? && s[j] == '(' {
      var c := FindCloseParen(s, j + 1).value;
      var e := SkipSpaces(s, c + 1);
      assert GroupSpan(s, q, j, c, e + 1);
    }
  }

  /** A tail span without the parenthesised group is found by the deterministic matcher. */
  lemma TailEndNoGroup(s: string, q: nat, e: nat)
    requires q < e <= |s| && s[e - 1] == '{' && AllSpace(s, q, e - 1)
    ensures TailEnd(s, q) == Some(e)
  {
    SkipSpacesExact(s, q, e - 1);
  }

  /** A tail span with the group s[a..b+1] is found by the deterministic matcher. */
  lemma TailEndGroup(s: string, q: nat, a: nat, b: nat, e: nat)
    requires q <= a < b < e - 1 && e <= |s| && s[e - 1] == '{'
    requires AllSpace(s, q, a) && s[a] == '(' && NoCloseParen(s, a + 1, b) && s[b] == ')'
    requires AllSpace(s, b + 1, e - 1)
    ensures TailEnd(s, q) == Some(e)
  {
    SkipSpacesExact(s, q, a);
    FindCloseParenExact(s, a + 1, b);
    SkipSpacesExact(s, b + 1, e - 1);
  }

  /** Any span of the tail language is found by the deterministic matcher. */
  lemma TailEndComplete(s: string, q: nat)
    requires q <= |s|
    ensures TailMatches(s, q) <==> TailEnd(s, q).Some?
  {
    TailEndSound(s, q);
    if TailMatches(s, q) {
      var e: nat :| TailSpan(s, q, e);
      if AllSpace(s, q, e - 1) {
        TailEndNoGroup(s, q, e);
      } else {
        var a: nat, b: nat :| GroupSpan(s, q, a, b, e);
        TailEndGroup(s, q, a, b, e);
      }
    }
  }

  /** The whole open pattern matches at position p, naming directive k. */
  ghost predicate OpenSpan(s: string, p: nat, k: Keyword)
  {
    p < |s| && s[p] == '@' && NameAt(s, p + 1, k) && TailMatches(s, p + 1 + NameLength(k))
  }

  /** The open pattern tried at position p, as `re.search` tries each start position. */
  function OpenAt(s: string, p: nat): Option<Keyword>
  {
    if p < |s| && s[p] == '@' then
      match KeywordAt(s, p + 1)
      case Some(k) => if TailEnd(s, p + 1 + NameLength(k)).Some? then Some(k) else None
      case None => None
    else None
  }

  /** Trying the pattern at p finds directive k exactly when the whole pattern matches there naming k. */
  lemma OpenAtSpec(s: string, p: nat)
    ensures forall k :: OpenAt(s, p) == Some(k) <==> OpenSpan(s, p, k)
  {
    OpenAtSound(s, p);
    forall k | OpenSpan(s, p, k) ensures OpenAt(s, p) == Some(k) {
      OpenAtFinds(s, p, k);
    }
  }

  lemma OpenAtSound(s: string, p: nat)
    ensures OpenAt(s, p).Some? ==> OpenSpan(s, p, OpenAt(s, p).value)
  {
    if OpenAt(s, p).Some? {
      var k := KeywordAt(s, p + 1).value;
      KeywordAtSound(s, p + 1);
      TailEndComplete(s, p + 1 + NameLength(k));
    }
  }

  lemma OpenAtFinds(s: string, p: nat, k: Keyword)
    requires OpenSpan(s, p, k)
    ensures OpenAt(s, p) == Some(k)
  {
    KeywordAtFinds(s, p + 1, k);
    KeywordAtSound(s, p + 1);
    NameAtUnique(s, p + 1, KeywordAt(s, p + 1).value, k);
    TailEndComplete(s, p + 1 + NameLength(k));
  }

  /**
   * In a match, the character right after the directive name is a blank, `(` or `{`.
   * None of these is a word character, whether `\b` uses the ASCII or the Unicode
   * word set, so the choice of word set never changes whether the pattern matches.
   */
  lemma AfterNameNotWord(s: string, p: nat, k: Keyword)
    requires OpenSpan(s, p, k)
    ensures var q := p + 1 + NameLength(k); q < |s| && (IsSpace(s[q]) || s[q] == '(' || s[q] == '{')
  {
    var q := p + 1 + NameLength(k);
    var e: nat :| TailSpan(s, q, e);
    if !AllSpace(s, q, e - 1) {
      var a: nat, b: nat :| GroupSpan(s, q, a, b, e);
    }
  }

  /** The outcome of trying the open pattern at each start position of the line, left to right. */
  function Attempts(s: string): seq<Option<Keyword>>
  {
    seq(|s|, p requires 0 <= p < |s| => OpenAt(s, p))
  }

  /** The first successful attempt at or after position i, with its position: how `re.search` picks its match. */
  function FirstMatch(attempts: seq<Option<Keyword>>, i: nat): Option<(nat, Keyword)>
    requires i <= |attempts|
    decreases |attempts| - i
  {
    if i == |attempts| then None
    else match attempts[i]
      case Some(k) => Some((i, k))
      case None => FirstMatch(attempts, i + 1)
  }

  /** The search returns the leftmost successful attempt at or after i, or reports that there is none. */
  lemma {:induction false} FirstMatchSpec(attempts: seq<Option<Keyword>>, i: nat)
    requires i <= |attempts|
    ensures var r := FirstMatch(attempts, i);
      && (r.Some? ==> i <= r.value.0 < |attempts| && attempts[r.value.0] == Some(r.value.1))
      && (r.Some? ==> forall p :: i <= p < r.value.0 ==> attempts[p].None?)
      && (r.None? ==> forall p :: i <= p < |attempts| ==> attempts[p].None?)
    decreases |attempts| - i
  {
    if i < |attempts| && attempts[i].None? {
      FirstMatchSpec(attempts, i + 1);
    }
  }

  /** The directive named by the leftmost match of the open pattern in a line (`m.group(1)`), if any. */
  function OpenMatch(s: string): Option<Keyword>
  {
    match FirstMatch(Attempts(s), 0)
    case Some(m) => Some(m.1)
    case None => None
  }

  /**
   * A line has an open match exactly when the pattern matches somewhere in it; the
   * directive reported is the one of the leftmost match.
   */
  lemma OpenMatchSpec(s: string)
    ensures OpenMatch(s).None? <==> forall p: nat, k :: !OpenSpan(s, p, k)
    ensures OpenMatch(s).Some? ==>
      exists p: nat :: OpenSpan(s, p, OpenMatch(s).value) && forall q: nat, k :: q < p ==> !OpenSpan(s, q, k)
  {
    var a := Attempts(s);
    FirstMatchSpec(a, 0);
    forall p: nat, k ensures OpenSpan(s, p, k) <==> p < |a| && a[p] == Some(k) {
      OpenAtSpec(s, p);
    }
    if OpenMatch(s).Some? {
      var p := FirstMatch(a, 0).value.0;
      assert OpenSpan(s, p, OpenMatch(s).value);
    }
  }

  /** Whatever the leftmost matching position is, the directive reported is the one found there. */
  lemma OpenMatchLeftmost(s: string, p: nat, k: Keyword)
    requires OpenSpan(s, p, k)
    requires forall q: nat, k' :: q < p ==> !OpenSpan(s, q, k')
    ensures OpenMatch(s) == Some(k)
  {
    OpenMatchSpec(s);
    var r := OpenMatch(s).value;
    var p' :| OpenSpan(s, p', r) && forall q: nat, k' :: q < p' ==> !OpenSpan(s, q, k');
    assert p == p';
    OpenAtSpec(s, p);
  }

  // ---------------------------------------------------------------------------
  // Shapes of directive lines
  // ---------------------------------------------------------------------------

  /** `@k`, blanks and `{` from position p: the pattern matches there, naming k. */
  lemma OpenPlain(s: string, p: nat, k: Keyword, e: nat)
    requires p < |s| && s[p] == '@' && NameAt(s, p + 1, k)
    requires p + 1 + NameLength(k) < e <= |s| && s[e - 1] == '{' && AllSpace(s, p + 1 + NameLength(k), e - 1)
    ensures OpenSpan(s, p, k)
  {
    assert TailSpan(s, p + 1 + NameLength(k), e);
  }

  /** `@k`, blanks, a group `(...)` without `)` inside, blanks and `{` from position p: the pattern matches there, naming k. */
  lemma OpenGrouped(s: string, p: nat, k: Keyword, a: nat, b: nat, e: nat)
    requires p < |s| && s[p] == '@' && NameAt(s, p + 1, k)
    requires GroupSpan(s, p + 1 + NameLength(k), a, b, e) && s[e - 1] == '{'
    ensures OpenSpan(s, p, k)
  {
    assert TailSpan(s, p + 1 + NameLength(k), e);
  }

  /** Blanks followed by the end of the line or by a character that is neither `(` nor `{`: no tail span starts at q. */
  lemma TailBlockedAfterBlanks(s: string, q: nat, j: nat)
    requires q <= j <= |s| && AllSpace(s, q, j)
    requires j == |s| || (!IsSpace(s[j]) && s[j] != '(' && s[j] != '{')
    ensures !TailMatches(s, q)
  {
    SkipSpacesExact(s, q, j);
    assert TailEnd(s, q) == None;
    TailEndComplete(s, q);
  }

  /**
   * Blanks and a group that ends at the first `)`, followed by the end of the line or by
   * a character that is neither blank nor `{`: no tail span starts at q.
   */
  lemma TailBlockedAfterGroup(s: string, q: nat, a: nat, b: nat, j: nat)
    requires q <= a < b < j <= |s| && AllSpace(s, q, a)
    requires s[a] == '(' && NoCloseParen(s, a + 1, b) && s[b] == ')' && AllSpace(s, b + 1, j)
    requires j == |s| || (!IsSpace(s[j]) && s[j] != '{')
    ensures !TailMatches(s, q)
  {
    SkipSpacesExact(s, q, a);
    FindCloseParenExact(s, a + 1, b);
    SkipSpacesExact(s, b + 1, j);
    assert TailEnd(s, q) == None;
    TailEndComplete(s, q);
  }

  /** When `@k` is found at p but no tail span follows it, the pattern does not match at p. */
  lemma OpenBlocked(s: string, p: nat, k: Keyword)
    requires NameAt(s, p + 1, k) && !TailMatches(s, p + 1 + NameLength(k))
    ensures forall k' :: !OpenSpan(s, p, k')
  {
    var n := p + 1;
    forall k' | NameAt(s, n, k') ensures k' == k {
      NameAtUnique(s, n, k, k');
    }
  }

  /** When the pattern matches at the first `@` of a line, that match is the line's open match. */
  lemma OpenMatchAtFirstAt(s: string, p: nat, k: Keyword)
    requires OpenSpan(s, p, k)
    requires forall q :: 0 <= q < p ==> s[q] != '@'
    ensures OpenMatch(s) == Some(k)
  {
    OpenMatchLeftmost(s, p, k);
  }

  /** When the pattern matches at none of the `@` of a line, the line has no open match. */
  lemma OpenMatchNone(s: string)
    requires forall q :: 0 <= q < |s| && s[q] == '@' ==> forall k :: !OpenSpan(s, q, k)
    ensures OpenMatch(s) == None
  {
    OpenMatchSpec(s);
  }

  // ---------------------------------------------------------------------------
  // The close pattern
  // ---------------------------------------------------------------------------

  /** `^\s*\}` holds of s with the `}` at position n. */
  ghost predicate CloseSpan(s: string, n: nat)
  {
    n < |s| && s[n] == '}' && AllSpace(s, 0, n)
  }

  /**
   * The close pattern: the first non-blank character of the line is `}`. The optional
   * `\s*(?:@else|@empty|@case)?` suffix can always match the empty string, so it never decides.
   */
  function IsCloser(s: string): bool
  {
    var j := SkipSpaces(s, 0);
    j < |s| && s[j] == '}'
  }

  /** A line is a closer exactly when `^\s*\}` matches it. */
  lemma IsCloserSpec(s: string)
    ensures IsCloser(s) <==> exists n: nat :: CloseSpan(s, n)
  {
    var j := SkipSpaces(s, 0);
    if j < |s| && s[j] == '}' {
      assert CloseSpan(s, j);
    } else {
      forall n: nat | CloseSpan(s, n) ensures false {
        SkipSpacesExact(s, 0, n);
      }
    }
  }

  /** Whatever follows the leading blanks and `}` does not affect whether a line is a closer. */
  lemma CloserIgnoresSuffix(blanks: string, rest: string)
    requires AllSpace(blanks, 0, |blanks|)
    ensures IsCloser(blanks + "}" + rest)
  {
    var s := blanks + "}" + rest;
    IsCloserSpec(s);
    assert CloseSpan(s, |blanks|);
  }

  /** A line whose first non-blank character is not `}` is never a closer, whatever follows it. */
  lemma NonCloserFirstChar(blanks: string, c: char, rest: string)
    requires AllSpace(blanks, 0, |blanks|) && !IsSpace(c) && c != '}'
    ensures !IsCloser(blanks + [c] + rest)
  {
    var s := blanks + [c] + rest;
    IsCloserSpec(s);
    assert s[|blanks|] == c;
    assert forall n: nat :: n < |blanks| ==> s[n] == blanks[n];
  }
}
