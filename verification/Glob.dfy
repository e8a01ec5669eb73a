/**
 Glob matching as the restricted-syntax builder uses it: literal characters,
 `*` and `?` inside a segment, `**` as a whole segment, comma braces, and the
 leading `!` that negates a pattern.  Two facts about it carry every proof of
 the builder: a match starts with the pattern's static prefix, and a pattern
 without magic characters matches exactly itself.
 */
module Glob {

  const MAGIC_CHARACTERS := "*?[]{}!+@()"

  predicate IsMagic(c: char) {
    c in MAGIC_CHARACTERS
  }

  /** The part of a pattern before its first magic character. */
  function StaticPrefix(pattern: string): string {
    if pattern == [] || IsMagic(pattern[0]) then []
    else [pattern[0]] + StaticPrefix(pattern[1..])
  }

  predicate IsLiteralPath(pattern: string) {
    forall i | 0 <= i < |pattern| :: !IsMagic(pattern[i])
  }

  // ---- Brace expansion ----

  /** Position of the first occurrence of `c`, or the length of `s`. */
  function IndexOf(s: string, c: char): (i: nat)
    ensures i <= |s|
    ensures i < |s| ==> s[i] == c
    ensures forall k | 0 <= k < i :: s[k] != c
  {
    if s == [] then 0
    else if s[0] == c then 0
    else 1 + IndexOf(s[1..], c)
  }

  /** Position of the `}` closing a brace already open `depth` levels above `s`. */
  function CloseBrace(s: string, depth: nat): (i: nat)
    ensures i <= |s|
  {
    if s == [] then 0
    else if s[0] == '}' && depth == 0 then 0
    else
      1 + CloseBrace(s[1..], if s[0] == '{' then depth + 1 else if s[0] == '}' then depth - 1 else depth)
  }

  /** Position of the first comma of `s` outside nested braces, or its length. */
  function TopComma(s: string, depth: nat): (i: nat)
    ensures i <= |s|
  {
    if s == [] then 0
    else if s[0] == ',' && depth == 0 then 0
    else
      1 + TopComma(s[1..],
                   if s[0] == '{' then depth + 1 else if s[0] == '}' && depth > 0 then depth - 1 else depth)
  }

  function Alternatives(s: string): (alternatives: seq<string>)
    ensures alternatives != []
    ensures forall i | 0 <= i < |alternatives| :: |alternatives[i]| <= |s|
    decreases |s|
  {
    var comma := TopComma(s, 0);
    if comma == |s| then [s] else [s[..comma]] + Alternatives(s[comma + 1..])
  }

  function Expand(pattern: string): seq<string>
    decreases |pattern|, 1, 0
  {
    var open := IndexOf(pattern, '{');
    if open == |pattern| then [pattern]
    else
      var rest := pattern[open + 1..];
      var close := CloseBrace(rest, 0);
      if close < |rest| && |Alternatives(rest[..close])| >= 2 then
        ExpandEach(pattern[..open], Alternatives(rest[..close]), rest[close + 1..], |pattern|)
      else
        PrependEach(pattern[..open + 1], Expand(rest))
  }

  function ExpandEach(before: string, alternatives: seq<string>, after: string, bound: nat): seq<string>
    requires forall i | 0 <= i < |alternatives| :: |before| + |alternatives[i]| + |after| < bound
    decreases bound, 0, |alternatives|
  {
    if alternatives == [] then []
    else Expand(before + alternatives[0] + after) + ExpandEach(before, alternatives[1..], after, bound)
  }

  function PrependEach(before: string, tails: seq<string>): (whole: seq<string>)
    ensures |whole| == |tails|
    ensures forall i | 0 <= i < |tails| :: whole[i] == before + tails[i]
  {
    if tails == [] then [] else [before + tails[0]] + PrependEach(before, tails[1..])
  }

  // ---- Matching ----

  function SegmentEnd(s: string): (i: nat)
    ensures i <= |s|
  {
    IndexOf(s, '/')
  }

  predicate IsDots(segment: string) {
    segment == "." || segment == ".."
  }

  predicate NoDotSegments(s: string)
    decreases |s|
  {
    var end := SegmentEnd(s);
    !IsDots(s[..end]) && (end < |s| ==> NoDotSegments(s[end + 1..]))
  }

  /** A segment a leading wildcard may stand for: not empty, not `.`, not `..`. */
  predicate WildSegment(s: string) {
    var segment := s[..SegmentEnd(s)];
    segment != "" && !IsDots(segment)
  }

  /** Brace-free matching; `atStart` says a segment begins here. */
  predicate MatchesFrom(p: string, s: string, atStart: bool)
    decreases |p| + |s|
  {
    if p == [] then
      s == []
    else if atStart && p == "**" then
      NoDotSegments(s)
    else if atStart && |p| >= 3 && p[..3] == "**/" then
      var end := SegmentEnd(s);
      MatchesFrom(p[3..], s, true) ||
      (end < |s| && !IsDots(s[..end]) && MatchesFrom(p, s[end + 1..], true))
    else if p[0] == '*' then
      (!atStart || WildSegment(s)) &&
      (MatchesFrom(p[1..], s, false) || (s != [] && s[0] != '/' && MatchesFrom(p, s[1..], false)))
    else if p[0] == '?' then
      (!atStart || WildSegment(s)) && s != [] && s[0] != '/' && MatchesFrom(p[1..], s[1..], false)
    else
      s != [] && s[0] == p[0] && MatchesFrom(p[1..], s[1..], p[0] == '/')
  }

  predicate Matches(path: string, pattern: string)
    decreases |pattern|
  {
    if pattern != [] && pattern[0] == '!' then
      !Matches(path, pattern[1..])
    else
      exists e | e in Expand(pattern) :: MatchesFrom(e, path, true)
  }

  // ---- The two facts the builder relies on ----

  lemma StaticPrefixIsPrefix(pattern: string)
    ensures StaticPrefix(pattern) <= pattern
    ensures forall i | 0 <= i < |StaticPrefix(pattern)| :: !IsMagic(StaticPrefix(pattern)[i])
  {
    if pattern != [] && !IsMagic(pattern[0]) {
      StaticPrefixIsPrefix(pattern[1..]);
    }
  }

  lemma PrependKeepsPrefix(before: string, tails: seq<string>, e: string)
    requires e in PrependEach(before, tails)
    ensures before <= e
  {
  }

  lemma PrefixEndsBefore(pattern: string, prefix: string, c: char)
    requires prefix <= pattern && c !in prefix && IndexOf(pattern, c) < |pattern|
    ensures var i := IndexOf(pattern, c);
            prefix <= pattern[..i] && prefix <= pattern[..i + 1]
  {
    assert forall k | 0 <= k < |prefix| :: prefix[k] == pattern[k] && prefix[k] != c;
  }

  /** Expansion rewrites nothing before the first brace. */
  lemma {:induction false} ExpansionKeepsPrefix(pattern: string, prefix: string, e: string)
    requires prefix <= pattern && '{' !in prefix
    requires e in Expand(pattern)
    ensures prefix <= e
    decreases |pattern|, 1, 0
  {
    hide IndexOf, CloseBrace, Alternatives;
    var open := IndexOf(pattern, '{');
    if open < |pattern| {
      PrefixEndsBefore(pattern, prefix, '{');
      var rest := pattern[open + 1..];
      var close := CloseBrace(rest, 0);
      if close < |rest| && |Alternatives(rest[..close])| >= 2 {
        EachExpansionKeepsPrefix(pattern[..open], Alternatives(rest[..close]), rest[close + 1..], |pattern|, prefix, e);
      } else {
        PrependKeepsPrefix(pattern[..open + 1], Expand(rest), e);
      }
    }
  }

  lemma {:induction false} EachExpansionKeepsPrefix(before: string, alternatives: seq<string>, after: string,
                                                    bound: nat, prefix: string, e: string)
    requires forall i | 0 <= i < |alternatives| :: |before| + |alternatives[i]| + |after| < bound
    requires prefix <= before && '{' !in prefix
    requires e in ExpandEach(before, alternatives, after, bound)
    ensures prefix <= e
    decreases bound, 0, |alternatives|
  {
    var first := before + alternatives[0] + after;
    if e in Expand(first) {
      ExpansionKeepsPrefix(first, prefix, e);
    } else {
      EachExpansionKeepsPrefix(before, alternatives[1..], after, bound, prefix, e);
    }
  }

  lemma {:induction false} PlainPrefixIsKept(prefix: string, p: string, s: string, atStart: bool)
    requires prefix <= p && MatchesFrom(p, s, atStart)
    requires forall i | 0 <= i < |prefix| :: !IsMagic(prefix[i])
    ensures prefix <= s
  {
    if prefix != [] {
      assert !IsMagic(p[0]);
      assert p[0] != '*' && p[0] != '?';
      assert |p| >= 3 ==> p[..3][0] == p[0];
      PlainPrefixIsKept(prefix[1..], p[1..], s[1..], p[0] == '/');
    }
  }

  /** Whatever a pattern matches starts with the pattern's static prefix. */
  lemma MatchStartsWithStaticPrefix(path: string, pattern: string)
    requires Matches(path, pattern)
    ensures StaticPrefix(pattern) <= path
  {
    StaticPrefixIsPrefix(pattern);
    var prefix := StaticPrefix(pattern);
    if prefix != [] {
      assert pattern[0] == prefix[0] && !IsMagic(pattern[0]);
      var e :| e in Expand(pattern) && MatchesFrom(e, path, true);
      ExpansionKeepsPrefix(pattern, prefix, e);
      PlainPrefixIsKept(prefix, e, path, true);
    }
  }

  lemma {:induction false} PlainMatchesItself(p: string, s: string, atStart: bool)
    requires IsLiteralPath(p)
    ensures MatchesFrom(p, s, atStart) <==> p == s
  {
    if p != [] {
      assert !IsMagic(p[0]);
      assert |p| >= 3 ==> p[..3][0] == p[0];
      if s != [] {
        PlainMatchesItself(p[1..], s[1..], p[0] == '/');
      }
    }
  }

  /** A pattern without magic characters matches exactly itself. */
  lemma LiteralMatchesOnlyItself(path: string, pattern: string)
    requires IsLiteralPath(pattern)
    ensures Matches(path, pattern) <==> path == pattern
  {
    assert IndexOf(pattern, '{') == |pattern|;
    assert Expand(pattern) == [pattern];
    PlainMatchesItself(pattern, path, true);
    assert pattern != [] ==> !IsMagic(pattern[0]);
  }
}
