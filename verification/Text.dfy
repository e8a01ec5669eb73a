/** The string operations that several parts of the harness share. */
module Text {

  function LowerChar(c: char): char {
    if 'A' <= c <= 'Z' then c - 'A' + 'a' else c
  }

  function Lower(s: string): (lower: string)
    ensures |lower| == |s|
    ensures forall i | 0 <= i < |s| :: lower[i] == LowerChar(s[i])
  {
    if s == [] then [] else [LowerChar(s[0])] + Lower(s[1..])
  }

  /** The pieces of `s` between separators; a run of separators only adds empty pieces. */
  function Pieces(s: string, separates: char -> bool): (pieces: seq<string>)
    ensures pieces != []
  {
    if s == [] then [""]
    else if separates(s[0]) then [""] + Pieces(s[1..], separates)
    else
      var rest := Pieces(s[1..], separates);
      [[s[0]] + rest[0]] + rest[1..]
  }

  // ---- White space ----

  predicate IsBlank(c: char) {
    c in "\t\n\r \U{B}\U{C}\U{A0}\U{1680}\U{2028}\U{2029}\U{202F}\U{205F}\U{3000}\U{FEFF}" ||
    '\U{2000}' <= c <= '\U{200A}'
  }

  predicate AllBlank(s: string) {
    forall c | c in s :: IsBlank(c)
  }

  function TrimStart(s: string): string {
    if s != "" && IsBlank(s[0]) then TrimStart(s[1..]) else s
  }

  function TrimEnd(s: string): string {
    if s != "" && IsBlank(s[|s| - 1]) then TrimEnd(s[..|s| - 1]) else s
  }

  function Trim(s: string): string {
    TrimEnd(TrimStart(s))
  }

  // ---- Substrings ----

  predicate OccursAt(part: string, s: string, i: nat) {
    i + |part| <= |s| && s[i..i + |part|] == part
  }

  /** `String.prototype.includes`. */
  predicate IsSubstring(part: string, s: string) {
    exists i: nat | i <= |s| :: OccursAt(part, s, i)
  }

  lemma SubstringAt(part: string, s: string, i: nat)
    requires OccursAt(part, s, i)
    ensures IsSubstring(part, s)
  {
  }

  lemma SubstringShift(part: string, c: char, s: string)
    requires IsSubstring(part, s)
    ensures IsSubstring(part, [c] + s)
  {
    var i: nat :| i <= |s| && OccursAt(part, s, i);
    assert ([c] + s)[i + 1..i + 1 + |part|] == part;
    SubstringAt(part, [c] + s, i + 1);
  }

  lemma SubstringOfSubstring(a: string, b: string, s: string)
    requires IsSubstring(a, b) && IsSubstring(b, s)
    ensures IsSubstring(a, s)
  {
    var i: nat :| i <= |b| && OccursAt(a, b, i);
    var j: nat :| j <= |s| && OccursAt(b, s, j);
    assert s[j + i..j + i + |a|] == a by {
      forall k | 0 <= k < |a| ensures s[j + i + k] == a[k] {
        assert a[k] == b[i..i + |a|][k] == b[i + k];
        assert b[i + k] == s[j..j + |b|][i + k];
      }
    }
    SubstringAt(a, s, j + i);
  }
}
