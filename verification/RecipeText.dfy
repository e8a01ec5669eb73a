/**
 What a run of the generator does, read off the texts themselves: which stretch
 of the driver is a baseline's recipe, what becomes of `$path` in it, and which
 stretch of the runbook it takes the place of.
 */
module RecipeText {
  import opened RecipeSplice
  import opened Stretches
  import opened Text
  import opened Wrappers

  // ---- Lines ----

  /** The text, with white space around it. */
  ghost predicate Padded(line: string, text: string) {
    exists before, after :: IsPadding(line, before, text, after)
  }

  ghost predicate IsPadding(line: string, before: string, text: string, after: string) {
    AllBlank(before) && AllBlank(after) && line == before + text + after
  }

  predicate IsTrimmed(text: string) {
    text != "" && !IsBlank(text[0]) && !IsBlank(text[|text| - 1])
  }

  lemma {:induction false} TrimStartMeans(s: string) returns (before: string)
    ensures AllBlank(before) && s == before + TrimStart(s)
    ensures TrimStart(s) == "" || !IsBlank(TrimStart(s)[0])
  {
    hide IsBlank;
    if s != "" && IsBlank(s[0]) {
      var rest := TrimStartMeans(s[1..]);
      before := [s[0]] + rest;
      hide AllBlank, TrimStart;
      BlankBefore(s[0], rest);
      TrimsFirst(s);
      assert s == [s[0]] + s[1..];
    } else {
      before := "";
    }
  }

  lemma {:induction false} BlankBefore(c: char, rest: string)
    requires IsBlank(c) && AllBlank(rest)
    ensures AllBlank([c] + rest)
  {
    hide IsBlank;
  }

  lemma {:induction false} TrimsFirst(s: string)
    requires s != "" && IsBlank(s[0])
    ensures TrimStart(s) == TrimStart(s[1..])
  {
    hide IsBlank;
  }

  lemma {:induction false} TrimEndMeans(s: string) returns (after: string)
    ensures AllBlank(after) && s == TrimEnd(s) + after
    ensures TrimEnd(s) == "" || !IsBlank(TrimEnd(s)[|TrimEnd(s)| - 1])
  {
    hide IsBlank;
    if s != "" && IsBlank(s[|s| - 1]) {
      var rest := TrimEndMeans(s[..|s| - 1]);
      after := rest + [s[|s| - 1]];
      assert s == s[..|s| - 1] + [s[|s| - 1]];
    } else {
      after := "";
    }
  }

  lemma {:induction false} BlanksAreCut(before: string, rest: string)
    requires AllBlank(before) && (rest == "" || !IsBlank(rest[0]))
    ensures TrimStart(before + rest) == rest
  {
    hide IsBlank;
    if before != "" {
      assert before[0] in before && forall c | c in before[1..] :: c in before;
      BlanksAreCut(before[1..], rest);
      assert (before + rest)[1..] == before[1..] + rest;
    } else {
      assert before + rest == rest;
    }
  }

  lemma {:induction false} BlanksAreCutBehind(rest: string, after: string)
    requires AllBlank(after) && (rest == "" || !IsBlank(rest[|rest| - 1]))
    ensures TrimEnd(rest + after) == rest
  {
    hide IsBlank;
    if after != "" {
      var last := |after| - 1;
      assert after[last] in after && forall c | c in after[..last] :: c in after;
      BlanksAreCutBehind(rest, after[..last]);
      assert (rest + after)[..|rest + after| - 1] == rest + after[..last];
      assert (rest + after)[|rest + after| - 1] == after[last];
    } else {
      assert rest + after == rest;
    }
  }

  lemma {:induction false} TrimMeans(line: string, text: string)
    requires IsTrimmed(text)
    ensures Trim(line) == text <==> Padded(line, text)
  {
    hide IsBlank;
    if Trim(line) == text {
      var before := TrimStartMeans(line);
      var after := TrimEndMeans(TrimStart(line));
      assert IsPadding(line, before, text, after);
    }
    if before, after :| IsPadding(line, before, text, after) {
      assert line == before + (text + after);
      BlanksAreCut(before, text + after);
      BlanksAreCutBehind(text, after);
    }
  }

  ghost predicate Opens(line: string, before: string, text: string, rest: string) {
    AllBlank(before) && line == before + text + rest
  }

  ghost predicate IsFunctionLine(line: string) {
    exists before, rest :: Opens(line, before, "print_conflict_recovery()", rest)
  }

  ghost function KeyLine(key: string): string -> bool {
    line => Padded(line, key + ")")
  }

  ghost predicate IsArmEnd(line: string) {
    Padded(line, ";;") || Padded(line, "esac") || Padded(line, "}")
  }

  ghost predicate IsOpener(line: string) {
    Padded(line, "cat >&2 <<EOF")
  }

  predicate IsEnd(line: string) {
    line == "EOF"
  }

  /** A `cat` whose heredoc opener is quoted, with or without a dash. */
  ghost predicate IsQuoted(line: string) {
    exists before, between, dash, gap, quote: char, rest :: QuotedAs(line, before, between, dash, gap, quote, rest)
  }

  ghost predicate QuotedAs(line: string, before: string, between: string, dash: string, gap: string, quote: char,
                           rest: string) {
    AllBlank(before) && (dash == "" || dash == "-") && AllBlank(gap) && (quote == '\'' || quote == '"') &&
    line == before + "cat" + between + "<<" + dash + gap + [quote] + rest
  }

  /** A text that starts a line behind white space starts the trimmed line. */
  lemma {:induction false} OpensMeans(line: string, text: string)
    requires IsTrimmed(text)
    ensures text <= Trim(line) <==> exists before, rest :: Opens(line, before, text, rest)
  {
    hide IsBlank, Opens, Trim;
    var after := TrimEndMeans(TrimStart(line));
    if text <= Trim(line) {
      StartIsThere(line, text, after);
    }
    if before, rest :| Opens(line, before, text, rest) {
      TrimIsEnd(line);
      StartStays(line, before, text, rest, after);
    }
  }

  lemma {:induction false} TrimIsEnd(line: string)
    ensures Trim(line) == TrimEnd(TrimStart(line))
  {
  }

  lemma {:induction false} StartIsThere(line: string, text: string, after: string)
    requires TrimStart(line) == TrimEnd(TrimStart(line)) + after && text <= Trim(line)
    ensures exists before, rest :: Opens(line, before, text, rest)
  {
    hide AllBlank, TrimStart, TrimEnd;
    var before := TrimStartMeans(line);
    var behind := Trim(line)[|text|..];
    assert Trim(line) == text + behind;
    assert before + ((text + behind) + after) == before + text + (behind + after);
    assert Opens(line, before, text, behind + after);
  }

  lemma {:induction false} StartStays(line: string, before: string, text: string, rest: string, after: string)
    requires IsTrimmed(text) && Opens(line, before, text, rest)
    requires AllBlank(after) && TrimStart(line) == Trim(line) + after
    ensures text <= Trim(line)
  {
    hide IsBlank, TrimStart, TrimEnd;
    assert line == before + (text + rest);
    BlanksAreCut(before, text + rest);
    PrefixStays(text, rest, Trim(line), after);
  }

  lemma {:induction false} PrefixStays(text: string, rest: string, front: string, after: string)
    requires IsTrimmed(text) && AllBlank(after) && text + rest == front + after
    ensures text <= front
  {
    hide IsBlank;
    if |text| > |front| {
      EndsBehind(text, rest, front, after);
    }
    assert text == (text + rest)[..|text|] == (front + after)[..|text|] == front[..|text|];
  }

  lemma {:induction false} EndsBehind(text: string, rest: string, front: string, after: string)
    requires text + rest == front + after && |text| > |front|
    ensures text[|text| - 1] in after
  {
    assert (text + rest)[|text| - 1] == (front + after)[|text| - 1] == after[|text| - 1 - |front|];
  }

  lemma {:induction false} PrintableIsSolid(c: char)
    requires '!' <= c <= '~'
    ensures !IsBlank(c)
  {
  }

  lemma {:induction false} LiteralsAreTrimmed()
    ensures IsTrimmed("print_conflict_recovery()") && IsTrimmed(";;") && IsTrimmed("esac") && IsTrimmed("}")
    ensures IsTrimmed("cat >&2 <<EOF") && !IsBlank(')')
  {
    hide IsBlank;
    forall c | '!' <= c <= '~' ensures !IsBlank(c) {
      PrintableIsSolid(c);
    }
  }

  lemma {:induction false} LinesRead(line: string, key: string)
    requires key != "" && !IsBlank(key[0])
    ensures OpensFunction(line) <==> IsFunctionLine(line)
    ensures OpensArm(key)(line) <==> KeyLine(key)(line)
    ensures EndsArm(line) <==> IsArmEnd(line)
    ensures OpensHeredoc(line) <==> IsOpener(line)
    ensures EndsHeredoc(line) <==> IsEnd(line)
  {
    hide Trim, Padded, IsBlank, Opens;
    LiteralsAreTrimmed();
    OpensMeans(line, "print_conflict_recovery()");
    TrimMeans(line, key + ")");
    TrimMeans(line, ";;");
    TrimMeans(line, "esac");
    TrimMeans(line, "}");
    TrimMeans(line, "cat >&2 <<EOF");
  }

  // ---- Quoted openers ----

  lemma {:induction false} QuotedMeans(line: string)
    ensures OpensQuoted(line) <==> IsQuoted(line)
  {
    hide IsBlank, QuotedAs, Trim, QuotesAt;
    LiteralsAreTrimmed();
    if OpensQuoted(line) {
      QuotedIsSeen(line);
    }
    if before, between, dash, gap, quote: char, rest :| QuotedAs(line, before, between, dash, gap, quote, rest) {
      SeenIsQuoted(line, before, between, dash, gap, quote, rest);
    }
  }

  /** An opener, what stands between it and the quote, and the quote. */
  predicate QuoteFollows(s: string, dash: string, gap: string, quote: char, rest: string) {
    (dash == "" || dash == "-") && AllBlank(gap) && (quote == '\'' || quote == '"') &&
    s == dash + (gap + ([quote] + rest))
  }

  lemma {:induction false} QuotesAtMeans(s: string, i: nat)
      returns (dash: string, gap: string, quote: char, rest: string)
    requires QuotesAt(s, i)
    ensures i + 2 <= |s| && s[i] == '<' && s[i..i + 2] == "<<"
    ensures QuoteFollows(s[i + 2..], dash, gap, quote, rest)
  {
    hide IsBlank, TrimStart;
    var behind := s[i + 2..];
    dash := if behind != "" && behind[0] == '-' then "-" else "";
    var tail := if behind != "" && behind[0] == '-' then behind[1..] else behind;
    gap := TrimStartMeans(tail);
    var word := TrimStart(tail);
    quote, rest := word[0], word[1..];
    assert word == [word[0]] + word[1..];
    assert behind == dash + tail;
    assert s[i..i + 2][0] == '<';
  }

  lemma {:induction false} TrimPads(line: string) returns (before: string, after: string)
    ensures AllBlank(before) && line == before + (Trim(line) + after)
  {
    hide IsBlank;
    before := TrimStartMeans(line);
    after := TrimEndMeans(TrimStart(line));
  }

  lemma {:induction false} QuotedIsSeen(line: string)
    requires OpensQuoted(line)
    ensures IsQuoted(line)
  {
    hide IsBlank, AllBlank, QuotesAt, QuoteFollows, Trim, IsQuoted;
    var before, after := TrimPads(line);
    var trimmed := Trim(line);
    var i: nat :| i < |trimmed| && QuotesAt(trimmed, i);
    var dash, gap, quote, rest := QuotesAtMeans(trimmed, i);
    var between := Between(trimmed, i);
    SeenSo(line, before, between, dash, gap, quote, rest, trimmed[i + 2..], after);
  }

  lemma {:induction false} Between(s: string, i: nat) returns (between: string)
    requires "cat" <= s && i + 2 <= |s| && s[i] == '<' && s[i..i + 2] == "<<"
    ensures s == "cat" + between + "<<" + s[i + 2..]
  {
    assert s[0] == 'c' && s[1] == 'a' && s[2] == 't';
    between := s[3..i];
    assert s[..3] == "cat";
  }

  lemma {:induction false} SeenSo(line: string, before: string, between: string, dash: string, gap: string, quote: char,
                                  rest: string, behind: string, after: string)
    requires AllBlank(before) && QuoteFollows(behind, dash, gap, quote, rest)
    requires line == before + ("cat" + between + "<<" + behind + after)
    ensures IsQuoted(line)
  {
    hide AllBlank;
    assert line == before + "cat" + between + "<<" + dash + gap + [quote] + (rest + after);
    assert QuotedAs(line, before, between, dash, gap, quote, rest + after);
  }

  lemma {:induction false} SeenIsQuoted(line: string, before: string, between: string, dash: string, gap: string,
                                        quote: char, rest: string)
    requires QuotedAs(line, before, between, dash, gap, quote, rest)
    ensures OpensQuoted(line)
  {
    hide IsBlank, Trim, QuotesAt;
    PrintableIsSolid('c');
    PrintableIsSolid(quote);
    var start := "cat" + between + "<<" + dash + gap + [quote];
    assert line == before + start + rest;
    assert Opens(line, before, start, rest);
    OpensMeans(line, start);
    var trimmed := Trim(line);
    var behind := trimmed[|start|..];
    assert trimmed == start + behind;
    var head := "cat" + between;
    assert trimmed == head + ("<<" + (dash + (gap + ([quote] + behind))));
    QuoteSeen(trimmed, head, dash, gap, quote, behind);
    assert "cat" <= trimmed;
    assert QuotesAt(trimmed, |head|) && |head| < |trimmed|;
  }

  lemma {:induction false} QuoteSeen(s: string, head: string, dash: string, gap: string, quote: char, behind: string)
    requires (dash == "" || dash == "-") && AllBlank(gap) && (quote == '\'' || quote == '"')
    requires s == head + ("<<" + (dash + (gap + ([quote] + behind))))
    ensures QuotesAt(s, |head|)
  {
    hide IsBlank, TrimStart;
    PrintableIsSolid(quote);
    PrintableIsSolid('-');
    var rest := s[|head| + 2..];
    assert rest == dash + (gap + ([quote] + behind));
    var tail := if rest != "" && rest[0] == '-' then rest[1..] else rest;
    assert gap != "" ==> gap[0] in gap;
    assert tail == gap + ([quote] + behind);
    BlanksAreCut(gap, [quote] + behind);
    assert s[|head|..|head| + 2] == "<<";
  }

  // ---- The recipe in the driver ----

  predicate IsLine(s: string, from: nat, to: nat) {
    from <= to <= |s| && (forall k | from <= k < to :: s[k] != '\n') && (from > 0 ==> s[from - 1] == '\n') &&
    (to < |s| ==> s[to] == '\n')
  }

  /** A line at or after `from` that reads as wanted. */
  ghost predicate Reads(s: string, from: nat, wanted: string -> bool, line: Span) {
    from <= line.from && IsLine(s, line.from, line.to) && wanted(s[line.from..line.to])
  }

  ghost predicate IsFirst(s: string, from: nat, wanted: string -> bool, line: Span) {
    Reads(s, from, wanted, line) && forall other | Reads(s, from, wanted, other) :: line.from <= other.from
  }

  ghost predicate NoneBetween(s: string, after: Span, before: Span, wanted: string -> bool) {
    forall other | Reads(s, after.to + 1, wanted, other) :: before.from <= other.from
  }

  /** The key's label in the recovery function. */
  ghost predicate IsLabel(s: string, key: string, heading: Span) {
    exists opening :: IsFirst(s, 0, IsFunctionLine, opening) && IsFirst(s, opening.to + 1, KeyLine(key), heading)
  }

  /** The unquoted opener in the key's arm, and the end of its heredoc. */
  ghost predicate IsHeredoc(s: string, heading: Span, opener: Span, end: Span) {
    IsFirst(s, heading.to + 1, IsOpener, opener) && NoneBetween(s, heading, opener, IsQuoted) &&
    IsFirst(s, opener.to + 1, IsEnd, end) && NoneBetween(s, heading, end, IsArmEnd)
  }

  ghost predicate LiesBetween(s: string, opener: Span, end: Span, recipe: string) {
    opener.to < end.from <= |s| &&
    recipe == if end.from == opener.to + 1 then "" else s[opener.to + 1..end.from - 1]
  }

  /** What stands between the opener and the end of the heredoc in the key's arm. */
  ghost predicate IsRecipe(s: string, key: string, recipe: string) {
    exists heading, opener, end ::
      IsLabel(s, key, heading) && IsHeredoc(s, heading, opener, end) && LiesBetween(s, opener, end, recipe)
  }

  // ---- Lines and their positions ----

  lemma {:induction false} LineMeans(s: string, from: nat, to: nat)
    ensures IsLine(s, from, to) <==> Lies(s, IsNewline, from, to)
  {
  }

  function Start(spans: seq<(nat, nat)>, n: nat): nat
    requires n <= |spans|
  {
    if n == 0 then 0 else spans[n - 1].1 + 1
  }

  function At(spans: seq<(nat, nat)>, i: nat): Span
    requires i < |spans|
  {
    Span(spans[i].0, spans[i].1)
  }

  /** The lines of the text, and where they lie. */
  ghost predicate AreLines(s: string, lines: seq<string>, spans: seq<(nat, nat)>) {
    |spans| == |lines| > 0 &&
    (forall i | 0 <= i < |lines| :: LineLies(s, lines[i], At(spans, i))) &&
    (forall i, j | 0 <= i < j < |lines| :: Precedes(At(spans, i), At(spans, j))) &&
    (forall i | 0 <= i < |lines| :: At(spans, i).from == Start(spans, i)) &&
    forall line: Span | IsLine(s, line.from, line.to) :: exists i :: 0 <= i < |lines| && At(spans, i) == line
  }

  predicate LineLies(s: string, line: string, at: Span) {
    IsLine(s, at.from, at.to) && s[at.from..at.to] == line
  }

  predicate Precedes(x: Span, y: Span) {
    x.to < y.from
  }

  lemma {:induction false} LinesLie(s: string) returns (spans: seq<(nat, nat)>)
    ensures AreLines(s, Lines(s), spans)
  {
    hide Pieces, Lies, IsLine;
    var lines := Lines(s);
    spans := PiecesLie(s, IsNewline);
    forall i | 0 <= i < |lines| ensures LineLies(s, lines[i], At(spans, i)) {
      LineMeans(s, spans[i].0, spans[i].1);
      assert PieceLies(s, IsNewline, spans[i], lines[i]);
    }
    forall i, j | 0 <= i < j < |lines| ensures Precedes(At(spans, i), At(spans, j)) {
      SpansAscend(s, IsNewline, lines, spans, i, j);
    }
    forall line: Span | IsLine(s, line.from, line.to) ensures exists i :: 0 <= i < |lines| && At(spans, i) == line {
      LineMeans(s, line.from, line.to);
      var i := StretchIsPiece(s, IsNewline, lines, spans, line.from, line.to);
      assert At(spans, i) == line;
    }
  }

  lemma {:induction false} ReadsLine(s: string, lines: seq<string>, spans: seq<(nat, nat)>, n: nat,
                                     wanted: string -> bool, i: nat)
    requires AreLines(s, lines, spans) && n <= |lines| && i < |lines|
    ensures Reads(s, Start(spans, n), wanted, At(spans, i)) <==> n <= i && wanted(lines[i])
  {
    hide IsLine;
    assert LineLies(s, lines[i], At(spans, i));
    if n > 0 {
      if i < n - 1 {
        assert Precedes(At(spans, i), At(spans, n - 1));
      }
      if n - 1 < i {
        assert Precedes(At(spans, n - 1), At(spans, i));
      }
      assert LineLies(s, lines[n - 1], At(spans, n - 1));
      assert IsLine(s, spans[n - 1].0, spans[n - 1].1);
      LineBounds(s, spans[n - 1].0, spans[n - 1].1);
      LineBounds(s, spans[i].0, spans[i].1);
    }
  }

  lemma {:induction false} LineBounds(s: string, from: nat, to: nat)
    requires IsLine(s, from, to)
    ensures from <= to <= |s|
  {
  }

  lemma {:induction false} ReadIsLine(s: string, lines: seq<string>, spans: seq<(nat, nat)>, n: nat,
                                      wanted: string -> bool, line: Span)
      returns (i: nat)
    requires AreLines(s, lines, spans) && n <= |lines| && Reads(s, Start(spans, n), wanted, line)
    ensures n <= i < |lines| && At(spans, i) == line && wanted(lines[i])
  {
    hide IsLine;
    var j :| 0 <= j < |lines| && At(spans, j) == line;
    i := j;
    ReadsLine(s, lines, spans, n, wanted, i);
  }

  /** The first line that reads as wanted, by number and by place. */
  lemma {:induction false} FirstMeans(s: string, lines: seq<string>, spans: seq<(nat, nat)>, n: nat,
                                      p: string -> bool, wanted: string -> bool, i: nat)
    requires AreLines(s, lines, spans) && |spans| == |lines|
    requires n <= |lines| && i < |lines| && forall line :: p(line) <==> wanted(line)
    ensures FirstLine(lines, n, p) == Some(i) <==> IsFirst(s, Start(spans, n), wanted, At(spans, i))
  {
    hide AreLines, IsLine, Reads, Start;
    if FirstLine(lines, n, p) == Some(i) {
      ReadsLine(s, lines, spans, n, wanted, i);
      forall other | Reads(s, Start(spans, n), wanted, other) ensures At(spans, i).from <= other.from {
        var j := ReadIsLine(s, lines, spans, n, wanted, other);
        Ascend(s, lines, spans, i, j);
      }
    }
    if IsFirst(s, Start(spans, n), wanted, At(spans, i)) {
      ReadsLine(s, lines, spans, n, wanted, i);
      forall k | n <= k < i ensures !p(lines[k]) {
        ReadsLine(s, lines, spans, n, wanted, k);
        StrictlyAscend(s, lines, spans, k, i);
      }
      FirstLineIs(lines, n, p, i);
    }
  }

  lemma {:induction false} Ascend(s: string, lines: seq<string>, spans: seq<(nat, nat)>, i: nat, j: nat)
    requires AreLines(s, lines, spans) && i <= j < |lines|
    ensures At(spans, i).from <= At(spans, j).from
  {
    if i < j {
      StrictlyAscend(s, lines, spans, i, j);
    }
  }

  lemma {:induction false} StrictlyAscend(s: string, lines: seq<string>, spans: seq<(nat, nat)>, i: nat, j: nat)
    requires AreLines(s, lines, spans) && i < j < |lines|
    ensures At(spans, i).from <= At(spans, i).to < At(spans, j).from <= At(spans, j).to <= |s|
  {
    hide IsLine;
    assert Precedes(At(spans, i), At(spans, j));
    assert LineLies(s, lines[i], At(spans, i)) && LineLies(s, lines[j], At(spans, j));
    LineBounds(s, spans[i].0, spans[i].1);
    LineBounds(s, spans[j].0, spans[j].1);
  }

  lemma {:induction false} NoneMeans(s: string, lines: seq<string>, spans: seq<(nat, nat)>, a: nat, b: nat,
                                     p: string -> bool, wanted: string -> bool)
    requires AreLines(s, lines, spans) && |spans| == |lines|
    requires a < b < |lines| && forall line :: p(line) <==> wanted(line)
    ensures (forall k | a < k < b :: !p(lines[k])) <==> NoneBetween(s, At(spans, a), At(spans, b), wanted)
  {
    hide AreLines, IsLine, Reads;
    assert Start(spans, a + 1) == At(spans, a).to + 1;
    if forall k | a < k < b :: !p(lines[k]) {
      forall other | Reads(s, At(spans, a).to + 1, wanted, other) ensures At(spans, b).from <= other.from {
        var k := ReadIsLine(s, lines, spans, a + 1, wanted, other);
        Ascend(s, lines, spans, b, k);
      }
    }
    if NoneBetween(s, At(spans, a), At(spans, b), wanted) {
      forall k | a < k < b ensures !p(lines[k]) {
        ReadsLine(s, lines, spans, a + 1, wanted, k);
        StrictlyAscend(s, lines, spans, k, b);
      }
    }
  }

  /** The lines of the opener and of the end in the arm behind line `l`. */
  ghost predicate HeredocLies(lines: seq<string>, l: nat, o: nat, e: nat) {
    l < o < e < |lines| && FirstLine(lines, l + 1, OpensHeredoc) == Some(o) &&
    FirstLine(lines, o + 1, EndsHeredoc) == Some(e) && (forall k | l < k < o :: !OpensQuoted(lines[k])) &&
    forall k | l < k < e :: !EndsArm(lines[k])
  }

  lemma {:induction false} SliceFirst(lines: seq<string>, from: nat, to: nat, n: nat, p: string -> bool, i: nat)
    requires from <= to <= |lines| && n <= to - from
    ensures FirstLine(lines[from..to], n, p) == Some(i) <==>
            from + i < to && FirstLine(lines, from + n, p) == Some(from + i)
  {
    var arm := lines[from..to];
    if FirstLine(arm, n, p) == Some(i) {
      assert forall k | from + n <= k < from + i :: lines[k] == arm[k - from];
      FirstLineIs(lines, from + n, p, from + i);
    }
    if from + i < to && FirstLine(lines, from + n, p) == Some(from + i) {
      assert forall k | n <= k < i :: arm[k] == lines[from + k];
      FirstLineIs(arm, n, p, i);
    }
  }

  lemma {:induction false} EndIsNoTerminator()
    ensures !EndsArm("EOF")
  {
    hide IsBlank;
    PrintableIsSolid('E');
    PrintableIsSolid('F');
    assert IsPadding("EOF", "", "EOF", "");
    TrimMeans("EOF", "EOF");
  }

  /** The recipe is the lines between the opener and the end. */
  ghost predicate RecipeLies(lines: seq<string>, l: nat, o: nat, e: nat, recipe: string) {
    HeredocLies(lines, l, o, e) && recipe == Join(lines[o + 1..e])
  }

  function ArmEnd(lines: seq<string>, l: nat): (to: nat)
    requires l < |lines|
    ensures l < to <= |lines|
  {
    var end := FirstLine(lines, l + 1, EndsArm);
    if end.Some? then end.value else |lines|
  }

  /** What comes before the arm's end is what no terminator precedes. */
  lemma {:induction false} ArmHolds(lines: seq<string>, l: nat, e: nat)
    requires l < e < |lines| && EndsHeredoc(lines[e])
    ensures e < ArmEnd(lines, l) <==> forall k | l < k < e :: !EndsArm(lines[k])
  {
    EndIsNoTerminator();
    hide Trim;
    assert !EndsArm(lines[e]);
    var end := FirstLine(lines, l + 1, EndsArm);
    if end.Some? && end.value < e {
      assert EndsArm(lines[end.value]);
    }
  }

  /** The heredoc of an arm, by line numbers. */
  lemma {:induction false} HeredocMeans(lines: seq<string>, key: string, l: nat, recipe: string)
    requires l < |lines|
    ensures Heredoc(lines[l + 1..ArmEnd(lines, l)], key) == Ok(recipe) <==>
            exists o: nat, e: nat :: RecipeLies(lines, l, o, e, recipe)
  {
    hide EndsArm, EndsHeredoc, OpensQuoted, OpensHeredoc, FirstLine, Join;
    if Heredoc(lines[l + 1..ArmEnd(lines, l)], key) == Ok(recipe) {
      var o, e := HeredocFound(lines, key, l, recipe);
    }
    if o: nat, e: nat :| RecipeLies(lines, l, o, e, recipe) {
      HeredocThere(lines, key, l, o, e, recipe);
    }
  }

  lemma {:induction false} HeredocIs(arm: seq<string>, key: string, opener: nat, close: nat)
    requires FirstLine(arm, 0, OpensHeredoc) == Some(opener) && opener < close < |arm|
    requires FirstLine(arm, opener + 1, EndsHeredoc) == Some(close) &&
             forall k | 0 <= k < opener :: !OpensQuoted(arm[k])
    ensures Heredoc(arm, key) == Ok(Join(arm[opener + 1..close]))
  {
    hide EndsHeredoc, OpensQuoted, OpensHeredoc, FirstLine, Join;
  }

  lemma {:induction false} HeredocHas(arm: seq<string>, key: string) returns (opener: nat, close: nat)
    requires Heredoc(arm, key).Ok?
    ensures FirstLine(arm, 0, OpensHeredoc) == Some(opener) && opener < close < |arm|
    ensures FirstLine(arm, opener + 1, EndsHeredoc) == Some(close) && forall k | 0 <= k < opener :: !OpensQuoted(arm[k])
    ensures Heredoc(arm, key) == Ok(Join(arm[opener + 1..close]))
  {
    hide EndsHeredoc, OpensQuoted, OpensHeredoc, FirstLine, Join;
    opener := FirstLine(arm, 0, OpensHeredoc).value;
    close := FirstLine(arm, opener + 1, EndsHeredoc).value;
  }

  lemma {:induction false} ArmSlices(lines: seq<string>, from: nat, to: nat, a: nat, b: nat)
    requires from <= to <= |lines| && a <= b <= to - from
    ensures lines[from..to][a..b] == lines[from + a..from + b]
  {
    var arm := lines[from..to];
    assert |arm| == to - from && forall k | 0 <= k < |arm| :: arm[k] == lines[from + k];
    assert |arm[a..b]| == |lines[from + a..from + b]|;
    forall k | 0 <= k < b - a ensures arm[a..b][k] == lines[from + a..from + b][k] {
      assert arm[a..b][k] == arm[a + k] == lines[from + (a + k)];
    }
  }

  lemma {:induction false} HeredocFound(lines: seq<string>, key: string, l: nat, recipe: string)
      returns (o: nat, e: nat)
    requires l < |lines| && Heredoc(lines[l + 1..ArmEnd(lines, l)], key) == Ok(recipe)
    ensures RecipeLies(lines, l, o, e, recipe)
  {
    hide EndsArm, EndsHeredoc, OpensQuoted, OpensHeredoc, FirstLine, Join, Heredoc;
    var to := ArmEnd(lines, l);
    var arm := lines[l + 1..to];
    var opener, close := HeredocHas(arm, key);
    SliceFirst(lines, l + 1, to, 0, OpensHeredoc, opener);
    SliceFirst(lines, l + 1, to, opener + 1, EndsHeredoc, close);
    o, e := l + 1 + opener, l + 1 + close;
    ArmSlices(lines, l + 1, to, opener + 1, close);
    ArmHolds(lines, l, e);
    forall k | l < k < o ensures !OpensQuoted(lines[k]) {
      assert lines[k] == arm[k - l - 1];
    }
  }

  lemma {:induction false} HeredocThere(lines: seq<string>, key: string, l: nat, o: nat, e: nat, recipe: string)
    requires l < |lines| && RecipeLies(lines, l, o, e, recipe)
    ensures Heredoc(lines[l + 1..ArmEnd(lines, l)], key) == Ok(recipe)
  {
    hide EndsArm, EndsHeredoc, OpensQuoted, OpensHeredoc, FirstLine, Join, Heredoc, ArmEnd;
    ArmHolds(lines, l, e);
    HeredocInside(lines, key, l, ArmEnd(lines, l), o, e);
  }

  lemma {:induction false} HeredocInside(lines: seq<string>, key: string, l: nat, to: nat, o: nat, e: nat)
    requires l < o < e < to <= |lines| && FirstLine(lines, l + 1, OpensHeredoc) == Some(o)
    requires FirstLine(lines, o + 1, EndsHeredoc) == Some(e) && forall k | l < k < o :: !OpensQuoted(lines[k])
    ensures Heredoc(lines[l + 1..to], key) == Ok(Join(lines[o + 1..e]))
  {
    hide EndsHeredoc, OpensQuoted, OpensHeredoc, FirstLine, Join, Heredoc;
    var arm := lines[l + 1..to];
    var opener, close := o - l - 1, e - l - 1;
    SliceFirst(lines, l + 1, to, 0, OpensHeredoc, opener);
    SliceFirst(lines, l + 1, to, opener + 1, EndsHeredoc, close);
    ArmSlices(lines, l + 1, to, opener + 1, close);
    forall k | 0 <= k < opener ensures !OpensQuoted(arm[k]) {
      assert arm[k] == lines[l + 1 + k];
    }
    HeredocIs(arm, key, opener, close);
  }

  /** The numbers of the function's line and of the label's. */
  ghost predicate LabelLies(lines: seq<string>, key: string, f: nat, l: nat) {
    f < l < |lines| && FirstLine(lines, 0, OpensFunction) == Some(f) &&
    FirstLine(lines, f + 1, OpensArm(key)) == Some(l)
  }

  lemma {:induction false} NumbersMean(driver: string, key: string, recipe: string)
    ensures DriverRecipe(driver, key) == Ok(recipe) <==>
            exists f: nat, l: nat, o: nat, e: nat ::
              LabelLies(Lines(driver), key, f, l) && RecipeLies(Lines(driver), l, o, e, recipe)
  {
    hide EndsArm, OpensFunction, OpensArm, Heredoc, RecipeLies, Lines, FirstLine;
    var lines := Lines(driver);
    if DriverRecipe(driver, key) == Ok(recipe) {
      var f := FirstLine(lines, 0, OpensFunction).value;
      var l := FirstLine(lines, f + 1, OpensArm(key)).value;
      assert LabelLies(lines, key, f, l);
      HeredocMeans(lines, key, l, recipe);
    }
    if f: nat, l: nat, o: nat, e: nat :| LabelLies(lines, key, f, l) && RecipeLies(lines, l, o, e, recipe) {
      HeredocMeans(lines, key, l, recipe);
    }
  }

  /** Joined lines are the stretch of the text that they make up. */
  lemma {:induction false} JoinMeans(s: string, lines: seq<string>, spans: seq<(nat, nat)>, a: nat, b: nat)
    requires AreLines(s, lines, spans) && |spans| == |lines| && a < b <= |lines|
    ensures At(spans, a).from <= At(spans, b - 1).to <= |s|
    ensures Join(lines[a..b]) == s[At(spans, a).from..At(spans, b - 1).to]
    decreases b - a
  {
    hide IsLine;
    assert LineLies(s, lines[a], At(spans, a));
    LineBounds(s, spans[a].0, spans[a].1);
    if a + 1 == b {
      assert lines[a..b] == [lines[a]];
    } else {
      JoinMeans(s, lines, spans, a + 1, b);
      assert lines[a..b][1..] == lines[a + 1..b];
      assert At(spans, a + 1).from == At(spans, a).to + 1;
      NewlineBehind(s, At(spans, a).from, At(spans, a).to, At(spans, b - 1).to);
    }
  }

  lemma {:induction false} NewlineBehind(s: string, from: nat, to: nat, end: nat)
    requires IsLine(s, from, to) && to + 1 <= end <= |s|
    ensures s[from..end] == s[from..to] + "\n" + s[to + 1..end]
  {
  }

  lemma {:induction false} BetweenMeans(s: string, lines: seq<string>, spans: seq<(nat, nat)>, o: nat, e: nat,
                                        recipe: string)
    requires AreLines(s, lines, spans) && |spans| == |lines| && o < e < |lines|
    ensures LiesBetween(s, At(spans, o), At(spans, e), recipe) <==> recipe == Join(lines[o + 1..e])
  {
    hide AreLines, Join;
    StrictlyAscend(s, lines, spans, o, e);
    StartsBehind(s, lines, spans, e);
    StartsBehind(s, lines, spans, o + 1);
    if o + 1 < e {
      StrictlyAscend(s, lines, spans, o, e - 1);
      JoinMeans(s, lines, spans, o + 1, e);
    } else {
      assert lines[o + 1..e] == [];
      assert Join([]) == "" by {
        NoLines();
      }
    }
  }

  lemma {:induction false} NoLines()
    ensures Join([]) == ""
  {
  }

  lemma {:induction false} StartsBehind(s: string, lines: seq<string>, spans: seq<(nat, nat)>, i: nat)
    requires AreLines(s, lines, spans) && |spans| == |lines| && 0 < i < |lines|
    ensures At(spans, i).from == At(spans, i - 1).to + 1
  {
    hide IsLine;
  }

  ghost predicate IsKey(key: string) {
    key != "" && !IsBlank(key[0])
  }

  lemma {:induction false} AllLinesRead(key: string)
    requires IsKey(key)
    ensures forall line :: OpensFunction(line) <==> IsFunctionLine(line)
    ensures forall line :: OpensArm(key)(line) <==> KeyLine(key)(line)
    ensures forall line :: EndsArm(line) <==> IsArmEnd(line)
    ensures forall line :: OpensHeredoc(line) <==> IsOpener(line)
    ensures forall line :: EndsHeredoc(line) <==> IsEnd(line)
    ensures forall line :: OpensQuoted(line) <==> IsQuoted(line)
  {
    hide OpensFunction, IsFunctionLine, OpensArm, KeyLine, EndsArm, IsArmEnd, OpensHeredoc, IsOpener, EndsHeredoc,
         IsEnd, OpensQuoted, IsQuoted;
    forall line: string
      ensures OpensFunction(line) <==> IsFunctionLine(line)
      ensures OpensArm(key)(line) <==> KeyLine(key)(line)
      ensures EndsArm(line) <==> IsArmEnd(line)
      ensures OpensHeredoc(line) <==> IsOpener(line)
      ensures EndsHeredoc(line) <==> IsEnd(line)
      ensures OpensQuoted(line) <==> IsQuoted(line)
    {
      LinesRead(line, key);
      QuotedMeans(line);
    }
  }

  // ---- Numbers and places of the recipe's lines ----

  lemma {:induction false} NextStart(s: string, lines: seq<string>, spans: seq<(nat, nat)>, i: nat)
    requires |spans| == |lines| && i < |lines|
    ensures Start(spans, i + 1) == At(spans, i).to + 1
  {
  }

  /** A first line is one of the lines. */
  lemma {:induction false} FirstIsLine(s: string, lines: seq<string>, spans: seq<(nat, nat)>, n: nat,
                                       p: string -> bool, wanted: string -> bool, line: Span)
      returns (i: nat)
    requires AreLines(s, lines, spans) && |spans| == |lines|
    requires n <= |lines| && forall line :: p(line) <==> wanted(line)
    requires IsFirst(s, Start(spans, n), wanted, line)
    ensures n <= i < |lines| && At(spans, i) == line && FirstLine(lines, n, p) == Some(i)
  {
    hide AreLines, Reads, FirstLine, Start;
    i := ReadIsLine(s, lines, spans, n, wanted, line);
    FirstMeans(s, lines, spans, n, p, wanted, i);
  }

  lemma {:induction false} HeredocPlaces(s: string, lines: seq<string>, spans: seq<(nat, nat)>, key: string, l: nat,
                                         o: nat, e: nat)
    requires AreLines(s, lines, spans) && |spans| == |lines| && l < o < e < |lines| && IsKey(key)
    ensures HeredocLies(lines, l, o, e) <==> IsHeredoc(s, At(spans, l), At(spans, o), At(spans, e))
  {
    hide AreLines, FirstLine, IsFirst, NoneBetween, IsOpener, OpensHeredoc, IsEnd, EndsHeredoc, OpensQuoted, IsQuoted,
         EndsArm, IsArmEnd, OpensFunction, OpensArm, KeyLine, IsFunctionLine, IsKey;
    AllLinesRead(key);
    NextStart(s, lines, spans, l);
    NextStart(s, lines, spans, o);
    FirstMeans(s, lines, spans, l + 1, OpensHeredoc, IsOpener, o);
    FirstMeans(s, lines, spans, o + 1, EndsHeredoc, IsEnd, e);
    NoneMeans(s, lines, spans, l, o, OpensQuoted, IsQuoted);
    NoneMeans(s, lines, spans, l, e, EndsArm, IsArmEnd);
  }

  lemma {:induction false} LabelPlaces(s: string, lines: seq<string>, spans: seq<(nat, nat)>, key: string, f: nat,
                                       l: nat)
    requires AreLines(s, lines, spans) && |spans| == |lines| && IsKey(key) && LabelLies(lines, key, f, l)
    ensures l < |lines| && IsLabel(s, key, At(spans, l))
  {
    hide AreLines, FirstLine, IsFirst, OpensFunction, OpensArm, KeyLine, IsFunctionLine, IsKey, EndsArm, IsArmEnd,
         OpensHeredoc, IsOpener, OpensQuoted, IsQuoted;
    AllLinesRead(key);
    NextStart(s, lines, spans, f);
    FirstMeans(s, lines, spans, 0, OpensFunction, IsFunctionLine, f);
    FirstMeans(s, lines, spans, f + 1, OpensArm(key), KeyLine(key), l);
  }

  lemma {:induction false} PlacedLabel(s: string, lines: seq<string>, spans: seq<(nat, nat)>, key: string,
                                       heading: Span)
      returns (f: nat, l: nat)
    requires AreLines(s, lines, spans) && |spans| == |lines| && IsKey(key) && IsLabel(s, key, heading)
    ensures l < |lines| && LabelLies(lines, key, f, l) && At(spans, l) == heading
  {
    hide AreLines, FirstLine, IsFirst, OpensFunction, OpensArm, KeyLine, IsFunctionLine, IsKey, EndsArm, IsArmEnd,
         OpensHeredoc, IsOpener, OpensQuoted, IsQuoted;
    AllLinesRead(key);
    var opening :| IsFirst(s, 0, IsFunctionLine, opening) && IsFirst(s, opening.to + 1, KeyLine(key), heading);
    f := FirstIsLine(s, lines, spans, 0, OpensFunction, IsFunctionLine, opening);
    NextStart(s, lines, spans, f);
    l := FirstIsLine(s, lines, spans, f + 1, OpensArm(key), KeyLine(key), heading);
  }

  lemma {:induction false} PlacedHeredoc(s: string, lines: seq<string>, spans: seq<(nat, nat)>, key: string, l: nat,
                                         opener: Span, end: Span)
      returns (o: nat, e: nat)
    requires AreLines(s, lines, spans) && |spans| == |lines| && l < |lines| && IsKey(key)
    requires IsHeredoc(s, At(spans, l), opener, end)
    ensures l < o < e < |lines| && At(spans, o) == opener && At(spans, e) == end && HeredocLies(lines, l, o, e)
  {
    hide AreLines, FirstLine, IsFirst, NoneBetween, IsOpener, OpensHeredoc, IsEnd, EndsHeredoc, OpensQuoted, IsQuoted,
         EndsArm, IsArmEnd, OpensFunction, OpensArm, KeyLine, IsFunctionLine, IsKey;
    AllLinesRead(key);
    NextStart(s, lines, spans, l);
    o := FirstIsLine(s, lines, spans, l + 1, OpensHeredoc, IsOpener, opener);
    NextStart(s, lines, spans, o);
    e := FirstIsLine(s, lines, spans, o + 1, EndsHeredoc, IsEnd, end);
    HeredocPlaces(s, lines, spans, key, l, o, e);
  }

  /**
   A recipe can be had exactly when the recovery function has the key's label, the
   arm an unquoted opener before any quoted one, and the heredoc an end before the
   arm's; and it is the very text of the driver between opener and end.
   */
  lemma {:induction false} RecipeMeans(driver: string, key: string, recipe: string)
    requires IsKey(key)
    ensures DriverRecipe(driver, key) == Ok(recipe) <==> IsRecipe(driver, key, recipe)
  {
    var lines := Lines(driver);
    var spans := LinesLie(driver);
    assert |spans| == |lines|;
    NumbersMean(driver, key, recipe);
    hide AreLines, DriverRecipe, Lines, IsLabel, IsHeredoc, LabelLies, HeredocLies, LiesBetween, IsKey, Join;
    if f: nat, l: nat, o: nat, e: nat :| LabelLies(lines, key, f, l) && RecipeLies(lines, l, o, e, recipe) {
      HeredocOrder(lines, l, o, e);
      LabelPlaces(driver, lines, spans, key, f, l);
      HeredocPlaces(driver, lines, spans, key, l, o, e);
      BetweenMeans(driver, lines, spans, o, e, recipe);
    }
    if IsRecipe(driver, key, recipe) {
      var heading, opener, end :|
        IsLabel(driver, key, heading) && IsHeredoc(driver, heading, opener, end) &&
        LiesBetween(driver, opener, end, recipe);
      var f, l := PlacedLabel(driver, lines, spans, key, heading);
      var o, e := PlacedHeredoc(driver, lines, spans, key, l, opener, end);
      BetweenMeans(driver, lines, spans, o, e, recipe);
      assert RecipeLies(lines, l, o, e, recipe);
    }
  }

  lemma {:induction false} HeredocOrder(lines: seq<string>, l: nat, o: nat, e: nat)
    requires HeredocLies(lines, l, o, e)
    ensures l < o < e < |lines|
  {
  }

  // ---- Filling in the path ----

  /** The pieces, with `between` after each but the last. */
  function Glued(pieces: seq<string>, between: string): string {
    if pieces == [] then "" else if |pieces| == 1 then pieces[0] else pieces[0] + between + Glued(pieces[1..], between)
  }

  ghost predicate AreApart(pieces: seq<string>, part: string) {
    pieces != [] && forall piece | piece in pieces :: !IsSubstring(part, piece)
  }

  /** `filled` is `text` with the path in place of every `$path`. */
  ghost predicate IsFilled(text: string, path: string, filled: string) {
    exists pieces :: AreApart(pieces, "$path") && text == Glued(pieces, "$path") && filled == Glued(pieces, path)
  }

  /** `$path` has its dollar sign in front only. */
  const PLACEHOLDER := "$path"

  lemma {:induction false} PlaceholderAt(s: string, i: nat)
    requires OccursAt(PLACEHOLDER, s, i)
    ensures i + 5 <= |s| && s[i] == '$' && s[i..i + 5] == PLACEHOLDER && forall k | i < k < i + 5 :: s[k] in "path"
  {
    forall k | i < k < i + 5 ensures s[k] in "path" {
      assert s[i..i + 5][k - i] == PLACEHOLDER[k - i];
    }
  }

  /** A placeholder that starts in the piece ends in it, since the next one starts behind it. */
  lemma {:induction false} StaysWithin(piece: string, rest: string, i: nat)
    requires OccursAt(PLACEHOLDER, piece + rest, i) && i < |piece| && (rest == "" || rest[0] == '$')
    ensures IsSubstring(PLACEHOLDER, piece)
  {
    var text := piece + rest;
    PlaceholderAt(text, i);
    assert rest != "" ==> text[|piece|] == '$';
    assert piece[i..i + 5] == text[i..i + 5];
    SubstringAt(PLACEHOLDER, piece, i);
  }

  lemma {:induction false} TailHasNone(piece: string)
    requires piece != "" && !IsSubstring(PLACEHOLDER, piece)
    ensures !IsSubstring(PLACEHOLDER, piece[1..])
  {
    assert piece == [piece[0]] + piece[1..];
    if IsSubstring(PLACEHOLDER, piece[1..]) {
      SubstringShift(PLACEHOLDER, piece[0], piece[1..]);
    }
  }

  lemma {:induction false} ReplaceStep(s: string, filler: string)
    requires s != "" && !OccursAt(PLACEHOLDER, s, 0)
    ensures ReplaceAll(s, PLACEHOLDER, filler) == [s[0]] + ReplaceAll(s[1..], PLACEHOLDER, filler)
  {
  }

  lemma {:induction false} ReplacePast(piece: string, rest: string, filler: string)
    requires !IsSubstring(PLACEHOLDER, piece) && (rest == "" || rest[0] == '$')
    ensures ReplaceAll(piece + rest, PLACEHOLDER, filler) == piece + ReplaceAll(rest, PLACEHOLDER, filler)
    decreases |piece|
  {
    hide ReplaceAll, IsSubstring, OccursAt;
    if piece == "" {
      assert piece + rest == rest;
    } else {
      if OccursAt(PLACEHOLDER, piece + rest, 0) {
        StaysWithin(piece, rest, 0);
      }
      TailHasNone(piece);
      ReplacePast(piece[1..], rest, filler);
      assert (piece + rest)[1..] == piece[1..] + rest && (piece + rest)[0] == piece[0];
      ReplaceStep(piece + rest, filler);
      assert piece == [piece[0]] + piece[1..];
    }
  }

  lemma {:induction false} ReplaceHere(rest: string, filler: string)
    ensures ReplaceAll(PLACEHOLDER + rest, PLACEHOLDER, filler) == filler + ReplaceAll(rest, PLACEHOLDER, filler)
  {
    assert (PLACEHOLDER + rest)[0..|PLACEHOLDER|] == PLACEHOLDER;
    assert (PLACEHOLDER + rest)[|PLACEHOLDER|..] == rest;
  }

  lemma {:induction false} GluedIsReplaced(pieces: seq<string>, filler: string)
    requires AreApart(pieces, PLACEHOLDER)
    ensures ReplaceAll(Glued(pieces, PLACEHOLDER), PLACEHOLDER, filler) == Glued(pieces, filler)
  {
    hide ReplaceAll, IsSubstring;
    if |pieces| == 1 {
      ReplacePast(pieces[0], "", filler);
      assert pieces[0] + "" == pieces[0];
      assert ReplaceAll("", PLACEHOLDER, filler) == "" by {
        NothingToReplace(filler);
      }
    } else {
      var below := Glued(pieces[1..], PLACEHOLDER);
      assert forall piece | piece in pieces[1..] :: piece in pieces;
      GluedIsReplaced(pieces[1..], filler);
      ReplaceHere(below, filler);
      ReplacePast(pieces[0], PLACEHOLDER + below, filler);
      assert pieces[0] + (PLACEHOLDER + below) == pieces[0] + PLACEHOLDER + below;
    }
  }

  lemma {:induction false} NothingToReplace(filler: string)
    ensures ReplaceAll("", PLACEHOLDER, filler) == ""
  {
  }

  /** Every text comes apart at its placeholders. */
  lemma {:induction false} ComesApart(text: string) returns (pieces: seq<string>)
    ensures AreApart(pieces, PLACEHOLDER) && text == Glued(pieces, PLACEHOLDER)
    decreases |text|
  {
    hide IsSubstring;
    if IsSubstring(PLACEHOLDER, text) {
      var head, rest := CutFirst(text);
      var below := ComesApart(rest);
      pieces := [head] + below;
      assert pieces[1..] == below;
    } else {
      pieces := [text];
    }
  }

  lemma {:induction false} CutFirst(text: string) returns (head: string, rest: string)
    requires IsSubstring(PLACEHOLDER, text)
    ensures text == head + PLACEHOLDER + rest && !IsSubstring(PLACEHOLDER, head)
    decreases |text|
  {
    if OccursAt(PLACEHOLDER, text, 0) {
      head, rest := "", text[|PLACEHOLDER|..];
      assert text == PLACEHOLDER + rest;
    } else {
      var i: nat :| i <= |text| && OccursAt(PLACEHOLDER, text, i);
      assert text[1..][i - 1..i - 1 + |PLACEHOLDER|] == PLACEHOLDER;
      SubstringAt(PLACEHOLDER, text[1..], i - 1);
      var below, after := CutFirst(text[1..]);
      head, rest := [text[0]] + below, after;
      assert text == head + PLACEHOLDER + rest;
      CutIsFirst(text, below, rest);
    }
  }

  lemma {:induction false} CutIsFirst(text: string, below: string, rest: string)
    requires text != "" && text[1..] == below + PLACEHOLDER + rest && !IsSubstring(PLACEHOLDER, below)
    requires !OccursAt(PLACEHOLDER, text, 0)
    ensures !IsSubstring(PLACEHOLDER, [text[0]] + below)
  {
    var head := [text[0]] + below;
    assert text == head + (PLACEHOLDER + rest);
    forall i: nat | i <= |head| ensures !OccursAt(PLACEHOLDER, head, i) {
      if OccursAt(PLACEHOLDER, head, i) {
        assert text[i..i + 5] == head[i..i + 5];
        assert i > 0;
        assert below[i - 1..i - 1 + 5] == head[i..i + 5];
        SubstringAt(PLACEHOLDER, below, i - 1);
      }
    }
  }

  /** Replacing all placeholders is filling in the path wherever one stands. */
  lemma {:induction false} FilledMeans(text: string, path: string, filled: string)
    ensures filled == ReplaceAll(text, "$path", path) <==> IsFilled(text, path, filled)
  {
    hide ReplaceAll, Glued, AreApart;
    assert PLACEHOLDER == "$path";
    var pieces := ComesApart(text);
    GluedIsReplaced(pieces, path);
    if other :| AreApart(other, "$path") && text == Glued(other, "$path") && filled == Glued(other, path) {
      GluedIsReplaced(other, path);
    }
  }

  /** A path that has no dollar sign and cannot go on a placeholder that a piece leaves off. */
  predicate CannotContinue(path: string) {
    path != "" && path[0] != 'p' && path[0] != 'a' && path[0] != 't' && path[0] != 'h' && '$' !in path
  }

  /** No placeholder is left. */
  lemma {:induction false} NothingLeftToFill(text: string, path: string, filled: string)
    requires IsFilled(text, path, filled) && CannotContinue(path)
    ensures !IsSubstring("$path", filled)
  {
    hide Glued, AreApart, IsSubstring;
    var pieces :| AreApart(pieces, "$path") && text == Glued(pieces, "$path") && filled == Glued(pieces, path);
    GluedHasNone(pieces, path);
  }

  lemma {:induction false} GluedHasNone(pieces: seq<string>, path: string)
    requires AreApart(pieces, PLACEHOLDER) && CannotContinue(path)
    ensures !IsSubstring(PLACEHOLDER, Glued(pieces, path))
  {
    hide IsSubstring;
    if |pieces| > 1 {
      assert forall piece | piece in pieces[1..] :: piece in pieces;
      GluedHasNone(pieces[1..], path);
      NoneAcross(pieces[0], path, Glued(pieces[1..], path));
    }
  }

  lemma {:induction false} NoneAcross(piece: string, path: string, below: string)
    requires !IsSubstring(PLACEHOLDER, piece) && !IsSubstring(PLACEHOLDER, below) && CannotContinue(path)
    ensures !IsSubstring(PLACEHOLDER, piece + path + below)
  {
    var text := piece + path + below;
    forall i: nat | i <= |text| ensures !OccursAt(PLACEHOLDER, text, i) {
      if OccursAt(PLACEHOLDER, text, i) {
        OccurrenceIsWithin(piece, path, below, i);
      }
    }
  }

  lemma {:induction false} OccurrenceIsWithin(piece: string, path: string, below: string, i: nat)
    requires OccursAt(PLACEHOLDER, piece + path + below, i) && CannotContinue(path)
    ensures IsSubstring(PLACEHOLDER, piece) || IsSubstring(PLACEHOLDER, below)
  {
    var text := piece + path + below;
    PlaceholderAt(text, i);
    assert text[|piece|] == path[0];
    assert forall k | |piece| <= k < |piece + path| :: text[k] == path[k - |piece|] && path[k - |piece|] in path;
    if i < |piece| {
      assert piece[i..i + 5] == text[i..i + 5];
      SubstringAt(PLACEHOLDER, piece, i);
    } else {
      var j := i - |piece + path|;
      assert below[j..j + 5] == text[i..i + 5];
      SubstringAt(PLACEHOLDER, below, j);
    }
  }

  // ---- One splice ----

  ghost predicate IsAt(s: string, part: string, i: nat) {
    i + |part| <= |s| && forall k | 0 <= k < |part| :: s[i + k] == part[k]
  }

  /** From the key's first start marker to the first end marker behind it. */
  ghost predicate IsMarkedAt(doc: string, key: string, from: nat, to: nat) {
    LiesBetweenMarks(doc, "<!-- " + key + "-baseline-conflict-recipe:start -->",
                     "<!-- " + key + "-baseline-conflict-recipe:end -->", from, to)
  }

  ghost predicate LiesBetweenMarks(doc: string, start: string, end: string, from: nat, to: nat) {
    from + |start| + |end| <= to && IsAt(doc, start, from) && IsAt(doc, end, to - |end|) &&
    (forall i: nat | IsAt(doc, start, i) :: from <= i) &&
    forall i: nat | from + |start| <= i && IsAt(doc, end, i) :: to - |end| <= i
  }

  /** The runbook with the recipe, fenced, between the key's markers, and nothing else changed. */
  ghost predicate IsSpliced(doc: string, key: string, recipe: string, after: string) {
    exists from: nat, to: nat :: SplicedAt(doc, key, recipe, after, from, to)
  }

  ghost predicate SplicedAt(doc: string, key: string, recipe: string, after: string, from: nat, to: nat) {
    IsMarkedAt(doc, key, from, to) && from <= to <= |doc| &&
    after == doc[..from] + ("<!-- " + key + "-baseline-conflict-recipe:start -->\n```text\n") + recipe +
             ("\n```\n<!-- " + key + "-baseline-conflict-recipe:end -->") + doc[to..]
  }

  lemma {:induction false} AtMeans(s: string, part: string, i: nat)
    ensures IsAt(s, part, i) <==> OccursAt(part, s, i)
  {
    if IsAt(s, part, i) {
      assert s[i..i + |part|] == part;
    }
    if OccursAt(part, s, i) {
      forall k | 0 <= k < |part| ensures s[i + k] == part[k] {
        assert s[i + k] == s[i..i + |part|][k];
      }
    }
  }

  lemma {:induction false} FirstAtMeans(s: string, part: string, from: nat, i: nat)
    ensures FirstAt(part, s, from) == Some(i) <==>
              from <= i && IsAt(s, part, i) && forall k: nat | from <= k && IsAt(s, part, k) :: i <= k
  {
    hide IsAt, OccursAt, FirstAt;
    forall k: nat ensures IsAt(s, part, k) <==> OccursAt(part, s, k) {
      AtMeans(s, part, k);
    }
    if from <= i && IsAt(s, part, i) && forall k: nat | from <= k && IsAt(s, part, k) :: i <= k {
      FirstIs(part, s, from, i);
    }
  }

  /** From the first start mark to the first end mark behind it. */
  function MarkedRegion(doc: string, start: string, end: string): Option<Span> {
    var from := FirstAt(start, doc, 0);
    if from.None? then None
    else
      var to := FirstAt(end, doc, from.value + |start|);
      if to.None? then None else Some(Span(from.value, to.value + |end|))
  }

  lemma {:induction false} MarkedMeans(doc: string, start: string, end: string, from: nat, to: nat)
    ensures MarkedRegion(doc, start, end) == Some(Span(from, to)) <==> LiesBetweenMarks(doc, start, end, from, to)
  {
    hide IsAt, FirstAt;
    FirstAtMeans(doc, start, 0, from);
    if to >= |end| {
      FirstAtMeans(doc, end, from + |start|, to - |end|);
    }
  }

  lemma {:induction false} RegionMeans(doc: string, key: string, from: nat, to: nat)
    ensures Region(doc, key) == Some(Span(from, to)) <==> IsMarkedAt(doc, key, from, to)
  {
    hide LiesBetweenMarks, MarkedRegion;
    assert Region(doc, key) == MarkedRegion(doc, StartMarker(key), EndMarker(key)) by {
      RegionIsMarked(doc, key);
    }
    MarkedMeans(doc, StartMarker(key), EndMarker(key), from, to);
  }

  lemma {:induction false} RegionIsMarked(doc: string, key: string)
    ensures Region(doc, key) == MarkedRegion(doc, StartMarker(key), EndMarker(key))
  {
    hide FirstAt, StartMarker, EndMarker;
  }

  lemma {:induction false} BlockText(key: string, recipe: string, front: string, back: string)
    ensures front + Block(key, recipe) + back ==
            front + ("<!-- " + key + "-baseline-conflict-recipe:start -->\n```text\n") + recipe +
            ("\n```\n<!-- " + key + "-baseline-conflict-recipe:end -->") + back
  {
    FenceText(key);
    hide StartMarker, EndMarker;
    var open, close := StartMarker(key) + FENCE_OPEN, FENCE_CLOSE + EndMarker(key);
    assert Block(key, recipe) == open + recipe + close;
  }

  lemma {:induction false} FenceText(key: string)
    ensures "<!-- " + key + "-baseline-conflict-recipe:start -->\n```text\n" == StartMarker(key) + FENCE_OPEN
    ensures "\n```\n<!-- " + key + "-baseline-conflict-recipe:end -->" == FENCE_CLOSE + EndMarker(key)
  {
    var start := "-baseline-conflict-recipe:start -->";
    assert "-baseline-conflict-recipe:start -->\n```text\n" == start + FENCE_OPEN;
    assert "\n```\n<!-- " == FENCE_CLOSE + "<!-- ";
  }

  lemma {:induction false} SpliceMeans(doc: string, key: string, recipe: string, after: string)
    ensures Splice(doc, key, recipe) == Some(after) <==> IsSpliced(doc, key, recipe, after)
  {
    hide Region, Block, IsMarkedAt;
    if Region(doc, key).Some? {
      var span := Region(doc, key).value;
      RegionMeans(doc, key, span.from, span.to);
      BlockText(key, recipe, doc[..span.from], doc[span.to..]);
      assert Splice(doc, key, recipe) == Some(after) ==> SplicedAt(doc, key, recipe, after, span.from, span.to);
    }
    if from: nat, to: nat :| SplicedAt(doc, key, recipe, after, from, to) {
      RegionMeans(doc, key, from, to);
      BlockText(key, recipe, doc[..from], doc[to..]);
    }
  }

  // ---- A whole run ----

  /** The runbook with one driver recipe, its path filled in, spliced in. */
  ghost predicate FillsIn(doc: string, driver: string, key: string, path: string, after: string) {
    exists recipe, filled ::
      IsRecipe(driver, key, recipe) && IsFilled(recipe, path, filled) && IsSpliced(doc, key, filled, after)
  }

  /** The ratchet's own rendering first, then the three recipes of the driver. */
  ghost predicate IsRun(doc: string, driver: string, renderRatchet: string -> string, rendered: string) {
    exists first, second, third ::
      IsSpliced(doc, "lint-ratchet", renderRatchet("lint-ratchet.baseline.json"), first) &&
      FillsIn(first, driver, "knip-unused-exports", "sensor-knip-unused-exports.baseline.json", second) &&
      FillsIn(second, driver, "near-duplicates", "sensor-near-duplicates.baseline.json", third) &&
      FillsIn(third, driver, "max-lines-exceptions", "eslint-config/max-lines-exceptions.baseline.json", rendered)
  }

  /** One baseline of the loop. */
  function Step(doc: string, driver: string, renderRatchet: string -> string, baseline: Baseline): Option<string> {
    var recipe := RecipeOf(driver, renderRatchet, baseline);
    if recipe.Err? then None else Splice(doc, baseline.key, recipe.value)
  }

  lemma {:induction false} OneStep(doc: string, driver: string, renderRatchet: string -> string,
                                   baselines: seq<Baseline>, rendered: string)
    requires baselines != []
    ensures var after := Step(doc, driver, renderRatchet, baselines[0]);
            SpliceBaselines(doc, driver, renderRatchet, baselines) == Ok(rendered) <==>
            after.Some? && SpliceBaselines(after.value, driver, renderRatchet, baselines[1..]) == Ok(rendered)
  {
    hide Splice, RecipeOf;
  }

  lemma {:induction false} DriverStep(doc: string, driver: string, renderRatchet: string -> string, key: string,
                                      path: string, after: string)
    requires IsKey(key) && key != "lint-ratchet"
    ensures Step(doc, driver, renderRatchet, Baseline(key, path)) == Some(after) <==>
                FillsIn(doc, driver, key, path, after)
  {
    hide Splice, ReplaceAll, DriverRecipe, IsRecipe, IsFilled, IsSpliced, IsKey;
    if DriverRecipe(driver, key).Ok? {
      var recipe := DriverRecipe(driver, key).value;
      var filled := ReplaceAll(recipe, "$path", path);
      RecipeMeans(driver, key, recipe);
      FilledMeans(recipe, path, filled);
      SpliceMeans(doc, key, filled, after);
    }
    if FillsIn(doc, driver, key, path, after) {
      var recipe, filled :|
        IsRecipe(driver, key, recipe) && IsFilled(recipe, path, filled) && IsSpliced(doc, key, filled, after);
      RecipeMeans(driver, key, recipe);
      FilledMeans(recipe, path, filled);
      SpliceMeans(doc, key, filled, after);
    }
  }

  lemma {:induction false} BaselinesAre()
    ensures BASELINES == [Baseline("lint-ratchet", "lint-ratchet.baseline.json")] +
                         [Baseline("knip-unused-exports", "sensor-knip-unused-exports.baseline.json")] +
                         [Baseline("near-duplicates", "sensor-near-duplicates.baseline.json")] +
                         [Baseline("max-lines-exceptions", "eslint-config/max-lines-exceptions.baseline.json")]
  {
  }

  lemma {:induction false} KeysAreKeys()
    ensures IsKey("knip-unused-exports") && IsKey("near-duplicates") && IsKey("max-lines-exceptions")
    ensures "knip-unused-exports" != "lint-ratchet" && "near-duplicates" != "lint-ratchet"
    ensures "max-lines-exceptions" != "lint-ratchet"
  {
    hide IsBlank;
    PrintableIsSolid('k');
    PrintableIsSolid('n');
    PrintableIsSolid('m');
    assert "knip-unused-exports"[0] == 'k' && "near-duplicates"[0] == 'n' && "max-lines-exceptions"[0] == 'm';
  }

  /**
   A run succeeds with the given runbook exactly when it can be reached by four
   such splices, one after the other.
   */
  lemma {:induction false} GeneratorMeans(doc: string, driver: string, renderRatchet: string -> string,
                                          rendered: string)
    ensures SpliceBaselines(doc, driver, renderRatchet, BASELINES) == Ok(rendered) <==>
            IsRun(doc, driver, renderRatchet, rendered)
  {
    hide Splice, RecipeOf, SpliceBaselines, Step, IsSpliced, FillsIn, IsKey;
    BaselinesAre();
    KeysAreKeys();
    RatchetStep(doc, driver, renderRatchet, rendered);
    forall first ensures RestRun(first, driver, renderRatchet, rendered) <==>
        SpliceBaselines(first, driver, renderRatchet, BASELINES[1..]) == Ok(rendered)
    {
      DriverSteps(first, driver, renderRatchet, rendered);
    }
  }

  ghost predicate RestRun(first: string, driver: string, renderRatchet: string -> string, rendered: string) {
    exists second, third ::
      FillsIn(first, driver, "knip-unused-exports", "sensor-knip-unused-exports.baseline.json", second) &&
      FillsIn(second, driver, "near-duplicates", "sensor-near-duplicates.baseline.json", third) &&
      FillsIn(third, driver, "max-lines-exceptions", "eslint-config/max-lines-exceptions.baseline.json", rendered)
  }

  lemma {:induction false} RatchetStep(doc: string, driver: string, renderRatchet: string -> string, rendered: string)
    ensures SpliceBaselines(doc, driver, renderRatchet, BASELINES) == Ok(rendered) <==>
            exists first ::
              IsSpliced(doc, "lint-ratchet", renderRatchet("lint-ratchet.baseline.json"), first) &&
              SpliceBaselines(first, driver, renderRatchet, BASELINES[1..]) == Ok(rendered)
  {
    hide Splice, SpliceBaselines, IsSpliced;
    OneStep(doc, driver, renderRatchet, BASELINES, rendered);
    forall first ensures IsSpliced(doc, "lint-ratchet", renderRatchet("lint-ratchet.baseline.json"), first) <==>
        Step(doc, driver, renderRatchet, BASELINES[0]) == Some(first)
    {
      SpliceMeans(doc, "lint-ratchet", renderRatchet("lint-ratchet.baseline.json"), first);
    }
  }

  lemma {:induction false} LastStep(doc: string, driver: string, renderRatchet: string -> string, rendered: string)
    ensures BASELINES[4..] == [] &&
            (SpliceBaselines(doc, driver, renderRatchet, []) == Ok(rendered) <==> doc == rendered)
  {
  }

  lemma {:induction false} NextStep(doc: string, driver: string, renderRatchet: string -> string, i: nat,
                                    key: string, path: string, rendered: string)
    requires 0 < i < 4 && BASELINES[i] == Baseline(key, path) && IsKey(key) && key != "lint-ratchet"
    ensures SpliceBaselines(doc, driver, renderRatchet, BASELINES[i..]) == Ok(rendered) <==>
            exists after ::
              FillsIn(doc, driver, key, path, after) &&
              SpliceBaselines(after, driver, renderRatchet, BASELINES[i..][1..]) == Ok(rendered)
  {
    hide Splice, SpliceBaselines, FillsIn, IsKey, Step;
    OneStep(doc, driver, renderRatchet, BASELINES[i..], rendered);
    forall after ensures FillsIn(doc, driver, key, path, after) <==>
        Step(doc, driver, renderRatchet, BASELINES[i..][0]) == Some(after)
    {
      DriverStep(doc, driver, renderRatchet, key, path, after);
    }
  }

  lemma {:induction false} DriverSteps(first: string, driver: string, renderRatchet: string -> string,
                                       rendered: string)
    ensures RestRun(first, driver, renderRatchet, rendered) <==>
            SpliceBaselines(first, driver, renderRatchet, BASELINES[1..]) == Ok(rendered)
  {
    hide SpliceBaselines, FillsIn, IsKey;
    BaselinesAre();
    KeysAreKeys();
    assert BASELINES[1..][1..] == BASELINES[2..] && BASELINES[2..][1..] == BASELINES[3..] && BASELINES[3..][1..] == [];
    NextStep(first, driver, renderRatchet, 1, "knip-unused-exports", "sensor-knip-unused-exports.baseline.json",
             rendered);
    forall second
      ensures SpliceBaselines(second, driver, renderRatchet, BASELINES[2..]) == Ok(rendered) <==>
              exists third ::
                FillsIn(second, driver, "near-duplicates", "sensor-near-duplicates.baseline.json", third) &&
                FillsIn(third, driver, "max-lines-exceptions", "eslint-config/max-lines-exceptions.baseline.json",
                        rendered)
    {
      NextStep(second, driver, renderRatchet, 2, "near-duplicates", "sensor-near-duplicates.baseline.json", rendered);
      forall third
        ensures SpliceBaselines(third, driver, renderRatchet, BASELINES[3..]) == Ok(rendered) <==>
                FillsIn(third, driver, "max-lines-exceptions", "eslint-config/max-lines-exceptions.baseline.json",
                        rendered)
      {
        NextStep(third, driver, renderRatchet, 3, "max-lines-exceptions",
                 "eslint-config/max-lines-exceptions.baseline.json", rendered);
        forall after ensures SpliceBaselines(after, driver, renderRatchet, []) == Ok(rendered) <==> after == rendered {
          LastStep(after, driver, renderRatchet, rendered);
        }
      }
    }
  }

  /** Filling in these paths leaves no placeholder. */
  lemma {:induction false} PathsFillAll(text: string, filled: string, i: nat)
    requires i < |BASELINES| && IsFilled(text, BASELINES[i].path, filled)
    ensures !IsSubstring("$path", filled)
  {
    hide IsFilled, IsSubstring;
    PathsCannotContinue();
    NothingLeftToFill(text, BASELINES[i].path, filled);
  }

  lemma {:induction false} PathsCannotContinue()
    ensures forall i | 0 <= i < |BASELINES| :: CannotContinue(BASELINES[i].path)
  {
    BaselinesAre();
    hide CannotContinue;
    LiteralPaths();
  }

  lemma {:induction false} LiteralPaths()
    ensures CannotContinue("lint-ratchet.baseline.json") && CannotContinue("sensor-knip-unused-exports.baseline.json")
    ensures CannotContinue("sensor-near-duplicates.baseline.json")
    ensures CannotContinue("eslint-config/max-lines-exceptions.baseline.json")
  {
    var end := ".baseline.json";
    NoDollars();
    assert "lint-ratchet.baseline.json" == "lint-ratchet" + end;
    assert "sensor-knip-unused-exports.baseline.json" == "sensor-knip-unused-exports" + end;
    assert "sensor-near-duplicates.baseline.json" == "sensor-near-duplicates" + end;
    assert "eslint-config/max-lines-exceptions.baseline.json" == "eslint-config/max-lines-exceptions" + end;
  }

  lemma {:induction false} NoDollars()
    ensures '$' !in ".baseline.json" && '$' !in "lint-ratchet" && '$' !in "sensor-knip-unused-exports"
    ensures '$' !in "sensor-near-duplicates" && '$' !in "eslint-config/max-lines-exceptions"
  {
  }
}
