/**
 The line count of the max-lines rule.  A line occupied only by comments is
 skipped: the rule looks at each comment's nearest code tokens, and that decides
 exactly the lines some comment touches and no code token does.
 */
module EffectiveLines {
  import opened Text
  import opened Wrappers

  datatype Kind = Code | BlockComment | LineComment | Shebang

  /** A token or comment of the source, with its first and last line. */
  datatype Token = Token(kind: Kind, startLine: nat, endLine: nat) {
    /** What the file hands out among its comments; a shebang line is one of them. */
    predicate IsComment() {
      !kind.Code?
    }

    /** What the search for code steps over; it does not step over a shebang line. */
    predicate IsSkipped() {
      kind.BlockComment? || kind.LineComment?
    }

    predicate Touches(line: nat) {
      startLine <= line <= endLine
    }
  }

  /**
   Tokens and comments in source order, none overlapping another; a shebang
   line comes first and is a line of its own.
   */
  ghost predicate InOrder(tokens: seq<Token>) {
    (forall i | 0 <= i < |tokens| :: tokens[i].startLine <= tokens[i].endLine) &&
    (forall i, j | 0 <= i < j < |tokens| :: tokens[i].endLine <= tokens[j].startLine) &&
    forall i | 0 <= i < |tokens| && tokens[i].kind.Shebang? ::
      i == 0 && tokens[i].startLine == tokens[i].endLine &&
      forall j | 0 < j < |tokens| :: tokens[i].endLine < tokens[j].startLine
  }

  ghost predicate CodeTouches(tokens: seq<Token>, line: nat) {
    exists i | 0 <= i < |tokens| :: tokens[i].kind.Code? && tokens[i].Touches(line)
  }

  ghost predicate CommentTouches(tokens: seq<Token>, line: nat) {
    exists i | 0 <= i < |tokens| :: tokens[i].IsComment() && tokens[i].Touches(line)
  }

  // ---- The neighbours of a comment ----

  /** Nearest token before position `i` that is not stepped over. */
  function CodeBefore(tokens: seq<Token>, i: nat): (found: Option<nat>)
    requires i <= |tokens|
    ensures found.Some? ==> found.value < i && !tokens[found.value].IsSkipped()
    ensures forall k | (if found.Some? then found.value + 1 else 0) <= k < i :: tokens[k].IsSkipped()
  {
    if i == 0 then None else if !tokens[i - 1].IsSkipped() then Some(i - 1) else CodeBefore(tokens, i - 1)
  }

  /** Nearest token at or after position `i` that is not stepped over. */
  function CodeFrom(tokens: seq<Token>, i: nat): (found: Option<nat>)
    requires i <= |tokens|
    ensures found.Some? ==> i <= found.value < |tokens| && !tokens[found.value].IsSkipped()
    ensures forall k | i <= k < (if found.Some? then found.value else |tokens|) :: tokens[k].IsSkipped()
    decreases |tokens| - i
  {
    if i == |tokens| then None else if !tokens[i].IsSkipped() then Some(i) else CodeFrom(tokens, i + 1)
  }

  datatype Side = Before | After

  /** Steps over block and line comments until another token or the end of the file. */
  method AdjacentCodeToken(tokens: seq<Token>, comment: nat, side: Side) returns (found: Option<nat>)
    requires comment < |tokens|
    ensures found == if side == Before then CodeBefore(tokens, comment) else CodeFrom(tokens, comment + 1)
  {
    if side == Before {
      var i: nat := comment;
      while i > 0 && tokens[i - 1].IsSkipped()
        invariant i <= comment && CodeBefore(tokens, i) == CodeBefore(tokens, comment)
      {
        i := i - 1;
      }
      return if i == 0 then None else Some(i - 1);
    } else {
      var i: nat := comment + 1;
      while i < |tokens| && tokens[i].IsSkipped()
        invariant i <= |tokens| && CodeFrom(tokens, i) == CodeFrom(tokens, comment + 1)
      {
        i := i + 1;
      }
      return if i == |tokens| then None else Some(i);
    }
  }

  function LineRange(start: nat, end: nat): (lines: seq<nat>)
    requires start <= end
    ensures forall line :: line in lines <==> start <= line < end
    decreases end - start
  {
    if start == end then [] else [start] + LineRange(start + 1, end)
  }

  /** The lines of a comment, less its first and last when the neighbouring code shares them. */
  method CommentOnlyLines(tokens: seq<Token>, comment: nat) returns (lines: seq<nat>)
    requires InOrder(tokens) && comment < |tokens| && tokens[comment].IsComment()
    ensures forall line: nat :: line in lines <==> tokens[comment].Touches(line) && !CodeTouches(tokens, line)
  {
    var start: int, end: int := tokens[comment].startLine, tokens[comment].endLine;
    var before := AdjacentCodeToken(tokens, comment, Before);
    if before.Some? && tokens[before.value].endLine == tokens[comment].startLine {
      start := start + 1;
    }
    var after := AdjacentCodeToken(tokens, comment, After);
    if after.Some? && tokens[comment].endLine == tokens[after.value].startLine {
      end := end - 1;
    }
    lines := if start <= end then LineRange(start, end + 1) else [];
    forall line: nat ensures line in lines <==> tokens[comment].Touches(line) && !CodeTouches(tokens, line) {
      if tokens[comment].Touches(line) {
        NeighboursDecide(tokens, comment, line);
      }
    }
  }

  /** On a comment's lines, only the nearest code tokens on either side can touch. */
  lemma NeighboursDecide(tokens: seq<Token>, comment: nat, line: nat)
    requires InOrder(tokens) && comment < |tokens| && tokens[comment].IsComment() && tokens[comment].Touches(line)
    ensures var before, after := CodeBefore(tokens, comment), CodeFrom(tokens, comment + 1);
            CodeTouches(tokens, line) <==>
              (before.Some? && tokens[before.value].endLine == line == tokens[comment].startLine) ||
              (after.Some? && tokens[after.value].startLine == line == tokens[comment].endLine)
  {
  }

  // ---- The count ----

  datatype Line = Line(number: nat, text: string)

  datatype Options = Options(skipBlankLines: bool, skipComments: bool)

  function Numbered(texts: seq<string>): (lines: seq<Line>)
    ensures |lines| == |texts|
    ensures forall i | 0 <= i < |texts| :: lines[i] == Line(i + 1, texts[i])
  {
    seq(|texts|, i requires 0 <= i < |texts| => Line(i + 1, texts[i]))
  }

  function Keep(lines: seq<Line>, keeps: Line -> bool): seq<Line> {
    if lines == [] then []
    else (if keeps(lines[0]) then [lines[0]] else []) + Keep(lines[1..], keeps)
  }

  /** The line a trailing newline leaves behind is not a line. */
  predicate IsPhantom(texts: seq<string>, line: Line) {
    |texts| > 1 && texts[|texts| - 1] == "" && line.number == |texts|
  }

  ghost predicate Counts(texts: seq<string>, tokens: seq<Token>, options: Options, line: Line) {
    !IsPhantom(texts, line) &&
    (options.skipBlankLines ==> !AllBlank(line.text)) &&
    (options.skipComments ==> !(CommentTouches(tokens, line.number) && !CodeTouches(tokens, line.number)))
  }

  /** Lines in source order that are exactly those `texts` holds and `Counts` keeps. */
  ghost predicate IsCount(texts: seq<string>, tokens: seq<Token>, options: Options, lines: seq<Line>) {
    (forall i, j | 0 <= i < j < |lines| :: lines[i].number < lines[j].number) &&
    forall line :: line in lines <==>
      1 <= line.number <= |texts| && line.text == texts[line.number - 1] && Counts(texts, tokens, options, line)
  }

  ghost predicate Increasing(lines: seq<Line>) {
    forall i, j | 0 <= i < j < |lines| :: lines[i].number < lines[j].number
  }

  lemma {:induction false} KeepMeaning(lines: seq<Line>, keeps: Line -> bool)
    requires Increasing(lines)
    ensures Increasing(Keep(lines, keeps))
    ensures forall line :: line in Keep(lines, keeps) <==> line in lines && keeps(line)
  {
    if lines != [] {
      KeepMeaning(lines[1..], keeps);
      assert lines == [lines[0]] + lines[1..];
      var rest := Keep(lines[1..], keeps);
      forall i | 0 <= i < |rest| ensures lines[0].number < rest[i].number {
        assert rest[i] in lines[1..];
      }
    }
  }

  method AllCommentOnlyLines(tokens: seq<Token>) returns (numbers: set<nat>)
    requires InOrder(tokens)
    ensures forall line: nat :: line in numbers <==> CommentTouches(tokens, line) && !CodeTouches(tokens, line)
  {
    numbers := {};
    for i := 0 to |tokens|
      invariant forall line: nat :: line in numbers <==>
                  (exists k | 0 <= k < i :: tokens[k].IsComment() && tokens[k].Touches(line)) &&
                  !CodeTouches(tokens, line)
    {
      if tokens[i].IsComment() {
        var only := CommentOnlyLines(tokens, i);
        numbers := numbers + (set line | line in only);
      }
    }
  }

  /** The source lines without the phantom one. */
  method RealLines(texts: seq<string>) returns (lines: seq<Line>)
    ensures Increasing(lines)
    ensures forall line :: line in lines <==>
              1 <= line.number <= |texts| && line.text == texts[line.number - 1] && !IsPhantom(texts, line)
  {
    var all := Numbered(texts);
    lines := all;
    if |all| > 1 && all[|all| - 1].text == "" {
      lines := all[..|all| - 1];
    }
    forall line: Line | 1 <= line.number <= |texts| && line.text == texts[line.number - 1] && !IsPhantom(texts, line)
      ensures line in lines
    {
      assert lines[line.number - 1] == line;
    }
  }

  /**
   The lines the rule counts: everything but the phantom line and, as the
   options ask, blank lines and the lines some comment touches but no code does.
   */
  method CountedLines(texts: seq<string>, tokens: seq<Token>, options: Options) returns (lines: seq<Line>)
    requires InOrder(tokens)
    ensures IsCount(texts, tokens, options, lines)
  {
    lines := RealLines(texts);
    if options.skipBlankLines {
      var keeps := (line: Line) => !AllBlank(line.text);
      KeepMeaning(lines, keeps);
      lines := Keep(lines, keeps);
    }
    if options.skipComments {
      var commentLines := AllCommentOnlyLines(tokens);
      var keeps := (line: Line) => line.number !in commentLines;
      KeepMeaning(lines, keeps);
      lines := Keep(lines, keeps);
    }
  }
}
