/**
 What a status value says of its note, read off the text itself: words are runs
 of letters and digits, and punctuation ends a statement.
 */
module StatusWords {
  import opened BacklogStatus
  import opened Stretches
  import opened Text

  // ---- Words and statements ----

  predicate IsWordChar(c: char) {
    'a' <= c <= 'z' || '0' <= c <= '9'
  }

  /** A longest run of letters and digits. */
  predicate WordAt(s: string, i: nat, j: nat) {
    i < j <= |s| && (forall k | i <= k < j :: IsWordChar(s[k])) &&
    (i > 0 ==> !IsWordChar(s[i - 1])) && (j < |s| ==> !IsWordChar(s[j]))
  }

  predicate EndsStatement(c: char) {
    c == '.' || c == ';' || c == ':' || c == ',' || c == '/' || c == '|' || c == '(' || c == ')' || c == '[' ||
    c == ']' || c == '{' || c == '}' || c == '-' || c == '\U{2014}' || c == '\U{2013}'
  }

  /** Nothing between the positions ends a statement. */
  predicate InOneStatement(s: string, i: nat, j: nat)
    requires i <= j <= |s|
  {
    forall k | i <= k < j :: !EndsStatement(s[k])
  }

  /** A negation or a hedge. */
  predicate Weakens(word: string) {
    word in NEGATION_TOKENS || word in HEDGE_TOKENS
  }

  /** A word of the vocabulary. */
  predicate Speaks(word: string) {
    word in TERMINAL_TOKENS || word in ACTIVE_TOKENS
  }

  lemma {:induction false} WordsMean()
    ensures forall word :: NeutralizesCompletion(word) <==> Weakens(word)
    ensures forall word :: IsRecognized(word) <==> Speaks(word)
  {
  }

  /** A terminal word that nothing before it in its statement denies or dilutes. */
  ghost predicate Completes(s: string, i: nat, j: nat) {
    WordAt(s, i, j) && s[i..j] in TERMINAL_TOKENS &&
    forall k: nat, l: nat | WordAt(s, k, l) && l <= i && InOneStatement(s, l, i) :: !Weakens(s[k..l])
  }

  /** A closing word that opens the whole value. */
  ghost predicate OpensClosed(s: string, i: nat, j: nat) {
    WordAt(s, i, j) && s[i..j] in LEAD_CLOSING_TOKENS && forall k: nat, l: nat | WordAt(s, k, l) :: i <= k
  }

  /** No earlier statement has a word of the vocabulary. */
  ghost predicate SpeaksFirst(s: string, i: nat) {
    i <= |s| &&
    forall k: nat, l: nat | WordAt(s, k, l) && l <= i && Speaks(s[k..l]) :: InOneStatement(s, l, i)
  }

  // ---- What is kept of a list ----

  /** `kept` are the positions of the non-empty members `ys` of `xs`, in order. */
  ghost predicate Keeps<T(!new)>(xs: seq<seq<T>>, ys: seq<seq<T>>, kept: seq<nat>) {
    |kept| == |ys| && (forall i | 0 <= i < |kept| :: kept[i] < |xs| && ys[i] == xs[kept[i]] && ys[i] != []) &&
    (forall i, j | 0 <= i < j < |kept| :: kept[i] < kept[j]) &&
    forall k: nat | k < |xs| && xs[k] != [] :: k in kept
  }

  lemma {:induction false} NonEmptyKeeps<T(!new)>(xs: seq<seq<T>>) returns (kept: seq<nat>)
    ensures Keeps(xs, NonEmpty(xs), kept)
    decreases |xs|
  {
    hide Keeps;
    if xs == [] {
      kept := [];
      NothingKept<T>();
    } else {
      var below := NonEmptyKeeps(xs[1..]);
      kept := KeepsOneMore(xs, NonEmpty(xs[1..]), below);
    }
  }

  lemma {:induction false} NothingKept<T(!new)>()
    ensures Keeps<T>([], NonEmpty([]), [])
  {
  }

  /** `kept` are the positions `below`, one further, after position 0 if `n` is 1. */
  ghost predicate Extends(below: seq<nat>, kept: seq<nat>, n: nat) {
    n <= 1 && |kept| == |below| + n && (n == 1 ==> kept[0] == 0) &&
    forall i: nat | n <= i < |kept| :: kept[i] == below[i - n] + 1
  }

  lemma {:induction false} KeepsOneMore<T(!new)>(xs: seq<seq<T>>, ys: seq<seq<T>>, below: seq<nat>)
      returns (kept: seq<nat>)
    requires xs != [] && Keeps(xs[1..], ys, below)
    ensures Keeps(xs, (if xs[0] == [] then [] else [xs[0]]) + ys, kept)
  {
    var n, first := if xs[0] == [] then 0 else 1, if xs[0] == [] then [] else [xs[0]];
    kept := (if xs[0] == [] then [] else [0]) + OneMore(below);
    KeptAscend(below, kept, n);
    KeptAll(xs, below, kept, n);
    KeptMembers(xs, ys, below, kept, n, first + ys);
  }

  lemma {:induction false} KeptAscend(below: seq<nat>, kept: seq<nat>, n: nat)
    requires Extends(below, kept, n) && forall i, j | 0 <= i < j < |below| :: below[i] < below[j]
    ensures forall i, j | 0 <= i < j < |kept| :: kept[i] < kept[j]
  {
  }

  lemma {:induction false} KeptAll<T(!new)>(xs: seq<seq<T>>, below: seq<nat>, kept: seq<nat>, n: nat)
    requires xs != [] && Extends(below, kept, n) && (n == 0 <==> xs[0] == [])
    requires forall k: nat | k < |xs[1..]| && xs[1..][k] != [] :: k in below
    ensures forall k: nat | k < |xs| && xs[k] != [] :: k in kept
  {
    forall k: nat | k < |xs| && xs[k] != [] ensures k in kept {
      if k > 0 {
        assert xs[1..][k - 1] == xs[k];
        var i :| 0 <= i < |below| && below[i] == k - 1;
        assert kept[i + n] == k;
      }
    }
  }

  lemma {:induction false} KeptMembers<T(!new)>(xs: seq<seq<T>>, ys: seq<seq<T>>, below: seq<nat>, kept: seq<nat>,
                                                n: nat, zs: seq<seq<T>>)
    requires xs != [] && Extends(below, kept, n) && (n == 0 <==> xs[0] == []) && |ys| == |below|
    requires forall i | 0 <= i < |below| :: below[i] < |xs[1..]| && ys[i] == xs[1..][below[i]] && ys[i] != []
    requires |zs| == |kept| && (n == 1 ==> zs[0] == xs[0]) && forall i | n <= i < |zs| :: zs[i] == ys[i - n]
    ensures forall i | 0 <= i < |kept| :: kept[i] < |xs| && zs[i] == xs[kept[i]] && zs[i] != []
  {
    forall i | 0 <= i < |kept| ensures kept[i] < |xs| && zs[i] == xs[kept[i]] && zs[i] != [] {
      if i >= n {
        assert xs[1..][below[i - n]] == xs[kept[i]];
      }
    }
  }

  function OneMore(xs: seq<nat>): (more: seq<nat>)
    ensures |more| == |xs| && forall i | 0 <= i < |xs| :: more[i] == xs[i] + 1
  {
    seq(|xs|, i requires 0 <= i < |xs| => xs[i] + 1)
  }

  // ---- Where the words are ----

  /** The words of `t` and where they are. */
  ghost predicate AreWords(t: string, tokens: seq<string>, at: seq<(nat, nat)>) {
    |at| == |tokens| &&
    (forall m | 0 <= m < |at| :: WordAt(t, at[m].0, at[m].1) && t[at[m].0..at[m].1] == tokens[m]) &&
    (forall m, n | 0 <= m < n < |at| :: at[m].1 <= at[n].0) &&
    forall i: nat, j: nat | WordAt(t, i, j) :: (i, j) in at
  }

  lemma {:induction false} WordMeansLies(t: string, i: nat, j: nat)
    ensures WordAt(t, i, j) <==> i < j && Lies(t, IsSeparator, i, j)
  {
  }

  lemma {:induction false} TokensLie(t: string) returns (at: seq<(nat, nat)>)
    ensures AreWords(t, Tokens(t), at)
  {
    var pieces := Pieces(t, IsSeparator);
    var spans := PiecesLie(t, IsSeparator);
    var kept := NonEmptyKeeps(pieces);
    hide Pieces, NonEmpty, WordAt;
    at := Chosen(spans, kept);
    KeptWords(t, pieces, spans, Tokens(t), kept, at);
    forall i: nat, j: nat | WordAt(t, i, j) ensures (i, j) in at {
      WordMeansLies(t, i, j);
      var k := StretchIsPiece(t, IsSeparator, pieces, spans, i, j);
      PieceIsLong(t, spans[k], pieces[k]);
      var m :| 0 <= m < |kept| && kept[m] == k;
      assert at[m] == (i, j);
    }
  }

  function Chosen(spans: seq<(nat, nat)>, kept: seq<nat>): (chosen: seq<(nat, nat)>)
    requires forall m | 0 <= m < |kept| :: kept[m] < |spans|
    ensures |chosen| == |kept| && forall m | 0 <= m < |kept| :: chosen[m] == spans[kept[m]]
  {
    seq(|kept|, m requires 0 <= m < |kept| => spans[kept[m]])
  }

  lemma {:induction false} KeptWords(t: string, pieces: seq<string>, spans: seq<(nat, nat)>, tokens: seq<string>,
                                     kept: seq<nat>, at: seq<(nat, nat)>)
    requires AreSpans(t, IsSeparator, pieces, spans) && Keeps(pieces, tokens, kept) && |at| == |kept|
    requires forall m | 0 <= m < |kept| :: at[m] == spans[kept[m]]
    ensures |at| == |tokens| && forall m, n | 0 <= m < n < |at| :: at[m].1 <= at[n].0
    ensures forall m | 0 <= m < |at| ::
              WordAt(t, at[m].0, at[m].1) && at[m].0 <= at[m].1 <= |t| && t[at[m].0..at[m].1] == tokens[m]
  {
    hide WordAt, PieceLies;
    forall m | 0 <= m < |at|
      ensures WordAt(t, at[m].0, at[m].1) && at[m].0 <= at[m].1 <= |t| && t[at[m].0..at[m].1] == tokens[m]
    {
      PieceIsWord(t, spans[kept[m]], pieces[kept[m]]);
      WordBounds(t, at[m].0, at[m].1);
    }
    forall m, n | 0 <= m < n < |at| ensures at[m].1 <= at[n].0 {
      SpansAscend(t, IsSeparator, pieces, spans, kept[m], kept[n]);
    }
  }

  lemma {:induction false} PieceIsWord(t: string, span: (nat, nat), piece: string)
    requires PieceLies(t, IsSeparator, span, piece) && piece != ""
    ensures WordAt(t, span.0, span.1) && span.1 <= |t| && t[span.0..span.1] == piece
  {
  }

  lemma {:induction false} PieceIsLong(t: string, span: (nat, nat), piece: string)
    requires PieceLies(t, IsSeparator, span, piece) && span.0 < span.1
    ensures piece != ""
  {
  }

  lemma {:induction false} BoundaryMeans(c: char)
    ensures IsBoundary(c) <==> EndsStatement(c)
    ensures IsBoundary(c) ==> !IsWordChar(c)
  {
  }

  /** A word of a statement is a word of the whole. */
  lemma {:induction false} WordOfStatement(s: string, a: nat, b: nat, i: nat, j: nat)
    requires Lies(s, IsBoundary, a, b)
    ensures WordAt(s[a..b], i, j) <==> a + j <= b && WordAt(s, a + i, a + j)
  {
    var t := s[a..b];
    if a > 0 {
      BoundaryMeans(s[a - 1]);
    }
    if b < |s| {
      BoundaryMeans(s[b]);
    }
    assert forall k | 0 <= k < |t| :: t[k] == s[a + k];
    if a + j <= b && WordAt(s, a + i, a + j) {
      assert forall k | i <= k < j :: t[k] == s[a + k];
    }
    if WordAt(t, i, j) {
      assert forall k | a + i <= k < a + j :: s[k] == t[k - a];
    }
  }

  /** Every word lies in one statement. */
  lemma {:induction false} WordInStatement(s: string, pieces: seq<string>, spans: seq<(nat, nat)>, i: nat, j: nat)
      returns (k: nat)
    requires AreSpans(s, IsBoundary, pieces, spans) && WordAt(s, i, j)
    ensures k < |spans| && spans[k].0 <= i && j <= spans[k].1
  {
    k := PieceAround(s, IsBoundary, pieces, spans, i, |spans| - 1);
    assert PieceLies(s, IsBoundary, spans[k], pieces[k]);
    if spans[k].1 < j {
      BoundaryMeans(s[spans[k].1]);
    }
  }

  ghost predicate Shaped(clauses: seq<seq<string>>, at: seq<seq<(nat, nat)>>) {
    |at| == |clauses| && forall c | 0 <= c < |at| :: |at[c]| == |clauses[c]| > 0
  }

  ghost predicate AreThere(s: string, clauses: seq<seq<string>>, at: seq<seq<(nat, nat)>>)
    requires Shaped(clauses, at)
  {
    forall c, m | 0 <= c < |at| && 0 <= m < |at[c]| ::
      WordAt(s, at[c][m].0, at[c][m].1) && s[at[c][m].0..at[c][m].1] == clauses[c][m]
  }

  predicate Joined(s: string, i: nat, j: nat) {
    i <= j <= |s| && InOneStatement(s, i, j)
  }

  predicate Parted(s: string, i: nat, j: nat) {
    i <= j <= |s| && !InOneStatement(s, i, j)
  }

  ghost predicate StayTogether(s: string, at: seq<seq<(nat, nat)>>) {
    forall c, m, n | 0 <= c < |at| && 0 <= m < n < |at[c]| :: Joined(s, at[c][m].1, at[c][n].0)
  }

  ghost predicate StayApart(s: string, at: seq<seq<(nat, nat)>>) {
    forall c, d, m, n | 0 <= c < d < |at| && 0 <= m < |at[c]| && 0 <= n < |at[d]| :: Parted(s, at[c][m].1, at[d][n].0)
  }

  ghost predicate AreAll(s: string, at: seq<seq<(nat, nat)>>) {
    forall i: nat, j: nat | WordAt(s, i, j) :: exists c, m :: 0 <= c < |at| && 0 <= m < |at[c]| && at[c][m] == (i, j)
  }

  /** The words of each statement, and where they are in the whole. */
  ghost predicate AreStatements(s: string, clauses: seq<seq<string>>, at: seq<seq<(nat, nat)>>) {
    Shaped(clauses, at) && AreThere(s, clauses, at) && StayTogether(s, at) && StayApart(s, at) && AreAll(s, at)
  }

  lemma {:induction false} EachTokens(clauses: seq<string>)
    ensures |TokensOfEach(clauses)| == |clauses|
    ensures forall k | 0 <= k < |clauses| :: TokensOfEach(clauses)[k] == Tokens(clauses[k])
  {
    if clauses != [] {
      EachTokens(clauses[1..]);
      hide Tokens;
      forall k | 0 <= k < |clauses| ensures TokensOfEach(clauses)[k] == Tokens(clauses[k]) {
        assert k > 0 ==> clauses[k] == clauses[1..][k - 1];
      }
    }
  }

  /** The words of the statement at `span`, by their places in the whole. */
  ghost predicate AreWordsOf(s: string, span: (nat, nat), tokens: seq<string>, at: seq<(nat, nat)>) {
    |at| == |tokens| && span.0 <= span.1 <= |s| &&
    (forall m | 0 <= m < |at| ::
       WordAt(s, at[m].0, at[m].1) && s[at[m].0..at[m].1] == tokens[m] && span.0 <= at[m].0 && at[m].1 <= span.1) &&
    (forall m, n | 0 <= m < n < |at| :: at[m].1 <= at[n].0) &&
    forall i: nat, j: nat | WordAt(s, i, j) && span.0 <= i && j <= span.1 :: (i, j) in at
  }

  function ShiftedBy(spans: seq<(nat, nat)>, n: nat): (shifted: seq<(nat, nat)>)
    ensures |shifted| == |spans|
    ensures forall i | 0 <= i < |spans| :: shifted[i] == (spans[i].0 + n, spans[i].1 + n)
  {
    seq(|spans|, i requires 0 <= i < |spans| => (spans[i].0 + n, spans[i].1 + n))
  }

  lemma {:induction false} WordShifts(s: string, span: (nat, nat), piece: string, i: nat, j: nat)
    requires PieceLies(s, IsBoundary, span, piece) && WordAt(piece, i, j)
    ensures WordAt(s, span.0 + i, span.0 + j) && span.0 + j <= span.1 <= |s| && j <= |piece|
    ensures s[span.0 + i..span.0 + j] == piece[i..j]
  {
    WordOfStatement(s, span.0, span.1, i, j);
  }

  lemma {:induction false} StatementLies(s: string, span: (nat, nat), piece: string) returns (at: seq<(nat, nat)>)
    requires PieceLies(s, IsBoundary, span, piece)
    ensures AreWordsOf(s, span, Tokens(piece), at)
  {
    var tokens := Tokens(piece);
    var below := TokensLie(piece);
    at := ShiftedBy(below, span.0);
    hide Tokens, WordAt, PieceLies, ShiftedBy, AreWords;
    PieceBounds(s, span, piece);
    assert |at| == |below| && forall m | 0 <= m < |at| :: at[m] == (below[m].0 + span.0, below[m].1 + span.0);
    ShiftedWords(s, span, piece, tokens, below, at);
    forall i: nat, j: nat | WordAt(s, i, j) && span.0 <= i && j <= span.1 ensures (i, j) in at {
      StatementWord(s, span, piece, tokens, below, i, j);
      var m :| 0 <= m < |below| && below[m] == (i - span.0, j - span.0);
      assert at[m] == (i, j);
    }
  }

  lemma {:induction false} ShiftedWords(s: string, span: (nat, nat), piece: string, tokens: seq<string>,
                                        below: seq<(nat, nat)>, at: seq<(nat, nat)>)
    requires PieceLies(s, IsBoundary, span, piece) && AreWords(piece, tokens, below) && |at| == |below|
    requires forall m | 0 <= m < |at| :: at[m] == (below[m].0 + span.0, below[m].1 + span.0)
    ensures |at| == |tokens| && span.1 <= |s| && forall m, n | 0 <= m < n < |at| :: at[m].1 <= at[n].0
    ensures forall m | 0 <= m < |at| ::
              WordAt(s, at[m].0, at[m].1) && s[at[m].0..at[m].1] == tokens[m] &&
              span.0 <= at[m].0 && at[m].1 <= span.1
  {
    PieceBounds(s, span, piece);
    hide WordAt, PieceLies;
    forall m | 0 <= m < |at|
      ensures WordAt(s, at[m].0, at[m].1) && span.0 <= at[m].0 <= at[m].1 <= span.1
      ensures s[at[m].0..at[m].1] == tokens[m]
    {
      ShiftedWord(s, span, piece, below[m], tokens[m]);
    }
  }

  lemma {:induction false} ShiftedWord(s: string, span: (nat, nat), piece: string, at: (nat, nat), token: string)
    requires PieceLies(s, IsBoundary, span, piece)
    requires WordAt(piece, at.0, at.1) && piece[at.0..at.1] == token
    ensures WordAt(s, at.0 + span.0, at.1 + span.0) && at.0 <= at.1 && at.1 + span.0 <= span.1 <= |s|
    ensures s[at.0 + span.0..at.1 + span.0] == token
  {
    WordShifts(s, span, piece, at.0, at.1);
    WordBounds(piece, at.0, at.1);
  }

  lemma {:induction false} StatementWord(s: string, span: (nat, nat), piece: string, tokens: seq<string>,
                                         below: seq<(nat, nat)>, i: nat, j: nat)
    requires PieceLies(s, IsBoundary, span, piece) && AreWords(piece, tokens, below)
    requires WordAt(s, i, j) && span.0 <= i && j <= span.1
    ensures j > span.0 && (i - span.0, j - span.0) in below
  {
    WordOfStatement(s, span.0, span.1, i - span.0, j - span.0);
  }

  lemma {:induction false} PieceBounds(s: string, span: (nat, nat), piece: string)
    requires PieceLies(s, IsBoundary, span, piece)
    ensures span.0 <= span.1 <= |s| && piece == s[span.0..span.1] && Lies(s, IsBoundary, span.0, span.1)
  {
  }

  lemma {:induction false} WordBounds(s: string, i: nat, j: nat)
    requires WordAt(s, i, j)
    ensures i < j <= |s|
  {
  }

  lemma {:induction false} StatementsBelow(s: string, pieces: seq<string>, spans: seq<(nat, nat)>, n: nat)
      returns (words: seq<seq<(nat, nat)>>)
    requires AreSpans(s, IsBoundary, pieces, spans) && n <= |pieces|
    ensures |words| == n && forall k | 0 <= k < n :: AreWordsOf(s, spans[k], Tokens(pieces[k]), words[k])
  {
    hide AreWordsOf, Tokens;
    words := [];
    if n > 0 {
      var before := StatementsBelow(s, pieces, spans, n - 1);
      var last := StatementLies(s, spans[n - 1], pieces[n - 1]);
      words := before + [last];
    }
  }

  lemma {:induction false} StatementsLie(status: string) returns (at: seq<seq<(nat, nat)>>)
    ensures AreStatements(Lower(status), ClauseTokens(status), at)
  {
    hide Lower, Pieces, IsBoundary, AreSpans, AreWordsOf, Tokens, TokensOfEach, AreStatements;
    var s := Lower(status);
    var pieces := Pieces(s, IsBoundary);
    var spans := PiecesLie(s, IsBoundary);
    var words := StatementsBelow(s, pieces, spans, |pieces|);
    EachTokens(pieces);
    var kept := NonEmptyKeeps(TokensOfEach(pieces));
    at := seq(|kept|, (c: int) requires 0 <= c < |kept| => words[kept[c]]);
    KeptStatements(s, pieces, spans, words, ClauseTokens(status), kept, at);
  }

  lemma {:induction false} KeptStatements(s: string, pieces: seq<string>, spans: seq<(nat, nat)>,
                                          words: seq<seq<(nat, nat)>>, clauses: seq<seq<string>>, kept: seq<nat>,
                                          at: seq<seq<(nat, nat)>>)
    requires AreSpans(s, IsBoundary, pieces, spans) && |words| == |pieces|
    requires forall k | 0 <= k < |pieces| :: AreWordsOf(s, spans[k], Tokens(pieces[k]), words[k])
    requires |TokensOfEach(pieces)| == |pieces|
    requires forall k | 0 <= k < |pieces| :: TokensOfEach(pieces)[k] == Tokens(pieces[k])
    requires Keeps(TokensOfEach(pieces), clauses, kept)
    requires |at| == |kept| && forall c | 0 <= c < |at| :: at[c] == words[kept[c]]
    ensures AreStatements(s, clauses, at)
  {
    hide Tokens, TokensOfEach, WordAt, InOneStatement, PieceLies, AreWordsOf;
    forall c | 0 <= c < |at|
      ensures AreWordsOf(s, spans[kept[c]], clauses[c], at[c]) && |at[c]| == |clauses[c]| > 0
    {
      WordsOf(s, spans[kept[c]], clauses[c], at[c]);
    }
    forall c, m | 0 <= c < |at| && 0 <= m < |at[c]|
      ensures WordAt(s, at[c][m].0, at[c][m].1) && at[c][m].0 <= at[c][m].1 <= |s|
      ensures s[at[c][m].0..at[c][m].1] == clauses[c][m]
    {
      WordsOf(s, spans[kept[c]], clauses[c], at[c]);
    }
    assert AreThere(s, clauses, at);
    hide AreThere;
    KeptTogether(s, pieces, spans, clauses, kept, at);
    forall i: nat, j: nat | WordAt(s, i, j)
      ensures exists c, m :: 0 <= c < |at| && 0 <= m < |at[c]| && at[c][m] == (i, j)
    {
      var c, m := KeptWord(s, pieces, spans, words, clauses, kept, i, j);
      assert at[c][m] == (i, j);
    }
  }

  lemma {:induction false} KeptTogether(s: string, pieces: seq<string>, spans: seq<(nat, nat)>,
                                        clauses: seq<seq<string>>, kept: seq<nat>, at: seq<seq<(nat, nat)>>)
    requires AreSpans(s, IsBoundary, pieces, spans) && |at| == |kept| == |clauses|
    requires forall c | 0 <= c < |at| :: kept[c] < |spans| && AreWordsOf(s, spans[kept[c]], clauses[c], at[c])
    requires forall c, d | 0 <= c < d < |kept| :: kept[c] < kept[d]
    ensures StayTogether(s, at) && StayApart(s, at)
  {
    hide WordAt, InOneStatement, PieceLies, AreWordsOf;
    forall c, m, n | 0 <= c < |at| && 0 <= m < n < |at[c]| ensures Joined(s, at[c][m].1, at[c][n].0) {
      WithinWords(s, spans[kept[c]], pieces[kept[c]], clauses[c], at[c], m, n);
    }
    forall c, d, m, n | 0 <= c < d < |at| && 0 <= m < |at[c]| && 0 <= n < |at[d]|
      ensures Parted(s, at[c][m].1, at[d][n].0)
    {
      AcrossWords(s, pieces, spans, kept[c], kept[d], clauses[c], at[c], clauses[d], at[d], m, n);
    }
  }

  lemma {:induction false} WordsOf(s: string, span: (nat, nat), tokens: seq<string>, at: seq<(nat, nat)>)
    requires AreWordsOf(s, span, tokens, at)
    ensures |at| == |tokens|
    ensures forall m | 0 <= m < |at| ::
              WordAt(s, at[m].0, at[m].1) && at[m].0 <= at[m].1 <= |s| && s[at[m].0..at[m].1] == tokens[m]
  {
  }

  lemma {:induction false} KeptWord(s: string, pieces: seq<string>, spans: seq<(nat, nat)>, words: seq<seq<(nat, nat)>>,
                                    clauses: seq<seq<string>>, kept: seq<nat>, i: nat, j: nat)
      returns (c: nat, m: nat)
    requires AreSpans(s, IsBoundary, pieces, spans) && |words| == |pieces| && WordAt(s, i, j)
    requires forall k | 0 <= k < |pieces| :: AreWordsOf(s, spans[k], Tokens(pieces[k]), words[k])
    requires |TokensOfEach(pieces)| == |pieces|
    requires forall k | 0 <= k < |pieces| :: TokensOfEach(pieces)[k] == Tokens(pieces[k])
    requires Keeps(TokensOfEach(pieces), clauses, kept)
    ensures c < |kept| && kept[c] < |words| && m < |words[kept[c]]| && words[kept[c]][m] == (i, j)
  {
    hide Tokens, TokensOfEach, WordAt, PieceLies;
    var k := WordInStatement(s, pieces, spans, i, j);
    assert AreWordsOf(s, spans[k], Tokens(pieces[k]), words[k]);
    assert (i, j) in words[k];
    m :| 0 <= m < |words[k]| && words[k][m] == (i, j);
    assert TokensOfEach(pieces)[k] != [];
    c :| 0 <= c < |kept| && kept[c] == k;
  }

  lemma {:induction false} WithinWords(s: string, span: (nat, nat), piece: string, tokens: seq<string>,
                                       at: seq<(nat, nat)>, m: nat, n: nat)
    requires PieceLies(s, IsBoundary, span, piece) && AreWordsOf(s, span, tokens, at) && m < n < |at|
    ensures at[m].1 <= at[n].0 <= |s| && InOneStatement(s, at[m].1, at[n].0)
  {
    hide InOneStatement;
    WordBounds(s, at[n].0, at[n].1);
    WordBounds(s, at[m].0, at[m].1);
    Within(s, span, piece, at[m].1, at[n].0);
  }

  lemma {:induction false} AcrossWords(s: string, pieces: seq<string>, spans: seq<(nat, nat)>, k: nat, l: nat,
                                       tokens: seq<string>, at: seq<(nat, nat)>, tokens': seq<string>,
                                       at': seq<(nat, nat)>, m: nat, n: nat)
    requires AreSpans(s, IsBoundary, pieces, spans) && k < l < |spans|
    requires AreWordsOf(s, spans[k], tokens, at) && AreWordsOf(s, spans[l], tokens', at') && m < |at| && n < |at'|
    ensures at[m].1 <= at'[n].0 <= |s| && !InOneStatement(s, at[m].1, at'[n].0)
  {
    hide InOneStatement;
    SpansAscend(s, IsBoundary, pieces, spans, k, l);
    WordBounds(s, at'[n].0, at'[n].1);
    Across(s, at[m].1, spans[k].1, at'[n].0);
  }

  lemma {:induction false} Within(s: string, span: (nat, nat), piece: string, i: nat, j: nat)
    requires PieceLies(s, IsBoundary, span, piece) && span.0 <= i <= j <= span.1
    ensures InOneStatement(s, i, j)
  {
    PieceBounds(s, span, piece);
    forall k | i <= k < j ensures !EndsStatement(s[k]) {
      assert !IsBoundary(s[k]);
      BoundaryMeans(s[k]);
    }
  }

  lemma {:induction false} Across(s: string, i: nat, k: nat, j: nat)
    requires i <= k < j <= |s| && IsBoundary(s[k])
    ensures !InOneStatement(s, i, j)
  {
    BoundaryMeans(s[k]);
  }

  // ---- What a status says ----

  lemma {:induction false} StatementsShaped(s: string, clauses: seq<seq<string>>, at: seq<seq<(nat, nat)>>)
    requires AreStatements(s, clauses, at)
    ensures Shaped(clauses, at)
  {
  }

  lemma {:induction false} WordHere(s: string, clauses: seq<seq<string>>, at: seq<seq<(nat, nat)>>, c: nat, m: nat)
    requires AreStatements(s, clauses, at) && Shaped(clauses, at) && c < |at| && m < |at[c]|
    ensures var (i, j) := at[c][m];
            WordAt(s, i, j) && i < j <= |s| && s[i..j] == clauses[c][m]
  {
    WordBounds(s, at[c][m].0, at[c][m].1);
  }

  /** Words come in the order of the text, and statements end between clauses and only there. */
  lemma {:induction false} WordsInOrder(s: string, clauses: seq<seq<string>>, at: seq<seq<(nat, nat)>>, c: nat, m: nat,
                                        d: nat, n: nat)
    requires AreStatements(s, clauses, at) && Shaped(clauses, at)
    requires c < |at| && m < |at[c]| && d < |at| && n < |at[d]|
    ensures at[c][m].0 < at[c][m].1 <= |s| && at[d][n].0 < at[d][n].1 <= |s|
    ensures c < d || (c == d && m < n) ==>
              at[c][m].1 <= at[d][n].0 && (InOneStatement(s, at[c][m].1, at[d][n].0) <==> c == d)
  {
    hide InOneStatement;
    WordBounds(s, at[c][m].0, at[c][m].1);
    WordBounds(s, at[d][n].0, at[d][n].1);
  }

  lemma {:induction false} SomeWhere(s: string, clauses: seq<seq<string>>, at: seq<seq<(nat, nat)>>, i: nat, j: nat)
      returns (c: nat, m: nat)
    requires AreStatements(s, clauses, at) && Shaped(clauses, at) && WordAt(s, i, j)
    ensures c < |at| && m < |at[c]| && at[c][m] == (i, j) && i < j <= |s|
  {
    WordBounds(s, i, j);
    c, m :| 0 <= c < |at| && 0 <= m < |at[c]| && at[c][m] == (i, j);
  }

  lemma {:induction false} CompletesHere(s: string, clauses: seq<seq<string>>, at: seq<seq<(nat, nat)>>, c: nat, m: nat)
    requires AreStatements(s, clauses, at) && Shaped(clauses, at) && c < |at| && m < |at[c]|
    ensures Completes(s, at[c][m].0, at[c][m].1) <==>
              clauses[c][m] in TERMINAL_TOKENS && forall k | 0 <= k < m :: !NeutralizesCompletion(clauses[c][k])
  {
    hide WordAt, InOneStatement, NeutralizesCompletion, Weakens, IsRecognized, Speaks, AreStatements;
    WordsMean();
    var (i, j) := at[c][m];
    WordHere(s, clauses, at, c, m);
    if forall k | 0 <= k < m :: !NeutralizesCompletion(clauses[c][k]) {
      forall k: nat, l: nat | WordAt(s, k, l) && l <= i && InOneStatement(s, l, i)
        ensures k <= l <= |s| && !NeutralizesCompletion(s[k..l])
      {
        var d, n := SomeWhere(s, clauses, at, k, l);
        WordHere(s, clauses, at, d, n);
        WordsInOrder(s, clauses, at, c, m, d, n);
        WordsInOrder(s, clauses, at, d, n, c, m);
      }
    }
    if Completes(s, i, j) {
      forall k | 0 <= k < m ensures !NeutralizesCompletion(clauses[c][k]) {
        WordHere(s, clauses, at, c, k);
        WordsInOrder(s, clauses, at, c, k, c, m);
      }
    }
  }

  /** The words that complete a clause are those that complete its statement. */
  lemma {:induction false} CompletionMeans(s: string, clauses: seq<seq<string>>, at: seq<seq<(nat, nat)>>, c: nat)
    requires AreStatements(s, clauses, at) && Shaped(clauses, at) && c < |at|
    ensures AssertsCompletion(clauses[c]) <==> exists m :: 0 <= m < |at[c]| && Completes(s, at[c][m].0, at[c][m].1)
  {
    hide AreStatements, Completes, NeutralizesCompletion, Weakens, IsRecognized, Speaks;
    WordsMean();
    forall m | 0 <= m < |at[c]|
      ensures Completes(s, at[c][m].0, at[c][m].1) <==>
                clauses[c][m] in TERMINAL_TOKENS && forall k | 0 <= k < m :: !NeutralizesCompletion(clauses[c][k])
    {
      CompletesHere(s, clauses, at, c, m);
    }
    if AssertsCompletion(clauses[c]) {
      var m :| 0 <= m < |clauses[c]| && clauses[c][m] in TERMINAL_TOKENS &&
               forall k | 0 <= k < m :: !NeutralizesCompletion(clauses[c][k]);
      assert Completes(s, at[c][m].0, at[c][m].1);
    }
  }

  lemma {:induction false} LeadMeans(s: string, clauses: seq<seq<string>>, at: seq<seq<(nat, nat)>>, c: nat, m: nat)
    requires AreStatements(s, clauses, at) && Shaped(clauses, at) && c < |at| && m < |at[c]|
    ensures OpensClosed(s, at[c][m].0, at[c][m].1) <==> c == 0 && m == 0 && clauses[c][m] in LEAD_CLOSING_TOKENS
  {
    hide WordAt, InOneStatement, AreStatements;
    var (i, j) := at[c][m];
    WordHere(s, clauses, at, c, m);
    WordHere(s, clauses, at, 0, 0);
    WordsInOrder(s, clauses, at, 0, 0, c, m);
    if c == 0 && m == 0 {
      forall k: nat, l: nat | WordAt(s, k, l) ensures i <= k {
        var d, n := SomeWhere(s, clauses, at, k, l);
        WordsInOrder(s, clauses, at, 0, 0, d, n);
      }
    }
  }

  /** No earlier clause says anything exactly when no earlier statement has a word of the vocabulary. */
  lemma {:induction false} FirstMeans(s: string, clauses: seq<seq<string>>, at: seq<seq<(nat, nat)>>, c: nat, m: nat)
    requires AreStatements(s, clauses, at) && Shaped(clauses, at) && c < |at| && m < |at[c]|
    ensures SpeaksFirst(s, at[c][m].0) <==> forall d | 0 <= d < c :: !Recognizes(clauses[d])
  {
    hide WordAt, InOneStatement, NeutralizesCompletion, Weakens, IsRecognized, Speaks, AreStatements;
    WordsMean();
    var i := at[c][m].0;
    WordHere(s, clauses, at, c, m);
    if SpeaksFirst(s, i) {
      forall d, n | 0 <= d < c && 0 <= n < |at[d]| ensures !IsRecognized(clauses[d][n]) {
        WordHere(s, clauses, at, d, n);
        WordsInOrder(s, clauses, at, d, n, c, m);
      }
    }
    if forall d | 0 <= d < c :: !Recognizes(clauses[d]) {
      forall k: nat, l: nat | WordAt(s, k, l) && l <= i && k <= l <= |s| && IsRecognized(s[k..l])
        ensures InOneStatement(s, l, i)
      {
        var d, n := SomeWhere(s, clauses, at, k, l);
        WordHere(s, clauses, at, d, n);
        assert IsRecognized(clauses[d][n]) && Recognizes(clauses[d]);
        WordsInOrder(s, clauses, at, d, n, c, m);
        WordsInOrder(s, clauses, at, c, m, d, n);
      }
      FirstBounds(s, i);
    }
  }

  lemma {:induction false} FirstBounds(s: string, i: nat)
    requires forall k: nat, l: nat | WordAt(s, k, l) && l <= i && k <= l <= |s| && IsRecognized(s[k..l]) ::
               i <= |s| && InOneStatement(s, l, i)
    requires i <= |s|
    ensures SpeaksFirst(s, i)
  {
    forall k: nat, l: nat | WordAt(s, k, l) ensures k <= l <= |s| {
      WordBounds(s, k, l);
    }
  }

  /** A word of `s` closes the note: outright or by opening the value, and no earlier statement speaks. */
  ghost predicate ClosesAt(s: string, i: nat, j: nat) {
    (Completes(s, i, j) || OpensClosed(s, i, j)) && SpeaksFirst(s, i)
  }

  /**
   A status closes its note exactly when some word of it closes it: a terminal
   word that nothing denies or dilutes before it in its statement, or a closing
   word that opens the value, and in either case no word of the vocabulary stands
   in an earlier statement.
   */
  lemma {:induction false} ClosedExactly(status: string)
    ensures LifecycleOf(status).Closed? <==> exists i: nat, j: nat :: ClosesAt(Lower(status), i, j)
  {
    hide Lower, ClauseTokens, LifecycleFrom, ScanClause, ClosesAt, AreStatements, Closes, Recognizes;
    var s, clauses := Lower(status), ClauseTokens(status);
    var at := StatementsLie(status);
    StatementsShaped(s, clauses, at);
    ClosedMeansSomeClauseCloses(clauses);
    if LifecycleOf(status).Closed? {
      var c: nat :| c < |clauses| && Closes(clauses[c], c == 0) && forall d | 0 <= d < c :: !Recognizes(clauses[d]);
      var m := ClosingWord(s, clauses, at, c);
      assert ClosesAt(Lower(status), at[c][m].0, at[c][m].1);
    }
    if i: nat, j: nat :| ClosesAt(s, i, j) {
      ClosingIsWord(s, i, j);
      var c, m := SomeWhere(s, clauses, at, i, j);
      ClosesMeans(s, clauses, at, c, m);
    }
  }

  lemma {:induction false} ClosingWord(s: string, clauses: seq<seq<string>>, at: seq<seq<(nat, nat)>>, c: nat)
      returns (m: nat)
    requires AreStatements(s, clauses, at) && Shaped(clauses, at) && c < |at|
    requires Closes(clauses[c], c == 0) && forall d | 0 <= d < c :: !Recognizes(clauses[d])
    ensures m < |at[c]| && ClosesAt(s, at[c][m].0, at[c][m].1)
  {
    hide AreStatements, Completes, OpensClosed, SpeaksFirst, AssertsCompletion, Recognizes;
    if AssertsCompletion(clauses[c]) {
      CompletionMeans(s, clauses, at, c);
      m :| 0 <= m < |at[c]| && Completes(s, at[c][m].0, at[c][m].1);
    } else {
      m := 0;
      LeadMeans(s, clauses, at, c, 0);
    }
    FirstMeans(s, clauses, at, c, m);
  }

  lemma {:induction false} ClosesMeans(s: string, clauses: seq<seq<string>>, at: seq<seq<(nat, nat)>>, c: nat, m: nat)
    requires AreStatements(s, clauses, at) && Shaped(clauses, at) && c < |at| && m < |at[c]|
    requires ClosesAt(s, at[c][m].0, at[c][m].1)
    ensures Closes(clauses[c], c == 0) && forall d | 0 <= d < c :: !Recognizes(clauses[d])
  {
    hide AreStatements, Completes, OpensClosed, SpeaksFirst, AssertsCompletion, Recognizes;
    CompletionMeans(s, clauses, at, c);
    LeadMeans(s, clauses, at, c, m);
    FirstMeans(s, clauses, at, c, m);
  }

  lemma {:induction false} ClosingIsWord(s: string, i: nat, j: nat)
    requires ClosesAt(s, i, j)
    ensures WordAt(s, i, j)
  {
  }

  lemma {:induction false} ClosedMeansSomeClauseCloses(clauses: seq<seq<string>>)
    ensures LifecycleFrom(clauses, 0).Closed? <==>
              exists c: nat :: c < |clauses| && Closes(clauses[c], c == 0) &&
                forall d | 0 <= d < c :: !Recognizes(clauses[d])
  {
    hide LifecycleFrom, ScanClause, AssertsCompletion, IsRecognized;
    forall c: nat | c < |clauses|
      ensures ScanClause(clauses[c], c == 0) ==
              if Closes(clauses[c], c == 0) then Terminal else if Recognizes(clauses[c]) then Declared else Silent
      ensures Closes(clauses[c], c == 0) ==> Recognizes(clauses[c])
    {
      VerdictMeaning(clauses[c], c == 0);
      ClosingIsRecognized(clauses[c], c == 0);
    }
    if LifecycleFrom(clauses, 0).Closed? {
      if forall c: nat | c < |clauses| :: ScanClause(clauses[c], c == 0).Silent? {
        SilentIsActionable(clauses, 0);
      } else {
        var j: nat :| j < |clauses| && !ScanClause(clauses[j], j == 0).Silent?;
        var c := FindFirst(clauses, 0, j);
        DecidedByFirst(clauses, 0, c);
      }
    }
    if c: nat :| c < |clauses| && Closes(clauses[c], c == 0) && forall d | 0 <= d < c :: !Recognizes(clauses[d]) {
      assert FirstToSpeak(clauses, c);
      DecidedByFirst(clauses, 0, c);
    }
  }

  lemma {:induction false} ClosingIsRecognized(tokens: seq<string>, leading: bool)
    ensures Closes(tokens, leading) ==> Recognizes(tokens)
  {
    if AssertsCompletion(tokens) {
      var i :| 0 <= i < |tokens| && tokens[i] in TERMINAL_TOKENS;
      assert IsRecognized(tokens[i]);
    }
    if leading && tokens != [] && tokens[0] in LEAD_CLOSING_TOKENS {
      TerminalsDoNotNeutralize(tokens[0]);
      assert IsRecognized(tokens[0]);
    }
  }
}
