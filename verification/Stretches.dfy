/** Where the pieces of a text lie: the longest stretches without separators. */
module Stretches {
  import opened Text

  /** A longest stretch without separators, perhaps empty. */
  predicate Lies(s: string, separates: char -> bool, a: nat, b: nat) {
    a <= b <= |s| && (forall k | a <= k < b :: !separates(s[k])) &&
    (a > 0 ==> separates(s[a - 1])) && (b < |s| ==> separates(s[b]))
  }

  /** The piece is the stretch from `span.0` to `span.1`. */
  predicate PieceLies(s: string, separates: char -> bool, span: (nat, nat), piece: string) {
    Lies(s, separates, span.0, span.1) && s[span.0..span.1] == piece
  }

  ghost predicate AreSpans(s: string, separates: char -> bool, pieces: seq<string>, spans: seq<(nat, nat)>) {
    |spans| == |pieces| > 0 && spans[0].0 == 0 && spans[|spans| - 1].1 == |s| &&
    (forall i | 0 <= i < |spans| :: PieceLies(s, separates, spans[i], pieces[i])) &&
    forall i | 0 < i < |spans| :: spans[i].0 == spans[i - 1].1 + 1
  }

  lemma {:induction false} LiesFurther(s: string, separates: char -> bool, span: (nat, nat), piece: string)
    requires s != [] && PieceLies(s[1..], separates, span, piece) && (span.0 > 0 || separates(s[0]))
    ensures PieceLies(s, separates, (span.0 + 1, span.1 + 1), piece)
  {
    assert forall k | span.0 + 1 <= k < span.1 + 1 :: s[k] == s[1..][k - 1];
    assert s[span.0 + 1..span.1 + 1] == s[1..][span.0..span.1];
  }

  lemma {:induction false} LiesLonger(s: string, separates: char -> bool, span: (nat, nat), piece: string)
    requires s != [] && PieceLies(s[1..], separates, span, piece) && span.0 == 0 && !separates(s[0])
    ensures PieceLies(s, separates, (0, span.1 + 1), [s[0]] + piece)
  {
    assert forall k | 0 < k < |s| :: s[k] == s[1..][k - 1];
    assert s[0..span.1 + 1] == [s[0]] + s[1..][0..span.1];
  }

  lemma {:induction false} PiecesStep(s: string, separates: char -> bool)
    requires s != []
    ensures var below := Pieces(s[1..], separates);
            Pieces(s, separates) == if separates(s[0]) then [""] + below else [[s[0]] + below[0]] + below[1..]
  {
  }

  /** Where the pieces of `s` lie. */
  lemma {:induction false} PiecesLie(s: string, separates: char -> bool) returns (spans: seq<(nat, nat)>)
    ensures AreSpans(s, separates, Pieces(s, separates), spans)
    decreases |s|
  {
    hide AreSpans;
    if s == [] {
      spans := [(0, 0)];
      NoPieces(separates);
    } else {
      hide Pieces;
      var below := PiecesLie(s[1..], separates);
      PiecesStep(s, separates);
      if separates(s[0]) {
        spans := SeparatorFirst(s, separates, Pieces(s[1..], separates), below);
      } else {
        spans := CharacterFirst(s, separates, Pieces(s[1..], separates), below);
      }
    }
  }

  lemma {:induction false} NoPieces(separates: char -> bool)
    ensures AreSpans("", separates, Pieces("", separates), [(0, 0)])
  {
    assert ""[0..0] == "";
  }

  function OneFurther(spans: seq<(nat, nat)>): (further: seq<(nat, nat)>)
    ensures |further| == |spans|
    ensures forall i | 0 <= i < |spans| :: further[i] == (spans[i].0 + 1, spans[i].1 + 1)
  {
    seq(|spans|, i requires 0 <= i < |spans| => (spans[i].0 + 1, spans[i].1 + 1))
  }

  lemma {:induction false} SeparatorFirst(s: string, separates: char -> bool, pieces: seq<string>,
                                          below: seq<(nat, nat)>)
      returns (spans: seq<(nat, nat)>)
    requires s != [] && separates(s[0]) && AreSpans(s[1..], separates, pieces, below)
    ensures AreSpans(s, separates, [""] + pieces, spans)
  {
    var further := OneFurther(below);
    hide PieceLies, OneFurther;
    forall i | 0 <= i < |below| ensures PieceLies(s, separates, further[i], pieces[i]) {
      LiesFurther(s, separates, below[i], pieces[i]);
    }
    FirstIsEmpty(s, separates);
    spans := [(0, 0)] + further;
    forall i | 0 < i < |spans| ensures spans[i].0 == spans[i - 1].1 + 1 {
      if i > 1 {
        assert below[i - 1].0 == below[i - 1 - 1].1 + 1;
        assert spans[i] == further[i - 1] && spans[i - 1] == further[i - 1 - 1];
      }
    }
    forall i | 0 <= i < |spans| ensures PieceLies(s, separates, spans[i], ([""] + pieces)[i]) {
      if i > 0 {
        assert spans[i] == further[i - 1];
      }
    }
  }

  lemma {:induction false} FirstIsEmpty(s: string, separates: char -> bool)
    requires s != [] && separates(s[0])
    ensures PieceLies(s, separates, (0, 0), "")
  {
  }

  lemma {:induction false} CharacterFirst(s: string, separates: char -> bool, pieces: seq<string>,
                                          below: seq<(nat, nat)>)
      returns (spans: seq<(nat, nat)>)
    requires s != [] && !separates(s[0]) && AreSpans(s[1..], separates, pieces, below)
    ensures AreSpans(s, separates, [[s[0]] + pieces[0]] + pieces[1..], spans)
  {
    hide PieceLies, OneFurther;
    spans := [(0, below[0].1 + 1)] + OneFurther(below)[1..];
    LiesLonger(s, separates, below[0], pieces[0]);
    forall i | 0 < i < |spans| ensures PieceLies(s, separates, spans[i], ([[s[0]] + pieces[0]] + pieces[1..])[i]) {
      assert below[i].0 == below[i - 1].1 + 1;
      LiesFurther(s, separates, below[i], pieces[i]);
    }
    forall i | 0 < i < |spans| ensures spans[i].0 == spans[i - 1].1 + 1 {
      assert below[i].0 == below[i - 1].1 + 1;
    }
  }

  lemma {:induction false} StretchFrom(s: string, separates: char -> bool, a: nat, b: nat, c: nat, d: nat)
    requires Lies(s, separates, a, b) && Lies(s, separates, c, d) && c <= a <= d
    ensures a == c && b == d
  {
  }

  /** Every stretch is a piece. */
  lemma {:induction false} StretchIsPiece(s: string, separates: char -> bool, pieces: seq<string>,
                                          spans: seq<(nat, nat)>, a: nat, b: nat)
      returns (i: nat)
    requires AreSpans(s, separates, pieces, spans) && Lies(s, separates, a, b)
    ensures i < |spans| && spans[i] == (a, b)
  {
    i := PieceAround(s, separates, pieces, spans, a, |spans| - 1);
    assert PieceLies(s, separates, spans[i], pieces[i]);
    StretchFrom(s, separates, a, b, spans[i].0, spans[i].1);
  }

  lemma {:induction false} PieceAround(s: string, separates: char -> bool, pieces: seq<string>, spans: seq<(nat, nat)>,
                                       p: nat, n: nat)
      returns (i: nat)
    requires AreSpans(s, separates, pieces, spans) && n < |spans| && p <= spans[n].1
    ensures i < |spans| && spans[i].0 <= p <= spans[i].1
    decreases n
  {
    hide PieceLies;
    if spans[n].0 <= p {
      i := n;
    } else {
      i := PieceAround(s, separates, pieces, spans, p, n - 1);
    }
  }

  lemma {:induction false} SpansAscend(s: string, separates: char -> bool, pieces: seq<string>, spans: seq<(nat, nat)>,
                                       i: nat, j: nat)
    requires AreSpans(s, separates, pieces, spans) && i < j < |spans|
    ensures spans[i].1 < spans[j].0 <= |s| && separates(s[spans[i].1])
    decreases j - i
  {
    assert PieceLies(s, separates, spans[i + 1], pieces[i + 1]);
    if i + 1 < j {
      SpansAscend(s, separates, pieces, spans, i + 1, j);
      assert PieceLies(s, separates, spans[i + 1], pieces[i + 1]);
    }
  }
}
