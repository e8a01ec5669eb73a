/**
 The status vocabulary of backlog notes: how a free-form `Status:` value is cut
 into clauses of words, and what lifecycle a note declares for itself.
 */
module BacklogStatus {
  import opened Text

  const TERMINAL_TOKENS := {
    "cancelled", "closed", "decided", "done", "drained", "finalized", "finished", "implemented", "rejected", "shipped",
    "superseded"
  }

  const ACTIVE_TOKENS := {
    "parked", "ready", "proposed", "proposal", "blocked", "deferred", "backlog", "open", "accepted", "draft", "partial",
    "progress", "planned", "investigating", "promoted", "landed", "resolved", "complete", "research", "design",
    "addressed", "context", "provenance", "record", "reference", "final", "historical"
  }

  const LEAD_CLOSING_TOKENS := {"landed", "resolved", "complete", "reference", "record", "provenance", "final",
                                "historical"}

  const NEGATION_TOKENS := {"not", "no", "never"}

  const HEDGE_TOKENS := {"largely", "mostly", "partially", "partly", "nearly", "almost", "half"}

  const CLAUSE_BOUNDARIES := ".;:,/|()[]{}\U{2014}\U{2013}-"

  predicate IsRecognized(token: string) {
    token in TERMINAL_TOKENS || token in ACTIVE_TOKENS
  }

  predicate NeutralizesCompletion(token: string) {
    token in NEGATION_TOKENS || token in HEDGE_TOKENS
  }

  // ---- Clauses and tokens ----

  predicate IsBoundary(c: char) {
    c in CLAUSE_BOUNDARIES
  }

  predicate IsSeparator(c: char) {
    !('a' <= c <= 'z' || '0' <= c <= '9')
  }

  function NonEmpty<T>(xs: seq<seq<T>>): seq<seq<T>> {
    if xs == [] then []
    else (if xs[0] == [] then [] else [xs[0]]) + NonEmpty(xs[1..])
  }

  function Tokens(clause: string): seq<string> {
    NonEmpty(Pieces(clause, IsSeparator))
  }

  function TokensOfEach(clauses: seq<string>): seq<seq<string>> {
    if clauses == [] then [] else [Tokens(clauses[0])] + TokensOfEach(clauses[1..])
  }

  /** The status value as non-empty clauses of lowercase words. */
  function ClauseTokens(status: string): seq<seq<string>> {
    NonEmpty(TokensOfEach(Pieces(Lower(status), IsBoundary)))
  }

  // ---- Scanning ----

  datatype Verdict = Terminal | Declared | Silent

  datatype Lifecycle = Actionable | Closed

  function Scan(tokens: seq<string>, leading: bool, i: nat, neutralized: bool, recognized: bool): Verdict
    requires i <= |tokens|
    decreases |tokens| - i
  {
    if i == |tokens| then (if recognized then Declared else Silent)
    else if NeutralizesCompletion(tokens[i]) then Scan(tokens, leading, i + 1, true, recognized)
    else if tokens[i] in TERMINAL_TOKENS && !neutralized then Terminal
    else if leading && i == 0 && tokens[i] in LEAD_CLOSING_TOKENS then Terminal
    else Scan(tokens, leading, i + 1, neutralized, recognized || IsRecognized(tokens[i]))
  }

  function ScanClause(tokens: seq<string>, leading: bool): Verdict {
    Scan(tokens, leading, 0, false, false)
  }

  method ScanTokens(tokens: seq<string>, leading: bool) returns (verdict: Verdict)
    ensures verdict == ScanClause(tokens, leading)
  {
    var neutralized, recognized := false, false;
    for i := 0 to |tokens|
      invariant Scan(tokens, leading, i, neutralized, recognized) == ScanClause(tokens, leading)
    {
      if NeutralizesCompletion(tokens[i]) {
        neutralized := true;
        continue;
      }
      if tokens[i] in TERMINAL_TOKENS && !neutralized {
        return Terminal;
      }
      if leading && i == 0 && tokens[i] in LEAD_CLOSING_TOKENS {
        return Terminal;
      }
      if IsRecognized(tokens[i]) {
        recognized := true;
      }
    }
    return if recognized then Declared else Silent;
  }

  function LifecycleFrom(clauses: seq<seq<string>>, i: nat): Lifecycle
    requires i <= |clauses|
    decreases |clauses| - i
  {
    if i == |clauses| then Actionable
    else
      match ScanClause(clauses[i], i == 0)
      case Terminal => Closed
      case Declared => Actionable
      case Silent => LifecycleFrom(clauses, i + 1)
  }

  function LifecycleOf(status: string): Lifecycle {
    LifecycleFrom(ClauseTokens(status), 0)
  }

  method LifecycleFromStatus(status: string) returns (lifecycle: Lifecycle)
    ensures lifecycle == LifecycleOf(status)
  {
    var clauses := ClauseTokens(status);
    for i := 0 to |clauses|
      invariant LifecycleFrom(clauses, i) == LifecycleOf(status)
    {
      var verdict := ScanTokens(clauses[i], i == 0);
      if verdict == Terminal {
        return Closed;
      }
      if verdict == Declared {
        return Actionable;
      }
    }
    return Actionable;
  }

  /** A terminal word of the clause with no negation or hedge before it. */
  predicate AssertsCompletion(tokens: seq<string>) {
    exists i | 0 <= i < |tokens| ::
      tokens[i] in TERMINAL_TOKENS && forall k | 0 <= k < i :: !NeutralizesCompletion(tokens[k])
  }

  /** True when any clause asserts completion. */
  method TerminalStatus(status: string) returns (terminal: bool)
    ensures terminal <==> exists clause | clause in ClauseTokens(status) :: AssertsCompletion(clause)
  {
    var clauses := ClauseTokens(status);
    for c := 0 to |clauses|
      invariant forall d | 0 <= d < c :: !AssertsCompletion(clauses[d])
    {
      var tokens, neutralized := clauses[c], false;
      for i := 0 to |tokens|
        invariant neutralized <==> exists k | 0 <= k < i :: NeutralizesCompletion(tokens[k])
        invariant forall k | 0 <= k < i && tokens[k] in TERMINAL_TOKENS ::
                    exists l | 0 <= l < k :: NeutralizesCompletion(tokens[l])
      {
        if NeutralizesCompletion(tokens[i]) {
          TerminalsDoNotNeutralize(tokens[i]);
          neutralized := true;
        } else if tokens[i] in TERMINAL_TOKENS && !neutralized {
          assert AssertsCompletion(tokens);
          return true;
        }
      }
    }
    return false;
  }

  lemma TerminalsDoNotNeutralize(token: string)
    ensures NeutralizesCompletion(token) ==> !IsRecognized(token)
    ensures token in LEAD_CLOSING_TOKENS ==> token in ACTIVE_TOKENS && token !in TERMINAL_TOKENS
  {
  }

  // ---- What a verdict means ----

  /** A clause closes a note by an unqualified terminal word, or by a closing word in lead position. */
  ghost predicate Closes(tokens: seq<string>, leading: bool) {
    AssertsCompletion(tokens) || (leading && tokens != [] && tokens[0] in LEAD_CLOSING_TOKENS)
  }

  ghost predicate Recognizes(tokens: seq<string>) {
    exists i | 0 <= i < |tokens| :: IsRecognized(tokens[i])
  }

  lemma {:induction false} ScanMeaning(tokens: seq<string>, leading: bool, i: nat, neutralized: bool, recognized: bool)
    requires i <= |tokens|
    requires neutralized <==> exists k | 0 <= k < i :: NeutralizesCompletion(tokens[k])
    requires recognized <==> exists k | 0 <= k < i :: IsRecognized(tokens[k])
    requires forall k | 0 <= k < i && tokens[k] in TERMINAL_TOKENS ::
               exists l | 0 <= l < k :: NeutralizesCompletion(tokens[l])
    requires i > 0 && leading ==> tokens[0] !in LEAD_CLOSING_TOKENS
    ensures Scan(tokens, leading, i, neutralized, recognized) ==
            if Closes(tokens, leading) then Terminal else if Recognizes(tokens) then Declared else Silent
    decreases |tokens| - i
  {
    if i < |tokens| {
      TerminalsDoNotNeutralize(tokens[i]);
      if NeutralizesCompletion(tokens[i]) {
        ScanMeaning(tokens, leading, i + 1, true, recognized);
      } else if tokens[i] in TERMINAL_TOKENS && !neutralized {
        assert AssertsCompletion(tokens);
      } else if !(leading && i == 0 && tokens[i] in LEAD_CLOSING_TOKENS) {
        ScanMeaning(tokens, leading, i + 1, neutralized, recognized || IsRecognized(tokens[i]));
      }
    }
  }

  /** A clause is terminal, declared or silent by what it says, not by how it is scanned. */
  lemma VerdictMeaning(tokens: seq<string>, leading: bool)
    ensures ScanClause(tokens, leading) ==
            if Closes(tokens, leading) then Terminal else if Recognizes(tokens) then Declared else Silent
  {
    ScanMeaning(tokens, leading, 0, false, false);
  }

  /** `i` is the first clause that says anything. */
  ghost predicate FirstToSpeak(clauses: seq<seq<string>>, i: nat) {
    i < |clauses| && !ScanClause(clauses[i], i == 0).Silent? &&
    forall k | 0 <= k < i :: ScanClause(clauses[k], k == 0).Silent?
  }

  lemma {:induction false} DecidedByFirst(clauses: seq<seq<string>>, from: nat, i: nat)
    requires from <= i && FirstToSpeak(clauses, i)
    ensures LifecycleFrom(clauses, from) == if ScanClause(clauses[i], i == 0).Terminal? then Closed else Actionable
    decreases i - from
  {
    if from < i {
      DecidedByFirst(clauses, from + 1, i);
    }
  }

  lemma {:induction false} SilentIsActionable(clauses: seq<seq<string>>, from: nat)
    requires from <= |clauses| && forall k | from <= k < |clauses| :: ScanClause(clauses[k], k == 0).Silent?
    ensures LifecycleFrom(clauses, from) == Actionable
    decreases |clauses| - from
  {
    if from < |clauses| {
      SilentIsActionable(clauses, from + 1);
    }
  }

  lemma {:induction false} FindFirst(clauses: seq<seq<string>>, from: nat, j: nat) returns (i: nat)
    requires from <= j < |clauses| && !ScanClause(clauses[j], j == 0).Silent?
    requires forall k | 0 <= k < from :: ScanClause(clauses[k], k == 0).Silent?
    ensures FirstToSpeak(clauses, i) && i <= j
    decreases j - from
  {
    if ScanClause(clauses[from], from == 0).Silent? {
      i := FindFirst(clauses, from + 1, j);
    } else {
      i := from;
    }
  }

  // ---- Appending text ----

  lemma {:induction false} PiecesAppend(s: string, b: char, t: string, separates: char -> bool)
    requires separates(b)
    ensures Pieces(s + [b] + t, separates) == Pieces(s, separates) + Pieces(t, separates)
  {
    var whole := s + [b] + t;
    if s == [] {
      assert whole[1..] == t;
    } else {
      assert whole[1..] == s[1..] + [b] + t;
      PiecesAppend(s[1..], b, t, separates);
    }
  }

  lemma {:induction false} NonEmptyAppend<T>(a: seq<seq<T>>, b: seq<seq<T>>)
    ensures NonEmpty(a + b) == NonEmpty(a) + NonEmpty(b)
  {
    if a == [] {
      assert a + b == b;
    } else {
      assert (a + b)[1..] == a[1..] + b;
      NonEmptyAppend(a[1..], b);
    }
  }

  lemma {:induction false} TokensAppend(a: seq<string>, b: seq<string>)
    ensures TokensOfEach(a + b) == TokensOfEach(a) + TokensOfEach(b)
  {
    if a == [] {
      assert a + b == b;
    } else {
      assert (a + b)[1..] == a[1..] + b;
      TokensAppend(a[1..], b);
    }
  }

  lemma BoundariesAreLowercase(b: char)
    requires IsBoundary(b)
    ensures LowerChar(b) == b
  {
  }

  /** Text after a clause boundary adds clauses at the end and changes none before. */
  lemma ClausesAppend(s: string, b: char, t: string)
    requires IsBoundary(b)
    ensures ClauseTokens(s + [b] + t) == ClauseTokens(s) + ClauseTokens(t)
  {
    BoundariesAreLowercase(b);
    assert Lower(s + [b] + t) == Lower(s) + [b] + Lower(t);
    PiecesAppend(Lower(s), b, Lower(t), IsBoundary);
    TokensAppend(Pieces(Lower(s), IsBoundary), Pieces(Lower(t), IsBoundary));
    NonEmptyAppend(TokensOfEach(Pieces(Lower(s), IsBoundary)), TokensOfEach(Pieces(Lower(t), IsBoundary)));
  }

  /** Once a clause has spoken, later clauses never change the lifecycle. */
  lemma LaterClausesChangeNothing(s: string, b: char, t: string, i: nat)
    requires IsBoundary(b) && FirstToSpeak(ClauseTokens(s), i)
    ensures LifecycleOf(s + [b] + t) == LifecycleOf(s)
  {
    ClausesAppend(s, b, t);
    var clauses, longer := ClauseTokens(s), ClauseTokens(s + [b] + t);
    assert forall k | 0 <= k < |clauses| :: longer[k] == clauses[k];
    DecidedByFirst(clauses, 0, i);
    DecidedByFirst(longer, 0, i);
  }

  // ---- Lifecycle, terminal status and recognition ----

  /** True when the lowercased status contains any recognized word as a substring. */
  ghost predicate RecognizedStatus(status: string) {
    exists token :: IsRecognized(token) && IsSubstring(token, Lower(status))
  }

  /** The first piece is a prefix of the string, and every piece is a substring of it. */
  lemma {:induction false} PiecesAreSubstrings(s: string, separates: char -> bool)
    ensures Pieces(s, separates)[0] <= s
    ensures forall piece | piece in Pieces(s, separates) :: IsSubstring(piece, s)
  {
    var pieces := Pieces(s, separates);
    if s != [] {
      PiecesAreSubstrings(s[1..], separates);
      assert s == [s[0]] + s[1..];
      var rest := Pieces(s[1..], separates);
      forall piece | piece in pieces ensures IsSubstring(piece, s) {
        if piece == pieces[0] {
          SubstringAt(piece, s, 0);
        } else {
          assert piece in rest;
          SubstringShift(piece, s[0], s[1..]);
        }
      }
    } else {
      SubstringAt("", s, 0);
    }
  }

  lemma {:induction false} NonEmptyKeeps<T>(xs: seq<seq<T>>)
    ensures forall x | x in NonEmpty(xs) :: x in xs && x != []
  {
    if xs != [] {
      NonEmptyKeeps(xs[1..]);
    }
  }

  lemma {:induction false} TokensOfEachMeaning(clauses: seq<string>, tokens: seq<string>)
    requires tokens in TokensOfEach(clauses)
    ensures exists clause | clause in clauses :: tokens == Tokens(clause)
  {
    if tokens == Tokens(clauses[0]) {
      assert clauses[0] in clauses;
    } else {
      TokensOfEachMeaning(clauses[1..], tokens);
    }
  }

  /** Every word of every clause is a substring of the lowercased status. */
  lemma TokensAreSubstrings(status: string, clause: seq<string>, token: string)
    requires clause in ClauseTokens(status) && token in clause
    ensures IsSubstring(token, Lower(status))
  {
    var texts := Pieces(Lower(status), IsBoundary);
    NonEmptyKeeps(TokensOfEach(texts));
    TokensOfEachMeaning(texts, clause);
    var text :| text in texts && clause == Tokens(text);
    PiecesAreSubstrings(Lower(status), IsBoundary);
    NonEmptyKeeps(Pieces(text, IsSeparator));
    PiecesAreSubstrings(text, IsSeparator);
    SubstringOfSubstring(token, text, Lower(status));
  }

  ghost predicate TerminalReading(status: string) {
    exists clause | clause in ClauseTokens(status) :: AssertsCompletion(clause)
  }

  ghost predicate LeadsWithClosingWord(status: string) {
    var clauses := ClauseTokens(status);
    clauses != [] && clauses[0] != [] && clauses[0][0] in LEAD_CLOSING_TOKENS
  }

  /** Closed means the first clause to speak closes the note, and conversely. */
  lemma ClosedMeansFirstCloses(status: string)
    ensures LifecycleOf(status) == Closed <==>
            exists i: nat :: FirstToSpeak(ClauseTokens(status), i) && Closes(ClauseTokens(status)[i], i == 0)
  {
    var clauses := ClauseTokens(status);
    if j: nat :| j < |clauses| && !ScanClause(clauses[j], j == 0).Silent? {
      var i := FindFirst(clauses, 0, j);
      DecidedByFirst(clauses, 0, i);
      VerdictMeaning(clauses[i], i == 0);
      forall k: nat | FirstToSpeak(clauses, k) ensures k == i {
      }
    } else {
      SilentIsActionable(clauses, 0);
    }
  }

  /** A closed note uses a recognized word, and either reads terminal or leads with a closing word. */
  lemma ClosedIsRecognized(status: string)
    requires LifecycleOf(status) == Closed
    ensures RecognizedStatus(status)
    ensures TerminalReading(status) || LeadsWithClosingWord(status)
  {
    ClosedMeansFirstCloses(status);
    var clauses := ClauseTokens(status);
    var i: nat :| FirstToSpeak(clauses, i) && Closes(clauses[i], i == 0);
    var clause := clauses[i];
    assert clause in clauses;
    var token: string;
    if AssertsCompletion(clause) {
      var k :| 0 <= k < |clause| && clause[k] in TERMINAL_TOKENS;
      token := clause[k];
    } else {
      token := clause[0];
      TerminalsDoNotNeutralize(token);
    }
    TokensAreSubstrings(status, clause, token);
  }

  /** A status that reads terminal but is actionable declared another state in an earlier clause. */
  lemma TerminalButActionable(status: string) returns (i: nat, j: nat)
    requires TerminalReading(status) && LifecycleOf(status) == Actionable
    ensures i < j < |ClauseTokens(status)| && AssertsCompletion(ClauseTokens(status)[j])
    ensures FirstToSpeak(ClauseTokens(status), i) && Recognizes(ClauseTokens(status)[i]) &&
            !Closes(ClauseTokens(status)[i], i == 0)
  {
    var clauses := ClauseTokens(status);
    var clause :| clause in clauses && AssertsCompletion(clause);
    j :| 0 <= j < |clauses| && clauses[j] == clause;
    VerdictMeaning(clauses[j], j == 0);
    i := FindFirst(clauses, 0, j);
    DecidedByFirst(clauses, 0, i);
    VerdictMeaning(clauses[i], i == 0);
  }
}
