/**
 What the socket-listener rule reports: every `socket.on` call is judged exactly
 once, by what its nearest lifecycle callback gathered in the end.
 */
module SocketVerdicts {
  import opened SocketListeners
  import opened SocketTrace
  import opened SyntaxTree
  import opened Wrappers

  // ---- Every call is judged once ----

  function FileTrace(root: Node): Trace {
    TraceNode(root, root, [], [])
  }

  /** What becomes of the `on` call of an event, by what its nearest lifecycle callback gathered in the end. */
  function Verdict(t: Trace, e: Event): Option<Message> {
    if e.Leave? || !IsOnCall(e.place) then None
    else if OwnerOf(e.place).None? then Some(OutsideEffect)
    else if e.cleaning || Covers(Gathered(t, OwnerOf(e.place).value), OnCallOf(e)) then None
    else Some(MissingCleanup)
  }

  /** The verdicts due in `part`, except on calls whose callback `open` has not been left. */
  function Due(t: Trace, part: Trace, open: Option<Path>): seq<Report> {
    if part == [] then []
    else
      Due(t, part[..|part| - 1], open) + DueOn(t, part[|part| - 1], open)
  }

  function DueOn(t: Trace, e: Event, open: Option<Path>): seq<Report> {
    if Verdict(t, e).Some? && (OwnerOf(e.place).None? || OwnerOf(e.place) != open) then
      [Report(e.place.path, Verdict(t, e).value)]
    else []
  }

  lemma NoneDue(t: Trace, open: Option<Path>)
    ensures Due(t, [], open) == []
  {
  }

  lemma {:induction false} DueAppend(t: Trace, a: Trace, b: Trace, open: Option<Path>)
    ensures Due(t, a + b, open) == Due(t, a, open) + Due(t, b, open)
  {
    hide DueOn;
    if b == [] {
      assert a + b == a;
    } else {
      assert (a + b)[..|a + b| - 1] == a + b[..|b| - 1];
      DueAppend(t, a, b[..|b| - 1], open);
    }
  }

  lemma {:induction false} PendingAppend(a: Trace, b: Trace, o: Path)
    ensures Pending(a + b, o) == Pending(a, o) + Pending(b, o)
  {
    if b == [] {
      assert a + b == a;
    } else {
      assert (a + b)[..|a + b| - 1] == a + b[..|b| - 1];
      PendingAppend(a, b[..|b| - 1], o);
    }
  }

  lemma {:induction false} UncoveredAppend(a: seq<OnCall>, b: seq<OnCall>, gathered: CleanupCalls)
    ensures Uncovered(a + b, gathered) == Uncovered(a, gathered) + Uncovered(b, gathered)
  {
    if b == [] {
      assert a + b == a;
    } else {
      assert (a + b)[..|a + b| - 1] == a + b[..|b| - 1];
      UncoveredAppend(a, b[..|b| - 1], gathered);
    }
  }

  /** What a callback gathered is settled once no event belongs to it any more. */
  lemma {:induction false} GatheredIsSettled(a: Trace, b: Trace, o: Path)
    requires forall e | e in b && e.Enter? :: OwnerOf(e.place) != Some(o)
    ensures Gathered(a + b, o) == Gathered(a, o)
  {
    if b == [] {
      assert a + b == a;
    } else {
      assert (a + b)[..|a + b| - 1] == a + b[..|b| - 1];
      assert b[|b| - 1] in b;
      GatheredIsSettled(a, b[..|b| - 1], o);
    }
  }

  /** No event of `more` belongs to a callback that one of `part` belongs to, unless to `open`. */
  ghost predicate Apart(part: Trace, more: Trace, open: Option<Path>) {
    forall x, e | x in part && x.Enter? && e in more && e.Enter? && OwnerOf(x.place).Some? &&
           OwnerOf(x.place) != open ::
      OwnerOf(e.place) != OwnerOf(x.place)
  }

  /** Later events that belong to other callbacks change no verdict that is due. */
  lemma {:induction false} DueIsSettled(a: Trace, b: Trace, part: Trace, open: Option<Path>)
    requires Apart(part, b, open)
    ensures Due(a + b, part, open) == Due(a, part, open)
  {
    if part != [] {
      var rest, x := part[..|part| - 1], part[|part| - 1];
      assert x in part && forall y | y in rest :: y in part;
      DueIsSettled(a, b, rest, open);
      if x.Enter? && OwnerOf(x.place).Some? && OwnerOf(x.place) != open {
        GatheredIsSettled(a, b, OwnerOf(x.place).value);
      }
    }
  }

  lemma OneReleased(t: Trace, e: Event, p: Path, open: Option<Path>)
    requires e.Enter? && OwnerOf(e.place).Some? ==> OwnerOf(e.place) != open
    ensures multiset(DueOn(t, e, open)) ==
            multiset(DueOn(t, e, Some(p))) + multiset(Uncovered(PendingOn(e, p), Gathered(t, p)))
  {
  }

  /** Leaving callback `p` makes exactly the verdicts due that were held back for it. */
  lemma {:induction false} LeavingReleases(t: Trace, part: Trace, p: Path, open: Option<Path>)
    requires forall e | e in part && e.Enter? && OwnerOf(e.place).Some? :: OwnerOf(e.place) != open
    ensures multiset(Due(t, part, open)) ==
            multiset(Due(t, part, Some(p))) + multiset(Uncovered(Pending(part, p), Gathered(t, p)))
  {
    hide DueOn, PendingOn, Uncovered, Gathered, OwnerOf;
    if part == [] {
      var none: seq<OnCall> := [];
      UncoveredAppend(none, none, Gathered(t, p));
      assert none + none == none;
    } else {
      var rest, e := part[..|part| - 1], part[|part| - 1];
      assert e in part && forall y | y in rest :: y in part;
      LeavingReleases(t, rest, p, open);
      OneReleased(t, e, p, open);
      UncoveredAppend(Pending(rest, p), PendingOn(e, p), Gathered(t, p));
    }
  }

  /** A position below `p` belongs to the callback around `p` or to one at or below `p`. */
  lemma {:induction false} OwnerBelow(root: Node, p: Path, q: Path)
    requires ValidPath(root, q) && p <= q && ValidPath(root, p)
    ensures OwnerOutside(root, q) == OwnerOutside(root, p) ||
            (OwnerOutside(root, q).Some? && p <= OwnerOutside(root, q).value)
    ensures p < q && IsLifecycleCallback(root, p) ==> OwnerOutside(root, q).Some? && p <= OwnerOutside(root, q).value
    decreases |q|
  {
    if p == q {
      assert p[..|p|] == p;
    } else {
      var r := q[..|q| - 1];
      assert p <= r;
      ValidPrefix(root, q, |q| - 1);
      OwnerBelow(root, p, r);
      if r == p {
      } else if IsLifecycleCallback(root, r) {
        assert Owner(root, r) == Some(r);
      }
    }
  }

  /** The events of one subtree belong to the callback around it or to one inside it. */
  lemma OwnersOfPart(root: Node, part: Trace, p: Path)
    requires ValidPath(root, p) && forall e | e in part :: Real(root, e) && p <= e.place.path
    ensures forall e | e in part ::
              OwnerOf(e.place) == OwnerOutside(root, p) || (OwnerOf(e.place).Some? && p <= OwnerOf(e.place).value)
    ensures IsLifecycleCallback(root, p) ==>
              forall e | e in part && e.place.path != p :: OwnerOf(e.place).Some? && p <= OwnerOf(e.place).value
  {
    hide ValidPath, IsLifecycleCallback, Owner;
    forall e | e in part
      ensures OwnerOf(e.place) == OwnerOutside(root, p) || (OwnerOf(e.place).Some? && p <= OwnerOf(e.place).value)
      ensures IsLifecycleCallback(root, p) && e.place.path != p ==>
                OwnerOf(e.place).Some? && p <= OwnerOf(e.place).value
    {
      OwnerOfPlace(root, e.place.path);
      OwnerBelow(root, p, e.place.path);
    }
  }

  /** Events below different children belong to different callbacks, unless to the one around both. */
  lemma SiblingOwners(root: Node, p: Path, k: nat, x: Event, e: Event)
    requires ValidPath(root, p) && ValidPath(root, p + [k])
    requires Real(root, x) && p < x.place.path && x.place.path[|p|] < k
    requires Real(root, e) && p + [k] <= e.place.path
    requires OwnerOf(x.place).Some? && OwnerOf(x.place) != Owner(root, p)
    ensures OwnerOf(e.place) != OwnerOf(x.place)
  {
    hide IsLifecycleCallback, Owner, PlaceOf;
    var j := x.place.path[|p|];
    assert p + [j] == x.place.path[..|p| + 1];
    ValidPrefix(root, x.place.path, |p| + 1);
    OwnerBelow(root, p + [j], x.place.path);
    OwnerBelow(root, p + [k], e.place.path);
    OwnerOfPlace(root, x.place.path);
    OwnerOfPlace(root, e.place.path);
    OwnerOutsideChild(root, p, j);
    OwnerOutsideChild(root, p, k);
    var o := OwnerOf(x.place).value;
    BelowChild(p, j, o);
    if OwnerOf(e.place) == Some(o) {
      BelowChild(p, k, o);
    }
  }

  lemma OwnerOutsideChild(root: Node, p: Path, i: nat)
    requires ValidPath(root, p) && ValidPath(root, p + [i])
    ensures OwnerOutside(root, p + [i]) == Owner(root, p)
  {
  }

  /** Between two traces exactly the given reports were made, in some order. */
  ghost predicate ReportedSince(before: Trace, after: Trace, reports: seq<Report>) {
    multiset(ReportsOf(after)) == multiset(ReportsOf(before)) + multiset(reports)
  }

  lemma TraceSplits(entered: Trace, before: Trace, after: Trace)
    requires entered <= before <= after
    ensures before == entered + before[|entered|..] && after == entered + before[|entered|..] + after[|before|..]
    ensures after[|entered|..] == before[|entered|..] + after[|before|..]
  {
  }

  lemma DueJoins(entered: Trace, part: Trace, more: Trace, open: Option<Path>)
    requires Apart(part, more, open)
    requires ReportedSince(entered, entered + part, Due(entered + part, part, open))
    requires ReportedSince(entered + part, entered + part + more, Due(entered + part + more, more, open))
    ensures ReportedSince(entered, entered + part + more, Due(entered + part + more, part + more, open))
  {
    hide ReportsOf, Due, Apart;
    DueAppend(entered + part + more, part, more, open);
    DueIsSettled(entered + part, more, part, open);
  }

  lemma SiblingsAreApart(root: Node, p: Path, k: nat, entered: Trace, before: Trace, after: Trace)
    requires ValidPath(root, p) && ValidPath(root, p + [k])
    requires ExtendsBefore(root, entered, before, p, k) && Extends(root, before, after, p + [k])
    ensures entered <= before <= after
    ensures Apart(before[|entered|..], after[|before|..], Owner(root, p))
  {
    hide ValidPath, Real, Owner, OwnerOf;
    var part, more := before[|entered|..], after[|before|..];
    forall x, e | x in part && x.Enter? && e in more && e.Enter? && OwnerOf(x.place).Some? &&
           OwnerOf(x.place) != Owner(root, p)
      ensures OwnerOf(e.place) != OwnerOf(x.place)
    {
      SiblingOwners(root, p, k, x, e);
    }
  }

  lemma {:induction false} JudgedInChildren(root: Node, n: Node, p: Path, t: Trace, k: nat)
    requires ValidPath(root, p) && At(root, p) == n && k <= |n.children| && Untouched(root, t, p)
    ensures var entered := t + [Entry(root, t, p)];
            var after := TraceChildren(root, n, p, entered, k);
            entered <= after && ReportedSince(entered, after, Due(after, after[|entered|..], Owner(root, p)))
    decreases n, 0, k
  {
    hide ValidPath, Owner, OwnerOutside, Entry, Untouched, Real, Extends, ExtendsBefore, ReportsOf, Due;
    var entered := t + [Entry(root, t, p)];
    if k == 0 {
      NoneDue(entered, Owner(root, p));
      assert entered[|entered|..] == [];
    } else {
      ValidChild(root, p, k - 1);
      JudgedInChildren(root, n, p, t, k - 1);
      EntryIsReal(root, t, p);
      ChildUntouched(root, n, p, t, Entry(root, t, p), k - 1);
      var child, before := n.children[k - 1], TraceChildren(root, n, p, entered, k - 1);
      JudgedInNode(root, child, p + [k - 1], before);
      ChildrenExtend(root, n, p, entered, k - 1);
      TraceExtends(root, child, p + [k - 1], before);
      StepJoins(root, p, k - 1, entered, before, TraceNode(root, child, p + [k - 1], before));
    }
  }

  lemma StepJoins(root: Node, p: Path, k: nat, entered: Trace, before: Trace, after: Trace)
    requires ValidPath(root, p) && ValidPath(root, p + [k])
    requires ExtendsBefore(root, entered, before, p, k) && Extends(root, before, after, p + [k])
    requires ReportedSince(entered, before, Due(before, before[|entered|..], Owner(root, p)))
    requires ReportedSince(before, after, Due(after, after[|before|..], OwnerOutside(root, p + [k])))
    ensures entered <= after && ReportedSince(entered, after, Due(after, after[|entered|..], Owner(root, p)))
  {
    hide ValidPath, Owner, OwnerOutside, Extends, ExtendsBefore, Apart, ReportedSince;
    SiblingsAreApart(root, p, k, entered, before, after);
    TraceSplits(entered, before, after);
    var part, more := before[|entered|..], after[|before|..];
    OwnerOutsideChild(root, p, k);
    DueJoins(entered, part, more, Owner(root, p));
  }

  lemma {:induction false} JudgedInNode(root: Node, n: Node, p: Path, t: Trace)
    requires ValidPath(root, p) && At(root, p) == n && Untouched(root, t, p)
    ensures var after := TraceNode(root, n, p, t);
            t <= after && ReportedSince(t, after, Due(after, after[|t|..], OwnerOutside(root, p)))
    decreases n, 1
  {
    hide ValidPath, Owner, Entry, Untouched, Real, OwnerOutside, ReportsOf, PlaceOf, Due, ReportedSince;
    var entry, leave := Entry(root, t, p), Leave(PlaceOf(root, p));
    var entered := t + [entry];
    JudgedInChildren(root, n, p, t, |n.children|);
    var below := TraceChildren(root, n, p, entered, |n.children|);
    ChildrenExtend(root, n, p, entered, |n.children|);
    var part, after := below[|entered|..], below + [leave];
    assert below == entered + part && after[|t|..] == ([entry] + part) + [leave] && below[|entered|..] == part;
    EntryReports(root, t, p, after);
    LeaveReports(root, t, p, entry, part);
    NodeJoins(t, entry, part, leave, Owner(root, p), OwnerOutside(root, p));
  }

  lemma Cancel(a: multiset<Report>, b: multiset<Report>, common: multiset<Report>)
    requires a + common == b + common
    ensures a == b
  {
    forall r ensures a[r] == b[r] {
      assert (a + common)[r] == (b + common)[r];
    }
  }

  lemma NodeJoins(t: Trace, entry: Event, part: Trace, leave: Event, inner: Option<Path>, open: Option<Path>)
    requires leave.Leave?
    requires var after := t + [entry] + part + [leave];
             ReportsOf(t + [entry]) == ReportsOf(t) + Due(after, [entry], open) && Due(after, [leave], open) == []
    requires var below := t + [entry] + part;
             ReportedSince(t + [entry], below, Due(below, part, inner)) &&
             multiset(ReportsOf(below + [leave])) + multiset(Due(below, part, inner)) ==
             multiset(ReportsOf(below)) + multiset(Due(below, part, open))
    ensures var after := t + [entry] + part + [leave];
            ReportedSince(t, after, Due(after, ([entry] + part) + [leave], open))
  {
    hide ReportsOf, Due;
    var below := t + [entry] + part;
    var after := below + [leave];
    DueOfNode(below, entry, part, leave, open);
    assert Due(after, ([entry] + part) + [leave], open) == Due(after, [entry], open) + Due(below, part, open);
    Cancel(multiset(ReportsOf(after)), multiset(ReportsOf(t + [entry])) + multiset(Due(below, part, open)),
           multiset(Due(below, part, inner)));
    assert multiset(ReportsOf(t + [entry])) == multiset(ReportsOf(t)) + multiset(Due(after, [entry], open));
  }

  lemma DueOfNode(below: Trace, entry: Event, part: Trace, leave: Event, open: Option<Path>)
    requires leave.Leave?
    ensures var after := below + [leave];
            Due(after, ([entry] + part) + [leave], open) ==
            Due(after, [entry], open) + Due(below, part, open) + Due(after, [leave], open)
  {
    hide DueOn, OwnerOf;
    var after := below + [leave];
    assert Apart(part, [leave], open);
    DueAppend(after, [entry] + part, [leave], open);
    DueAppend(after, [entry], part, open);
    DueIsSettled(below, [leave], part, open);
  }

  lemma EntryReports(root: Node, t: Trace, p: Path, after: Trace)
    requires ValidPath(root, p)
    ensures var e := Entry(root, t, p);
            ReportsOf(t + [e]) == ReportsOf(t) + Due(after, [e], OwnerOutside(root, p)) &&
            Due(after, [Leave(PlaceOf(root, p))], OwnerOutside(root, p)) == []
  {
    hide ValidPath, IsLifecycleCallback, CleaningAt, KeyAt, Gathered, Covers, OwnerOutside;
    var e := Entry(root, t, p);
    var entered := t + [e];
    assert entered[..|entered| - 1] == t && entered[|entered| - 1] == e;
    OwnerOfPlace(root, p);
    assert [e][..0] == [];
    assert Due(after, [e], OwnerOutside(root, p)) ==
           Due(after, [], OwnerOutside(root, p)) + DueOn(after, e, OwnerOutside(root, p));
  }

  lemma PendingInside(root: Node, t: Trace, p: Path, entry: Event, part: Trace)
    requires ValidPath(root, p) && Untouched(root, t, p) && entry == Entry(root, t, p) && At(root, p).kind.Function?
    ensures Pending(t + [entry] + part, p) == Pending(part, p)
  {
    hide ValidPath, CleaningAt, KeyAt, Real;
    PendingAppend(t + [entry], part, p);
    PendingAppend(t, [entry], p);
    NothingKnown(root, t, p);
    assert [entry][..0] == [];
    assert !IsPending(entry, p);
  }

  lemma OwnersInside(root: Node, part: Trace, p: Path)
    requires ValidPath(root, p) && IsLifecycleCallback(root, p)
    requires forall e | e in part :: Real(root, e) && p < e.place.path
    ensures forall e | e in part && e.Enter? && OwnerOf(e.place).Some? :: OwnerOf(e.place) != OwnerOutside(root, p)
  {
    hide ValidPath, OwnerOf, IsLifecycleCallback, OwnerOutside, Real;
    OwnersOfPart(root, part, p);
    OwnerOutsideIsShorter(root, p);
  }

  lemma LeaveReports(root: Node, t: Trace, p: Path, entry: Event, part: Trace)
    requires ValidPath(root, p) && Untouched(root, t, p) && entry == Entry(root, t, p)
    requires forall e | e in part :: Real(root, e) && p < e.place.path
    ensures var below := t + [entry] + part;
            multiset(ReportsOf(below + [Leave(PlaceOf(root, p))])) + multiset(Due(below, part, Owner(root, p))) ==
            multiset(ReportsOf(below)) + multiset(Due(below, part, OwnerOutside(root, p)))
  {
    hide ValidPath, Due, Gathered, Uncovered, Entry, Real, Untouched, Pending, OwnerOf;
    var below, leave := t + [entry] + part, Leave(PlaceOf(root, p));
    var after := below + [leave];
    assert after[..|after| - 1] == below && after[|after| - 1] == leave;
    if IsLifecycleCallback(root, p) {
      PendingInside(root, t, p, entry, part);
      OwnersInside(root, part, p);
      LeavingReleases(below, part, p, OwnerOutside(root, p));
      assert ReportsOf(after) == ReportsOf(below) + Uncovered(Pending(below, p), Gathered(below, p));
    } else {
      ReportsSame(below, leave);
    }
  }

  lemma OwnerOutsideIsShorter(root: Node, p: Path)
    requires ValidPath(root, p)
    ensures OwnerOutside(root, p).Some? ==> OwnerOutside(root, p).value < p
  {
    if p != [] {
      ValidPrefix(root, p, |p| - 1);
      OwnerIsAround(root, p[..|p| - 1]);
    }
  }

  /**
   Over a whole file: the reports are, in number and content, the verdicts on
   its `on` calls, each call weighed once against what its nearest lifecycle
   callback gathered over the whole traversal.
   */
  lemma EveryCallIsJudgedOnce(root: Node)
    ensures multiset(ReportsOf(FileTrace(root))) == multiset(Due(FileTrace(root), FileTrace(root), None))
  {
    var start: Trace, t := [], FileTrace(root);
    JudgedInNode(root, root, [], start);
    assert t[|start|..] == t && OwnerOutside(root, []) == None;
  }

  /** Checks a file: both stacks end as they began, and the reports are the verdicts on its calls. */
  method CheckFile(root: Node) returns (reports: seq<Report>, functionDepth: nat, scopeDepth: nat)
    ensures functionDepth == 0 && scopeDepth == 1
    ensures multiset(reports) == multiset(Due(FileTrace(root), FileTrace(root), None))
  {
    var rule := new SocketRule();
    assert rule.functionStack == Frames([], FunctionsOutside(root, []));
    assert rule.constStringScopeStack == Scopes([], BlocksOutside(root, []));
    rule.Visit(root, root, [], []);
    EveryCallIsJudgedOnce(root);
    reports := rule.reports;
    functionDepth, scopeDepth := |rule.functionStack|, |rule.constStringScopeStack|;
  }

  // ---- What counts as cleanup ----

  /** `e` is a cleanup call inside the lifecycle callback `o` that matches `call`. */
  predicate Matches(e: Event, o: Path, call: OnCall) {
    e.Enter? && IsCleanupCall(e.place) && OwnerOf(e.place) == Some(o) &&
    Covers(Unregisters(SocketCallOf(e.place).value, e.key), call)
  }

  /** Every matching call made inside cleanup counts. */
  lemma {:induction false} CleanupCounts(t: Trace, o: Path, call: OnCall, e: Event)
    requires e in t && Matches(e, o, call) && e.cleaning
    ensures Covers(Gathered(t, o), call)
  {
    var before, last := t[..|t| - 1], t[|t| - 1];
    assert t == before + [last];
    if e != last {
      CleanupCounts(before, o, call, e);
    }
  }

  /** A cleanup call that function `f` makes itself, outside cleanup. */
  predicate IsOwnCall(e: Event, f: Path) {
    e.Enter? && IsCleanupCall(e.place) && FunctionAround(e.place) == Some(f) && OwnerOf(e.place).Some? && !e.cleaning
  }

  /** `e` leaves a function of this name directly inside `o`, whose own calls are kept for a `return`. */
  predicate Stores(e: Event, o: Path, name: string) {
    e.Leave? && e.place.kind.Function? && e.place.kind.name == Some(name) && FunctionAround(e.place) == Some(o) &&
    !e.place.callback
  }

  /** `e` is a `return` of this name directly in the lifecycle callback `o`. */
  predicate PicksUp(e: Event, o: Path, name: string) {
    e.Enter? && e.place.handsOut == Some(name) && InnermostIsCallback(e.place.functions) && OwnerOf(e.place) == Some(o)
  }

  predicate Unregistering(e: Event, call: OnCall) {
    e.Enter? && IsCleanupCall(e.place) && Covers(Unregisters(SocketCallOf(e.place).value, e.key), call)
  }

  ghost predicate OwnCallAt(t: Trace, f: Path, call: OnCall, i: nat) {
    i < |t| && IsOwnCall(t[i], f) && Unregistering(t[i], call)
  }

  lemma {:induction false} OwnMeaning(t: Trace, f: Path, call: OnCall)
    ensures Covers(Own(t, f), call) <==> exists i: nat :: OwnCallAt(t, f, call, i)
  {
    if t != [] {
      var before, last := t[..|t| - 1], t[|t| - 1];
      OwnMeaning(before, f, call);
      forall i: nat ensures OwnCallAt(t, f, call, i) <==>
          OwnCallAt(before, f, call, i) || (i == |t| - 1 && IsOwnCall(last, f) && Unregistering(last, call))
      {
      }
      assert OwnCallAt(t, f, call, |t| - 1) <==> IsOwnCall(last, f) && Unregistering(last, call);
      if i: nat :| OwnCallAt(before, f, call, i) {
        assert OwnCallAt(t, f, call, i);
      }
    }
  }

  /** The last function of this name directly inside `o` to be left is the one left at `l`. */
  ghost predicate LastStored(t: Trace, o: Path, name: string, l: nat) {
    l < |t| && Stores(t[l], o, name) && forall k | l < k < |t| :: !Stores(t[k], o, name)
  }

  lemma StoredBefore(t: Trace, o: Path, name: string, l: nat)
    requires t != [] && !Stores(t[|t| - 1], o, name)
    ensures LastStored(t, o, name, l) <==> LastStored(t[..|t| - 1], o, name, l)
  {
  }

  lemma {:induction false} NamedMeaning(t: Trace, o: Path, name: string)
    ensures name in Named(t, o) <==> exists l: nat :: LastStored(t, o, name, l)
    ensures forall l: nat | LastStored(t, o, name, l) ::
              name in Named(t, o) && Named(t, o)[name] == Own(t[..l], t[l].place.path)
  {
    if t != [] {
      hide Own;
      var before, last := t[..|t| - 1], t[|t| - 1];
      NamedMeaning(before, o, name);
      if Stores(last, o, name) {
        assert LastStored(t, o, name, |t| - 1);
      } else {
        hide LastStored;
        forall l: nat ensures LastStored(t, o, name, l) <==> LastStored(before, o, name, l) {
          StoredBefore(t, o, name, l);
        }
        assert forall l | 0 <= l < |before| :: before[..l] == t[..l];
      }
    }
  }

  /** The call at `i` was made by the function left at `l`, whose name is returned at `r` before it is left again. */
  ghost predicate PickedUp(t: Trace, o: Path, i: nat, name: string, l: nat, r: nat) {
    i < l < r < |t| && PicksUp(t[r], o, name) && LastStored(t[..r], o, name, l) && IsOwnCall(t[i], t[l].place.path)
  }

  /**
   The call at `i` counts for the lifecycle callback `o`: it was made in
   cleanup, or by the function that was the last of its name to be left before
   a `return` of that name directly in the callback.
   */
  ghost predicate CountsAt(t: Trace, o: Path, call: OnCall, i: nat) {
    i < |t| && Matches(t[i], o, call) && (t[i].cleaning || exists name, l: nat, r: nat :: PickedUp(t, o, i, name, l, r))
  }

  lemma NotACallback(root: Node, p: Path)
    requires ValidPath(root, p) && !IsLifecycleCallback(root, p)
    ensures Owner(root, p) == OwnerOutside(root, p)
  {
  }

  lemma {:induction false} OwnerOfFunctionAround(root: Node, p: Path)
    requires ValidPath(root, p)
    ensures var around := FunctionAround(PlaceOf(root, p));
            around.Some? ==> ValidPath(root, around.value) && OwnerOf(PlaceOf(root, p)) == Owner(root, around.value)
    decreases |p|
  {
    if p != [] {
      var q := p[..|p| - 1];
      ValidPrefix(root, p, |p| - 1);
      OwnerOfFunctionAround(root, q);
      assert FunctionsOutside(root, p) == FunctionsAt(root, q);
      if !At(root, q).kind.Function? {
        assert FunctionsAt(root, q) == FunctionsOutside(root, q);
      }
    }
  }

  lemma DirectlyInCallback(root: Node, e: Event)
    requires Real(root, e) && InnermostIsCallback(e.place.functions)
    ensures FunctionAround(e.place) == OwnerOf(e.place)
  {
    hide IsLifecycleCallback, Owner;
    FunctionsNest(root, e.place.path);
  }

  /** A function left inside the callback and later picked up by it belongs to it, and so do its calls. */
  lemma OwnCallOwner(root: Node, x: Event, l: Event, r: Event, o: Path, name: string)
    requires Real(root, x) && Real(root, l) && Real(root, r)
    requires FunctionAround(x.place) == Some(l.place.path) && Stores(l, o, name) && PicksUp(r, o, name)
    ensures OwnerOf(x.place) == Some(o)
  {
    hide ValidPath, IsLifecycleCallback, Owner, IsReturnedCleanup;
    var g := l.place.path;
    OwnerOfFunctionAround(root, x.place.path);
    OwnerOfFunctionAround(root, g);
    OwnerOfFunctionAround(root, r.place.path);
    OwnerOfPlace(root, g);
    NotACallback(root, g);
    DirectlyInCallback(root, r);
  }

  /**
   What the event `e` after `before` adds: its own cleanup call, or the calls
   of the function whose name it returns.
   */
  ghost predicate AddsCover(before: Trace, e: Event, o: Path, call: OnCall) {
    (Matches(e, o, call) && e.cleaning) ||
    exists name, l: nat, i: nat ::
      PicksUp(e, o, name) && LastStored(before, o, name, l) && OwnCallAt(before[..l], before[l].place.path, call, i)
  }

  lemma GatheredStep(root: Node, before: Trace, e: Event, o: Path, call: OnCall)
    requires Real(root, e)
    ensures Covers(Gathered(before + [e], o), call) <==>
              Covers(Gathered(before, o), call) || AddsCover(before, e, o, call)
  {
    hide Named, Own;
    var t := before + [e];
    assert t[..|t| - 1] == before && t[|t| - 1] == e;
    if e.Enter? && e.place.handsOut.Some? {
      assert !IsCleanupCall(e.place);
      var name := e.place.handsOut.value;
      NamedMeaning(before, o, name);
      forall l: nat | LastStored(before, o, name, l)
        ensures Covers(Named(before, o)[name], call) <==>
                exists i: nat :: OwnCallAt(before[..l], before[l].place.path, call, i)
      {
        OwnMeaning(before[..l], before[l].place.path, call);
      }
    }
  }

  lemma CountsStep(root: Node, before: Trace, e: Event, o: Path, call: OnCall)
    requires forall x | x in before + [e] :: Real(root, x)
    ensures (exists i: nat :: CountsAt(before + [e], o, call, i)) <==>
            (exists i: nat :: CountsAt(before, o, call, i)) || AddsCover(before, e, o, call)
  {
    hide Real, IsOwnCall, PicksUp, Stores, Covers, Unregisters;
    var t, n := before + [e], |before|;
    assert t[..n] == before && t[n] == e;
    forall i: nat, name, l: nat, r: nat ensures PickedUp(t, o, i, name, l, r) <==>
        PickedUp(before, o, i, name, l, r) ||
        (r == n && i < l < n && PicksUp(e, o, name) && LastStored(before, o, name, l) &&
         IsOwnCall(before[i], before[l].place.path))
    {
      if r < n {
        assert t[..r] == before[..r];
      }
    }
    if i: nat :| CountsAt(t, o, call, i) {
      CountedLater(before, e, o, call, i);
    }
    if i: nat :| CountsAt(before, o, call, i) {
      assert t[i] == before[i];
      assert CountsAt(t, o, call, i);
    }
    if AddsCover(before, e, o, call) {
      if Matches(e, o, call) && e.cleaning {
        assert CountsAt(t, o, call, n);
      } else {
        var name, l: nat, i: nat :| PicksUp(e, o, name) && LastStored(before, o, name, l) &&
          OwnCallAt(before[..l], before[l].place.path, call, i);
        assert t[i] == before[i] == before[..l][i] && t[l] == before[l];
        PickedUpMatches(root, t, o, call, i, name, l, n);
        assert CountsAt(t, o, call, i);
      }
    }
  }

  lemma PickedUpMatches(root: Node, t: Trace, o: Path, call: OnCall, i: nat, name: string, l: nat, r: nat)
    requires forall x | x in t :: Real(root, x)
    requires PickedUp(t, o, i, name, l, r) && Unregistering(t[i], call)
    ensures Matches(t[i], o, call)
  {
    hide Real, Covers, Unregisters;
    assert t[i] in t && t[l] in t && t[r] in t && t[..r][l] == t[l];
    OwnCallOwner(root, t[i], t[l], t[r], o, name);
  }

  /** A call that counts after one more event counted before, or that event is why. */
  lemma CountedLater(before: Trace, e: Event, o: Path, call: OnCall, i: nat)
    requires CountsAt(before + [e], o, call, i)
    ensures (exists j: nat :: CountsAt(before, o, call, j)) || AddsCover(before, e, o, call)
  {
    hide PicksUp, Stores, Covers, Unregisters;
    var t, n := before + [e], |before|;
    assert t[..n] == before && t[n] == e;
    if i == n {
      assert t[i].cleaning;
    } else if t[i].cleaning {
      assert CountsAt(before, o, call, i);
    } else {
      var name, l: nat, r: nat :| PickedUp(t, o, i, name, l, r);
      if r < n {
        assert t[..r] == before[..r];
        assert PickedUp(before, o, i, name, l, r);
        assert CountsAt(before, o, call, i);
      } else {
        assert before[..l][i] == t[i] && before[l] == t[l];
        assert OwnCallAt(before[..l], before[l].place.path, call, i);
      }
    }
  }

  /** Exactly which cleanup calls cover an `on` call of the lifecycle callback `o`. */
  lemma {:induction false} CoveredExactly(root: Node, t: Trace, o: Path, call: OnCall)
    requires forall x | x in t :: Real(root, x)
    ensures Covers(Gathered(t, o), call) <==> exists i: nat :: CountsAt(t, o, call, i)
  {
    hide Real, Gathered, CountsAt, AddsCover, Covers;
    if t == [] {
      NothingCounts(t, o, call);
    } else {
      var before, e := t[..|t| - 1], t[|t| - 1];
      assert t == before + [e] && e in t && forall x | x in before :: x in t;
      CoveredExactly(root, before, o, call);
      GatheredStep(root, before, e, o, call);
      CountsStep(root, before, e, o, call);
    }
  }

  lemma NothingCounts(t: Trace, o: Path, call: OnCall)
    requires t == []
    ensures !Covers(Gathered(t, o), call) && forall i: nat :: !CountsAt(t, o, call, i)
  {
  }

  /** Nothing counts but a matching cleanup call inside the same lifecycle callback. */
  lemma OnlyOwnCallsCount(root: Node, t: Trace, o: Path, call: OnCall) returns (e: Event)
    requires (forall x | x in t :: Real(root, x)) && Covers(Gathered(t, o), call)
    ensures e in t && Matches(e, o, call)
  {
    CoveredExactly(root, t, o, call);
    var i: nat :| CountsAt(t, o, call, i);
    e := t[i];
  }

  // ---- Every place is entered exactly once ----

  ghost predicate EntersOnce(t: Trace) {
    forall i, j | 0 <= i < j < |t| && t[i].Enter? && t[j].Enter? :: t[i].place.path != t[j].place.path
  }

  lemma {:induction false} NodeEntersOnce(root: Node, n: Node, p: Path, t: Trace)
    requires ValidPath(root, p) && At(root, p) == n && Untouched(root, t, p) && EntersOnce(t)
    ensures EntersOnce(TraceNode(root, n, p, t))
    decreases n, 1
  {
    hide ValidPath, Real, PlaceOf;
    EntryIsReal(root, t, p);
    assert forall e | e in t :: e.place.path != p;
    ChildrenEnterOnce(root, n, p, t, Entry(root, t, p), |n.children|);
  }

  lemma {:induction false} ChildrenEnterOnce(root: Node, n: Node, p: Path, t: Trace, e: Event, k: nat)
    requires ValidPath(root, p) && At(root, p) == n && k <= |n.children| && Untouched(root, t, p)
    requires Real(root, e) && e.place.path == p && EntersOnce(t + [e])
    ensures EntersOnce(TraceChildren(root, n, p, t + [e], k))
    decreases n, 0, k
  {
    hide ValidPath, At, PlaceOf, Real, EntersOnce, Untouched, TraceNode;
    if k > 0 {
      hide TraceChildren;
      NextChild(root, n, p, t + [e], k);
      ChildrenEnterOnce(root, n, p, t, e, k - 1);
      ChildUntouched(root, n, p, t, e, k - 1);
      NodeEntersOnce(root, n.children[k - 1], p + [k - 1], TraceChildren(root, n, p, t + [e], k - 1));
    }
  }

  lemma EntryIsInNode(root: Node, n: Node, p: Path, t: Trace)
    requires ValidPath(root, p) && At(root, p) == n
    ensures Entry(root, t, p) in TraceNode(root, n, p, t)
  {
    hide ValidPath, At, Entry, Real, PlaceOf;
    var entered := t + [Entry(root, t, p)];
    ChildrenGrow(root, n, p, entered, 0, |n.children|);
    assert entered[|t|] == Entry(root, t, p);
  }

  lemma ChildIsInNode(root: Node, n: Node, p: Path, t: Trace, i: nat, e: Event)
    requires ValidPath(root, p) && At(root, p) == n && i < |n.children|
    requires ValidPath(root, p + [i]) && At(root, p + [i]) == n.children[i]
    requires e in TraceNode(root, n.children[i], p + [i], TraceChildren(root, n, p, t + [Entry(root, t, p)], i))
    ensures e in TraceNode(root, n, p, t)
  {
    hide ValidPath, At, Entry, Real, PlaceOf, TraceChildren;
    var entered := t + [Entry(root, t, p)];
    NextChild(root, n, p, entered, i + 1);
    ChildrenGrow(root, n, p, entered, i + 1, |n.children|);
    assert e in TraceChildren(root, n, p, entered, |n.children|);
  }

  lemma {:induction false} EveryPlaceIsEntered(root: Node, n: Node, p: Path, t: Trace, q: Path) returns (e: Event)
    requires ValidPath(root, p) && At(root, p) == n && ValidPath(n, q)
    ensures e in TraceNode(root, n, p, t) && e.Enter? && e.place.path == p + q
    decreases n
  {
    hide Entry, Real, PlaceOf, At, TraceNode, TraceChildren;
    if q == [] {
      EntryIsReal(root, t, p);
      EntryIsInNode(root, n, p, t);
      e := Entry(root, t, p);
      assert p + q == p;
    } else {
      var i, before := q[0], TraceChildren(root, n, p, t + [Entry(root, t, p)], q[0]);
      ValidChild(root, p, i);
      e := EveryPlaceIsEntered(root, n.children[i], p + [i], before, q[1..]);
      ChildIsInNode(root, n, p, t, i, e);
      assert p + [i] + q[1..] == p + q;
    }
  }

  lemma {:induction false} ChildrenGrow(root: Node, n: Node, p: Path, t: Trace, k: nat, m: nat)
    requires ValidPath(root, p) && At(root, p) == n && k <= m <= |n.children|
    ensures TraceChildren(root, n, p, t, k) <= TraceChildren(root, n, p, t, m)
    decreases m
  {
    hide ValidPath, At, Real, Entry, PlaceOf, TraceChildren, TraceNode;
    if k < m {
      ChildrenGrow(root, n, p, t, k, m - 1);
      NextChild(root, n, p, t, m);
      TraceExtends(root, n.children[m - 1], p + [m - 1], TraceChildren(root, n, p, t, m - 1));
    }
  }

  lemma DueOnCount(t: Trace, e: Event, report: Report)
    ensures multiset(DueOn(t, e, None))[report] ==
            if e.Enter? && e.place.path == report.path && Verdict(t, e) == Some(report.message) then 1 else 0
  {
  }

  lemma {:induction false} DueCount(t: Trace, part: Trace, report: Report)
    requires EntersOnce(part)
    ensures (forall e | e in part && e.Enter? :: e.place.path != report.path) ==>
              multiset(Due(t, part, None))[report] == 0
    ensures forall e | e in part && e.Enter? && e.place.path == report.path ::
              multiset(Due(t, part, None))[report] == if Verdict(t, e) == Some(report.message) then 1 else 0
  {
    hide Verdict, DueOn;
    if part != [] {
      var rest, last := part[..|part| - 1], part[|part| - 1];
      assert part == rest + [last];
      DueCount(t, rest, report);
      DueOnCount(t, last, report);
      if last.Enter? && last.place.path == report.path {
        forall e | e in rest && e.Enter? ensures e.place.path != report.path {
          var i :| 0 <= i < |rest| && rest[i] == e;
          assert part[i] == e;
        }
      }
    }
  }

  /** Each place is entered once, and reported exactly as its verdict says, once or not at all. */
  lemma ReportedExactlyAsJudged(root: Node, q: Path) returns (e: Event)
    requires ValidPath(root, q)
    ensures e in FileTrace(root) && e.Enter? && e.place == PlaceOf(root, q)
    ensures forall m ::
              multiset(ReportsOf(FileTrace(root)))[Report(q, m)] ==
              if Verdict(FileTrace(root), e) == Some(m) then 1 else 0
  {
    var start: Trace, t := [], FileTrace(root);
    e := EveryPlaceIsEntered(root, root, [], start, q);
    assert [] + q == q;
    TraceExtends(root, root, [], start);
    assert t[|start|..] == t;
    assert Real(root, e);
    NodeEntersOnce(root, root, [], start);
    EveryCallIsJudgedOnce(root);
    forall m ensures multiset(Due(t, t, None))[Report(q, m)] == if Verdict(t, e) == Some(m) then 1 else 0 {
      DueCount(t, t, Report(q, m));
    }
  }

  // ---- What is entered as cleanup ----

  ghost predicate HasEntered(t: Trace, f: Path) {
    exists j: nat :: EnteredAt(t, f, j)
  }

  predicate EnteredAt(t: Trace, f: Path, j: nat) {
    j < |t| && t[j].Enter? && t[j].place.path == f
  }

  /** Every entry is annotated by what came before it, and the function around it was entered before. */
  ghost predicate Annotated(root: Node, t: Trace) {
    forall i | 0 <= i < |t| && t[i].Enter? :: AnnotatedAt(root, t, i)
  }

  ghost predicate AnnotatedAt(root: Node, t: Trace, i: nat)
    requires i < |t| && t[i].Enter?
  {
    var place := t[i].place;
    ValidPath(root, place.path) && t[i] == Entry(root, t[..i], place.path) &&
    (FunctionAround(place).Some? ==> HasEntered(t[..i], FunctionAround(place).value))
  }

  lemma AnnotatedFurther(root: Node, t: Trace, e: Event)
    requires Annotated(root, t)
    requires e.Enter? ==> AnnotatedAt(root, t + [e], |t|)
    ensures Annotated(root, t + [e])
  {
    hide Entry, HasEntered;
    forall i | 0 <= i < |t| && t[i].Enter? ensures AnnotatedAt(root, t + [e], i) {
      assert AnnotatedAt(root, t, i) && (t + [e])[..i] == t[..i];
    }
  }

  lemma EntryIsAnnotated(root: Node, t: Trace, p: Path)
    requires ValidPath(root, p) && Annotated(root, t)
    requires FunctionAround(PlaceOf(root, p)).Some? ==> HasEntered(t, FunctionAround(PlaceOf(root, p)).value)
    ensures Annotated(root, t + [Entry(root, t, p)])
  {
    EntryIsReal(root, t, p);
    var after := t + [Entry(root, t, p)];
    assert after[..|t|] == t && after[|t|] == Entry(root, t, p);
    assert AnnotatedAt(root, after, |t|) by {
      hide CleaningAt, KeyAt;
    }
    AnnotatedFurther(root, t, Entry(root, t, p));
  }

  lemma HasEnteredLater(t: Trace, after: Trace, f: Path)
    requires HasEntered(t, f) && t <= after
    ensures HasEntered(after, f)
  {
    var j: nat :| EnteredAt(t, f, j);
    assert EnteredAt(after, f, j);
  }

  /** The function around a child is its parent, or the one around its parent. */
  lemma FunctionAroundChild(root: Node, p: Path, i: nat)
    requires ValidPath(root, p) && ValidPath(root, p + [i])
    ensures FunctionAround(PlaceOf(root, p + [i])) ==
            if At(root, p).kind.Function? then Some(p) else FunctionAround(PlaceOf(root, p))
  {
    OutsideOfChild(root, p, i);
    if !At(root, p).kind.Function? {
      assert FunctionsAt(root, p) == FunctionsOutside(root, p);
    }
  }

  lemma {:induction false} NodeAnnotated(root: Node, n: Node, p: Path, t: Trace)
    requires ValidPath(root, p) && At(root, p) == n && Annotated(root, t)
    requires FunctionAround(PlaceOf(root, p)).Some? ==> HasEntered(t, FunctionAround(PlaceOf(root, p)).value)
    ensures Annotated(root, TraceNode(root, n, p, t))
    decreases n, 1
  {
    hide ValidPath, PlaceOf, Entry, Annotated, HasEntered, FunctionAround;
    EntryIsAnnotated(root, t, p);
    ChildrenAnnotated(root, n, p, t, |n.children|);
    AnnotatedFurther(root, TraceChildren(root, n, p, t + [Entry(root, t, p)], |n.children|), Leave(PlaceOf(root, p)));
  }

  lemma {:induction false} ChildrenAnnotated(root: Node, n: Node, p: Path, t: Trace, k: nat)
    requires ValidPath(root, p) && At(root, p) == n && k <= |n.children|
    requires Annotated(root, t + [Entry(root, t, p)])
    requires FunctionAround(PlaceOf(root, p)).Some? ==> HasEntered(t, FunctionAround(PlaceOf(root, p)).value)
    ensures Annotated(root, TraceChildren(root, n, p, t + [Entry(root, t, p)], k))
    decreases n, 0, k
  {
    hide ValidPath, PlaceOf, Entry, Annotated, HasEntered, FunctionAround, At, TraceNode;
    if k > 0 {
      hide TraceChildren;
      var entered := t + [Entry(root, t, p)];
      var before := TraceChildren(root, n, p, entered, k - 1);
      NextChild(root, n, p, entered, k);
      ChildrenAnnotated(root, n, p, t, k - 1);
      ChildrenExtend(root, n, p, entered, k - 1);
      AroundChildEntered(root, p, t, before, k - 1);
      NodeAnnotated(root, n.children[k - 1], p + [k - 1], before);
    }
  }

  lemma AroundChildEntered(root: Node, p: Path, t: Trace, before: Trace, i: nat)
    requires ValidPath(root, p) && ValidPath(root, p + [i]) && t + [Entry(root, t, p)] <= before
    requires FunctionAround(PlaceOf(root, p)).Some? ==> HasEntered(t, FunctionAround(PlaceOf(root, p)).value)
    ensures FunctionAround(PlaceOf(root, p + [i])).Some? ==>
              HasEntered(before, FunctionAround(PlaceOf(root, p + [i])).value)
  {
    hide ValidPath, PlaceOf, Entry, HasEntered, FunctionAround;
    FunctionAroundChild(root, p, i);
    if At(root, p).kind.Function? {
      ParentEntered(root, p, t);
      HasEnteredLater(t + [Entry(root, t, p)], before, p);
    } else if FunctionAround(PlaceOf(root, p)).Some? {
      HasEnteredLater(t, before, FunctionAround(PlaceOf(root, p)).value);
    }
  }

  lemma ParentEntered(root: Node, p: Path, t: Trace)
    requires ValidPath(root, p)
    ensures HasEntered(t + [Entry(root, t, p)], p)
  {
    EntryIsReal(root, t, p);
    assert EnteredAt(t + [Entry(root, t, p)], p, |t|);
  }

  /** The function around a place is the nearest: every function it lies in lies around that one, or is it. */
  lemma {:induction false} NearestFunction(root: Node, p: Path, g: Path)
    requires ValidPath(root, p) && ValidPath(root, g) && g < p && At(root, g).kind.Function?
    ensures FunctionAround(PlaceOf(root, p)).Some? && g <= FunctionAround(PlaceOf(root, p)).value < p
    decreases |p|
  {
    var q := p[..|p| - 1];
    ValidPrefix(root, p, |p| - 1);
    assert FunctionsOutside(root, p) == FunctionsAt(root, q);
    if At(root, q).kind.Function? {
      assert g <= q;
    } else {
      assert FunctionsAt(root, q) == FunctionsOutside(root, q) && g <= q && g != q;
      NearestFunction(root, q, g);
    }
  }

  lemma {:induction false} CleansMeaning(t: Trace, f: Path)
    requires EntersOnce(t)
    ensures Cleans(t, f) <==> exists j: nat :: EnteredAt(t, f, j) && t[j].cleaning
  {
    if t != [] {
      var before, last := t[..|t| - 1], t[|t| - 1];
      CleansMeaning(before, f);
      forall j: nat
        ensures EnteredAt(t, f, j) <==> EnteredAt(before, f, j) || (j == |t| - 1 && last.Enter? && last.place.path == f)
      {
      }
      if last.Enter? && last.place.path == f {
        assert EnteredAt(t, f, |t| - 1);
        forall j: nat | EnteredAt(t, f, j) ensures j == |t| - 1 {
        }
      } else {
        assert forall j: nat | EnteredAt(before, f, j) :: before[j] == t[j];
      }
    }
  }

  /**
   `r` is a `return`, directly in the lifecycle callback around the function
   entered at `k`, of that function's name.
   */
  predicate ReturnsIt(t: Trace, k: nat, r: nat) {
    r < k < |t| && t[r].Enter? && t[k].Enter? && t[k].place.kind.Function? && t[k].place.kind.name.Some? &&
    t[r].place.handsOut == t[k].place.kind.name && FunctionAround(t[k].place).Some? &&
    FunctionAround(t[r].place) == FunctionAround(t[k].place) && InnermostIsCallback(t[r].place.functions)
  }

  /**
   The function entered at `k` is a cleanup function itself: returned on the
   spot, or by name before it is entered.
   */
  ghost predicate StartsCleanup(t: Trace, k: nat) {
    k < |t| && t[k].Enter? && t[k].place.kind.Function? && (t[k].place.returned || exists r: nat :: ReturnsIt(t, k, r))
  }

  /** The position lies in a cleanup function. */
  ghost predicate InCleanup(t: Trace, p: Path) {
    exists k: nat :: StartsCleanup(t, k) && t[k].place.path <= p
  }

  lemma {:induction false} ReturnedMeaning(t: Trace, f: Path, name: string)
    ensures name in Returned(t, f) <==> exists r: nat :: ReturnedAt(t, f, name, r)
  {
    if t != [] {
      var before, last := t[..|t| - 1], t[|t| - 1];
      ReturnedMeaning(before, f, name);
      assert ReturnedAt(t, f, name, |t| - 1) <==>
             last.Enter? && last.place.handsOut == Some(name) && FunctionAround(last.place) == Some(f) &&
             InnermostIsCallback(last.place.functions);
      forall r: nat | r < |before| ensures ReturnedAt(t, f, name, r) <==> ReturnedAt(before, f, name, r) {
      }
    }
  }

  predicate ReturnedAt(t: Trace, f: Path, name: string, r: nat) {
    r < |t| && t[r].Enter? && t[r].place.handsOut == Some(name) && FunctionAround(t[r].place) == Some(f) &&
    InnermostIsCallback(t[r].place.functions)
  }

  /** The annotation at `i`, unfolded once. */
  lemma CleaningUnfolds(root: Node, t: Trace, i: nat)
    requires Annotated(root, t) && EntersOnce(t) && i < |t| && t[i].Enter?
    ensures Real(root, t[i])
    ensures t[i].cleaning <==>
            StartsCleanup(t, i) ||
            (FunctionAround(t[i].place).Some? && exists j: nat ::
               EnteredAt(t[..i], FunctionAround(t[i].place).value, j) && t[j].cleaning)
  {
    hide KeyAt, PlaceOf, Returned, Cleans, FunctionAround;
    assert AnnotatedAt(root, t, i);
    EntryIsReal(root, t[..i], t[i].place.path);
    var around := FunctionAround(t[i].place);
    if around.Some? {
      CleansMeaning(t[..i], around.value);
      if t[i].place.kind.Function? && t[i].place.kind.name.Some? {
        ReturnedMeaning(t[..i], around.value, t[i].place.kind.name.value);
        forall r: nat ensures ReturnsIt(t, i, r) <==> ReturnedAt(t[..i], around.value, t[i].place.kind.name.value, r) {
        }
      }
    }
  }

  /** An event is annotated as cleanup exactly when it lies in a cleanup function. */
  lemma {:induction false} CleaningMeaning(root: Node, t: Trace, i: nat)
    requires Annotated(root, t) && EntersOnce(t) && i < |t| && t[i].Enter?
    ensures t[i].cleaning <==> InCleanup(t, t[i].place.path)
    decreases i
  {
    hide Annotated, StartsCleanup, EntersOnce;
    CleaningUnfolds(root, t, i);
    var p, around := t[i].place.path, FunctionAround(t[i].place);
    if StartsCleanup(t, i) {
      assert t[i].place.path <= p;
    } else if around.Some? {
      var j := AroundIsEntered(root, t, i);
      CleaningMeaning(root, t, j);
      SameCleanup(root, t, i, j);
      assert EnteredAt(t[..i], around.value, j);
      assert forall k: nat | EnteredAt(t[..i], around.value, k) :: k == j by {
        OnlyOnce(t, i, around.value, j);
      }
    } else {
      NoCleanupOutside(root, t, i);
    }
  }

  lemma AroundIsEntered(root: Node, t: Trace, i: nat) returns (j: nat)
    requires Annotated(root, t) && i < |t| && t[i].Enter? && FunctionAround(t[i].place).Some?
    ensures j < i && t[j].Enter? && t[j].place.path == FunctionAround(t[i].place).value
  {
    assert AnnotatedAt(root, t, i);
    j :| EnteredAt(t[..i], FunctionAround(t[i].place).value, j);
  }

  lemma OnlyOnce(t: Trace, i: nat, f: Path, j: nat)
    requires EntersOnce(t) && i <= |t| && EnteredAt(t[..i], f, j)
    ensures forall k: nat | EnteredAt(t[..i], f, k) :: k == j
  {
    assert forall k: nat | EnteredAt(t[..i], f, k) :: EnteredAt(t, f, k);
  }

  /** A cleanup function around an entry, other than the entry itself, is around the nearest function too. */
  lemma SameCleanup(root: Node, t: Trace, i: nat, j: nat)
    requires Annotated(root, t) && EntersOnce(t) && i < |t| && t[i].Enter? && !StartsCleanup(t, i)
    requires j < i && t[j].Enter? && FunctionAround(t[i].place) == Some(t[j].place.path)
    ensures InCleanup(t, t[i].place.path) <==> InCleanup(t, t[j].place.path)
  {
    hide ReturnsIt;
    var p, f := t[i].place.path, t[j].place.path;
    AnnotatedIsReal(root, t, i);
    FunctionsNest(root, p);
    assert f < p;
    forall k: nat | StartsCleanup(t, k) ensures t[k].place.path <= p <==> t[k].place.path <= f {
      AnnotatedIsReal(root, t, k);
      if t[k].place.path <= p {
        assert k != i ==> t[k].place.path != p;
        NearestFunction(root, p, t[k].place.path);
      }
    }
  }

  lemma AnnotatedIsReal(root: Node, t: Trace, i: nat)
    requires Annotated(root, t) && i < |t| && t[i].Enter?
    ensures Real(root, t[i])
  {
    assert AnnotatedAt(root, t, i);
    EntryIsReal(root, t[..i], t[i].place.path);
  }

  lemma NoCleanupOutside(root: Node, t: Trace, i: nat)
    requires Annotated(root, t) && EntersOnce(t) && i < |t| && t[i].Enter? && !StartsCleanup(t, i)
    requires FunctionAround(t[i].place).None?
    ensures !InCleanup(t, t[i].place.path)
  {
    hide ReturnsIt;
    var p := t[i].place.path;
    AnnotatedIsReal(root, t, i);
    forall k: nat | StartsCleanup(t, k) ensures !(t[k].place.path <= p) {
      AnnotatedIsReal(root, t, k);
      if t[k].place.path <= p {
        assert k != i ==> t[k].place.path != p;
        NearestFunction(root, p, t[k].place.path);
      }
    }
  }

  /**
   Exactly when an `on` call of a file goes unreported inside a lifecycle
   callback: it lies in a cleanup function, or some cleanup call of the same
   callback matches it that lies in a cleanup function itself, or was made by a
   function whose name the callback then returned.
   */
  lemma SilentExactly(root: Node, e: Event)
    requires e in FileTrace(root) && e.Enter? && IsOnCall(e.place) && OwnerOf(e.place).Some?
    ensures var t, o := FileTrace(root), OwnerOf(e.place).value;
            Verdict(t, e).None? <==>
            InCleanup(t, e.place.path) || exists i: nat :: CountsAt(t, o, OnCallOf(e), i)
  {
    var start: Trace, t := [], FileTrace(root);
    TraceExtends(root, root, [], start);
    assert t[|start|..] == t;
    CoveredExactly(root, t, OwnerOf(e.place).value, OnCallOf(e));
    FileCleaning(root);
  }

  /** In the trace of a file, exactly the places in cleanup functions are annotated as cleanup. */
  lemma FileCleaning(root: Node)
    ensures forall e | e in FileTrace(root) && e.Enter? :: e.cleaning <==> InCleanup(FileTrace(root), e.place.path)
  {
    var start: Trace, t := [], FileTrace(root);
    NodeAnnotated(root, root, [], start);
    NodeEntersOnce(root, root, [], start);
    forall e | e in t && e.Enter? ensures e.cleaning <==> InCleanup(t, e.place.path) {
      var i: nat :| i < |t| && t[i] == e;
      CleaningMeaning(root, t, i);
    }
  }
}
