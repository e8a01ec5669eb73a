/**
 The syntactic claim that two nodes of a catch block never run on one path, and
 its soundness against a semantics of blocks, `if`, `return`, `throw` and
 expressions that may throw at any point.
 */
module ExclusivePaths {
  import opened SyntaxTree
  import opened Wrappers

  datatype Form = Expression | Simple | Return | Throw | Block | If

  /** A node's form and its source range. */
  datatype Syntax = Syntax(form: Form, start: nat, end: nat)

  /** An `If` has a test, a consequent and perhaps an alternate. */
  type Node = Tree<Syntax>

  predicate IsStatement(form: Form) {
    !form.Expression?
  }

  /** Ranges nest and are ordered, and each kind has the children its syntax gives it. */
  ghost predicate WellFormed(n: Node) {
    n.kind.start < n.kind.end &&
    (forall i | 0 <= i < |n.children| ::
       WellFormed(n.children[i]) && n.kind.start <= n.children[i].kind.start && n.children[i].kind.end <= n.kind.end) &&
    (forall i, j | 0 <= i < j < |n.children| :: n.children[i].kind.end <= n.children[j].kind.start) &&
    match n.kind.form
    case Block => forall i | 0 <= i < |n.children| :: IsStatement(n.children[i].kind.form)
    case If =>
      2 <= |n.children| <= 3 && n.children[0].kind.form.Expression? &&
      forall i | 1 <= i < |n.children| :: IsStatement(n.children[i].kind.form)
    case _ => forall i | 0 <= i < |n.children| :: n.children[i].kind.form.Expression?
  }

  // ---- Executions ----

  datatype Completion = Normal | Abrupt

  /** The part of an execution that lies in child `i`. */
  function Inside(ran: set<Path>, i: nat): set<Path> {
    set p | p in ran && p != [] && p[0] == i :: p[1..]
  }

  ghost predicate NothingFrom(ran: set<Path>, i: nat) {
    forall p | p in ran && p != [] :: p[0] < i
  }

  /**
   One execution of `n` runs exactly the nodes `ran` and completes with `c`.
   An expression runs any of its parts and may throw; a block stops at its
   first abrupt statement; an `if` runs at most one branch.
   */
  ghost predicate Runs(n: Node, ran: set<Path>, c: Completion)
    decreases n, |n.children| + 1
  {
    [] in ran && (forall p | p in ran :: ValidPath(n, p)) &&
    match n.kind.form
    case Expression => true
    case Simple => true
    case Return => c.Abrupt?
    case Throw => c.Abrupt?
    case Block => RunsFrom(n, ran, c, 0)
    case If =>
      2 <= |n.children| <= 3 &&
      ((Runs(n.children[0], Inside(ran, 0), Abrupt) && NothingFrom(ran, 1) && c.Abrupt?) ||
       (Runs(n.children[0], Inside(ran, 0), Normal) &&
        ((Runs(n.children[1], Inside(ran, 1), c) && NothingFrom(ran, 2)) ||
         (Inside(ran, 1) == {} && |n.children| == 3 && Runs(n.children[2], Inside(ran, 2), c)) ||
         (NothingFrom(ran, 1) && |n.children| == 2 && c.Normal?))))
  }

  /** The statements of a block from position `i` on. */
  ghost predicate RunsFrom(n: Node, ran: set<Path>, c: Completion, i: nat)
    requires i <= |n.children|
    decreases n, |n.children| - i
  {
    if i == |n.children| then c.Normal?
    else
      (Runs(n.children[i], Inside(ran, i), Normal) && RunsFrom(n, ran, c, i + 1)) ||
      (Runs(n.children[i], Inside(ran, i), Abrupt) && NothingFrom(ran, i + 1) && c.Abrupt?)
  }

  // ---- The analysis ----

  /** `parentOf`: drop the last step. */
  function Parent(p: Path): Option<Path> {
    if p == [] then None else Some(p[..|p| - 1])
  }

  predicate Descends(p: Path, ancestor: Path) {
    |ancestor| < |p| && p[..|ancestor|] == ancestor
  }

  method IsDescendantOf(p: Path, ancestor: Path) returns (descends: bool)
    ensures descends <==> Descends(p, ancestor)
  {
    var current := Parent(p);
    ghost var k := |p|;
    assert p[..k] == p;
    while current.Some?
      invariant 0 <= k <= |p|
      invariant current == Parent(p[..k])
      invariant forall l | k <= l < |p| :: p[..l] != ancestor
      decreases k
    {
      assert p[..k][..k - 1] == p[..k - 1];
      if current.value == ancestor {
        return true;
      }
      k := k - 1;
      current := Parent(current.value);
    }
    return false;
  }

  predicate TerminatesFrom(branch: Node, i: nat) {
    exists k | i <= k < |branch.children| :: branch.children[k].kind.form.Return? || branch.children[k].kind.form.Throw?
  }

  /** A later statement of the branch's own block returns or throws. */
  predicate BranchTerminatesAfter(root: Node, p: Path, branch: Path)
    requires ValidPath(root, branch) && Descends(p, branch)
  {
    At(root, branch).kind.form.Block? && TerminatesFrom(At(root, branch), p[|branch|] + 1)
  }

  /** Climbs from `p` to the statement directly inside `block`. */
  method DirectStatementWithin(p: Path, block: Path) returns (statement: Path)
    requires Descends(p, block)
    ensures statement == p[..|block| + 1]
  {
    statement := p;
    while statement[..|statement| - 1] != block
      invariant |block| < |statement| <= |p| && statement == p[..|statement|]
      decreases |statement|
    {
      statement := statement[..|statement| - 1];
    }
  }

  /** Which branch of the `if` at `p[..k]` holds `p`: 1, 2, or 0 for the test or the `if` itself. */
  function BranchOf(root: Node, p: Path, k: nat): (branch: nat)
    requires k < |p| && ValidPath(root, p[..k])
    ensures branch <= 2
    ensures branch != 0 ==> branch == p[k] && branch < |At(root, p[..k]).children| && Descends(p, p[..k] + [branch])
  {
    if |p| <= k + 1 then 0
    else
      assert forall b: nat :: (p[..k] + [b] == p[..k + 1]) <==> b == p[k];
      if 1 < |At(root, p[..k]).children| && Descends(p, p[..k] + [1]) then 1
      else if 2 < |At(root, p[..k]).children| && Descends(p, p[..k] + [2]) then 2 else 0
  }

  /** What the ancestor `p[..k]` alone proves about `first` and `second`. */
  predicate ExclusiveAt(root: Node, first: Path, second: Path, k: nat)
    requires ValidPath(root, first) && ValidPath(root, second) && k < |first|
  {
    ValidPrefix(root, first, k);
    var ancestor := first[..k];
    var statement := At(root, ancestor);
    var branch := BranchOf(root, first, k);
    statement.kind.form.If? && branch != 0 &&
    ((3 - branch < |statement.children| && Descends(second, ancestor + [3 - branch])) ||
     (At(root, second).kind.start >= statement.kind.end &&
      (ValidChild(root, ancestor, branch); BranchTerminatesAfter(root, first, ancestor + [branch]))))
  }

  predicate MaySharePath(root: Node, first: Path, second: Path)
    requires ValidPath(root, first) && ValidPath(root, second)
  {
    forall k: nat | k < |first| :: !ExclusiveAt(root, first, second, k)
  }

  /** The analysis itself: climbs from `first`, looking at each enclosing `if`. */
  method NodesMaySharePath(root: Node, first: Path, second: Path) returns (may: bool)
    requires ValidPath(root, first) && ValidPath(root, second)
    ensures may <==> MaySharePath(root, first, second)
  {
    var secondStart := At(root, second).kind.start;
    var k := |first|;
    while k > 0
      invariant 0 <= k <= |first|
      invariant forall l: nat | k <= l < |first| :: !ExclusiveAt(root, first, second, l)
    {
      k := k - 1;
      ValidPrefix(root, first, k);
      var current := first[..k];
      if !At(root, current).kind.form.If? {
        continue;
      }
      var branch := BranchOf(root, first, k);
      if branch == 0 {
        continue;
      }
      ValidChild(root, current, branch);
      if 3 - branch < |At(root, current).children| {
        var inOther := IsDescendantOf(second, current + [3 - branch]);
        if inOther {
          assert ExclusiveAt(root, first, second, k);
          return false;
        }
      }
      var branchPath := current + [branch];
      if secondStart >= At(root, current).kind.end && At(root, branchPath).kind.form.Block? {
        var statement := DirectStatementWithin(first, branchPath);
        if TerminatesFrom(At(root, branchPath), statement[|branchPath|] + 1) {
          assert ExclusiveAt(root, first, second, k);
          return false;
        }
      }
    }
    return true;
  }

  // ---- Soundness ----

  /** `p` lies to the right of `q`: it branches off later in the source. */
  ghost predicate RightOf(p: Path, q: Path)
    decreases |p|
  {
    p != [] && q != [] && (p[0] > q[0] || (p[0] == q[0] && RightOf(p[1..], q[1..])))
  }

  function Under(ran: set<Path>, q: Path): set<Path>
    decreases |q|
  {
    if q == [] then ran else Under(Inside(ran, q[0]), q[1..])
  }

  lemma {:induction false} UnderMeaning(ran: set<Path>, q: Path, p: Path)
    ensures p in Under(ran, q) <==> q + p in ran
    decreases |q|
  {
    if q == [] {
      assert q + p == p;
    } else {
      UnderMeaning(Inside(ran, q[0]), q[1..], p);
      assert (q + p)[1..] == q[1..] + p;
      assert q[1..] + p in Inside(ran, q[0]) <==> q + p in ran by {
        if r :| r in ran && r != [] && r[0] == q[0] && r[1..] == q[1..] + p {
          assert r == [r[0]] + r[1..] && q + p == [q[0]] + (q[1..] + p);
        }
      }
    }
  }

  lemma SomethingInside(ran: set<Path>, i: nat)
    requires Inside(ran, i) != {}
    ensures exists p :: p in ran && p != [] && p[0] == i
  {
  }

  /** Reaching a statement of a block, an execution runs it and is at most abrupt there. */
  lemma {:induction false} BlockReaches(n: Node, ran: set<Path>, c: Completion, from: nat, i: nat)
    requires from <= i < |n.children| && RunsFrom(n, ran, c, from)
    requires Inside(ran, i) != {}
    ensures Runs(n.children[i], Inside(ran, i), Normal) ||
            (Runs(n.children[i], Inside(ran, i), Abrupt) && NothingFrom(ran, i + 1) && c.Abrupt?)
    ensures RunsFrom(n, ran, c, i)
    decreases i - from
  {
    if from < i {
      SomethingInside(ran, i);
      BlockReaches(n, ran, c, from + 1, i);
    }
  }

  /** After an abrupt statement nothing to its right runs, and the whole is abrupt. */
  lemma {:induction false} AbruptStops(n: Node, ran: set<Path>, c: Completion, q: Path) returns (inner: Completion)
    requires WellFormed(n) && ValidPath(n, q) && At(n, q).kind.form.If?
    requires Runs(n, ran, c) && Under(ran, q) != {}
    ensures Runs(At(n, q), Under(ran, q), inner)
    ensures inner.Abrupt? ==> c.Abrupt? && forall p | p in ran :: !RightOf(p, q)
    decreases |q|
  {
    if q == [] {
      inner := c;
    } else {
      var i, child, part := q[0], n.children[q[0]], Inside(ran, q[0]);
      StatementsHoldIfs(n, q);
      EmptyInside(part, q[1..]);
      var c' := ChildRuns(n, ran, c, i);
      inner := AbruptStops(child, part, c', q[1..]);
      if inner.Abrupt? {
        forall p | p in ran ensures !RightOf(p, q) {
          if p != [] && p[0] == i {
            assert p[1..] in part;
          }
        }
      }
    }
  }

  lemma {:induction false} EmptyInside(ran: set<Path>, q: Path)
    requires Under(ran, q) != {}
    ensures ran != {}
    decreases |q|
  {
    if q != [] {
      EmptyInside(Inside(ran, q[0]), q[1..]);
    }
  }

  /** An `if` is only ever reached through statement positions. */
  lemma {:induction false} StatementsHoldIfs(n: Node, q: Path)
    requires WellFormed(n) && ValidPath(n, q) && q != [] && At(n, q).kind.form.If?
    ensures n.kind.form.Block? || (n.kind.form.If? && q[0] >= 1)
    decreases |q|
  {
    if !n.kind.form.Block? && !(n.kind.form.If? && q[0] >= 1) {
      assert n.children[q[0]].kind.form.Expression?;
      if |q| > 1 {
        StatementsHoldIfs(n.children[q[0]], q[1..]);
        assert false;
      }
    }
  }

  /** A statement position that ran, ran to a completion that decides the rest. */
  lemma ChildRuns(n: Node, ran: set<Path>, c: Completion, i: nat) returns (inner: Completion)
    requires WellFormed(n) && Runs(n, ran, c) && i < |n.children| && Inside(ran, i) != {}
    requires n.kind.form.Block? || (n.kind.form.If? && i >= 1)
    ensures Runs(n.children[i], Inside(ran, i), inner)
    ensures inner.Abrupt? ==> c.Abrupt? && NothingFrom(ran, i + 1)
  {
    if n.kind.form.Block? {
      BlockReaches(n, ran, c, 0, i);
      if Runs(n.children[i], Inside(ran, i), Normal) {
        inner := Normal;
      } else {
        inner := Abrupt;
      }
    } else {
      SomethingInside(ran, i);
      inner := c;
    }
  }

  /** A statement followed in its block by `return` or `throw` leaves that block abruptly. */
  lemma {:induction false} TerminatorIsAbrupt(n: Node, ran: set<Path>, c: Completion, from: nat)
    requires from <= |n.children| && RunsFrom(n, ran, c, from) && TerminatesFrom(n, from)
    ensures c.Abrupt?
    decreases |n.children| - from
  {
    if Runs(n.children[from], Inside(ran, from), Normal) && RunsFrom(n, ran, c, from + 1) {
      TerminatorIsAbrupt(n, ran, c, from + 1);
    }
  }

  lemma TerminatedBlockIsAbrupt(n: Node, ran: set<Path>, c: Completion, i: nat)
    requires n.kind.form.Block? && Runs(n, ran, c) && i < |n.children|
    requires Inside(ran, i) != {} && TerminatesFrom(n, i + 1)
    ensures c.Abrupt?
  {
    BlockReaches(n, ran, c, 0, i);
    if c.Normal? {
      TerminatorIsAbrupt(n, ran, c, i + 1);
    }
  }

  /** Ranges of descendants lie inside the ranges of their ancestors. */
  lemma {:induction false} RangeNests(n: Node, p: Path)
    requires WellFormed(n) && ValidPath(n, p)
    ensures WellFormed(At(n, p)) && n.kind.start <= At(n, p).kind.start < At(n, p).kind.end <= n.kind.end
  {
    if p != [] {
      RangeNests(n.children[p[0]], p[1..]);
    }
  }

  /** A node that starts at or after another's end lies to its right in the tree. */
  lemma {:induction false} LaterIsRight(n: Node, p: Path, q: Path)
    requires WellFormed(n) && ValidPath(n, p) && ValidPath(n, q) && At(n, p).kind.start >= At(n, q).kind.end
    ensures RightOf(p, q)
    decreases |p|
  {
    RangeNests(n, p);
    RangeNests(n, q);
    if p != [] && q != [] {
      RangeNests(n.children[p[0]], p[1..]);
      RangeNests(n.children[q[0]], q[1..]);
      if p[0] == q[0] {
        LaterIsRight(n.children[p[0]], p[1..], q[1..]);
      }
    }
  }

  lemma RanUnder(ran: set<Path>, p: Path, q: Path)
    requires p in ran && |q| <= |p| && p[..|q|] == q
    ensures p[|q|..] in Under(ran, q)
  {
    UnderMeaning(ran, q, p[|q|..]);
    assert q + p[|q|..] == p;
  }

  lemma InsideBranch(ran: set<Path>, p: Path)
    requires p in ran && p != []
    ensures Inside(ran, p[0]) != {}
  {
    assert p[1..] in Inside(ran, p[0]);
  }

  /** Opposite branches of one `if`: only one of them runs. */
  lemma OppositeIsSound(root: Node, first: Path, second: Path, k: nat, branch: nat, ran: set<Path>, c: Completion)
    requires WellFormed(root) && ValidPath(root, first) && k < |first| && ValidPath(root, first[..k])
    requires At(root, first[..k]).kind.form.If? && 1 <= branch <= 2 && first[k] == branch
    requires Descends(second, first[..k] + [3 - branch])
    requires Runs(root, ran, c) && first in ran
    ensures second !in ran
  {
    var ancestor := first[..k];
    RanUnder(ran, first, ancestor);
    var inner := AbruptStops(root, ran, c, ancestor);
    InsideBranch(Under(ran, ancestor), first[k..]);
    if second in ran {
      assert second[..k] == second[..k + 1][..k] == ancestor;
      assert second[k] == second[..k + 1][k] == 3 - branch;
      RanUnder(ran, second, ancestor);
      InsideBranch(Under(ran, ancestor), second[k..]);
      BranchesExclude(At(root, ancestor), Under(ran, ancestor), inner);
      assert false;
    }
  }

  /** A branch left for good: nothing after the `if` runs. */
  lemma TerminatedIsSound(root: Node, first: Path, second: Path, k: nat, ran: set<Path>, c: Completion)
    requires WellFormed(root) && ValidPath(root, second) && k + 1 < |first| && ValidPath(root, first[..k])
    requires At(root, first[..k]).kind.form.If? && 1 <= first[k] < |At(root, first[..k]).children|
    requires At(root, first[..k]).children[first[k]].kind.form.Block?
    requires TerminatesFrom(At(root, first[..k]).children[first[k]], first[k + 1] + 1)
    requires At(root, second).kind.start >= At(root, first[..k]).kind.end
    requires Runs(root, ran, c) && first in ran
    ensures second !in ran
  {
    var ancestor := first[..k];
    RanUnder(ran, first, ancestor);
    var inner := AbruptStops(root, ran, c, ancestor);
    RangeNests(root, ancestor);
    LaterIsRight(root, second, ancestor);
    TerminatedBranch(At(root, ancestor), Under(ran, ancestor), inner, first[k..]);
  }

  /** The proof at one ancestor is sound: no execution runs both nodes. */
  lemma ExclusiveAtIsSound(root: Node, first: Path, second: Path, k: nat, ran: set<Path>, c: Completion)
    requires WellFormed(root) && ValidPath(root, first) && ValidPath(root, second) && k < |first|
    requires ExclusiveAt(root, first, second, k) && Runs(root, ran, c) && first in ran
    ensures second !in ran
  {
    ValidPrefix(root, first, k);
    var ancestor, branch := first[..k], BranchOf(root, first, k);
    ValidChild(root, ancestor, branch);
    RangeNests(root, ancestor);
    if 3 - branch < |At(root, ancestor).children| && Descends(second, ancestor + [3 - branch]) {
      OppositeIsSound(root, first, second, k, branch, ran, c);
    } else {
      TerminatedIsSound(root, first, second, k, ran, c);
    }
  }

  lemma BranchesExclude(n: Node, ran: set<Path>, c: Completion)
    requires n.kind.form.If? && Runs(n, ran, c)
    ensures Inside(ran, 1) == {} || Inside(ran, 2) == {}
  {
  }

  /** Running a node of a terminated branch makes the whole `if` abrupt. */
  lemma TerminatedBranch(n: Node, ran: set<Path>, c: Completion, p: Path)
    requires WellFormed(n) && n.kind.form.If? && Runs(n, ran, c) && p in ran && |p| >= 2 && 1 <= p[0] < |n.children|
    requires n.children[p[0]].kind.form.Block? && TerminatesFrom(n.children[p[0]], p[1] + 1)
    ensures c.Abrupt?
  {
    InsideBranch(ran, p);
    var branch, part := n.children[p[0]], Inside(ran, p[0]);
    assert p[1..] in part;
    InsideBranch(part, p[1..]);
    assert Runs(branch, part, c);
    assert ValidPath(branch, p[1..]);
    TerminatedBlockIsAbrupt(branch, part, c, p[1]);
  }

  /** A false answer is sound: no execution of the root runs both nodes. */
  lemma UnsharedPathsAreExclusive(root: Node, first: Path, second: Path)
    requires WellFormed(root) && ValidPath(root, first) && ValidPath(root, second)
    requires !MaySharePath(root, first, second)
    ensures forall ran, c | Runs(root, ran, c) :: !(first in ran && second in ran)
  {
    var k: nat :| k < |first| && ExclusiveAt(root, first, second, k);
    forall ran, c | Runs(root, ran, c) && first in ran ensures second !in ran {
      ExclusiveAtIsSound(root, first, second, k, ran, c);
    }
  }

  // ---- The answer, read off the tree ----

  /** The `i`-th statement of the block at `block` is on the way to `p`, and a later one returns or throws. */
  ghost predicate LeftForGood(root: Node, block: Path, p: Path, i: nat) {
    ValidPath(root, block) && At(root, block).kind.form.Block? && block + [i] <= p &&
    exists j | i < j < |At(root, block).children| ::
      At(root, block).children[j].kind.form == Return || At(root, block).children[j].kind.form == Throw
  }

  /**
   The `if` at `a` separates the nodes: `first` lies in a branch of it, and
   `second` in the other branch, or after the whole `if` while that branch is a
   block that is left for good after `first`.
   */
  ghost predicate Separates(root: Node, a: Path, first: Path, second: Path) {
    ValidPath(root, a) && ValidPath(root, second) && At(root, a).kind.form.If? &&
    exists b: nat :: 1 <= b <= 2 && b < |At(root, a).children| && a + [b] < first &&
      ((3 - b < |At(root, a).children| && a + [3 - b] < second) ||
       (At(root, second).kind.start >= At(root, a).kind.end && exists i: nat :: LeftForGood(root, a + [b], first, i)))
  }

  lemma {:induction false} DescendsMeans(p: Path, a: Path)
    ensures Descends(p, a) <==> a < p
  {
    if Descends(p, a) {
      assert a <= p;
    }
  }

  lemma {:induction false} BranchMeans(root: Node, first: Path, a: Path, b: nat)
    requires ValidPath(root, a) && |a| < |first| && first[..|a|] == a && 1 <= b <= 2
    ensures BranchOf(root, first, |a|) == b <==> b < |At(root, a).children| && a + [b] < first
  {
    DescendsMeans(first, a + [1]);
    DescendsMeans(first, a + [2]);
    if a + [b] < first {
      assert first[|a|] == (a + [b])[|a|] == b;
    }
  }

  lemma {:induction false} TerminatesMeans(root: Node, first: Path, branch: Path)
    requires ValidPath(root, branch) && Descends(first, branch)
    ensures BranchTerminatesAfter(root, first, branch) <==> exists i: nat :: LeftForGood(root, branch, first, i)
  {
    var i := first[|branch|];
    assert branch + [i] == first[..|branch| + 1];
    if BranchTerminatesAfter(root, first, branch) {
      assert LeftForGood(root, branch, first, i);
    }
    if k: nat :| LeftForGood(root, branch, first, k) {
      assert k == (branch + [k])[|branch|] == i;
    }
  }

  lemma {:induction false} ExclusiveMeansSeparates(root: Node, first: Path, second: Path, k: nat)
    requires ValidPath(root, first) && ValidPath(root, second) && k < |first|
    ensures ValidPath(root, first[..k])
    ensures ExclusiveAt(root, first, second, k) <==> Separates(root, first[..k], first, second)
  {
    hide ValidPath, BranchTerminatesAfter, LeftForGood, Descends, BranchOf;
    ValidPrefix(root, first, k);
    var a := first[..k];
    var branch := BranchOf(root, first, k);
    assert |a| == k;
    BranchMeans(root, first, a, 1);
    BranchMeans(root, first, a, 2);
    forall b: nat | 1 <= b <= 2 && b < |At(root, a).children| && a + [b] < first
      ensures ValidPath(root, a + [b]) && Descends(first, a + [b])
      ensures BranchTerminatesAfter(root, first, a + [b]) <==> exists i: nat :: LeftForGood(root, a + [b], first, i)
    {
      ValidChild(root, a, b);
      DescendsMeans(first, a + [b]);
      TerminatesMeans(root, first, a + [b]);
    }
    DescendsMeans(second, a + [1]);
    DescendsMeans(second, a + [2]);
  }

  /** The answer is false exactly when some `if` around the first node separates the two. */
  lemma {:induction false} SeparatedExactly(root: Node, first: Path, second: Path)
    requires ValidPath(root, first) && ValidPath(root, second)
    ensures !MaySharePath(root, first, second) <==> exists a :: Separates(root, a, first, second)
  {
    hide ValidPath, ExclusiveAt;
    if !MaySharePath(root, first, second) {
      var k: nat :| k < |first| && ExclusiveAt(root, first, second, k);
      ExclusiveMeansSeparates(root, first, second, k);
    }
    if a :| Separates(root, a, first, second) {
      var b: nat :| 1 <= b <= 2 && a + [b] < first;
      assert first[..|a|] == (a + [b])[..|a|] == a;
      ExclusiveMeansSeparates(root, first, second, |a|);
    }
  }
}
