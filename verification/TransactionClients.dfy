/**
 What a rule may rely on inside a `$transaction` callback, in terms of the file
 alone: which functions around a node are such callbacks, what their first
 parameters are, and what the frame on top of the stack makes of it.
 */
module TransactionClients {
  import opened SyntaxTree
  import opened TransactionTracking
  import opened Wrappers

  // ---- Callbacks in the file ----

  /** A call of a member named `$transaction`, perhaps behind an optional chain. */
  ghost predicate CallsTransaction(n: Node) {
    n.kind.Call? && n.children != [] && exists callee :: IsCallee(n.children[0], callee)
  }

  ghost predicate IsCallee(child: Node, callee: Node) {
    (child == callee || (child.kind.Chain? && child.children == [callee])) &&
    callee.kind == Member(Some("$transaction"))
  }

  /** The function at `q` stands around the node at `p`, or is that node. */
  ghost predicate IsAround(root: Node, p: Path, q: Path) {
    q <= p && ValidPath(root, q) && At(root, q).kind.Function?
  }

  /** The node at `q` is the first argument of a transaction call. */
  ghost predicate IsArgument(root: Node, q: Path) {
    exists call: Path :: q == call + [1] && ValidPath(root, call) && CallsTransaction(At(root, call))
  }

  ghost predicate IsCallbackAround(root: Node, p: Path, q: Path) {
    IsAround(root, p, q) && IsArgument(root, q)
  }

  /** The function's first parameter is the identifier. */
  ghost predicate ReceivesFirst(n: Node, parameter: Parameter) {
    match n.kind
    case Function(parameters) => parameters != [] && parameters[0] == Some(parameter)
    case _ => false
  }

  /** One of the function's parameters is the identifier `prisma`. */
  ghost predicate ReceivesPrisma(n: Node) {
    match n.kind
    case Function(parameters) => exists parameter :: Some(parameter) in parameters && NamedPrisma(parameter)
    case _ => false
  }

  predicate NamedPrisma(parameter: Parameter) {
    parameter.name == "prisma"
  }

  /** The innermost callback around the node. */
  ghost predicate IsOwnCallback(root: Node, p: Path, q: Path) {
    IsCallbackAround(root, p, q) && forall other | IsCallbackAround(root, p, other) :: |other| <= |q|
  }

  ghost predicate ReceivesVariable(root: Node, q: Path, v: Variable) {
    exists parameter: Parameter ::
      ValidPath(root, q) && ReceivesFirst(At(root, q), parameter) && parameter.variable == Some(v)
  }

  ghost predicate ReceivesName(root: Node, q: Path, name: string) {
    exists parameter: Parameter :: ValidPath(root, q) && ReceivesFirst(At(root, q), parameter) && parameter.name == name
  }

  ghost predicate PrismaFurtherIn(root: Node, p: Path, q: Path) {
    exists inner: Path :: IsAround(root, p, inner) && |q| < |inner| && ReceivesPrisma(At(root, inner))
  }

  /** Some callback around the node receives the variable. */
  ghost predicate IsClient(root: Node, p: Path, v: Variable) {
    exists q :: IsCallbackAround(root, p, q) && ReceivesVariable(root, q, v)
  }

  /** The innermost callback receives the name, or a function further in receives `prisma`. */
  ghost predicate IsClientThere(root: Node, p: Path, name: string) {
    exists q :: IsOwnCallback(root, p, q) &&
      (ReceivesName(root, q, name) || (name == "prisma" && PrismaFurtherIn(root, p, q)))
  }

  /** The top frame is right: whether a callback is around the node, and which variables and names are clients. */
  ghost predicate IsRight(root: Node, p: Path, top: Option<Frame>) {
    ((top.Some? && top.value.inTransaction) <==> exists q :: IsCallbackAround(root, p, q)) &&
    (forall v: Variable :: (top.Some? && v in top.value.clients.variables) <==> IsClient(root, p, v)) &&
    forall name: string :: (top.Some? && name in top.value.clients.names) <==> IsClientThere(root, p, name)
  }

  // ---- The scopes around a position ----

  /** The scope is that of the function `n` steps below the root on the way to `p`. */
  ghost predicate IsScope(root: Node, p: Path, n: nat, scope: Scope) {
    n <= |p| && ValidPath(root, p[..n]) && At(root, p[..n]).kind.Function? && scope == ScopeAt(root, p[..n])
  }

  ghost predicate AreScopes(root: Node, p: Path, scopes: seq<Scope>, at: seq<nat>) {
    |at| == |scopes| && (forall i | 0 <= i < |at| :: IsScope(root, p, at[i], scopes[i])) &&
    (forall i, j | 0 <= i < j < |at| :: at[i] < at[j]) &&
    forall n: nat, scope | IsScope(root, p, n, scope) :: n in at
  }

  lemma {:induction false} ScopesLie(root: Node, p: Path) returns (at: seq<nat>)
    requires ValidPath(root, p)
    ensures AreScopes(root, p, Scopes(root, p), at)
    decreases |p|
  {
    hide AreScopes, ScopeAt, Scopes;
    if p == [] {
      at := ScopesHere(root, p, [], []);
    } else {
      ValidPrefix(root, p, |p| - 1);
      var above := ScopesLie(root, p[..|p| - 1]);
      ScopesFurther(root, p, Scopes(root, p[..|p| - 1]), above);
      at := ScopesHere(root, p, Scopes(root, p[..|p| - 1]), above);
    }
    ScopesStep(root, p);
  }

  function ScopesAbove(root: Node, p: Path): seq<Scope>
    requires ValidPath(root, p)
  {
    if p == [] then [] else (ValidPrefix(root, p, |p| - 1); Scopes(root, p[..|p| - 1]))
  }

  lemma {:induction false} ScopesStep(root: Node, p: Path)
    requires ValidPath(root, p)
    ensures Scopes(root, p) == ScopesAbove(root, p) + if At(root, p).kind.Function? then [ScopeAt(root, p)] else []
  {
  }

  lemma {:induction false} ScopesHere(root: Node, p: Path, above: seq<Scope>, before: seq<nat>) returns (at: seq<nat>)
    requires ValidPath(root, p) && |before| == |above|
    requires forall i | 0 <= i < |before| :: before[i] < |p| && IsScope(root, p, before[i], above[i])
    requires forall i, j | 0 <= i < j < |before| :: before[i] < before[j]
    requires forall n: nat, scope | n < |p| && IsScope(root, p, n, scope) :: n in before
    ensures AreScopes(root, p, above + if At(root, p).kind.Function? then [ScopeAt(root, p)] else [], at)
  {
    hide ScopeAt;
    at := before;
    assert p[..|p|] == p;
    if At(root, p).kind.Function? {
      at := before + [|p|];
      assert IsScope(root, p, |p|, ScopeAt(root, p));
    }
  }

  lemma {:induction false} ScopesFurther(root: Node, p: Path, scopes: seq<Scope>, at: seq<nat>)
    requires ValidPath(root, p) && p != [] && AreScopes(root, p[..|p| - 1], scopes, at)
    ensures |at| == |scopes| && (forall i | 0 <= i < |at| :: at[i] < |p| && IsScope(root, p, at[i], scopes[i]))
    ensures forall i, j | 0 <= i < j < |at| :: at[i] < at[j]
    ensures forall n: nat, scope | n < |p| && IsScope(root, p, n, scope) :: n in at
  {
    hide ScopeAt;
    var front := p[..|p| - 1];
    forall n: nat, scope | n < |p| ensures IsScope(root, p, n, scope) <==> IsScope(root, front, n, scope) {
      assert p[..n] == front[..n];
    }
  }

  // ---- What a scope says of its function ----

  lemma {:induction false} CallMeans(n: Node)
    ensures IsTransactionCall(n) <==> CallsTransaction(n)
  {
    if IsTransactionCall(n) {
      assert IsCallee(n.children[0], UnwrapChain(n.children[0]));
    }
  }

  lemma {:induction false} PrismaMeans(n: Node)
    requires n.kind.Function?
    ensures LocalPrismaNames(n) != {} <==> ReceivesPrisma(n)
  {
    NamesMean(n.kind.parameters);
    if ReceivesPrisma(n) {
      var parameter :| Some(parameter) in n.kind.parameters && NamedPrisma(parameter);
    }
  }

  lemma {:induction false} NamesMean(parameters: seq<Option<Parameter>>)
    ensures Some("prisma") in ParameterNames(parameters) <==>
            exists parameter :: Some(parameter) in parameters && NamedPrisma(parameter)
  {
    if parameters != [] {
      NamesMean(parameters[1..]);
      assert parameters == [parameters[0]] + parameters[1..];
      if parameters[0].Some? && NamedPrisma(parameters[0].value) {
        assert Some(parameters[0].value) in parameters;
      }
    }
  }

  lemma {:induction false} CallbackMeans(root: Node, q: Path)
    requires ValidPath(root, q) && At(root, q).kind.Function?
    ensures IsCallback(root, q) <==> IsArgument(root, q)
  {
    hide IsTransactionCall, CallsTransaction;
    if IsCallback(root, q) {
      var call := q[..|q| - 1];
      ValidPrefix(root, q, |q| - 1);
      CallMeans(At(root, call));
      assert q == call + [1];
    }
    if call: Path :| q == call + [1] && ValidPath(root, call) && CallsTransaction(At(root, call)) {
      assert q[..|q| - 1] == call;
      CallMeans(At(root, call));
    }
  }

  lemma {:induction false} ScopeMeans(root: Node, q: Path)
    requires ValidPath(root, q) && At(root, q).kind.Function?
    ensures var scope := ScopeAt(root, q);
            (scope.callback.Some? <==> IsArgument(root, q)) && (scope.prisma <==> ReceivesPrisma(At(root, q))) &&
            (scope.callback.Some? ==>
               (forall v: Variable :: scope.callback.value.variable == Some(v) <==> ReceivesVariable(root, q, v)) &&
               forall name: string :: scope.callback.value.name == Some(name) <==> ReceivesName(root, q, name))
  {
    hide IsCallback, IsArgument, LocalPrismaNames, ReceivesPrisma;
    CallbackMeans(root, q);
    PrismaMeans(At(root, q));
    var parameters := At(root, q).kind.parameters;
    if parameters != [] && parameters[0].Some? {
      assert ReceivesFirst(At(root, q), parameters[0].value);
    }
  }

  // ---- From scopes to functions ----

  /** Scope `i` says of its function what the file says of it. */
  ghost predicate Says(root: Node, p: Path, scope: Scope, q: Path) {
    IsAround(root, p, q) && (scope.callback.Some? <==> IsArgument(root, q)) &&
    (scope.prisma <==> ReceivesPrisma(At(root, q))) &&
    (scope.callback.Some? ==>
       (forall v: Variable :: scope.callback.value.variable == Some(v) <==> ReceivesVariable(root, q, v)) &&
       forall name: string :: scope.callback.value.name == Some(name) <==> ReceivesName(root, q, name))
  }

  /** The scopes and the functions around a node, outermost first. */
  ghost predicate Pairs(root: Node, p: Path, scopes: seq<Scope>, around: seq<Path>) {
    |around| == |scopes| && (forall i | 0 <= i < |around| :: Says(root, p, scopes[i], around[i])) &&
    (forall i, j | 0 <= i < j < |around| :: |around[i]| < |around[j]|) &&
    forall q | IsAround(root, p, q) :: q in around
  }

  lemma {:induction false} ScopesPair(root: Node, p: Path) returns (around: seq<Path>)
    requires ValidPath(root, p)
    ensures Pairs(root, p, Scopes(root, p), around)
  {
    var scopes := Scopes(root, p);
    var at := ScopesLie(root, p);
    hide Scopes, Says, IsScope, IsAround;
    forall i | 0 <= i < |at| ensures at[i] <= |p| && Says(root, p, scopes[i], p[..at[i]]) {
      assert IsScope(root, p, at[i], scopes[i]);
      ScopeSays(root, p, at[i], scopes[i]);
    }
    around := seq(|at|, i requires 0 <= i < |at| => p[..at[i]]);
    forall q | IsAround(root, p, q) ensures q in around {
      AroundHasScope(root, p, q);
      var i :| 0 <= i < |at| && at[i] == |q|;
      assert around[i] == q;
    }
  }

  lemma {:induction false} ScopeSays(root: Node, p: Path, n: nat, scope: Scope)
    requires IsScope(root, p, n, scope)
    ensures n <= |p| && Says(root, p, scope, p[..n])
  {
    hide ScopeAt, IsArgument, ReceivesPrisma, ReceivesVariable, ReceivesName;
    ScopeMeans(root, p[..n]);
  }

  lemma {:induction false} AroundHasScope(root: Node, p: Path, q: Path)
    requires IsAround(root, p, q)
    ensures |q| <= |p| && p[..|q|] == q && IsScope(root, p, |q|, ScopeAt(root, q))
  {
    hide ScopeAt;
    assert q == p[..|q|];
  }

  lemma {:induction false} InsideMeans(root: Node, p: Path, scopes: seq<Scope>, around: seq<Path>)
    requires Pairs(root, p, scopes, around)
    ensures InsideTransaction(scopes) <==> exists q :: IsCallbackAround(root, p, q)
  {
    hide IsAround, IsArgument, ReceivesPrisma, ReceivesVariable, ReceivesName;
    if InsideTransaction(scopes) {
      var i :| 0 <= i < |scopes| && scopes[i].callback.Some?;
      assert Says(root, p, scopes[i], around[i]);
      assert IsCallbackAround(root, p, around[i]);
    }
    if q :| IsCallbackAround(root, p, q) {
      var i :| 0 <= i < |around| && around[i] == q;
      assert Says(root, p, scopes[i], around[i]);
    }
  }

  lemma {:induction false} VariableMeans(root: Node, p: Path, scopes: seq<Scope>, around: seq<Path>, v: Variable)
    requires Pairs(root, p, scopes, around)
    ensures IsClientVariable(scopes, v) <==> IsClient(root, p, v)
  {
    hide IsAround, IsArgument, ReceivesPrisma, ReceivesVariable, ReceivesName;
    if IsClientVariable(scopes, v) {
      var i :| 0 <= i < |scopes| && scopes[i].callback.Some? && scopes[i].callback.value.variable == Some(v);
      assert Says(root, p, scopes[i], around[i]);
      assert IsCallbackAround(root, p, around[i]);
    }
    if q :| IsCallbackAround(root, p, q) && ReceivesVariable(root, q, v) {
      var i :| 0 <= i < |around| && around[i] == q;
      assert Says(root, p, scopes[i], around[i]);
    }
  }

  lemma {:induction false} OwnMeans(root: Node, p: Path, scopes: seq<Scope>, around: seq<Path>, i: nat)
    requires Pairs(root, p, scopes, around) && i < |scopes|
    ensures Innermost(scopes, i) <==> IsOwnCallback(root, p, around[i])
  {
    hide IsAround, IsArgument, ReceivesPrisma, ReceivesVariable, ReceivesName;
    forall j | 0 <= j < |scopes| ensures scopes[j].callback.Some? <==> IsCallbackAround(root, p, around[j]) {
      assert Says(root, p, scopes[j], around[j]);
    }
    if Innermost(scopes, i) {
      forall other | IsCallbackAround(root, p, other) ensures |other| <= |around[i]| {
        var j :| 0 <= j < |around| && around[j] == other;
      }
    }
  }

  lemma {:induction false} FurtherMeans(root: Node, p: Path, scopes: seq<Scope>, around: seq<Path>, i: nat)
    requires Pairs(root, p, scopes, around) && i < |scopes|
    ensures (exists j | i < j < |scopes| :: scopes[j].prisma) <==> PrismaFurtherIn(root, p, around[i])
  {
    hide IsArgument, ReceivesPrisma, ReceivesVariable, ReceivesName;
    if j :| i < j < |scopes| && scopes[j].prisma {
      assert Says(root, p, scopes[j], around[j]);
    }
    if inner: Path :| IsAround(root, p, inner) && |around[i]| < |inner| && ReceivesPrisma(At(root, inner)) {
      var j :| 0 <= j < |around| && around[j] == inner;
      assert Says(root, p, scopes[j], around[j]);
    }
  }

  lemma {:induction false} NameMeans(root: Node, p: Path, scopes: seq<Scope>, around: seq<Path>, name: string)
    requires Pairs(root, p, scopes, around)
    ensures IsClientName(scopes, name) <==> IsClientThere(root, p, name)
  {
    hide IsAround, IsArgument, ReceivesPrisma, ReceivesVariable, ReceivesName, PrismaFurtherIn, IsOwnCallback,
         Innermost;
    forall i: nat | i < |scopes|
      ensures Innermost(scopes, i) <==> IsOwnCallback(root, p, around[i])
      ensures (exists j | i < j < |scopes| :: scopes[j].prisma) <==> PrismaFurtherIn(root, p, around[i])
      ensures scopes[i].callback.Some? ==>
                (scopes[i].callback.value.name == Some(name) <==> ReceivesName(root, around[i], name))
    {
      OwnMeans(root, p, scopes, around, i);
      FurtherMeans(root, p, scopes, around, i);
      assert Says(root, p, scopes[i], around[i]);
    }
    forall i: nat ensures Innermost(scopes, i) ==> i < |scopes| && scopes[i].callback.Some? {
      InnermostIsCallback(scopes, i);
    }
    if IsClientName(scopes, name) {
      var i: nat :| i < |scopes| && Innermost(scopes, i) &&
        (scopes[i].callback.value.name == Some(name) ||
         (name == "prisma" && exists j | i < j < |scopes| :: scopes[j].prisma));
      assert IsOwnCallback(root, p, around[i]);
    }
    if IsClientThere(root, p, name) {
      var q :| IsOwnCallback(root, p, q) &&
        (ReceivesName(root, q, name) || (name == "prisma" && PrismaFurtherIn(root, p, q)));
      OwnIsAround(root, p, q);
      var i :| 0 <= i < |around| && around[i] == q;
      assert Innermost(scopes, i);
    }
  }

  lemma {:induction false} InnermostIsCallback(scopes: seq<Scope>, i: nat)
    ensures Innermost(scopes, i) ==> i < |scopes| && scopes[i].callback.Some?
  {
  }

  lemma {:induction false} OwnIsAround(root: Node, p: Path, q: Path)
    requires IsOwnCallback(root, p, q)
    ensures IsAround(root, p, q)
  {
  }

  /** A frame agrees with the scopes exactly when it is right about the node. */
  lemma {:induction false} AgreementMeans(root: Node, p: Path, top: Option<Frame>)
    requires ValidPath(root, p)
    ensures Agrees(Scopes(root, p), top) <==> IsRight(root, p, top)
  {
    var scopes := Scopes(root, p);
    var around := ScopesPair(root, p);
    hide Scopes, Pairs, InsideTransaction, IsClientVariable, IsClientName, IsCallbackAround, IsClient, IsClientThere;
    InsideMeans(root, p, scopes, around);
    forall v: Variable
      ensures IsClientVariable(scopes, v) <==> IsClient(root, p, v)
    {
      VariableMeans(root, p, scopes, around, v);
    }
    forall name: string
      ensures IsClientName(scopes, name) <==> IsClientThere(root, p, name)
    {
      NameMeans(root, p, scopes, around, name);
    }
  }

  /** Whatever a traversal observes is right about the node that it observes. */
  lemma {:induction false} ObservationsAreRight(root: Node, observations: seq<Observation>)
    requires AllFaithful(root, observations)
    ensures forall observation | observation in observations ::
              ValidPath(root, observation.path) && IsRight(root, observation.path, observation.top)
  {
    hide Agrees, IsRight;
    forall observation | observation in observations
      ensures ValidPath(root, observation.path) && IsRight(root, observation.path, observation.top)
    {
      var i :| 0 <= i < |observations| && observations[i] == observation;
      assert Faithful(root, observations[i]);
      AgreementMeans(root, observation.path, observation.top);
    }
  }
}
