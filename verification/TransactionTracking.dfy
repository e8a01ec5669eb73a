/**
 The stack of function frames that tells, during one traversal of a file,
 whether the current node is inside an inline `$transaction` callback, and which
 names and variables denote a transaction client there.
 */
module TransactionTracking {
  import opened SyntaxTree
  import opened Wrappers

  type Variable = nat

  /** An identifier parameter: its name and the variable it declares. */
  datatype Parameter = Parameter(name: string, variable: Option<Variable>)

  /** A call's first child is its callee, the others are its arguments. */
  datatype Kind =
    | Function(parameters: seq<Option<Parameter>>)
    | Call
    | Member(property: Option<string>)
    | Chain
    | Other

  type Node = Tree<Kind>

  function UnwrapChain(n: Node): Node {
    if n.kind.Chain? && |n.children| == 1 then n.children[0] else n
  }

  predicate IsTransactionCall(n: Node) {
    n.kind.Call? && n.children != [] &&
    var callee := UnwrapChain(n.children[0]);
    callee.kind.Member? && callee.kind.property == Some("$transaction")
  }

  // ---- Frames ----

  datatype Identity = Identity(name: Option<string>, variable: Option<Variable>)

  datatype Clients = Clients(names: set<string>, variables: set<Variable>)

  datatype Frame = Frame(callback: Option<Identity>, inTransaction: bool, clients: Clients)

  function CallbackIdentity(n: Node): Identity
    requires n.kind.Function?
  {
    var parameters := n.kind.parameters;
    if parameters != [] && parameters[0].Some? then
      Identity(Some(parameters[0].value.name), parameters[0].value.variable)
    else Identity(None, None)
  }

  function Single<T>(o: Option<T>): set<T> {
    if o.Some? then {o.value} else {}
  }

  function LocalPrismaNames(n: Node): set<string>
    requires n.kind.Function?
  {
    if Some("prisma") in ParameterNames(n.kind.parameters) then {"prisma"} else {}
  }

  function ParameterNames(parameters: seq<Option<Parameter>>): seq<Option<string>> {
    if parameters == [] then []
    else [if parameters[0].Some? then Some(parameters[0].value.name) else None] + ParameterNames(parameters[1..])
  }

  function NamesForFrame(parent: Option<Frame>, callback: Option<Identity>, n: Node): set<string>
    requires n.kind.Function?
  {
    var inherited := if callback.Some? then Single(callback.value.name)
                     else if parent.Some? then parent.value.clients.names else {};
    var local := if callback.None? && parent.Some? && parent.value.inTransaction then LocalPrismaNames(n) else {};
    inherited + local
  }

  function VariablesForFrame(parent: Option<Frame>, callback: Option<Identity>): set<Variable> {
    (if parent.Some? then parent.value.clients.variables else {}) +
    (if callback.Some? then Single(callback.value.variable) else {})
  }

  // ---- What the tree itself says ----

  /** The function at `p` is the first argument of a `$transaction` call. */
  predicate IsCallback(root: Node, p: Path)
    requires ValidPath(root, p)
  {
    p != [] && p[|p| - 1] == 1 && At(root, p).kind.Function? &&
    (ValidPrefix(root, p, |p| - 1); IsTransactionCall(At(root, p[..|p| - 1])))
  }

  /** One function around a position: its identity if it is a callback, and whether a parameter is called `prisma`. */
  datatype Scope = Scope(callback: Option<Identity>, prisma: bool)

  function ScopeAt(root: Node, p: Path): Scope
    requires ValidPath(root, p) && At(root, p).kind.Function?
  {
    Scope(if IsCallback(root, p) then Some(CallbackIdentity(At(root, p))) else None,
          LocalPrismaNames(At(root, p)) != {})
  }

  /** The functions around a position, itself included, outermost first. */
  function Scopes(root: Node, p: Path): seq<Scope>
    requires ValidPath(root, p)
    decreases |p|
  {
    var above := if p == [] then [] else (ValidPrefix(root, p, |p| - 1); Scopes(root, p[..|p| - 1]));
    if At(root, p).kind.Function? then above + [ScopeAt(root, p)] else above
  }

  /** Some function around the position is a transaction callback. */
  ghost predicate InsideTransaction(scopes: seq<Scope>) {
    exists i | 0 <= i < |scopes| :: scopes[i].callback.Some?
  }

  /** `v` is the identifier first parameter of some callback around the position. */
  ghost predicate IsClientVariable(scopes: seq<Scope>, v: Variable) {
    exists i | 0 <= i < |scopes| :: scopes[i].callback.Some? && scopes[i].callback.value.variable == Some(v)
  }

  ghost predicate Innermost(scopes: seq<Scope>, i: nat) {
    i < |scopes| && scopes[i].callback.Some? && forall j | i < j < |scopes| :: scopes[j].callback.None?
  }

  /**
   A client name is the innermost callback's own first parameter, or `prisma`
   when a function between that callback and the position has such a parameter.
   */
  ghost predicate IsClientName(scopes: seq<Scope>, name: string) {
    exists i: nat :: Innermost(scopes, i) &&
      (scopes[i].callback.value.name == Some(name) ||
       (name == "prisma" && exists j | i < j < |scopes| :: scopes[j].prisma))
  }

  /** The frame on top of the stack says what the tree says about the position. */
  ghost predicate Agrees(scopes: seq<Scope>, top: Option<Frame>) {
    ((top.Some? && top.value.inTransaction) <==> InsideTransaction(scopes)) &&
    (forall v :: (top.Some? && v in top.value.clients.variables) <==> IsClientVariable(scopes, v)) &&
    (forall name :: (top.Some? && name in top.value.clients.names) <==> IsClientName(scopes, name))
  }

  // ---- One function further in ----

  lemma {:induction false} FindInnermost(scopes: seq<Scope>, from: nat) returns (i: nat)
    requires from < |scopes| && scopes[from].callback.Some?
    ensures Innermost(scopes, i)
    decreases |scopes| - from
  {
    if j: nat :| from < j < |scopes| && scopes[j].callback.Some? {
      i := FindInnermost(scopes, j);
    } else {
      i := from;
    }
  }

  lemma NamesOfCallback(scopes: seq<Scope>, scope: Scope, name: string)
    requires scope.callback.Some?
    ensures IsClientName(scopes + [scope], name) <==> scope.callback.value.name == Some(name)
  {
    var all := scopes + [scope];
    assert Innermost(all, |scopes|);
    assert forall i: nat | Innermost(all, i) :: i == |scopes| || all[|scopes|].callback.None?;
  }

  lemma NamesInherited(scopes: seq<Scope>, scope: Scope, name: string)
    requires scope.callback.None?
    ensures IsClientName(scopes + [scope], name) <==>
            IsClientName(scopes, name) || (InsideTransaction(scopes) && scope.prisma && name == "prisma")
  {
    var all := scopes + [scope];
    forall i: nat ensures Innermost(all, i) <==> Innermost(scopes, i) {
      if Innermost(scopes, i) {
        assert forall j | i < j < |all| :: all[j] == if j < |scopes| then scopes[j] else scope;
      }
      if Innermost(all, i) {
        assert forall j | i < j < |scopes| :: all[j] == scopes[j];
        assert all[|scopes|] == scope;
      }
    }
    if IsClientName(scopes, name) {
      var i: nat :| Innermost(scopes, i) && (scopes[i].callback.value.name == Some(name) ||
                    (name == "prisma" && exists j | i < j < |scopes| :: scopes[j].prisma));
      assert Innermost(all, i) && all[i] == scopes[i];
      if j :| i < j < |scopes| && scopes[j].prisma {
        assert all[j].prisma;
      }
    }
    if InsideTransaction(scopes) && scope.prisma && name == "prisma" {
      var from: nat :| from < |scopes| && scopes[from].callback.Some?;
      var i := FindInnermost(scopes, from);
      assert Innermost(all, i) && all[|scopes|].prisma;
    }
    if IsClientName(all, name) {
      var i: nat :| Innermost(all, i) && (all[i].callback.value.name == Some(name) ||
                    (name == "prisma" && exists j | i < j < |all| :: all[j].prisma));
      assert Innermost(scopes, i) && all[i] == scopes[i];
      if all[i].callback.value.name != Some(name) {
        var j :| i < j < |all| && all[j].prisma;
        assert j < |scopes| ==> all[j] == scopes[j];
      }
    }
  }

  lemma VariablesExtend(scopes: seq<Scope>, scope: Scope, v: Variable)
    ensures IsClientVariable(scopes + [scope], v) <==>
            IsClientVariable(scopes, v) || (scope.callback.Some? && scope.callback.value.variable == Some(v))
    ensures InsideTransaction(scopes + [scope]) <==> InsideTransaction(scopes) || scope.callback.Some?
  {
    var all := scopes + [scope];
    assert all[|scopes|] == scope;
    assert forall i | 0 <= i < |scopes| :: all[i] == scopes[i];
  }

  /** The frame pushed for a function agrees with the scopes including it. */
  lemma FrameAgrees(scopes: seq<Scope>, top: Option<Frame>, n: Node, callback: Option<Identity>)
    requires n.kind.Function? && Agrees(scopes, top)
    ensures Agrees(scopes + [Scope(callback, LocalPrismaNames(n) != {})],
                   Some(Frame(callback, (top.Some? && top.value.inTransaction) || callback.Some?,
                              Clients(NamesForFrame(top, callback, n), VariablesForFrame(top, callback)))))
  {
    var scope := Scope(callback, LocalPrismaNames(n) != {});
    VariablesExtend(scopes, scope, 0);
    forall v ensures v in VariablesForFrame(top, callback) <==> IsClientVariable(scopes + [scope], v) {
      VariablesExtend(scopes, scope, v);
    }
    forall name ensures name in NamesForFrame(top, callback, n) <==> IsClientName(scopes + [scope], name) {
      if callback.Some? {
        NamesOfCallback(scopes, scope, name);
      } else {
        NamesInherited(scopes, scope, name);
      }
    }
  }

  // ---- The traversal ----

  /** What a rule visiting the node at `path` is told. */
  datatype Observation = Observation(path: Path, top: Option<Frame>)

  /** The paths of a subtree in the order they are entered. */
  function Preorder(n: Node, p: Path): seq<Path>
    decreases n, 1
  {
    [p] + PreorderBelow(n, p, |n.children|)
  }

  function PreorderBelow(n: Node, p: Path, k: nat): seq<Path>
    requires k <= |n.children|
    decreases n, 0, k
  {
    if k == 0 then [] else PreorderBelow(n, p, k - 1) + Preorder(n.children[k - 1], p + [k - 1])
  }

  ghost predicate Faithful(root: Node, observation: Observation) {
    ValidPath(root, observation.path) && Agrees(Scopes(root, observation.path), observation.top)
  }

  function PathsOf(observations: seq<Observation>): (paths: seq<Path>)
    ensures |paths| == |observations|
    ensures forall i | 0 <= i < |paths| :: paths[i] == observations[i].path
  {
    seq(|observations|, i requires 0 <= i < |observations| => observations[i].path)
  }

  class Tracker {
    var transactionCallbacks: map<Path, Identity>
    var functionStack: seq<Frame>
    var observations: seq<Observation>

    constructor ()
      ensures transactionCallbacks == map[] && functionStack == [] && observations == []
    {
      transactionCallbacks, functionStack, observations := map[], [], [];
    }

    function CurrentFrame(): Option<Frame>
      reads this`functionStack
    {
      if functionStack == [] then None else Some(functionStack[|functionStack| - 1])
    }

    /** Recorded callbacks are callbacks of the tree, with their identities. */
    ghost predicate Valid(root: Node)
      reads this`transactionCallbacks
    {
      forall p | p in transactionCallbacks ::
        ValidPath(root, p) && IsCallback(root, p) && transactionCallbacks[p] == CallbackIdentity(At(root, p))
    }

    /** Visitor of a call: remembers an inline callback before its arguments are entered. */
    method RecordTransactionCall(n: Node, p: Path)
      requires n.kind.Call?
      modifies this`transactionCallbacks
      ensures transactionCallbacks ==
              if IsTransactionCall(n) && |n.children| > 1 && n.children[1].kind.Function? then
                old(transactionCallbacks)[p + [1] := CallbackIdentity(n.children[1])]
              else old(transactionCallbacks)
    {
      if |n.children| > 1 && IsTransactionCall(n) && n.children[1].kind.Function? {
        transactionCallbacks := transactionCallbacks[p + [1] := CallbackIdentity(n.children[1])];
      }
    }

    method EnterFunction(n: Node, p: Path)
      requires n.kind.Function?
      modifies this`functionStack
      ensures var callback := if p in transactionCallbacks then Some(transactionCallbacks[p]) else None;
              var parent := old(CurrentFrame());
              functionStack == old(functionStack) +
                [Frame(callback, (parent.Some? && parent.value.inTransaction) || callback.Some?,
                       Clients(NamesForFrame(parent, callback, n), VariablesForFrame(parent, callback)))]
    {
      var parent := CurrentFrame();
      var callback := if p in transactionCallbacks then Some(transactionCallbacks[p]) else None;
      var inTransaction := (parent.Some? && parent.value.inTransaction) || callback.Some?;
      var clients := Clients(NamesForFrame(parent, callback, n), VariablesForFrame(parent, callback));
      functionStack := functionStack + [Frame(callback, inTransaction, clients)];
    }

    method ExitFunction()
      requires functionStack != []
      modifies this`functionStack
      ensures functionStack == old(functionStack)[..|old(functionStack)| - 1]
    {
      functionStack := functionStack[..|functionStack| - 1];
    }

    /** The scopes around a node, before its own frame is pushed. */
    static ghost function Outside(root: Node, p: Path): seq<Scope>
      requires ValidPath(root, p)
    {
      if p == [] then [] else (ValidPrefix(root, p, |p| - 1); Scopes(root, p[..|p| - 1]))
    }

    /** Enters a node: a function pushes its frame, a call records its callback. */
    method Enter(root: Node, n: Node, p: Path)
      requires ValidPath(root, p) && At(root, p) == n && Valid(root)
      requires IsCallback(root, p) ==> p in transactionCallbacks
      requires Agrees(Outside(root, p), CurrentFrame())
      modifies this`transactionCallbacks, this`functionStack
      ensures Valid(root) && old(transactionCallbacks).Keys <= transactionCallbacks.Keys
      ensures n.kind.Function? ==>
                |functionStack| == |old(functionStack)| + 1 &&
                functionStack[..|old(functionStack)|] == old(functionStack)
      ensures !n.kind.Function? ==> functionStack == old(functionStack)
      ensures Agrees(Scopes(root, p), CurrentFrame())
      ensures n.children != [] ==>
                ValidPath(root, p + [0]) && (|n.children| > 1 ==> ValidPath(root, p + [1])) &&
                (|n.children| > 1 && IsCallback(root, p + [1]) ==> p + [1] in transactionCallbacks)
    {
      hide Agrees;
      if |n.children| > 0 {
        ValidChild(root, p, 0);
      }
      if |n.children| > 1 {
        ValidChild(root, p, 1);
        assert (p + [1])[..|p|] == p;
      }
      if n.kind.Function? {
        FrameAgrees(Outside(root, p), CurrentFrame(), n, ScopeAt(root, p).callback);
        EnterFunction(n, p);
      } else if n.kind.Call? {
        RecordTransactionCall(n, p);
      }
    }

    /** Enters a node, visits its children in order and leaves it. */
    method Visit(root: Node, n: Node, p: Path) returns (ghost seen: seq<Observation>)
      requires ValidPath(root, p) && At(root, p) == n && Valid(root)
      requires IsCallback(root, p) ==> p in transactionCallbacks
      requires Agrees(Outside(root, p), CurrentFrame())
      modifies this
      ensures functionStack == old(functionStack) && Valid(root)
      ensures old(transactionCallbacks).Keys <= transactionCallbacks.Keys
      ensures observations == old(observations) + seen
      ensures PathsOf(seen) == Preorder(n, p) && AllFaithful(root, seen)
      decreases n, 1
    {
      hide Agrees, AllFaithful, IsCallback, Valid, PathsOf, ScopeAt, Scopes;
      Enter(root, n, p);
      var observation := Observation(p, CurrentFrame());
      observations := observations + [observation];
      OneFaithful(root, observation);
      var below := VisitChildren(root, n, p);
      FaithfulAppend(root, [observation], below);
      seen := [observation] + below;
      if n.kind.Function? {
        ExitFunction();
      }
    }

    method VisitChildren(root: Node, n: Node, p: Path) returns (ghost seen: seq<Observation>)
      requires ValidPath(root, p) && At(root, p) == n && Valid(root)
      requires |n.children| > 1 ==> ValidPath(root, p + [1])
      requires |n.children| > 1 && IsCallback(root, p + [1]) ==> p + [1] in transactionCallbacks
      requires Agrees(Scopes(root, p), CurrentFrame())
      modifies this
      ensures functionStack == old(functionStack) && Valid(root)
      ensures old(transactionCallbacks).Keys <= transactionCallbacks.Keys
      ensures observations == old(observations) + seen
      ensures PathsOf(seen) == PreorderBelow(n, p, |n.children|) && AllFaithful(root, seen)
      decreases n, 0
    {
      hide Agrees, AllFaithful, IsCallback, Valid, PathsOf, Outside, ScopeAt, Scopes;
      seen := [];
      NoneFaithful(root);
      for i := 0 to |n.children|
        invariant functionStack == old(functionStack) && Valid(root)
        invariant old(transactionCallbacks).Keys <= transactionCallbacks.Keys
        invariant observations == old(observations) + seen
        invariant PathsOf(seen) == PreorderBelow(n, p, i) && AllFaithful(root, seen)
      {
        ValidChild(root, p, i);
        OutsideOfChild(root, p, i);
        var more := Visit(root, n.children[i], p + [i]);
        FaithfulAppend(root, seen, more);
        seen := seen + more;
      }
    }
  }

  lemma NoneFaithful(root: Node)
    ensures AllFaithful(root, []) && PathsOf([]) == []
  {
  }

  /**
   The functions around a child, itself excluded, are those around its parent;
   only argument one can be a callback.
   */
  lemma OutsideOfChild(root: Node, p: Path, i: nat)
    requires ValidPath(root, p) && ValidPath(root, p + [i])
    ensures Tracker.Outside(root, p + [i]) == Scopes(root, p)
    ensures IsCallback(root, p + [i]) ==> i == 1
  {
  }

  ghost predicate AllFaithful(root: Node, observations: seq<Observation>) {
    forall i | 0 <= i < |observations| :: Faithful(root, observations[i])
  }

  lemma OneFaithful(root: Node, observation: Observation)
    requires Faithful(root, observation)
    ensures AllFaithful(root, [observation]) && PathsOf([observation]) == [observation.path]
  {
  }

  lemma FaithfulAppend(root: Node, a: seq<Observation>, b: seq<Observation>)
    requires AllFaithful(root, a) && AllFaithful(root, b)
    ensures AllFaithful(root, a + b) && PathsOf(a + b) == PathsOf(a) + PathsOf(b)
  {
  }

  /**
   A whole traversal: every node is entered exactly once, in preorder; at each
   the frame agrees with the tree; and the stack is empty at the end.
   */
  method Traverse(root: Node) returns (observations: seq<Observation>, stack: seq<Frame>)
    ensures stack == []
    ensures PathsOf(observations) == Preorder(root, []) && AllFaithful(root, observations)
  {
    var tracker := new Tracker();
    var seen := tracker.Visit(root, root, []);
    observations, stack := tracker.observations, tracker.functionStack;
  }
}
