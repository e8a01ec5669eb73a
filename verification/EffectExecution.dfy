/**
 The search that decides whether a function's synchronous execution is owned by
 an effect callback.  Its visited set is one shared object along the edge to
 the containing function and a fresh copy along the continuation and
 direct-call edges; it still decides plain reachability.
 */
module EffectExecution {
  import opened Trails
  import opened Wrappers

  type NodeId = nat

  datatype Kind =
    | ArrowFunction
    | FunctionExpression
    | FunctionDeclaration(name: Option<NodeId>)
    | Call(callee: NodeId, arguments: seq<NodeId>)
    | Chain(expression: NodeId)
    | Member(computed: bool, property: NodeId)
    | Declarator(target: NodeId)
    | Identifier(identifier: string)
    | Other

  type Variable = nat

  const CONTINUATION_METHODS := {"catch", "finally", "then"}
  const OWNED_SCHEDULERS := {"queueMicrotask", "requestAnimationFrame", "requestIdleCallback", "setInterval",
                             "setTimeout"}

  /**
   A syntax tree as an arena in which parents precede their children, with what
   scope analysis says about it: the variable each declaring identifier names,
   the identifiers that refer to each variable, and the identifiers bound at all.
   `effectCalls` are the calls the rule recognises as effect hooks.
   */
  datatype Program = Program(kinds: seq<Kind>, parents: seq<Option<NodeId>>, declared: map<NodeId, Variable>,
                             references: map<Variable, seq<NodeId>>, bound: set<NodeId>, effectCalls: set<NodeId>)
  {
    ghost predicate Valid() {
      |parents| == |kinds| &&
      (forall n | 0 <= n < |parents| && parents[n].Some? :: parents[n].value < n) &&
      (forall n | 0 <= n < |kinds| :: KindInRange(kinds[n])) &&
      (forall v | v in references :: forall i | 0 <= i < |references[v]| :: references[v][i] < |kinds|)
    }

    ghost predicate KindInRange(kind: Kind) {
      match kind
      case FunctionDeclaration(name) => name.Some? ==> name.value < |kinds|
      case Call(callee, arguments) => callee < |kinds| && forall i | 0 <= i < |arguments| :: arguments[i] < |kinds|
      case Chain(expression) => expression < |kinds|
      case Member(_, property) => property < |kinds|
      case Declarator(target) => target < |kinds|
      case _ => true
    }

    predicate IsFunction(n: NodeId)
      requires n < |kinds|
    {
      kinds[n].ArrowFunction? || kinds[n].FunctionExpression? || kinds[n].FunctionDeclaration?
    }

    function ParentOf(n: NodeId): (parent: Option<NodeId>)
      requires Valid() && n < |kinds|
      ensures parent.Some? ==> parent.value < n
    {
      parents[n]
    }

    /** The innermost function strictly around `n`. */
    function Nearest(n: NodeId): (f: Option<NodeId>)
      requires Valid() && n < |kinds|
      ensures f.Some? ==> f.value < n && IsFunction(f.value)
      decreases n
    {
      match ParentOf(n)
      case None => None
      case Some(p) => if IsFunction(p) then Some(p) else Nearest(p)
    }

    function UnwrapChain(n: NodeId): (inner: NodeId)
      requires Valid() && n < |kinds|
      ensures inner < |kinds|
    {
      assert KindInRange(kinds[n]);
      if kinds[n].Chain? then kinds[n].expression else n
    }

    predicate IsEffectCallback(f: NodeId)
      requires Valid() && f < |kinds|
    {
      !kinds[f].FunctionDeclaration? &&
      var parent := ParentOf(f);
      parent.Some? && kinds[parent.value].Call? && |kinds[parent.value].arguments| > 0 &&
      kinds[parent.value].arguments[0] == f && parent.value in effectCalls
    }

    function VariableOf(f: NodeId): Option<Variable>
      requires Valid() && f < |kinds|
    {
      if kinds[f].FunctionDeclaration? && kinds[f].name.Some? then
        Declared(kinds[f].name.value)
      else
        match ParentOf(f)
        case None => None
        case Some(p) =>
          assert KindInRange(kinds[p]);
          if kinds[p].Declarator? && kinds[kinds[p].target].Identifier? then Declared(kinds[p].target) else None
    }

    function Declared(n: NodeId): Option<Variable> {
      if n in declared then Some(declared[n]) else None
    }

    function ReferencesOf(v: Option<Variable>): (refs: seq<NodeId>)
      requires Valid()
      ensures forall i | 0 <= i < |refs| :: refs[i] < |kinds|
    {
      if v.Some? && v.value in references then references[v.value] else []
    }

    function DirectCall(identifier: NodeId): (call: Option<NodeId>)
      requires Valid() && identifier < |kinds|
      ensures call.Some? ==> call.value < |kinds| && kinds[call.value].Call?
    {
      match ParentOf(identifier)
      case None => None
      case Some(p) =>
        assert KindInRange(kinds[p]);
        if kinds[p].Call? && UnwrapChain(kinds[p].callee) == identifier then Some(p) else None
    }

    predicate IsContinuationRegistration(call: NodeId)
      requires Valid() && call < |kinds| && kinds[call].Call?
    {
      assert KindInRange(kinds[call]);
      var callee := UnwrapChain(kinds[call].callee);
      assert KindInRange(kinds[callee]);
      match kinds[callee]
      case Identifier(name) => name in OWNED_SCHEDULERS && callee !in bound
      case Member(computed, property) =>
        !computed && kinds[property].Identifier? && kinds[property].identifier in CONTINUATION_METHODS
      case _ => false
    }

    /** The call that registers argument `n` as an effect-owned continuation. */
    function RegistrationOf(n: NodeId): (call: Option<NodeId>)
      requires Valid() && n < |kinds|
      ensures call.Some? ==> call.value < |kinds|
    {
      match ParentOf(n)
      case None => None
      case Some(p) =>
        if kinds[p].Call? && n in kinds[p].arguments && IsContinuationRegistration(p) then Some(p) else None
    }

    function Registrations(refs: seq<NodeId>): (calls: seq<NodeId>)
      requires Valid() && forall i | 0 <= i < |refs| :: refs[i] < |kinds|
      ensures forall i | 0 <= i < |calls| :: calls[i] < |kinds|
    {
      if refs == [] then []
      else
        (match RegistrationOf(refs[0]) case None => [] case Some(call) => [call]) + Registrations(refs[1..])
    }

    function ContinuationRegistrations(f: NodeId): (calls: seq<NodeId>)
      requires Valid() && f < |kinds|
      ensures forall i | 0 <= i < |calls| :: calls[i] < |kinds|
    {
      var own := RegistrationOf(f);
      if own.Some? then [own.value] else Registrations(ReferencesOf(VariableOf(f)))
    }

    function DirectCalls(refs: seq<NodeId>): (calls: seq<NodeId>)
      requires Valid() && forall i | 0 <= i < |refs| :: refs[i] < |kinds|
      ensures forall i | 0 <= i < |calls| :: calls[i] < |kinds|
    {
      if refs == [] then []
      else (match DirectCall(refs[0]) case None => [] case Some(call) => [call]) + DirectCalls(refs[1..])
    }

    predicate IsDirectlyInvokedWithin(f: NodeId, containing: NodeId)
      requires Valid() && f < |kinds|
    {
      var parent := ParentOf(f);
      (parent.Some? && DirectCall(f).Some? && Nearest(parent.value) == Some(containing)) ||
      exists call | call in DirectCalls(ReferencesOf(VariableOf(f))) :: Nearest(call) == Some(containing)
    }

    // ---- The graph the search walks ----

    predicate ContainingEdge(f: NodeId, g: NodeId)
      requires Valid() && f < |kinds|
    {
      Nearest(f) == Some(g) && IsDirectlyInvokedWithin(f, g)
    }

    /** `g` is the function around one of `calls`. */
    predicate CallEdge(calls: seq<NodeId>, g: NodeId)
      requires Valid() && forall i | 0 <= i < |calls| :: calls[i] < |kinds|
    {
      exists i | 0 <= i < |calls| :: Nearest(calls[i]) == Some(g)
    }

    predicate Edge(f: NodeId, g: NodeId)
      requires Valid() && f < |kinds|
    {
      ContainingEdge(f, g) || CallEdge(ContinuationRegistrations(f), g) ||
      CallEdge(DirectCalls(ReferencesOf(VariableOf(f))), g)
    }

    ghost function Edges(): Relation<NodeId>
      requires Valid()
    {
      (f: NodeId, g: NodeId) => f < |kinds| && Edge(f, g)
    }

    ghost function Callbacks(): Property<NodeId>
      requires Valid()
    {
      (f: NodeId) => f < |kinds| && IsEffectCallback(f)
    }

    ghost function ClearOf(avoid: set<NodeId>): Property<NodeId> {
      (f: NodeId) => f < |kinds| && f !in avoid
    }

    /** A walk along the edges that avoids `avoid` leads from `f` to an effect callback. */
    ghost predicate Reaches(f: NodeId, avoid: set<NodeId>)
      requires Valid()
    {
      Trails.Reaches(Edges(), ClearOf(avoid), Callbacks(), f)
    }

    lemma ReachesFromHere(f: NodeId, avoid: set<NodeId>)
      requires Valid() && f < |kinds|
      ensures f !in avoid && IsEffectCallback(f) ==> Reaches(f, avoid)
      ensures Reaches(f, avoid) ==> f !in avoid
    {
      ReachesHere(Edges(), ClearOf(avoid), Callbacks(), f);
    }

    /** What leads from `f` to an effect can be taken to leave `f` for good at its first step. */
    lemma WalkLeaves(f: NodeId, avoid: set<NodeId>) returns (next: NodeId)
      requires Valid() && f < |kinds| && Reaches(f, avoid) && !IsEffectCallback(f)
      ensures next < |kinds| && Edge(f, next) && Reaches(next, avoid + {f})
    {
      var away := ClearOf(avoid + {f});
      var path: seq<NodeId> :| ClearTrail(Edges(), ClearOf(avoid), Callbacks(), path) && path[0] == f;
      var last: NodeId;
      last, next := LeavesForGood<NodeId>(Edges(), ClearOf(avoid), Callbacks(), (x: NodeId) => x == f, away, path);
      ReachesHere(Edges(), away, Callbacks(), next);
    }

    lemma ReachesStep(f: NodeId, g: NodeId, avoid: set<NodeId>)
      requires Valid() && f < |kinds| && f !in avoid && Edge(f, g) && Reaches(g, avoid)
      ensures Reaches(f, avoid)
    {
      ReachesFrom(Edges(), ClearOf(avoid), Callbacks(), f, g);
    }

    /** Avoiding dead ends too, beyond `avoid`, loses no walk. */
    lemma DeadEndsAreAvoided(f: NodeId, avoid: set<NodeId>, more: set<NodeId>)
      requires Valid() && Reaches(f, avoid)
      requires forall a | a in more - avoid :: !Reaches(a, avoid)
      ensures Reaches(f, more)
    {
      forall x: NodeId | ClearOf(avoid)(x) && Trails.Reaches(Edges(), ClearOf(avoid), Callbacks(), x)
        ensures ClearOf(more)(x)
      {
        assert Reaches(x, avoid);
      }
      ObstaclesElsewhere(Edges(), ClearOf(avoid), ClearOf(more), Callbacks(), f);
    }
  }

  /** A mutable JavaScript Set of functions. */
  class VisitedSet {
    var members: set<NodeId>

    constructor (members: set<NodeId>)
      ensures this.members == members
    {
      this.members := members;
    }
  }

  method NearestFunction(program: Program, n: NodeId) returns (f: Option<NodeId>)
    requires program.Valid() && n < |program.kinds|
    ensures f == program.Nearest(n)
  {
    var current: Option<NodeId> := program.ParentOf(n);
    while current.Some?
      invariant current.Some? ==> current.value < |program.kinds|
      invariant program.Nearest(n) ==
                match current
                case None => None
                case Some(p) => if program.IsFunction(p) then Some(p) else program.Nearest(p)
      decreases if current.Some? then current.value + 1 else 0
    {
      if program.IsFunction(current.value) {
        return current;
      }
      current := program.ParentOf(current.value);
    }
    return None;
  }

  /** `more` is `avoid` with only dead ends added: nodes from which nothing is reachable avoiding `avoid`. */
  ghost predicate OnlyDeadEnds(program: Program, avoid: set<NodeId>, more: set<NodeId>)
    requires program.Valid()
  {
    avoid <= more && forall a | a in more - avoid :: !program.Reaches(a, avoid)
  }

  function Below(n: nat): (s: set<NodeId>)
    ensures forall k: nat :: k in s <==> k < n
  {
    if n == 0 then {} else Below(n - 1) + {n - 1}
  }

  ghost function Unvisited(program: Program, visited: set<NodeId>): set<NodeId> {
    Below(|program.kinds|) - visited
  }

  ghost predicate AroundReaches(program: Program, call: NodeId, avoid: set<NodeId>)
    requires program.Valid() && call < |program.kinds|
  {
    program.Nearest(call).Some? && program.Reaches(program.Nearest(call).value, avoid)
  }

  /** Searches from the function around each call, each time with a copy of the visited set. */
  method SomeCallReachesEffect(program: Program, calls: seq<NodeId>, visited: set<NodeId>) returns (found: bool)
    requires program.Valid() && forall i | 0 <= i < |calls| :: calls[i] < |program.kinds|
    ensures found <==> exists g :: program.CallEdge(calls, g) && program.Reaches(g, visited)
    decreases Unvisited(program, visited), 1
  {
    for i := 0 to |calls|
      invariant forall k | 0 <= k < i :: !AroundReaches(program, calls[k], visited)
    {
      var f := NearestFunction(program, calls[i]);
      if f.Some? {
        var copy := new VisitedSet(visited);
        found := SynchronousExecutionReachesEffect(program, f.value, copy);
        if found {
          assert program.CallEdge(calls, f.value);
          return true;
        }
      }
    }
    return false;
  }

  /**
   The search.  It answers reachability of an effect callback avoiding the
   functions visited so far; a false answer leaves only dead ends behind, which
   is why sharing the set on the containing edge loses nothing.
   */
  method SynchronousExecutionReachesEffect(program: Program, f: NodeId, visited: VisitedSet) returns (found: bool)
    requires program.Valid() && f < |program.kinds|
    modifies visited
    ensures found <==> program.Reaches(f, old(visited.members))
    ensures !found ==> OnlyDeadEnds(program, old(visited.members), visited.members)
    decreases Unvisited(program, visited.members), 0
  {
    ghost var avoid := visited.members;
    if f in visited.members {
      program.ReachesFromHere(f, avoid);
      return false;
    }
    visited.members := visited.members + {f};
    ghost var entered := visited.members;
    assert f in Unvisited(program, avoid) && f !in Unvisited(program, entered);
    if program.IsEffectCallback(f) {
      program.ReachesFromHere(f, avoid);
      return true;
    }
    var containing := NearestFunction(program, f);
    if containing.Some? && program.IsDirectlyInvokedWithin(f, containing.value) {
      found := SynchronousExecutionReachesEffect(program, containing.value, visited);
      if found {
        program.DeadEndsAreAvoided(containing.value, entered, avoid);
        program.ReachesStep(f, containing.value, avoid);
        return true;
      }
    }
    assert OnlyDeadEnds(program, entered, visited.members);
    assert Unvisited(program, visited.members) <= Unvisited(program, entered);
    found := SomeCallReachesEffect(program, program.ContinuationRegistrations(f), visited.members);
    if !found {
      found := SomeCallReachesEffect(program, program.DirectCalls(program.ReferencesOf(program.VariableOf(f))),
                                     visited.members);
    }
    if found {
      ghost var g :| program.Edge(f, g) && program.Reaches(g, visited.members);
      program.DeadEndsAreAvoided(g, visited.members, avoid);
      program.ReachesStep(f, g, avoid);
      return true;
    }
    NothingReached(program, f, avoid, visited.members);
    return false;
  }

  /** When every edge out of `f` came back empty, `f` and all it shared are dead ends. */
  lemma NothingReached(program: Program, f: NodeId, avoid: set<NodeId>, visited: set<NodeId>)
    requires program.Valid() && f < |program.kinds| && f !in avoid && !program.IsEffectCallback(f)
    requires OnlyDeadEnds(program, avoid + {f}, visited)
    requires forall g | program.ContainingEdge(f, g) :: !program.Reaches(g, avoid + {f})
    requires forall g | program.CallEdge(program.ContinuationRegistrations(f), g) :: !program.Reaches(g, visited)
    requires forall g | program.CallEdge(program.DirectCalls(program.ReferencesOf(program.VariableOf(f))), g) ::
               !program.Reaches(g, visited)
    ensures !program.Reaches(f, avoid) && OnlyDeadEnds(program, avoid, visited)
  {
    if program.Reaches(f, avoid) {
      var next := program.WalkLeaves(f, avoid);
      program.DeadEndsAreAvoided(next, avoid + {f}, visited);
      assert false;
    }
    forall a | a in visited - avoid ensures !program.Reaches(a, avoid) {
      if a != f && program.Reaches(a, avoid) {
        program.DeadEndsAreAvoided(a, avoid, avoid + {f});
        assert false;
      }
    }
  }

  /**
   The rule's entry point, from an empty visited set: true exactly when a walk
   along containing-invocation, continuation and direct-call edges leads from
   the function around the call to an effect callback.
   */
  method IsSynchronouslyInsideEffect(program: Program, call: NodeId) returns (inside: bool)
    requires program.Valid() && call < |program.kinds|
    ensures inside <==> program.Nearest(call).Some? && program.Reaches(program.Nearest(call).value, {})
  {
    var containing := NearestFunction(program, call);
    if containing.None? {
      return false;
    }
    var visited := new VisitedSet({});
    inside := SynchronousExecutionReachesEffect(program, containing.value, visited);
  }
}
