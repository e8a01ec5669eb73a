/**
 When a call runs as part of an effect, in terms of the syntax tree and the
 scope analysis alone: which functions are called where, which are handed to a
 scheduler or a promise, and that following these is what the search does.
 */
module EffectEdges {
  import opened EffectExecution
  import opened Trails
  import opened Wrappers

  // ---- What the program says ----

  ghost function Parents(program: Program): Relation<NodeId> {
    (n: NodeId, p: NodeId) => n < |program.parents| && program.parents[n] == Some(p)
  }

  predicate IsFunctionKind(kind: Kind) {
    match kind
    case ArrowFunction | FunctionExpression | FunctionDeclaration(_) => true
    case _ => false
  }

  /** `f` is a function somewhere around `n`. */
  ghost predicate FunctionAround(program: Program, n: NodeId, f: NodeId) {
    f < |program.kinds| && IsFunctionKind(program.kinds[f]) &&
    exists p :: Parents(program)(n, p) && Leads(Parents(program), p, f)
  }

  /** `f` is the innermost function around `n`. */
  ghost predicate Within(program: Program, n: NodeId, f: NodeId) {
    FunctionAround(program, n, f) &&
    forall g | FunctionAround(program, n, g) && g != f :: FunctionAround(program, f, g)
  }

  /** `call` calls `x`, through an optional chain or not. */
  predicate Calls(program: Program, call: NodeId, x: NodeId) {
    call < |program.kinds| && program.kinds[call].Call? &&
    var callee := program.kinds[call].callee;
    callee < |program.kinds| &&
    if program.kinds[callee].Chain? then program.kinds[callee].expression == x else callee == x
  }

  /** `call` hands its arguments to a timer or to a promise's continuation. */
  predicate Schedules(program: Program, call: NodeId) {
    exists callee | 0 <= callee < |program.kinds| :: Calls(program, call, callee) &&
      match program.kinds[callee]
      case Identifier(name) =>
        callee !in program.bound &&
        (name == "queueMicrotask" || name == "requestAnimationFrame" || name == "requestIdleCallback" ||
         name == "setInterval" || name == "setTimeout")
      case Member(computed, property) =>
        !computed && property < |program.kinds| &&
        (program.kinds[property] == Identifier("then") || program.kinds[property] == Identifier("catch") ||
         program.kinds[property] == Identifier("finally"))
      case _ => false
  }

  predicate IsParent(program: Program, x: NodeId, p: NodeId) {
    x < |program.parents| && program.parents[x] == Some(p)
  }

  /** `x` is an argument of such a call. */
  predicate IsScheduledBy(program: Program, x: NodeId, call: NodeId) {
    IsParent(program, x, call) && call < |program.kinds| && program.kinds[call].Call? &&
    x in program.kinds[call].arguments && Schedules(program, call)
  }

  predicate IsCalledBy(program: Program, x: NodeId, call: NodeId) {
    IsParent(program, x, call) && Calls(program, call, x)
  }

  /** The variable that `f` is the value of: by its own declaration, or as a declarator's initializer. */
  ghost predicate IsValueOf(program: Program, f: NodeId, v: Variable) {
    f < |program.kinds| &&
    if program.kinds[f].FunctionDeclaration? && program.kinds[f].name.Some? then
      program.kinds[f].name.value in program.declared && program.declared[program.kinds[f].name.value] == v
    else
      exists p: NodeId :: IsParent(program, f, p) && p < |program.kinds| && program.kinds[p].Declarator? &&
        var target := program.kinds[p].target;
        target < |program.kinds| && program.kinds[target].Identifier? &&
        target in program.declared && program.declared[target] == v
  }

  ghost predicate IsReference(program: Program, f: NodeId, identifier: NodeId) {
    exists v: Variable | v in program.references :: IsValueOf(program, f, v) && identifier in program.references[v]
  }

  // ---- Where a function is executed from ----

  /** `f` is called as it stands, within `g`. */
  ghost predicate CalledInPlace(program: Program, f: NodeId, g: NodeId) {
    exists call :: IsCalledBy(program, f, call) && Within(program, call, g)
  }

  /** `f` is called by name within `g`. */
  ghost predicate CalledByName(program: Program, f: NodeId, g: NodeId) {
    exists identifier, call ::
      IsReference(program, f, identifier) && IsCalledBy(program, identifier, call) && Within(program, call, g)
  }

  /** `f` is handed over as it stands, within `g`. */
  ghost predicate ScheduledInPlace(program: Program, f: NodeId, g: NodeId) {
    exists call :: IsScheduledBy(program, f, call) && Within(program, call, g)
  }

  /** `f` is handed over by name within `g`, and is not itself an argument handed over as it stands. */
  ghost predicate ScheduledByName(program: Program, f: NodeId, g: NodeId) {
    (forall call :: !IsScheduledBy(program, f, call)) &&
    exists identifier, call ::
      IsReference(program, f, identifier) && IsScheduledBy(program, identifier, call) && Within(program, call, g)
  }

  ghost predicate ExecutedFrom(program: Program, f: NodeId, g: NodeId) {
    CalledInPlace(program, f, g) || CalledByName(program, f, g) ||
    ScheduledInPlace(program, f, g) || ScheduledByName(program, f, g)
  }

  /** A function expression that is the first argument of an effect hook's call. */
  ghost predicate IsEffectArgument(program: Program, f: NodeId) {
    f < |program.kinds| && !program.kinds[f].FunctionDeclaration? &&
    exists call | call in program.effectCalls && call < |program.kinds| :: IsParent(program, f, call) &&
      program.kinds[call].Call? && program.kinds[call].arguments != [] && program.kinds[call].arguments[0] == f
  }

  ghost function Executing(program: Program): Relation<NodeId> {
    (f: NodeId, g: NodeId) => ExecutedFrom(program, f, g)
  }

  /** The call runs as part of an effect. */
  ghost predicate RunsInEffect(program: Program, call: NodeId) {
    exists f, e :: Within(program, call, f) && Leads(Executing(program), f, e) && IsEffectArgument(program, e)
  }

  // ---- The parent loop finds the innermost function ----

  lemma {:induction false} ParentsDecrease(program: Program, n: NodeId, a: NodeId)
    requires program.Valid() && Leads(Parents(program), n, a)
    ensures a <= n
  {
    LeadsKeeps(Parents(program), n, a, (x: NodeId) => x <= n);
  }

  lemma {:induction false} AroundParent(program: Program, n: NodeId, f: NodeId)
    requires program.Valid() && n < |program.kinds|
    ensures FunctionAround(program, n, f) <==>
            program.parents[n].Some? &&
            var p := program.parents[n].value;
            (p == f && program.IsFunction(p)) || FunctionAround(program, p, f)
  {
    if program.parents[n].Some? {
      var p := program.parents[n].value;
      assert Parents(program)(n, p);
      LeadsSelf(Parents(program), p);
      if FunctionAround(program, n, f) && p != f {
        var q := FirstStep(Parents(program), p, f);
      }
      if FunctionAround(program, p, f) {
        var q :| Parents(program)(p, q) && Leads(Parents(program), q, f);
        LeadsFrom(Parents(program), p, q, f);
      }
    }
  }

  lemma {:induction false} NearestMeansWithin(program: Program, n: NodeId, f: NodeId)
    requires program.Valid() && n < |program.kinds|
    ensures program.Nearest(n) == Some(f) <==> Within(program, n, f)
    decreases n
  {
    hide FunctionAround;
    forall g ensures FunctionAround(program, n, g) <==>
        program.parents[n].Some? &&
        ((program.parents[n].value == g && program.IsFunction(g)) ||
         FunctionAround(program, program.parents[n].value, g))
    {
      AroundParent(program, n, g);
    }
    if program.parents[n].Some? {
      var p := program.parents[n].value;
      if program.IsFunction(p) {
        NotAroundItself(program, p);
        if Within(program, n, f) && f != p {
          FunctionsBelow(program, f, p);
          FunctionsBelow(program, p, f);
        }
      } else {
        NearestMeansWithin(program, p, f);
      }
    }
  }

  lemma {:induction false} FunctionsBelow(program: Program, n: NodeId, f: NodeId)
    requires program.Valid()
    ensures FunctionAround(program, n, f) ==> f < n
  {
    if FunctionAround(program, n, f) {
      var p :| Parents(program)(n, p) && Leads(Parents(program), p, f);
      ParentsDecrease(program, p, f);
    }
  }

  lemma {:induction false} NotAroundItself(program: Program, n: NodeId)
    requires program.Valid()
    ensures !FunctionAround(program, n, n)
  {
    FunctionsBelow(program, n, n);
  }

  // ---- The edges of the search are these ----

  lemma {:induction false} DirectCallMeans(program: Program, x: NodeId, call: NodeId)
    requires program.Valid() && x < |program.kinds|
    ensures program.DirectCall(x) == Some(call) <==> IsCalledBy(program, x, call)
  {
    if program.parents[x].Some? {
      assert program.KindInRange(program.kinds[program.parents[x].value]);
    }
  }

  lemma {:induction false} RegistrationMeans(program: Program, call: NodeId)
    requires program.Valid() && call < |program.kinds| && program.kinds[call].Call?
    ensures program.IsContinuationRegistration(call) <==> Schedules(program, call)
  {
    assert program.KindInRange(program.kinds[call]);
    var callee := program.UnwrapChain(program.kinds[call].callee);
    assert program.KindInRange(program.kinds[callee]);
    assert program.KindInRange(program.kinds[program.kinds[call].callee]);
    assert forall x :: Calls(program, call, x) <==> x == callee;
    match program.kinds[callee]
    case Member(computed, property) =>
      assert program.kinds[property].Identifier? ==>
               program.kinds[property] == Identifier(program.kinds[property].identifier);
    case _ =>
  }

  lemma {:induction false} ScheduledMeans(program: Program, x: NodeId, call: NodeId)
    requires program.Valid() && x < |program.kinds|
    ensures program.RegistrationOf(x) == Some(call) <==> IsScheduledBy(program, x, call)
  {
    if program.parents[x].Some? && program.kinds[program.parents[x].value].Call? {
      RegistrationMeans(program, program.parents[x].value);
    }
  }

  lemma {:induction false} VariableMeans(program: Program, f: NodeId, v: Variable)
    requires program.Valid() && f < |program.kinds|
    ensures program.VariableOf(f) == Some(v) <==> IsValueOf(program, f, v)
  {
    assert program.KindInRange(program.kinds[f]);
    if program.parents[f].Some? {
      assert program.KindInRange(program.kinds[program.parents[f].value]);
      assert IsParent(program, f, program.parents[f].value);
    }
  }

  lemma {:induction false} ReferencesMean(program: Program, f: NodeId, identifier: NodeId)
    requires program.Valid() && f < |program.kinds|
    ensures identifier in program.ReferencesOf(program.VariableOf(f)) <==> IsReference(program, f, identifier)
    ensures IsReference(program, f, identifier) ==> identifier < |program.kinds|
  {
    forall v: Variable ensures program.VariableOf(f) == Some(v) <==> IsValueOf(program, f, v) {
      VariableMeans(program, f, v);
    }
    var refs := program.ReferencesOf(program.VariableOf(f));
    if identifier in refs {
      var i :| 0 <= i < |refs| && refs[i] == identifier;
    }
    if IsReference(program, f, identifier) {
      assert identifier in refs;
    }
  }

  lemma {:induction false} DirectCallsMean(program: Program, refs: seq<NodeId>, call: NodeId)
    requires program.Valid() && forall i | 0 <= i < |refs| :: refs[i] < |program.kinds|
    ensures call in program.DirectCalls(refs) <==> exists x :: x in refs && IsCalledBy(program, x, call)
  {
    if refs != [] {
      DirectCallMeans(program, refs[0], call);
      DirectCallsMean(program, refs[1..], call);
      assert refs == [refs[0]] + refs[1..];
    }
  }

  lemma {:induction false} RegistrationsMean(program: Program, refs: seq<NodeId>, call: NodeId)
    requires program.Valid() && forall i | 0 <= i < |refs| :: refs[i] < |program.kinds|
    ensures call in program.Registrations(refs) <==> exists x :: x in refs && IsScheduledBy(program, x, call)
  {
    if refs != [] {
      ScheduledMeans(program, refs[0], call);
      RegistrationsMean(program, refs[1..], call);
      assert refs == [refs[0]] + refs[1..];
    }
  }

  lemma {:induction false} CallEdgeMeans(program: Program, calls: seq<NodeId>, g: NodeId)
    requires program.Valid() && forall i | 0 <= i < |calls| :: calls[i] < |program.kinds|
    ensures program.CallEdge(calls, g) <==> exists call :: call in calls && Within(program, call, g)
  {
    forall i | 0 <= i < |calls| ensures program.Nearest(calls[i]) == Some(g) <==> Within(program, calls[i], g) {
      NearestMeansWithin(program, calls[i], g);
    }
    if call :| call in calls && Within(program, call, g) {
      var i :| 0 <= i < |calls| && calls[i] == call;
    }
  }

  lemma {:induction false} NameEdgeMeans(program: Program, f: NodeId, g: NodeId)
    requires program.Valid() && f < |program.kinds|
    ensures program.CallEdge(program.DirectCalls(program.ReferencesOf(program.VariableOf(f))), g) <==>
              CalledByName(program, f, g)
  {
    hide Within, IsCalledBy, IsReference, Program.DirectCalls, Program.ReferencesOf, Program.VariableOf,
         Program.CallEdge;
    var refs := program.ReferencesOf(program.VariableOf(f));
    CallEdgeMeans(program, program.DirectCalls(refs), g);
    forall x: NodeId ensures x in refs <==> IsReference(program, f, x) {
      ReferencesMean(program, f, x);
    }
    forall call: NodeId
      ensures call in program.DirectCalls(refs) <==> exists x :: x in refs && IsCalledBy(program, x, call)
    {
      DirectCallsMean(program, refs, call);
    }
  }

  lemma {:induction false} ContinuationEdgeMeans(program: Program, f: NodeId, g: NodeId)
    requires program.Valid() && f < |program.kinds|
    ensures program.CallEdge(program.ContinuationRegistrations(f), g) <==>
              ScheduledInPlace(program, f, g) || ScheduledByName(program, f, g)
  {
    hide Within, IsScheduledBy, IsReference, Program.Registrations, Program.ReferencesOf, Program.VariableOf,
         Program.RegistrationOf, Program.CallEdge;
    var refs, own := program.ReferencesOf(program.VariableOf(f)), program.RegistrationOf(f);
    CallEdgeMeans(program, program.ContinuationRegistrations(f), g);
    forall call: NodeId ensures own == Some(call) <==> IsScheduledBy(program, f, call) {
      ScheduledMeans(program, f, call);
    }
    if own.None? {
      forall x: NodeId ensures x in refs <==> IsReference(program, f, x) {
        ReferencesMean(program, f, x);
      }
      forall call: NodeId
        ensures call in program.Registrations(refs) <==> exists x :: x in refs && IsScheduledBy(program, x, call)
      {
        RegistrationsMean(program, refs, call);
      }
    } else {
      assert program.ContinuationRegistrations(f) == [own.value];
    }
  }

  /** A function called as it stands lies within the function its call lies within. */
  lemma {:induction false} CallLiesAlike(program: Program, f: NodeId, call: NodeId, g: NodeId)
    requires program.Valid() && f < |program.kinds| && IsCalledBy(program, f, call)
    ensures Within(program, f, g) <==> Within(program, call, g)
  {
    NearestMeansWithin(program, f, g);
    NearestMeansWithin(program, call, g);
  }

  lemma {:induction false} ContainingEdgeMeans(program: Program, f: NodeId, g: NodeId)
    requires program.Valid() && f < |program.kinds|
    ensures program.ContainingEdge(f, g) ==> CalledInPlace(program, f, g) || CalledByName(program, f, g)
    ensures CalledInPlace(program, f, g) ==> program.ContainingEdge(f, g)
  {
    hide Within, IsCalledBy, IsReference, Program.DirectCalls, Program.ReferencesOf, Program.VariableOf,
         Program.DirectCall;
    NearestMeansWithin(program, f, g);
    NameEdgeMeans(program, f, g);
    forall call: NodeId ensures program.DirectCall(f) == Some(call) <==> IsCalledBy(program, f, call) {
      DirectCallMeans(program, f, call);
    }
    if program.DirectCall(f).Some? {
      var call := program.DirectCall(f).value;
      CallLiesAlike(program, f, call, g);
      NearestMeansWithin(program, call, g);
      ParentOfCalled(program, f, call);
    }
    var calls := program.DirectCalls(program.ReferencesOf(program.VariableOf(f)));
    if call :| call in calls && program.Nearest(call) == Some(g) {
      var i :| 0 <= i < |calls| && calls[i] == call;
      assert program.Nearest(calls[i]) == Some(g);
      assert program.CallEdge(calls, g);
    }
  }

  lemma {:induction false} ParentOfCalled(program: Program, f: NodeId, call: NodeId)
    requires program.Valid() && f < |program.kinds| && IsCalledBy(program, f, call)
    ensures program.ParentOf(f) == Some(call) && call < |program.kinds|
  {
  }

  /** The edges of the search are exactly the places a function is executed from. */
  lemma {:induction false} EdgesAreExecutions(program: Program, f: NodeId, g: NodeId)
    requires program.Valid() && f < |program.kinds|
    ensures program.Edge(f, g) <==> ExecutedFrom(program, f, g)
  {
    hide CalledInPlace, CalledByName, ScheduledInPlace, ScheduledByName, Program.ContainingEdge, Program.CallEdge;
    ContainingEdgeMeans(program, f, g);
    NameEdgeMeans(program, f, g);
    ContinuationEdgeMeans(program, f, g);
  }

  // ---- The search, in the program's own terms ----

  lemma {:induction false} CallbackMeans(program: Program, f: NodeId)
    requires program.Valid() && f < |program.kinds|
    ensures program.IsEffectCallback(f) <==> IsEffectArgument(program, f)
  {
  }

  lemma {:induction false} EdgesReachIsLeads(program: Program, f: NodeId)
    requires program.Valid() && f < |program.kinds|
    ensures program.Reaches(f, {}) <==> exists e :: Leads(Executing(program), f, e) && IsEffectArgument(program, e)
  {
    hide ExecutedFrom, IsEffectArgument, Program.Edge, Program.IsEffectCallback;
    if program.Reaches(f, {}) {
      var path: seq<NodeId> :|
        ClearTrail(program.Edges(), program.ClearOf({}), program.Callbacks(), path) && path[0] == f;
      forall i | 0 <= i < |path| - 1 ensures Executing(program)(path[i], path[i + 1]) {
        assert program.Edges()(path[i], path[i + 1]);
        EdgesAreExecutions(program, path[i], path[i + 1]);
      }
      var e := path[|path| - 1];
      assert Joins(Executing(program), path, f, e);
      CallbackMeans(program, e);
    }
    if e: NodeId :| Leads(Executing(program), f, e) && IsEffectArgument(program, e) {
      var path: seq<NodeId> :| Joins(Executing(program), path, f, e);
      ExecutionsReach(program, path);
    }
  }

  lemma {:induction false} ExecutionStays(program: Program, f: NodeId, g: NodeId)
    requires program.Valid() && ExecutedFrom(program, f, g)
    ensures g < |program.kinds|
  {
  }

  lemma {:induction false} ExecutionsReach(program: Program, path: seq<NodeId>)
    requires program.Valid() && Trail(Executing(program), path) && path[0] < |program.kinds|
    requires IsEffectArgument(program, path[|path| - 1])
    ensures program.Reaches(path[0], {})
    decreases |path|
  {
    hide ExecutedFrom, IsEffectArgument, Program.Edge, Program.IsEffectCallback;
    CallbackMeans(program, path[0]);
    program.ReachesFromHere(path[0], {});
    if |path| > 1 {
      assert Executing(program)(path[0], path[0 + 1]);
      ExecutionStays(program, path[0], path[1]);
      EdgesAreExecutions(program, path[0], path[1]);
      TrailSuffix(Executing(program), path, 1);
      ExecutionsReach(program, path[1..]);
      program.ReachesStep(path[0], path[1], {});
    }
  }

  /** The answer about a call is whether it runs as part of an effect. */
  lemma {:induction false} AnswerMeansRunsInEffect(program: Program, call: NodeId)
    requires program.Valid() && call < |program.kinds|
    ensures program.Nearest(call).Some? && program.Reaches(program.Nearest(call).value, {}) <==>
              RunsInEffect(program, call)
  {
    hide Within, Program.Reaches, Executing, IsEffectArgument;
    forall f: NodeId ensures program.Nearest(call) == Some(f) <==> Within(program, call, f) {
      NearestMeansWithin(program, call, f);
    }
    if program.Nearest(call).Some? {
      EdgesReachIsLeads(program, program.Nearest(call).value);
    }
  }

  ghost predicate FunctionRunsInEffect(program: Program, f: NodeId) {
    exists e :: Leads(Executing(program), f, e) && IsEffectArgument(program, e)
  }

  /** What is called or handed over by a function that runs in an effect runs in it too. */
  lemma {:induction false} ExecutedRunsToo(program: Program, f: NodeId, call: NodeId, g: NodeId)
    requires IsCalledBy(program, f, call) || IsScheduledBy(program, f, call)
    requires Within(program, call, g) && FunctionRunsInEffect(program, g)
    ensures FunctionRunsInEffect(program, f)
  {
    hide Within, IsCalledBy, IsScheduledBy;
    var e: NodeId :| Leads(Executing(program), g, e) && IsEffectArgument(program, e);
    assert Executing(program)(f, g);
    LeadsFrom(Executing(program), f, g, e);
  }
}
