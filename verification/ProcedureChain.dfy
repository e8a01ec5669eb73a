/**
 Whether a tRPC procedure chain declares an output schema.  Aliases are followed
 through their initializers with a cache per binding.  The cache is invisible,
 whatever is asked in whatever order, exactly when every cycle of aliases is
 harmless: either each alias agrees with the next about being a procedure with
 an output schema, or no alias applies `.output` and of any two neighbours one
 is rooted in a procedure's name.
 */
module ProcedureChain {
  import opened Trails
  import opened Wrappers
  import opened Sequences

  type Variable = nat

  datatype Expr =
    | Identifier(name: string, variable: Option<Variable>)
    | Call(callee: Expr)
    | Member(property: Option<string>, target: Expr)
    | Chain(inner: Expr)
    | Other

  /** The initializer of each binding that has one. */
  type Initializers = map<Variable, Expr>

  datatype Answer = Answer(hasOutput: bool, isProcedure: bool)

  const NOT_PROCEDURE_CHAIN := Answer(false, false)

  /** The identifier at the root of a chain, and whether `.output` was applied on the way. */
  datatype Root = Root(name: string, variable: Option<Variable>, hasOutput: bool)

  function UnwrapChain(e: Expr): Expr {
    if e.Chain? then e.inner else e
  }

  predicate EndsWith(s: string, suffix: string) {
    |suffix| <= |s| && s[|s| - |suffix|..] == suffix
  }

  predicate IsProcedureRootName(name: string) {
    name == "publicProcedure" || name == "protectedProcedure" || EndsWith(name, "Procedure")
  }

  /** Walks member accesses and calls down to the root, from an already unwrapped node. */
  function RootFrom(e: Expr, hasOutput: bool): Option<Root> {
    match e
    case Identifier(name, variable) => Some(Root(name, variable, hasOutput))
    case Call(callee) =>
      var member := UnwrapChain(callee);
      if member.Member? then RootFrom(UnwrapChain(member.target), hasOutput || member.property == Some("output"))
      else None
    case Member(property, target) => RootFrom(UnwrapChain(target), hasOutput || property == Some("output"))
    case _ => None
  }

  function RootOf(e: Expr): Option<Root> {
    RootFrom(UnwrapChain(e), false)
  }

  /** What a root's own binding says, or failing that its name. */
  function Combine(root: Root, alias: Answer): Answer {
    if alias.isProcedure then Answer(root.hasOutput || alias.hasOutput, true)
    else if IsProcedureRootName(root.name) then Answer(root.hasOutput, true)
    else NOT_PROCEDURE_CHAIN
  }

  // ---- The cached analysis ----

  type Cache = map<Variable, Answer>

  function AnalyzeVariable(inits: Initializers, v: Variable, cache: Cache, seen: set<Variable>): (r: (Answer, Cache))
    decreases inits.Keys - seen, 1
  {
    if v in cache then (cache[v], cache)
    else if v in seen then (NOT_PROCEDURE_CHAIN, cache)
    else if v !in inits then (NOT_PROCEDURE_CHAIN, cache[v := NOT_PROCEDURE_CHAIN])
    else
      assert v in inits.Keys - seen;
      var (answer, after) := AnalyzeChain(inits, inits[v], cache, seen + {v});
      (answer, after[v := answer])
  }

  function AnalyzeChain(inits: Initializers, e: Expr, cache: Cache, seen: set<Variable>): (r: (Answer, Cache))
    decreases inits.Keys - seen, 2
  {
    match RootOf(e)
    case None => (NOT_PROCEDURE_CHAIN, cache)
    case Some(root) =>
      if root.variable.None? then (Combine(root, NOT_PROCEDURE_CHAIN), cache)
      else
        var (alias, after) := AnalyzeVariable(inits, root.variable.value, cache, seen);
        (Combine(root, alias), after)
  }

  /** The answers to a sequence of queries sharing one cache. */
  function Answers(inits: Initializers, queries: seq<Expr>, cache: Cache): (answers: seq<Answer>)
    ensures |answers| == |queries|
  {
    if queries == [] then []
    else
      var (answer, after) := AnalyzeChain(inits, queries[0], cache, {});
      [answer] + Answers(inits, queries[1..], after)
  }

  class ProcedureAnalysis {
    const inits: Initializers
    var cache: Cache
    var seen: set<Variable>

    constructor (inits: Initializers)
      ensures this.inits == inits && cache == map[] && seen == {}
    {
      this.inits, cache, seen := inits, map[], {};
    }

    method QueryVariable(v: Variable) returns (answer: Answer)
      modifies this
      ensures seen == old(seen)
      ensures (answer, cache) == AnalyzeVariable(inits, v, old(cache), old(seen))
      decreases inits.Keys - seen, 1
    {
      if v in cache {
        return cache[v];
      }
      if v in seen {
        return NOT_PROCEDURE_CHAIN;
      }
      ghost var before := seen;
      seen := seen + {v};
      answer := NOT_PROCEDURE_CHAIN;
      if v in inits {
        assert v in inits.Keys - before;
        answer := QueryChain(inits[v]);
      }
      cache := cache[v := answer];
      seen := seen - {v};
      assert seen == before;
    }

    /** The chain walk as the loop it is, then the root's binding. */
    method QueryChain(e: Expr) returns (answer: Answer)
      modifies this
      ensures seen == old(seen)
      ensures (answer, cache) == AnalyzeChain(inits, e, old(cache), old(seen))
      decreases inits.Keys - seen, 2
    {
      var current, hasOutput := UnwrapChain(e), false;
      while !current.Identifier?
        invariant RootFrom(current, hasOutput) == RootOf(e)
        decreases current
      {
        match current
        case Call(callee) =>
          var member := UnwrapChain(callee);
          if !member.Member? {
            return NOT_PROCEDURE_CHAIN;
          }
          hasOutput := hasOutput || member.property == Some("output");
          current := UnwrapChain(member.target);
        case Member(property, target) =>
          hasOutput := hasOutput || property == Some("output");
          current := UnwrapChain(target);
        case _ =>
          return NOT_PROCEDURE_CHAIN;
      }
      var alias := NOT_PROCEDURE_CHAIN;
      if current.variable.Some? {
        alias := QueryVariable(current.variable.value);
      }
      answer := Combine(Root(current.name, current.variable, hasOutput), alias);
    }
  }

  /** Runs a sequence of queries on one analysis; nothing stays marked as seen between them. */
  method RunQueries(inits: Initializers, queries: seq<Expr>) returns (answers: seq<Answer>)
    ensures answers == Answers(inits, queries, map[])
  {
    hide AnalyzeChain;
    var analysis := new ProcedureAnalysis(inits);
    answers := [];
    assert queries[0..] == queries;
    for i := 0 to |queries|
      invariant analysis.inits == inits && analysis.seen == {}
      invariant answers + Answers(inits, queries[i..], analysis.cache) == Answers(inits, queries, map[])
    {
      ghost var cache := analysis.cache;
      var answer := analysis.QueryChain(queries[i]);
      assert queries[i..][1..] == queries[i + 1..];
      assert Answers(inits, queries[i..], cache) == [answer] + Answers(inits, queries[i + 1..], analysis.cache);
      answers := answers + [answer];
    }
  }

  // ---- The uncached meaning ----

  /** The binding an alias is an alias of. */
  function Target(inits: Initializers, v: Variable): Option<Variable>
    requires v in inits
  {
    var root := RootOf(inits[v]);
    if root.Some? && root.value.variable.Some? && root.value.variable.value in inits then root.value.variable else None
  }

  /** From an alias to the binding it is an alias of. */
  ghost function Aliasing(inits: Initializers): Relation<Variable> {
    (v, w) => v in inits && Target(inits, v) == Some(w)
  }

  /** Following the aliases from `v` leads back to `v`. */
  ghost predicate OnCycle(inits: Initializers, v: Variable) {
    v in inits && Target(inits, v).Some? && Leads(Aliasing(inits), Target(inits, v).value, v)
  }

  ghost function Behind(inits: Initializers, v: Variable): set<Variable> {
    set w | w in inits.Keys && Leads(Aliasing(inits), v, w)
  }

  lemma BehindShrinks(inits: Initializers, v: Variable)
    requires v in inits && Target(inits, v).Some? && !OnCycle(inits, v)
    ensures Behind(inits, Target(inits, v).value) < Behind(inits, v)
  {
    var w := Target(inits, v).value;
    LeadsSelf(Aliasing(inits), v);
    forall x | x in Behind(inits, w) ensures x in Behind(inits, v) {
      LeadsFrom(Aliasing(inits), v, w, x);
    }
    assert v in Behind(inits, v) && v !in Behind(inits, w);
  }

  /**
   What a binding is, with no cache, no visited set and no order of queries: an
   alias is what its target makes it, but on a cycle its root's name decides.
   */
  ghost function Settled(inits: Initializers, v: Variable): Answer
    decreases Behind(inits, v)
  {
    if v !in inits || RootOf(inits[v]).None? then NOT_PROCEDURE_CHAIN
    else if Target(inits, v).None? || OnCycle(inits, v) then Combine(RootOf(inits[v]).value, NOT_PROCEDURE_CHAIN)
    else
      BehindShrinks(inits, v);
      Combine(RootOf(inits[v]).value, Settled(inits, Target(inits, v).value))
  }

  ghost function Inline(inits: Initializers, e: Expr): Answer {
    match RootOf(e)
    case None => NOT_PROCEDURE_CHAIN
    case Some(root) =>
      Combine(root, if root.variable.None? then NOT_PROCEDURE_CHAIN else Settled(inits, root.variable.value))
  }

  // ---- Names ----

  type Names = Variable -> string

  /** An identifier that reaches a binding carries that binding's name. */
  predicate IsNamed(names: Names, e: Expr) {
    var root := RootOf(e);
    root.Some? && root.value.variable.Some? ==> root.value.name == names(root.value.variable.value)
  }

  predicate WellNamed(names: Names, inits: Initializers) {
    forall v | v in inits :: IsNamed(names, inits[v])
  }

  /** What can be seen of a binding's answer by its name: a procedure's name passes for a procedure anyway. */
  function Shown(names: Names, v: Variable, answer: Answer): Answer {
    if answer.isProcedure then answer else Answer(false, IsProcedureRootName(names(v)))
  }

  // ---- Cycles on which no order of queries shows ----

  /** The target of an alias on a cycle is on that cycle too. */
  lemma CycleGoesOn(inits: Initializers, v: Variable)
    requires OnCycle(inits, v)
    ensures RootOf(inits[v]).Some? && Target(inits, v).value in inits
    ensures OnCycle(inits, Target(inits, v).value) && RootOf(inits[Target(inits, v).value]).Some?
  {
    var w := Target(inits, v).value;
    if w != v {
      var x := FirstStep(Aliasing(inits), w, v);
      LeadsOn(Aliasing(inits), x, v, w);
    }
  }

  ghost function OwnRoot(inits: Initializers, v: Variable): Root
    requires OnCycle(inits, v)
  {
    CycleGoesOn(inits, v);
    RootOf(inits[v]).value
  }

  ghost function NextRoot(inits: Initializers, v: Variable): Root
    requires OnCycle(inits, v)
  {
    CycleGoesOn(inits, v);
    OwnRoot(inits, Target(inits, v).value)
  }

  /** Two roots agree: neither name is a procedure's, or both are and `.output` is applied to both or neither. */
  predicate Agree(x: Root, y: Root) {
    (IsProcedureRootName(x.name) <==> IsProcedureRootName(y.name)) &&
    (IsProcedureRootName(x.name) ==> x.hasOutput == y.hasOutput)
  }

  /** No `.output` at `x`, and a procedure's name there or at `y`. */
  predicate PassAsPlain(x: Root, y: Root) {
    !x.hasOutput && (IsProcedureRootName(x.name) || IsProcedureRootName(y.name))
  }

  ghost predicate SameCycle(inits: Initializers, v: Variable, w: Variable) {
    OnCycle(inits, w) && Leads(Aliasing(inits), v, w)
  }

  /** All aliases on the cycle of `v` agree with the next, or all pass as procedures without an output schema. */
  ghost predicate IsHarmless(inits: Initializers, v: Variable) {
    (forall w | SameCycle(inits, v, w) :: Agree(OwnRoot(inits, w), NextRoot(inits, w))) ||
    (forall w | SameCycle(inits, v, w) :: PassAsPlain(OwnRoot(inits, w), NextRoot(inits, w)))
  }

  ghost predicate CyclesAreHarmless(inits: Initializers) {
    forall v | OnCycle(inits, v) :: IsHarmless(inits, v)
  }

  /** Whatever its target is by its own name adds nothing that shows at `v`. */
  ghost predicate Undisturbed(names: Names, inits: Initializers, v: Variable)
    requires OnCycle(inits, v)
  {
    var alone := Combine(OwnRoot(inits, v), NOT_PROCEDURE_CHAIN);
    var next := Combine(NextRoot(inits, v), NOT_PROCEDURE_CHAIN);
    Shown(names, v, Combine(OwnRoot(inits, v), next)) == Shown(names, v, alone)
  }

  ghost predicate NoneDisturbed(names: Names, inits: Initializers) {
    forall v | OnCycle(inits, v) :: Undisturbed(names, inits, v)
  }

  /** An alias on a cycle carries the name that the alias before it is rooted in. */
  lemma AliasBefore(names: Names, inits: Initializers, v: Variable) returns (u: Variable)
    requires WellNamed(names, inits) && OnCycle(inits, v)
    ensures SameCycle(inits, v, u) && Target(inits, u) == Some(v) && OwnRoot(inits, u).name == names(v)
  {
    var w := Target(inits, v).value;
    LeadsSelf(Aliasing(inits), v);
    if w == v {
      u := v;
    } else {
      u := LastStep(Aliasing(inits), w, v);
      LeadsFrom(Aliasing(inits), v, w, u);
      RoundTrip(inits, v, u);
    }
    assert IsNamed(names, inits[u]);
  }

  /** Whatever an alias on a cycle leads to is on that cycle, and leads back. */
  lemma RoundTrip(inits: Initializers, v: Variable, w: Variable)
    requires OnCycle(inits, v) && Leads(Aliasing(inits), v, w)
    ensures SameCycle(inits, v, w) && SameCycle(inits, w, v)
  {
    var holds := x => OnCycle(inits, x) && Leads(Aliasing(inits), x, v);
    LeadsSelf(Aliasing(inits), v);
    forall a, b | holds(a) && Aliasing(inits)(a, b) ensures holds(b) {
      CycleGoesOn(inits, a);
      if a != v {
        var x := FirstStep(Aliasing(inits), a, v);
      }
    }
    LeadsKeeps(Aliasing(inits), v, w, holds);
  }

  lemma SameCycleJoins(inits: Initializers, u: Variable, v: Variable, w: Variable)
    requires OnCycle(inits, v) && SameCycle(inits, v, u) && SameCycle(inits, v, w)
    ensures SameCycle(inits, u, w)
  {
    RoundTrip(inits, v, u);
    LeadsJoin(Aliasing(inits), u, v, w);
  }

  lemma HarmlessIsUndisturbed(names: Names, inits: Initializers, v: Variable)
    requires WellNamed(names, inits) && OnCycle(inits, v) && IsHarmless(inits, v)
    ensures Undisturbed(names, inits, v)
  {
    LeadsSelf(Aliasing(inits), v);
    var u := AliasBefore(names, inits, v);
    var w := Target(inits, v).value;
    CycleGoesOn(inits, v);
    LeadsOn(Aliasing(inits), v, v, w);
    assert SameCycle(inits, v, v) && SameCycle(inits, v, w);
  }

  /** Two neighbours without a procedure's name: then no alias on the cycle has one. */
  lemma OrdinarySpreads(names: Names, inits: Initializers, v: Variable, w: Variable)
    requires WellNamed(names, inits) && NoneDisturbed(names, inits) && OnCycle(inits, v) && SameCycle(inits, v, w)
    requires !IsProcedureRootName(OwnRoot(inits, v).name) && !IsProcedureRootName(NextRoot(inits, v).name)
    ensures !IsProcedureRootName(OwnRoot(inits, w).name)
  {
    var holds := x => OnCycle(inits, x) && !IsProcedureRootName(OwnRoot(inits, x).name) &&
                      !IsProcedureRootName(NextRoot(inits, x).name);
    forall a, b | holds(a) && Aliasing(inits)(a, b) ensures holds(b) {
      CycleGoesOn(inits, a);
      assert IsNamed(names, inits[a]) && Undisturbed(names, inits, b);
    }
    LeadsKeeps(Aliasing(inits), v, w, holds);
  }

  /** Of any two neighbours on the cycle of `v` one is rooted in a procedure's name. */
  ghost predicate Alternates(inits: Initializers, v: Variable) {
    forall w | SameCycle(inits, v, w) ::
      IsProcedureRootName(OwnRoot(inits, w).name) || IsProcedureRootName(NextRoot(inits, w).name)
  }

  /** One alias that does not apply `.output`: then none on the cycle does. */
  lemma PlainSpreads(names: Names, inits: Initializers, v: Variable, w: Variable)
    requires NoneDisturbed(names, inits) && OnCycle(inits, v) && SameCycle(inits, v, w)
    requires Alternates(inits, v) && !OwnRoot(inits, v).hasOutput
    ensures !OwnRoot(inits, w).hasOutput
  {
    var holds := x => SameCycle(inits, v, x) && !OwnRoot(inits, x).hasOutput;
    LeadsSelf(Aliasing(inits), v);
    forall a, b | holds(a) && Aliasing(inits)(a, b) ensures holds(b) {
      CycleGoesOn(inits, a);
      LeadsOn(Aliasing(inits), v, a, b);
      assert Undisturbed(names, inits, a) && Undisturbed(names, inits, b);
    }
    LeadsKeeps(Aliasing(inits), v, w, holds);
  }

  lemma UndisturbedIsHarmless(names: Names, inits: Initializers, v: Variable)
    requires WellNamed(names, inits) && NoneDisturbed(names, inits) && OnCycle(inits, v)
    ensures IsHarmless(inits, v)
  {
    if Alternates(inits, v) {
      if u :| SameCycle(inits, v, u) && !IsProcedureRootName(OwnRoot(inits, u).name) {
        assert Undisturbed(names, inits, u);
        forall w | SameCycle(inits, v, w) ensures PassAsPlain(OwnRoot(inits, w), NextRoot(inits, w)) {
          SameCycleJoins(inits, u, v, w);
          AlternatesFrom(inits, v, u);
          PlainSpreads(names, inits, u, w);
        }
      } else {
        forall w | SameCycle(inits, v, w) ensures Agree(OwnRoot(inits, w), NextRoot(inits, w)) {
          NeighboursAgree(names, inits, v, w);
        }
      }
    } else {
      var u :| SameCycle(inits, v, u) && !IsProcedureRootName(OwnRoot(inits, u).name) &&
               !IsProcedureRootName(NextRoot(inits, u).name);
      forall w | SameCycle(inits, v, w) ensures Agree(OwnRoot(inits, w), NextRoot(inits, w)) {
        SameCycleJoins(inits, u, v, w);
        OrdinarySpreads(names, inits, u, w);
        CycleGoesOn(inits, w);
        LeadsOn(Aliasing(inits), u, w, Target(inits, w).value);
        OrdinarySpreads(names, inits, u, Target(inits, w).value);
      }
    }
  }

  lemma AlternatesFrom(inits: Initializers, v: Variable, u: Variable)
    requires Alternates(inits, v) && SameCycle(inits, v, u)
    ensures Alternates(inits, u)
  {
    forall w | SameCycle(inits, u, w) ensures SameCycle(inits, v, w) {
      LeadsJoin(Aliasing(inits), v, u, w);
    }
  }

  lemma NeighboursAgree(names: Names, inits: Initializers, v: Variable, w: Variable)
    requires NoneDisturbed(names, inits) && OnCycle(inits, v) && SameCycle(inits, v, w)
    requires forall x | SameCycle(inits, v, x) :: IsProcedureRootName(OwnRoot(inits, x).name)
    ensures Agree(OwnRoot(inits, w), NextRoot(inits, w))
  {
    CycleGoesOn(inits, w);
    var next := Target(inits, w).value;
    LeadsOn(Aliasing(inits), v, w, next);
    assert Undisturbed(names, inits, w) && Alternates(inits, v);
    if !OwnRoot(inits, next).hasOutput {
      SameCycleJoins(inits, next, v, w);
      AlternatesFrom(inits, v, next);
      PlainSpreads(names, inits, next, w);
    }
  }

  // ---- Where cycles are harmless, the cache is invisible ----

  /** Where cycles are harmless, every alias shows what its target makes it. */
  lemma SettledByTarget(names: Names, inits: Initializers, v: Variable)
    requires WellNamed(names, inits) && CyclesAreHarmless(inits) && v in inits && Target(inits, v).Some?
    ensures Shown(names, v, Settled(inits, v)) ==
            Shown(names, v, Combine(RootOf(inits[v]).value, Settled(inits, Target(inits, v).value)))
  {
    if OnCycle(inits, v) {
      CycleGoesOn(inits, v);
      HarmlessIsUndisturbed(names, inits, v);
    }
  }

  /** Every cached answer shows what the binding is. */
  ghost predicate Truthful(names: Names, inits: Initializers, cache: Cache) {
    forall v | v in cache :: Shown(names, v, cache[v]) == Shown(names, v, Settled(inits, v))
  }

  /** With a truthful cache a binding not being visited shows what it is, and the cache stays truthful. */
  lemma {:induction false} VariableIsSettled(names: Names, inits: Initializers, v: Variable, cache: Cache,
                                             seen: set<Variable>)
    requires WellNamed(names, inits) && CyclesAreHarmless(inits) && Truthful(names, inits, cache)
    requires forall s | s in seen :: Leads(Aliasing(inits), s, v)
    ensures v in cache || v !in seen ==>
              Shown(names, v, AnalyzeVariable(inits, v, cache, seen).0) == Shown(names, v, Settled(inits, v))
    ensures Truthful(names, inits, AnalyzeVariable(inits, v, cache, seen).1)
    decreases inits.Keys - seen
  {
    hide CyclesAreHarmless, IsProcedureRootName, RootFrom, Leads;
    if v !in cache && v !in seen && v in inits {
      assert v in inits.Keys - seen && IsNamed(names, inits[v]);
      var root := RootOf(inits[v]);
      if root.Some? && root.value.variable.Some? {
        var w := root.value.variable.value;
        var (alias, after) := AnalyzeVariable(inits, w, cache, seen + {v});
        if w in inits {
          assert Target(inits, v) == Some(w);
          LeadsSelf(Aliasing(inits), v);
          forall s | s in seen + {v} ensures Leads(Aliasing(inits), s, w) {
            LeadsOn(Aliasing(inits), s, v, w);
          }
          VariableIsSettled(names, inits, w, cache, seen + {v});
          SettledByTarget(names, inits, v);
          assert w in seen + {v} ==> OnCycle(inits, v);
        } else {
          assert Shown(names, w, alias) == Shown(names, w, NOT_PROCEDURE_CHAIN) && Truthful(names, inits, after);
        }
      }
    }
  }

  /** For every sequence of queries, the cached answers are the inlined ones. */
  lemma {:induction false} CacheIsInvisible(names: Names, inits: Initializers, queries: seq<Expr>, cache: Cache)
    requires WellNamed(names, inits) && CyclesAreHarmless(inits) && Truthful(names, inits, cache)
    requires forall q | q in queries :: IsNamed(names, q)
    ensures forall i | 0 <= i < |queries| :: Answers(inits, queries, cache)[i] == Inline(inits, queries[i])
  {
    hide WellNamed, CyclesAreHarmless, Truthful, Settled, IsProcedureRootName;
    if queries != [] {
      assert IsNamed(names, queries[0]);
      var root := RootOf(queries[0]);
      if root.Some? && root.value.variable.Some? {
        VariableIsSettled(names, inits, root.value.variable.value, cache, {});
      }
      var (_, after) := AnalyzeChain(inits, queries[0], cache, {});
      CacheIsInvisible(names, inits, queries[1..], after);
    }
  }

  // ---- Where a cycle is not harmless, some answer depends on the order ----

  /** A trail of distinct aliases that were not visited before. */
  ghost predicate FreshTrail(inits: Initializers, trail: seq<Variable>, seen: set<Variable>) {
    Trail(Aliasing(inits), trail) && NoRepeats(trail) && forall v | v in trail :: v in inits && v !in seen
  }

  lemma FreshTail(inits: Initializers, trail: seq<Variable>, seen: set<Variable>)
    requires FreshTrail(inits, trail, seen) && |trail| > 1
    ensures FreshTrail(inits, trail[1..], seen + {trail[0]}) && Last(trail[1..]) == Last(trail)
    ensures RootOf(inits[trail[0]]).Some? && RootOf(inits[trail[0]]).value.variable == Some(trail[1])
  {
    TrailSuffix(Aliasing(inits), trail, 1);
    assert Aliasing(inits)(trail[0], trail[0 + 1]);
    assert trail[0] in trail;
  }

  /** What one step of the walk along a fresh trail adds to the answer of the next. */
  lemma WalkStep(inits: Initializers, trail: seq<Variable>, seen: set<Variable>)
    requires FreshTrail(inits, trail, seen) && |trail| > 1
    ensures RootOf(inits[trail[0]]).Some?
    ensures var (answer, after) := AnalyzeVariable(inits, trail[1], map[], seen + {trail[0]});
            var combined := Combine(RootOf(inits[trail[0]]).value, answer);
            AnalyzeVariable(inits, trail[0], map[], seen) == (combined, after[trail[0] := combined])
  {
    FreshTail(inits, trail, seen);
    assert trail[0] in trail && trail[0] in inits.Keys - seen;
  }

  /** An alias whose target is being visited is cached by its root's name alone. */
  lemma {:induction false} LastIsCutShort(inits: Initializers, trail: seq<Variable>, seen: set<Variable>)
    requires FreshTrail(inits, trail, seen) && Last(trail) in inits && Target(inits, Last(trail)).Some?
    requires Target(inits, Last(trail)).value in seen || Target(inits, Last(trail)).value in trail
    ensures var after := AnalyzeVariable(inits, trail[0], map[], seen).1;
            Last(trail) in after && after[Last(trail)] == Combine(RootOf(inits[Last(trail)]).value, NOT_PROCEDURE_CHAIN)
    decreases |trail|
  {
    if |trail| > 1 {
      FreshTail(inits, trail, seen);
      WalkStep(inits, trail, seen);
      assert trail == [trail[0]] + trail[1..];
      LastIsCutShort(inits, trail[1..], seen + {trail[0]});
    } else {
      var v, w := trail[0], Target(inits, trail[0]).value;
      assert v in trail && v in inits.Keys - seen;
      assert w in seen + {v};
      assert AnalyzeVariable(inits, w, map[], seen + {v}) == (NOT_PROCEDURE_CHAIN, map[]);
    }
  }

  /** A query for a binding itself. */
  function Query(names: Names, v: Variable): Expr {
    Identifier(names(v), Some(v))
  }

  lemma QueryShows(names: Names, inits: Initializers, v: Variable, cache: Cache)
    ensures var (answer, after) := AnalyzeVariable(inits, v, cache, {});
            AnalyzeChain(inits, Query(names, v), cache, {}) == (Shown(names, v, answer), after)
  {
    assert RootOf(Query(names, v)) == Some(Root(names(v), Some(v), false));
  }

  /** A binding visited for the first time is at least what its own root says. */
  lemma OwnRootShows(inits: Initializers, v: Variable, cache: Cache, seen: set<Variable>)
    requires v in inits && v !in cache && v !in seen && RootOf(inits[v]).Some?
    requires IsProcedureRootName(RootOf(inits[v]).value.name)
    ensures var answer := AnalyzeVariable(inits, v, cache, seen).0;
            answer.isProcedure && (RootOf(inits[v]).value.hasOutput ==> answer.hasOutput)
  {
    assert v in inits.Keys - seen;
  }

  /** Asked first, `v` also has what its target is by its own name. */
  lemma FreshAnswer(inits: Initializers, v: Variable)
    requires OnCycle(inits, v) && Target(inits, v) != Some(v) && IsProcedureRootName(NextRoot(inits, v).name)
    ensures var answer := AnalyzeVariable(inits, v, map[], {}).0;
            answer.isProcedure && (OwnRoot(inits, v).hasOutput || NextRoot(inits, v).hasOutput ==> answer.hasOutput)
  {
    CycleGoesOn(inits, v);
    var w, seen: set<Variable>, cache: Cache := Target(inits, v).value, {}, map[];
    assert v in inits.Keys - seen;
    OwnRootShows(inits, w, cache, seen + {v});
    var (next, after) := AnalyzeVariable(inits, w, cache, seen + {v});
    var answer := Combine(OwnRoot(inits, v), next);
    assert AnalyzeChain(inits, inits[v], cache, seen + {v}) == (answer, after);
    assert AnalyzeVariable(inits, v, cache, seen) == (answer, after[v := answer]);
  }

  /** Asked after its target, `v` is answered from what the query for the target left behind. */
  lemma LaterAnswer(names: Names, inits: Initializers, v: Variable)
    requires OnCycle(inits, v)
    ensures Answers(inits, [Query(names, Target(inits, v).value), Query(names, v)], map[])[1] ==
            Shown(names, v, Combine(OwnRoot(inits, v), NOT_PROCEDURE_CHAIN))
  {
    var trail := CycleTrail(inits, v);
    var w := Target(inits, v).value;
    assert trail[0] in trail;
    LastIsCutShort(inits, trail, {});
    QueryShows(names, inits, w, map[]);
    var (_, after) := AnalyzeChain(inits, Query(names, w), map[], {});
    QueryShows(names, inits, v, after);
    assert [Query(names, w), Query(names, v)][1..] == [Query(names, v)];
  }

  /** An alias that its target disturbs is answered by order. */
  lemma DisturbanceShows(names: Names, inits: Initializers, v: Variable) returns (queries: seq<Expr>)
    requires WellNamed(names, inits) && OnCycle(inits, v) && !Undisturbed(names, inits, v)
    ensures |queries| == 2 && forall q | q in queries :: IsNamed(names, q)
    ensures Answers(inits, queries, map[])[1] != Answers(inits, [queries[1]], map[])[0]
  {
    FreshAnswer(inits, v);
    QueryShows(names, inits, v, map[]);
    LaterAnswer(names, inits, v);
    queries := [Query(names, Target(inits, v).value), Query(names, v)];
  }

  /** The way round a cycle, from the target of `v` to `v`. */
  lemma CycleTrail(inits: Initializers, v: Variable) returns (trail: seq<Variable>)
    requires OnCycle(inits, v)
    ensures FreshTrail(inits, trail, {}) && trail[0] == Target(inits, v).value && Last(trail) == v
  {
    var long :| Joins(Aliasing(inits), long, Target(inits, v).value, v);
    trail := SimpleTrail(Aliasing(inits), long);
    forall x | x in trail ensures x in inits {
      var i :| 0 <= i < |trail| && trail[i] == x;
      assert i < |trail| - 1 ==> Aliasing(inits)(trail[i], trail[i + 1]);
    }
  }

  /** Whatever was asked before, a query is answered as if it came first. */
  ghost predicate CacheIsIrrelevant(names: Names, inits: Initializers) {
    forall queries: seq<Expr>, i: nat | i < |queries| && forall q | q in queries :: IsNamed(names, q) ::
      Answers(inits, queries, map[])[i] == Answers(inits, [queries[i]], map[])[0]
  }

  /** The exact condition: no answer ever depends on the queries before it if and only if all cycles are harmless. */
  lemma IrrelevantExactlyWhenCyclesAreHarmless(names: Names, inits: Initializers)
    requires WellNamed(names, inits)
    ensures CacheIsIrrelevant(names, inits) <==> CyclesAreHarmless(inits)
  {
    if CyclesAreHarmless(inits) {
      forall queries: seq<Expr>, i: nat | i < |queries| && forall q | q in queries :: IsNamed(names, q)
        ensures Answers(inits, queries, map[])[i] == Answers(inits, [queries[i]], map[])[0]
      {
        CacheIsInvisible(names, inits, queries, map[]);
        CacheIsInvisible(names, inits, [queries[i]], map[]);
      }
    } else {
      assert !NoneDisturbed(names, inits) by {
        if NoneDisturbed(names, inits) {
          forall v | OnCycle(inits, v) ensures IsHarmless(inits, v) {
            UndisturbedIsHarmless(names, inits, v);
          }
        }
      }
      var v :| OnCycle(inits, v) && !Undisturbed(names, inits, v);
      var queries := DisturbanceShows(names, inits, v);
      assert Answers(inits, queries, map[])[1] != Answers(inits, [queries[1]], map[])[0];
    }
  }

  // ---- Acyclic aliases, a cycle that is not harmless, and one that is ----

  /** Aliases are acyclic: each is an alias of a binding of lower rank. */
  ghost predicate Ranked(inits: Initializers, rank: map<Variable, nat>) {
    forall v | v in inits ::
      v in rank && (Target(inits, v).Some? ==> Target(inits, v).value in rank && rank[Target(inits, v).value] < rank[v])
  }

  lemma {:induction false} RankFalls(inits: Initializers, rank: map<Variable, nat>, trail: seq<Variable>)
    requires Ranked(inits, rank) && Trail(Aliasing(inits), trail) && trail[0] in inits
    ensures Last(trail) in inits && rank[Last(trail)] <= rank[trail[0]]
    decreases |trail|
  {
    if |trail| > 1 {
      assert Aliasing(inits)(trail[0], trail[0 + 1]);
      TrailSuffix(Aliasing(inits), trail, 1);
      RankFalls(inits, rank, trail[1..]);
    }
  }

  /** Acyclic aliases have no cycle at all: every alias is what its target makes it, down to the last. */
  lemma AcyclicAliasesAreInlined(inits: Initializers, rank: map<Variable, nat>)
    requires Ranked(inits, rank)
    ensures CyclesAreHarmless(inits)
    ensures forall v | v in inits && Target(inits, v).Some? ::
              Settled(inits, v) == Combine(RootOf(inits[v]).value, Settled(inits, Target(inits, v).value))
  {
    forall v ensures !OnCycle(inits, v) {
      if OnCycle(inits, v) {
        var trail :| Joins(Aliasing(inits), trail, Target(inits, v).value, v);
        RankFalls(inits, rank, trail);
      }
    }
  }

  /**
   The smallest cycle that is not harmless.  With `aProcedure = bProcedure.output(..)` and
   `bProcedure = aProcedure`, a query for `bProcedure` is answered with an output
   schema when it comes first and without one when `aProcedure` was asked before.
   */
  lemma CyclicAliasesDependOnOrder()
    ensures var a, b := Identifier("aProcedure", Some(0)), Identifier("bProcedure", Some(1));
            var inits := map[0 := Call(Member(Some("output"), b)), 1 := a];
            WellNamed(v => if v == 0 then "aProcedure" else "bProcedure", inits) &&
            Answers(inits, [b], map[])[0] == Answer(true, true) &&
            Answers(inits, [a, b], map[]) == [Answer(true, true), Answer(false, true)]
  {
    var a, b := Identifier("aProcedure", Some(0)), Identifier("bProcedure", Some(1));
    var inits: Initializers := map[0 := Call(Member(Some("output"), b)), 1 := a];
    assert RootOf(inits[0]) == Some(Root("bProcedure", Some(1), true));
    assert RootOf(inits[1]) == Some(Root("aProcedure", Some(0), false));
    assert IsProcedureRootName("aProcedure") && IsProcedureRootName("bProcedure");
    var yes, no := Answer(true, true), Answer(false, true);
    // Asked first, `bProcedure` goes through `aProcedure`, whose own root falls back to its name.
    var none: set<Variable> := {};
    assert none + {1} == {1} && none + {0} == {0} && {1} + {0} == {0, 1} && {0} + {1} == {0, 1};
    assert AnalyzeVariable(inits, 1, map[], {0, 1}) == (NOT_PROCEDURE_CHAIN, map[]);
    assert AnalyzeChain(inits, inits[0], map[], {0, 1}) == (yes, map[]);
    assert AnalyzeVariable(inits, 0, map[], {1}) == (yes, map[0 := yes]);
    assert AnalyzeChain(inits, inits[1], map[], {1}) == (yes, map[0 := yes]);
    assert AnalyzeVariable(inits, 1, map[], none) == (yes, map[0 := yes, 1 := yes]);
    // Asked after `aProcedure`, it is answered from the cache entry left behind by that query.
    assert AnalyzeVariable(inits, 0, map[], {0, 1}) == (NOT_PROCEDURE_CHAIN, map[]);
    assert AnalyzeChain(inits, inits[1], map[], {0, 1}) == (no, map[]);
    assert AnalyzeVariable(inits, 1, map[], {0}) == (no, map[1 := no]);
    assert AnalyzeChain(inits, inits[0], map[], {0}) == (yes, map[1 := no]);
    assert AnalyzeVariable(inits, 0, map[], none) == (yes, map[1 := no, 0 := yes]);
    var after := map[1 := no, 0 := yes];
    assert AnalyzeVariable(inits, 1, after, {}) == (no, after);
    assert Answers(inits, [b], after) == [no] + Answers(inits, [b][1..], after);
    assert [a, b][1..] == [b];
  }

  /**
   Neighbours may disagree on a harmless cycle: with `b = aProcedure` and
   `aProcedure = b`, each passes for a procedure without an output schema,
   `aProcedure` by its name and `b` by what it is an alias of.
   */
  lemma DisagreementCanBeHarmless()
    ensures var a, b := Identifier("aProcedure", Some(1)), Identifier("b", Some(0));
            var inits := map[0 := a, 1 := b];
            WellNamed(v => if v == 0 then "b" else "aProcedure", inits) && CyclesAreHarmless(inits) &&
            OnCycle(inits, 0) && !Agree(OwnRoot(inits, 0), NextRoot(inits, 0))
  {
    var a, b := Identifier("aProcedure", Some(1)), Identifier("b", Some(0));
    var inits: Initializers := map[0 := a, 1 := b];
    assert RootOf(a) == Some(Root("aProcedure", Some(1), false)) && IsProcedureRootName("aProcedure");
    assert RootOf(b) == Some(Root("b", Some(0), false)) && !IsProcedureRootName("b");
    assert Target(inits, 0) == Some(1) && Target(inits, 1) == Some(0);
    LeadsSelf(Aliasing(inits), 0);
    LeadsFrom(Aliasing(inits), 1, 0, 0);
    LeadsSelf(Aliasing(inits), 1);
    LeadsFrom(Aliasing(inits), 0, 1, 1);
    forall w | OnCycle(inits, w) ensures PassAsPlain(OwnRoot(inits, w), NextRoot(inits, w)) {
      assert w in inits;
    }
  }
}
