/**
 The static bound on how many promises a `Promise.all` input starts: array
 literals, simple `const` bindings and non-expanding method chains are followed,
 everything else is unknown.  The bound is sound, and on acyclic bindings it is
 the best possible; whether a `.map` call was seen is exact even on cycles.
 */
module CollectionBound {
  import opened Trails
  import opened Wrappers

  type Variable = nat

  /** A call keeps the static name of its method and the receiver, when its callee is a member. */
  datatype Expr =
    | Identifier(variable: Option<Variable>)
    | Call(name: Option<string>, receiver: Expr)
    | Array(elements: seq<Element>)
    | Chain(inner: Expr)
    | Other

  datatype Element = Hole | Item | Spread(argument: Expr)

  /** The initializers of the simple `const` bindings. */
  type Bindings = map<Variable, Expr>

  datatype Analysis = Analysis(mapped: bool, unknownSpread: bool, upperBound: Option<nat>)

  const NON_EXPANDING := {"filter", "map", "slice"}
  const MAX_STATIC_TUPLE_SIZE := 5
  const UNKNOWN := Analysis(false, false, None)

  function UnwrapChain(e: Expr): Expr {
    if e.Chain? then e.inner else e
  }

  predicate IsNonExpanding(e: Expr) {
    e.Call? && e.name.Some? && e.name.value in NON_EXPANDING
  }

  function Merge(left: Analysis, right: Analysis): Analysis {
    Analysis(left.mapped || right.mapped, left.unknownSpread || right.unknownSpread,
             if left.upperBound.None? || right.upperBound.None? then None
             else Some(left.upperBound.value + right.upperBound.value))
  }

  /** The analysis as a function of the variables being resolved. */
  function Analyze(consts: Bindings, resolving: set<Variable>, e: Expr): Analysis
    decreases consts.Keys - resolving, e, 1
  {
    match UnwrapChain(e)
    case Identifier(variable) =>
      if variable.None? || variable.value in resolving || variable.value !in consts then UNKNOWN
      else
        assert variable.value in consts.Keys - resolving;
        Analyze(consts, resolving + {variable.value}, consts[variable.value])
    case Call(name, receiver) =>
      if IsNonExpanding(UnwrapChain(e)) then
        var analysis := Analyze(consts, resolving, receiver);
        analysis.(mapped := analysis.mapped || name == Some("map"))
      else UNKNOWN
    case Array(elements) => AnalyzeElements(consts, resolving, elements)
    case _ => UNKNOWN
  }

  function AnalyzeElement(consts: Bindings, resolving: set<Variable>, element: Element): Analysis
    decreases consts.Keys - resolving, element, 1
  {
    if element.Spread? then
      var spread := Analyze(consts, resolving, element.argument);
      spread.(unknownSpread := spread.unknownSpread || spread.upperBound.None?)
    else Analysis(false, false, Some(1))
  }

  function AnalyzeElements(consts: Bindings, resolving: set<Variable>, elements: seq<Element>): Analysis
    decreases consts.Keys - resolving, elements, 0
  {
    if elements == [] then Analysis(false, false, Some(0))
    else
      var n := |elements| - 1;
      Merge(AnalyzeElements(consts, resolving, elements[..n]), AnalyzeElement(consts, resolving, elements[n]))
  }

  /** The rule's verdict on a combinator's argument. */
  predicate HasUnboundedInput(consts: Bindings, argument: Expr) {
    var analysis := Analyze(consts, {}, argument);
    analysis.unknownSpread ||
    (analysis.mapped && (analysis.upperBound.None? || analysis.upperBound.value > MAX_STATIC_TUPLE_SIZE))
  }

  // ---- The imperative analysis ----

  class AnalysisState {
    const consts: Bindings
    var resolving: set<Variable>

    constructor (consts: Bindings)
      ensures this.consts == consts && resolving == {}
    {
      this.consts, resolving := consts, {};
    }

    /** Adds the variable while its initializer is analysed and takes it out again. */
    method AnalyzeConstInitializer(variable: Variable) returns (analysis: Option<Analysis>)
      modifies this
      ensures resolving == old(resolving)
      ensures analysis == if variable in resolving || variable !in consts then None
                          else Some(Analyze(consts, resolving + {variable}, consts[variable]))
      decreases consts.Keys - resolving, 0
    {
      if variable in resolving || variable !in consts {
        return None;
      }
      assert variable in consts.Keys - resolving;
      ghost var before := resolving;
      resolving := resolving + {variable};
      var inner := AnalyzeCollection(consts[variable]);
      resolving := resolving - {variable};
      assert resolving == before;
      return Some(inner);
    }

    method AnalyzeArrayExpression(elements: seq<Element>) returns (analysis: Analysis)
      modifies this
      ensures resolving == old(resolving)
      ensures analysis == AnalyzeElements(consts, resolving, elements)
      decreases consts.Keys - resolving, 1, elements, 0
    {
      analysis := Analysis(false, false, Some(0));
      for i := 0 to |elements|
        invariant resolving == old(resolving)
        invariant analysis == AnalyzeElements(consts, resolving, elements[..i])
      {
        assert elements[..i + 1][..i] == elements[..i];
        var element := AnalyzeArrayElement(elements[i]);
        analysis := Merge(analysis, element);
      }
      assert elements[..|elements|] == elements;
    }

    method AnalyzeArrayElement(element: Element) returns (analysis: Analysis)
      modifies this
      ensures resolving == old(resolving)
      ensures analysis == AnalyzeElement(consts, resolving, element)
      decreases consts.Keys - resolving, 1, element, 1
    {
      if !element.Spread? {
        return Analysis(false, false, Some(1));
      }
      var spread := AnalyzeCollection(element.argument);
      return spread.(unknownSpread := spread.unknownSpread || spread.upperBound.None?);
    }

    /** Ends on cyclic bindings, and leaves the resolving set as it found it. */
    method AnalyzeCollection(e: Expr) returns (analysis: Analysis)
      modifies this
      ensures resolving == old(resolving)
      ensures analysis == Analyze(consts, resolving, e)
      decreases consts.Keys - resolving, 1, e, 1
    {
      var current := UnwrapChain(e);
      match current
      case Identifier(variable) =>
        if variable.None? {
          return UNKNOWN;
        }
        var inner := AnalyzeConstInitializer(variable.value);
        return if inner.Some? then inner.value else UNKNOWN;
      case Call(name, receiver) =>
        if !IsNonExpanding(current) {
          return UNKNOWN;
        }
        var inner := AnalyzeCollection(receiver);
        return inner.(mapped := inner.mapped || name == Some("map"));
      case Array(elements) =>
        analysis := AnalyzeArrayExpression(elements);
      case Chain(_) =>
        return UNKNOWN;
      case Other =>
        return UNKNOWN;
    }
  }

  // ---- Values at run time ----

  /** A list with a length, or anything that is not an array. */
  datatype Value = List(length: nat) | Foreign

  /** The array methods that give back no more elements than their receiver has. */
  predicate NeverAdds(name: Option<string>) {
    name == Some("map") || name == Some("filter") || name == Some("slice")
  }

  /**
   What an expression may evaluate to, following at most `depth` bindings.
   Array methods act on lists as JavaScript's do; on anything else, and for
   unknown expressions, any value is possible.
   */
  ghost predicate Evaluates(consts: Bindings, e: Expr, v: Value, depth: nat)
    decreases depth, e, 1
  {
    match e
    case Other => true
    case Chain(inner) => Evaluates(consts, inner, v, depth)
    case Identifier(variable) =>
      variable.Some? && variable.value in consts ==>
        depth > 0 && Evaluates(consts, consts[variable.value], v, depth - 1)
    case Array(elements) => v.List? && HoldItems(consts, elements, v.length, depth)
    case Call(name, receiver) =>
      NeverAdds(name) ==>
        exists r :: Evaluates(consts, receiver, r, depth) &&
          (r.List? ==> v.List? && v.length <= r.length && (name == Some("map") ==> v == r))
  }

  /** The elements can put exactly `n` items into the array. */
  ghost predicate HoldItems(consts: Bindings, elements: seq<Element>, n: nat, depth: nat)
    decreases depth, elements, 0
  {
    if elements == [] then n == 0
    else
      var last := elements[|elements| - 1];
      exists k: nat | k <= n ::
        ElementHolds(consts, last, k, depth) && HoldItems(consts, elements[..|elements| - 1], n - k, depth)
  }

  ghost predicate ElementHolds(consts: Bindings, element: Element, k: nat, depth: nat)
    decreases depth, element, 2
  {
    if element.Spread? then exists r :: Evaluates(consts, element.argument, r, depth) && (r.List? ==> r.length == k)
    else k == 1
  }

  /** Every value of an expression with a bound is a list no longer than the bound. */
  lemma {:induction false} BoundIsSound(consts: Bindings, resolving: set<Variable>, e: Expr, v: Value, depth: nat)
    requires Analyze(consts, resolving, e).upperBound.Some?
    requires Evaluates(consts, e, v, depth)
    ensures v.List? && v.length <= Analyze(consts, resolving, e).upperBound.value
    decreases consts.Keys - resolving, e, 1
  {
    var current := UnwrapChain(e);
    match current
    case Identifier(variable) =>
      assert variable.value in consts.Keys - resolving;
      BoundIsSound(consts, resolving + {variable.value}, consts[variable.value], v, depth - 1);
    case Call(name, receiver) =>
      var r :| Evaluates(consts, receiver, r, depth) &&
        (r.List? ==> v.List? && v.length <= r.length && (name == Some("map") ==> v == r));
      BoundIsSound(consts, resolving, receiver, r, depth);
    case Array(elements) =>
      ItemsAreBounded(consts, resolving, elements, v.length, depth);
  }

  lemma {:induction false} ItemsAreBounded(consts: Bindings, resolving: set<Variable>, elements: seq<Element>, n: nat,
                                           depth: nat)
    requires AnalyzeElements(consts, resolving, elements).upperBound.Some?
    requires HoldItems(consts, elements, n, depth)
    ensures n <= AnalyzeElements(consts, resolving, elements).upperBound.value
    decreases consts.Keys - resolving, elements, 0
  {
    if elements != [] {
      var init, last := elements[..|elements| - 1], elements[|elements| - 1];
      var k: nat :| k <= n && ElementHolds(consts, last, k, depth) && HoldItems(consts, init, n - k, depth);
      ItemsAreBounded(consts, resolving, init, n - k, depth);
      ElementIsBounded(consts, resolving, last, k, depth);
    }
  }

  lemma {:induction false} ElementIsBounded(consts: Bindings, resolving: set<Variable>, element: Element, k: nat,
                                            depth: nat)
    requires AnalyzeElement(consts, resolving, element).upperBound.Some?
    requires ElementHolds(consts, element, k, depth)
    ensures k <= AnalyzeElement(consts, resolving, element).upperBound.value
    decreases consts.Keys - resolving, element, 1
  {
    if element.Spread? {
      var r :| Evaluates(consts, element.argument, r, depth) && (r.List? ==> r.length == k);
      BoundIsSound(consts, resolving, element.argument, r, depth);
    }
  }

  // ---- Whether a map call was seen ----

  /** From a collection to the collections its contents come from. */
  ghost predicate Step(consts: Bindings, a: Expr, b: Expr) {
    match UnwrapChain(a)
    case Identifier(variable) => variable.Some? && variable.value in consts && b == consts[variable.value]
    case Call(name, receiver) => NeverAdds(name) && b == receiver
    case Array(elements) => Spread(b) in elements
    case _ => false
  }

  predicate IsMapCall(e: Expr) {
    UnwrapChain(e).Call? && UnwrapChain(e).name == Some("map")
  }

  predicate Avoids(e: Expr, avoid: set<Variable>) {
    UnwrapChain(e).Identifier? && UnwrapChain(e).variable.Some? ==> UnwrapChain(e).variable.value !in avoid
  }

  ghost function Feeding(consts: Bindings): Relation<Expr> {
    (a, b) => Step(consts, a, b)
  }

  ghost function ClearOf(avoid: set<Variable>): Property<Expr> {
    e => Avoids(e, avoid)
  }

  ghost function MapCalls(): Property<Expr> {
    e => IsMapCall(e)
  }

  /** A `.map` call feeds `e`, through no variable of `avoid`. */
  ghost predicate ReachesMap(consts: Bindings, e: Expr, avoid: set<Variable>) {
    Reaches(Feeding(consts), ClearOf(avoid), MapCalls(), e)
  }

  lemma ReachesByStep(consts: Bindings, e: Expr, next: Expr, avoid: set<Variable>)
    requires Avoids(e, avoid) && Step(consts, e, next) && ReachesMap(consts, next, avoid)
    ensures ReachesMap(consts, e, avoid)
  {
    ReachesFrom(Feeding(consts), ClearOf(avoid), MapCalls(), e, next);
  }

  lemma ReachesUnlessHere(consts: Bindings, e: Expr, avoid: set<Variable>) returns (next: Expr)
    requires ReachesMap(consts, e, avoid) && !IsMapCall(e)
    ensures Avoids(e, avoid) && Step(consts, e, next) && ReachesMap(consts, next, avoid)
  {
    ReachesHere(Feeding(consts), ClearOf(avoid), MapCalls(), e);
    next := ReachesOn(Feeding(consts), ClearOf(avoid), MapCalls(), e);
  }

  /** Once a variable is left for its initializer there is no need to come back to it. */
  lemma LeaveVariable(consts: Bindings, e: Expr, avoid: set<Variable>, v: Variable)
    requires ReachesMap(consts, e, avoid) && v in consts && UnwrapChain(e) == Identifier(Some(v))
    ensures ReachesMap(consts, consts[v], avoid + {v})
  {
    var step, clear, away, goal := Feeding(consts), ClearOf(avoid), ClearOf(avoid + {v}), MapCalls();
    var trail :| ClearTrail(step, clear, goal, trail) && trail[0] == e;
    var last, next := LeavesForGood(step, clear, goal, x => !Avoids(x, {v}), away, trail);
  }

  lemma FewerObstacles(consts: Bindings, e: Expr, less: set<Variable>, avoid: set<Variable>)
    requires less <= avoid && ReachesMap(consts, e, avoid)
    ensures ReachesMap(consts, e, less)
  {
    ObstaclesElsewhere(Feeding(consts), ClearOf(avoid), ClearOf(less), MapCalls(), e);
  }

  /** The path-local resolving set loses nothing: `mapped` is plain reachability of a `.map` call. */
  lemma {:induction false} MappedIsReachability(consts: Bindings, resolving: set<Variable>, e: Expr)
    ensures Analyze(consts, resolving, e).mapped <==> ReachesMap(consts, e, resolving)
    decreases consts.Keys - resolving, e, 1
  {
    var current := UnwrapChain(e);
    if IsMapCall(e) {
      ReachesHere(Feeding(consts), ClearOf(resolving), MapCalls(), e);
    }
    match current
    case Identifier(variable) =>
      if variable.Some? && variable.value in consts && variable.value !in resolving {
        var v := variable.value;
        assert v in consts.Keys - resolving;
        MappedIsReachability(consts, resolving + {v}, consts[v]);
        if ReachesMap(consts, consts[v], resolving + {v}) {
          FewerObstacles(consts, consts[v], resolving, resolving + {v});
          ReachesByStep(consts, e, consts[v], resolving);
        }
        if ReachesMap(consts, e, resolving) {
          LeaveVariable(consts, e, resolving, v);
        }
      } else if ReachesMap(consts, e, resolving) {
        var next := ReachesUnlessHere(consts, e, resolving);
      }
    case Call(name, receiver) =>
      if IsNonExpanding(current) && name != Some("map") {
        MappedIsReachability(consts, resolving, receiver);
        if ReachesMap(consts, receiver, resolving) {
          ReachesByStep(consts, e, receiver, resolving);
        }
      }
      if ReachesMap(consts, e, resolving) && !IsMapCall(e) {
        var next := ReachesUnlessHere(consts, e, resolving);
      }
    case Array(elements) =>
      ElementsMapped(consts, resolving, elements);
      if argument :| Spread(argument) in elements && ReachesMap(consts, argument, resolving) {
        ReachesByStep(consts, e, argument, resolving);
      }
      if ReachesMap(consts, e, resolving) {
        var next := ReachesUnlessHere(consts, e, resolving);
      }
    case _ =>
      if ReachesMap(consts, e, resolving) {
        var next := ReachesUnlessHere(consts, e, resolving);
      }
  }

  lemma {:induction false} ElementsMapped(consts: Bindings, resolving: set<Variable>, elements: seq<Element>)
    ensures AnalyzeElements(consts, resolving, elements).mapped <==>
            exists argument :: Spread(argument) in elements && ReachesMap(consts, argument, resolving)
    decreases consts.Keys - resolving, elements, 0
  {
    if elements != [] {
      var init, last := elements[..|elements| - 1], elements[|elements| - 1];
      assert elements == init + [last];
      ElementsMapped(consts, resolving, init);
      ElementMapped(consts, resolving, last);
    }
  }

  lemma {:induction false} ElementMapped(consts: Bindings, resolving: set<Variable>, element: Element)
    ensures AnalyzeElement(consts, resolving, element).mapped <==>
            element.Spread? && ReachesMap(consts, element.argument, resolving)
    decreases consts.Keys - resolving, element, 1
  {
    if element.Spread? {
      MappedIsReachability(consts, resolving, element.argument);
    }
  }

  /** An unflagged input that a `.map` call feeds is always a list of at most five elements. */
  lemma UnflaggedInputsAreSmall(consts: Bindings, argument: Expr, v: Value, depth: nat)
    requires !HasUnboundedInput(consts, argument) && ReachesMap(consts, argument, {})
    requires Evaluates(consts, argument, v, depth)
    ensures v.List? && v.length <= MAX_STATIC_TUPLE_SIZE
  {
    MappedIsReachability(consts, {}, argument);
    BoundIsSound(consts, {}, argument, v, depth);
  }

  // ---- The bound is the best possible ----

  /**
   Every variable with an initializer that `e` mentions has rank below `bound`,
   and, as the grammar has it, no chain wrapper directly holds another.
   */
  ghost predicate Below(consts: Bindings, rank: map<Variable, nat>, e: Expr, bound: nat) {
    match e
    case Identifier(variable) =>
      variable.Some? && variable.value in consts ==> variable.value in rank && rank[variable.value] < bound
    case Call(_, receiver) => Below(consts, rank, receiver, bound)
    case Array(elements) => forall i | 0 <= i < |elements| :: ElementBelow(consts, rank, elements[i], bound)
    case Chain(inner) => !inner.Chain? && Below(consts, rank, inner, bound)
    case Other => true
  }

  ghost predicate ElementBelow(consts: Bindings, rank: map<Variable, nat>, element: Element, bound: nat) {
    element.Spread? ==> Below(consts, rank, element.argument, bound)
  }

  /** Bindings are acyclic: each initializer mentions only variables of lower rank. */
  ghost predicate Ranked(consts: Bindings, rank: map<Variable, nat>) {
    forall v | v in consts :: v in rank && Below(consts, rank, consts[v], rank[v])
  }

  /** A length the expression can really have: the bound itself, or with no bound one of at least `n`. */
  ghost predicate Attained(bound: Option<nat>, n: nat, length: nat) {
    if bound.Some? then length == bound.value else length >= n
  }

  /** On acyclic bindings the bound is attained, and without a bound the length is unlimited. */
  lemma {:induction false} BoundIsTight(consts: Bindings, rank: map<Variable, nat>, resolving: set<Variable>, e: Expr,
                                        bound: nat, depth: nat, n: nat)
      returns (length: nat)
    requires Ranked(consts, rank) && Below(consts, rank, e, bound) && bound <= depth
    requires forall v | v in resolving :: v in rank && rank[v] >= bound
    ensures Evaluates(consts, e, List(length), depth)
    ensures Attained(Analyze(consts, resolving, e).upperBound, n, length)
    decreases depth, e, 1
  {
    length := n;
    match UnwrapChain(e)
    case Identifier(variable) =>
      if variable.Some? && variable.value in consts {
        var v := variable.value;
        length := BoundIsTight(consts, rank, resolving + {v}, consts[v], rank[v], depth - 1, n);
      }
    case Call(name, receiver) =>
      if IsNonExpanding(UnwrapChain(e)) {
        length := BoundIsTight(consts, rank, resolving, receiver, bound, depth, n);
        assert Evaluates(consts, receiver, List(length), depth);
      }
    case Array(elements) =>
      length := ItemsAreTight(consts, rank, resolving, elements, bound, depth, n);
    case _ =>
  }

  lemma {:induction false} ItemsAreTight(consts: Bindings, rank: map<Variable, nat>, resolving: set<Variable>,
                                         elements: seq<Element>, bound: nat, depth: nat, n: nat) returns (length: nat)
    requires Ranked(consts, rank) && bound <= depth
    requires forall i | 0 <= i < |elements| :: ElementBelow(consts, rank, elements[i], bound)
    requires forall v | v in resolving :: v in rank && rank[v] >= bound
    ensures HoldItems(consts, elements, length, depth)
    ensures Attained(AnalyzeElements(consts, resolving, elements).upperBound, n, length)
    decreases depth, elements, 0
  {
    if elements == [] {
      length := 0;
    } else {
      var init, last := elements[..|elements| - 1], elements[|elements| - 1];
      var before := ItemsAreTight(consts, rank, resolving, init, bound, depth, n);
      var k := ElementIsTight(consts, rank, resolving, last, bound, depth, n);
      length := before + k;
      assert ElementHolds(consts, last, k, depth) && HoldItems(consts, init, length - k, depth);
    }
  }

  lemma {:induction false} ElementIsTight(consts: Bindings, rank: map<Variable, nat>, resolving: set<Variable>,
                                          element: Element, bound: nat, depth: nat, n: nat) returns (k: nat)
    requires Ranked(consts, rank) && ElementBelow(consts, rank, element, bound) && bound <= depth
    requires forall v | v in resolving :: v in rank && rank[v] >= bound
    ensures ElementHolds(consts, element, k, depth)
    ensures Attained(AnalyzeElement(consts, resolving, element).upperBound, n, k)
    decreases depth, element, 1
  {
    k := 1;
    if element.Spread? {
      k := BoundIsTight(consts, rank, resolving, element.argument, bound, depth, n);
      assert Evaluates(consts, element.argument, List(k), depth);
    }
  }

  /** An unknown spread always leaves the collection without a bound. */
  lemma {:induction false} UnknownSpreadHasNoBound(consts: Bindings, resolving: set<Variable>, e: Expr)
    ensures Analyze(consts, resolving, e).unknownSpread ==> Analyze(consts, resolving, e).upperBound.None?
    decreases consts.Keys - resolving, e, 1
  {
    match UnwrapChain(e)
    case Identifier(variable) =>
      if variable.Some? && variable.value in consts && variable.value !in resolving {
        assert variable.value in consts.Keys - resolving;
        UnknownSpreadHasNoBound(consts, resolving + {variable.value}, consts[variable.value]);
      }
    case Call(_, receiver) =>
      UnknownSpreadHasNoBound(consts, resolving, receiver);
    case Array(elements) =>
      UnknownElementHasNoBound(consts, resolving, elements);
    case _ =>
  }

  lemma {:induction false} UnknownElementHasNoBound(consts: Bindings, resolving: set<Variable>, elements: seq<Element>)
    ensures AnalyzeElements(consts, resolving, elements).unknownSpread ==>
            AnalyzeElements(consts, resolving, elements).upperBound.None?
    decreases consts.Keys - resolving, elements, 0
  {
    if elements != [] {
      UnknownElementHasNoBound(consts, resolving, elements[..|elements| - 1]);
      UnknownSpreadElement(consts, resolving, elements[|elements| - 1]);
    }
  }

  lemma {:induction false} UnknownSpreadElement(consts: Bindings, resolving: set<Variable>, element: Element)
    ensures AnalyzeElement(consts, resolving, element).unknownSpread ==>
            AnalyzeElement(consts, resolving, element).upperBound.None?
    decreases consts.Keys - resolving, element, 1
  {
    if element.Spread? {
      UnknownSpreadHasNoBound(consts, resolving, element.argument);
    }
  }

  /** Followed through bindings and array methods, the collection is an array literal. */
  ghost predicate ComesFromLiteral(consts: Bindings, e: Expr, depth: nat)
    decreases depth, e
  {
    match e
    case Array(_) => true
    case Chain(inner) => ComesFromLiteral(consts, inner, depth)
    case Identifier(variable) =>
      variable.Some? && variable.value in consts && depth > 0 &&
      ComesFromLiteral(consts, consts[variable.value], depth - 1)
    case Call(name, receiver) => NeverAdds(name) && ComesFromLiteral(consts, receiver, depth)
    case Other => false
  }

  lemma {:induction false} DeeperFindsAsMuch(consts: Bindings, e: Expr, depth: nat, deeper: nat)
    requires ComesFromLiteral(consts, e, depth) && depth <= deeper
    ensures ComesFromLiteral(consts, e, deeper)
    decreases depth, e
  {
    match e
    case Chain(inner) => DeeperFindsAsMuch(consts, inner, depth, deeper);
    case Identifier(variable) => DeeperFindsAsMuch(consts, consts[variable.value], depth - 1, deeper - 1);
    case Call(_, receiver) => DeeperFindsAsMuch(consts, receiver, depth, deeper);
    case _ =>
  }

  /** An unknown spread is what keeps a collection that comes from a literal from having a bound. */
  lemma {:induction false} UnknownSpreadMeans(consts: Bindings, rank: map<Variable, nat>, resolving: set<Variable>,
                                              e: Expr, bound: nat, depth: nat)
    requires Ranked(consts, rank) && Below(consts, rank, e, bound) && bound <= depth
    requires forall v | v in resolving :: v in rank && rank[v] >= bound
    ensures Analyze(consts, resolving, e).unknownSpread <==>
            ComesFromLiteral(consts, e, depth) && Analyze(consts, resolving, e).upperBound.None?
    decreases depth, e
  {
    match UnwrapChain(e)
    case Identifier(variable) =>
      if variable.Some? && variable.value in consts {
        var v := variable.value;
        UnknownSpreadMeans(consts, rank, resolving + {v}, consts[v], rank[v], depth - 1);
      }
    case Call(name, receiver) =>
      if NeverAdds(name) {
        UnknownSpreadMeans(consts, rank, resolving, receiver, bound, depth);
      }
    case Array(elements) =>
      UnboundedElements(consts, resolving, elements);
    case _ =>
  }

  lemma {:induction false} UnboundedElements(consts: Bindings, resolving: set<Variable>, elements: seq<Element>)
    ensures AnalyzeElements(consts, resolving, elements).unknownSpread <==>
            AnalyzeElements(consts, resolving, elements).upperBound.None?
  {
    if elements != [] {
      UnboundedElements(consts, resolving, elements[..|elements| - 1]);
      UnknownSpreadElement(consts, resolving, elements[|elements| - 1]);
    }
  }

  /** Nothing limits how many elements the collection can hold. */
  ghost predicate Unlimited(consts: Bindings, e: Expr) {
    forall n: nat :: CanHold(consts, e, n)
  }

  ghost predicate CanHold(consts: Bindings, e: Expr, n: nat) {
    exists length: nat, depth: nat :: length >= n && Evaluates(consts, e, List(length), depth)
  }

  lemma {:induction false} UnlimitedMeans(consts: Bindings, rank: map<Variable, nat>, e: Expr, bound: nat)
    requires Ranked(consts, rank) && Below(consts, rank, e, bound)
    ensures Analyze(consts, {}, e).upperBound.None? <==> Unlimited(consts, e)
    ensures Analyze(consts, {}, e).upperBound.Some? ==>
              forall n: nat :: CanHold(consts, e, n) <==> n <= Analyze(consts, {}, e).upperBound.value
  {
    var analysis := Analyze(consts, {}, e);
    forall n: nat ensures CanHold(consts, e, n) <==> analysis.upperBound.None? || n <= analysis.upperBound.value {
      var length := BoundIsTight(consts, rank, {}, e, bound, bound, n);
      assert Evaluates(consts, e, List(length), bound);
      if analysis.upperBound.Some? && CanHold(consts, e, n) {
        var other: nat, depth: nat :| other >= n && Evaluates(consts, e, List(other), depth);
        BoundIsSound(consts, {}, e, List(other), depth);
      }
    }
    if analysis.upperBound.Some? {
      assert !CanHold(consts, e, analysis.upperBound.value + 1);
    }
  }

  /**
   On acyclic bindings an input is flagged exactly when a `.map` call feeds it and
   it can hold more than five elements, or it is an array literal, followed through
   bindings and array methods, that can hold any number of them.
   */
  lemma {:induction false} FlaggedExactly(consts: Bindings, rank: map<Variable, nat>, argument: Expr, bound: nat)
    requires Ranked(consts, rank) && Below(consts, rank, argument, bound)
    ensures HasUnboundedInput(consts, argument) <==>
            (ReachesMap(consts, argument, {}) && CanHold(consts, argument, 6)) ||
            ((exists depth: nat :: ComesFromLiteral(consts, argument, depth)) && Unlimited(consts, argument))
  {
    hide Evaluates, ReachesMap, Unlimited, CanHold, Analyze, ComesFromLiteral;
    MappedIsReachability(consts, {}, argument);
    UnlimitedMeans(consts, rank, argument, bound);
    UnlimitedHoldsAny(consts, argument, 6);
    UnknownSpreadMeans(consts, rank, {}, argument, bound, bound);
    if depth: nat :| ComesFromLiteral(consts, argument, depth) {
      DeeperFindsAsMuch(consts, argument, depth, depth + bound);
      UnknownSpreadMeans(consts, rank, {}, argument, bound, depth + bound);
    }
  }

  lemma {:induction false} UnlimitedHoldsAny(consts: Bindings, e: Expr, n: nat)
    ensures Unlimited(consts, e) ==> CanHold(consts, e, n)
  {
  }

  /**
   On acyclic bindings the verdict about a mapped input is exact: it is flagged
   if and only if it can really hold more than five elements.
   */
  lemma VerdictIsExact(consts: Bindings, rank: map<Variable, nat>, argument: Expr, bound: nat)
    requires Ranked(consts, rank) && Below(consts, rank, argument, bound) && ReachesMap(consts, argument, {})
    ensures HasUnboundedInput(consts, argument) <==>
            exists length: nat, depth: nat ::
              length > MAX_STATIC_TUPLE_SIZE && Evaluates(consts, argument, List(length), depth)
  {
    if HasUnboundedInput(consts, argument) {
      UnknownSpreadHasNoBound(consts, {}, argument);
      var length := BoundIsTight(consts, rank, {}, argument, bound, bound, MAX_STATIC_TUPLE_SIZE + 1);
      assert Evaluates(consts, argument, List(length), bound);
    } else {
      forall length: nat, depth: nat | Evaluates(consts, argument, List(length), depth)
        ensures length <= MAX_STATIC_TUPLE_SIZE
      {
        UnflaggedInputsAreSmall(consts, argument, List(length), depth);
      }
    }
  }
}
