/**
 What the answer about a procedure chain means, in terms of expressions alone:
 which identifier a chain starts from, where `.output` is applied, and which
 bindings it is an alias of.
 */
module ProcedureMeaning {
  import opened ProcedureChain
  import opened Trails
  import opened Wrappers

  // ---- What an expression says ----

  /** One step into a chain: to the object of a member access, and through calls of members. */
  predicate StepsInto(e: Expr, x: Expr) {
    match e
    case Identifier(_, _) => false
    case Chain(inner) => x == inner
    case Member(_, target) => x == target
    case Call(callee) =>
      x == callee && (callee.Member? || (callee.Chain? && callee.inner.Member?))
    case Other => false
  }

  ghost function Inner(): Relation<Expr> {
    (e, x) => StepsInto(e, x)
  }

  /** As the grammar has it, no chain wrapper directly holds another. */
  predicate IsGrammatical(e: Expr) {
    match e
    case Identifier(_, _) => true
    case Call(callee) => IsGrammatical(callee)
    case Member(_, target) => IsGrammatical(target)
    case Chain(inner) => !inner.Chain? && IsGrammatical(inner)
    case Other => true
  }

  /** The chain starts from this identifier. */
  ghost predicate StartsFrom(e: Expr, name: string, variable: Option<Variable>) {
    Leads(Inner(), e, Identifier(name, variable))
  }

  /** `.output` is applied somewhere along the chain. */
  ghost predicate AppliesOutput(e: Expr) {
    exists target :: Leads(Inner(), e, Member(Some("output"), target))
  }

  /** The chain starts from an identifier with a procedure's name. */
  ghost predicate StartsFromProcedure(e: Expr) {
    exists name, variable :: StartsFrom(e, name, variable) && |name| >= 9 && name[|name| - 9..] == "Procedure"
  }

  /** `x` is the initializer of the binding that `e` starts from. */
  ghost predicate IsInitializerOf(inits: Initializers, e: Expr, x: Expr) {
    exists name, v :: StartsFrom(e, name, Some(v)) && v in inits && inits[v] == x
  }

  ghost function Inlining(inits: Initializers): Relation<Expr> {
    (e, x) => IsInitializerOf(inits, e, x)
  }

  /** Following initializers, the chain comes by a procedure's name. */
  ghost predicate IsProcedure(inits: Initializers, e: Expr) {
    exists x :: Leads(Inlining(inits), e, x) && StartsFromProcedure(x)
  }

  /** On the way to some procedure's name `.output` is applied. */
  ghost predicate HasOutput(inits: Initializers, e: Expr) {
    exists x :: Leads(Inlining(inits), e, x) && AppliesOutput(x) && IsProcedure(inits, x)
  }

  // ---- The root of a chain ----

  lemma {:induction false} LeadsByStep<T(!new)>(step: Relation<T>, a: T, c: T)
    ensures Leads(step, a, c) <==> a == c || exists b :: step(a, b) && Leads(step, b, c)
  {
    if a == c {
      LeadsSelf(step, a);
    } else if Leads(step, a, c) {
      var b := FirstStep(step, a, c);
    }
    if b :| step(a, b) && Leads(step, b, c) {
      LeadsFrom(step, a, b, c);
    }
  }

  /** The walk from a node that is no chain wrapper. */
  lemma {:induction false} RootFromMeans(e: Expr, hasOutput: bool, name: string, variable: Option<Variable>)
    requires IsGrammatical(e) && !e.Chain?
    ensures (RootFrom(e, hasOutput).Some? && RootFrom(e, hasOutput).value.name == name &&
             RootFrom(e, hasOutput).value.variable == variable) <==>
            StartsFrom(e, name, variable)
    ensures RootFrom(e, hasOutput).Some? ==> (RootFrom(e, hasOutput).value.hasOutput <==> hasOutput || AppliesOutput(e))
    decreases e
  {
    LeadsByStep(Inner(), e, Identifier(name, variable));
    forall target ensures Leads(Inner(), e, Member(Some("output"), target)) <==>
        e == Member(Some("output"), target) ||
        exists b :: StepsInto(e, b) && Leads(Inner(), b, Member(Some("output"), target))
    {
      LeadsByStep(Inner(), e, Member(Some("output"), target));
    }
    match e
    case Member(property, target) =>
      var next := UnwrapChain(target);
      ThroughChain(target, name, variable);
      RootFromMeans(next, hasOutput || property == Some("output"), name, variable);
      MemberOutput(property, target);
    case Call(callee) =>
      var member := UnwrapChain(callee);
      if member.Member? {
        ThroughChain(callee, name, variable);
        ThroughChain(member.target, name, variable);
        LeadsByStep(Inner(), member, Identifier(name, variable));
        RootFromMeans(UnwrapChain(member.target), hasOutput || member.property == Some("output"), name, variable);
        MemberOutput(member.property, member.target);
        CallOutput(e);
      }
    case _ =>
  }

  lemma {:induction false} ThroughChain(e: Expr, name: string, variable: Option<Variable>)
    requires IsGrammatical(e)
    ensures IsGrammatical(UnwrapChain(e)) && !UnwrapChain(e).Chain?
    ensures StartsFrom(e, name, variable) <==> StartsFrom(UnwrapChain(e), name, variable)
    ensures AppliesOutput(e) <==> AppliesOutput(UnwrapChain(e))
  {
    LeadsByStep(Inner(), e, Identifier(name, variable));
    forall target ensures Leads(Inner(), e, Member(Some("output"), target)) <==>
        e == Member(Some("output"), target) ||
        exists b :: StepsInto(e, b) && Leads(Inner(), b, Member(Some("output"), target))
    {
      LeadsByStep(Inner(), e, Member(Some("output"), target));
    }
  }

  lemma {:induction false} MemberOutput(property: Option<string>, target: Expr)
    requires IsGrammatical(target)
    ensures AppliesOutput(Member(property, target)) <==>
                property == Some("output") || AppliesOutput(UnwrapChain(target))
  {
    var e := Member(property, target);
    ThroughChain(target, "", None);
    forall x ensures Leads(Inner(), e, Member(Some("output"), x)) <==>
        e == Member(Some("output"), x) || Leads(Inner(), target, Member(Some("output"), x))
    {
      LeadsByStep(Inner(), e, Member(Some("output"), x));
      if Leads(Inner(), target, Member(Some("output"), x)) {
        assert Inner()(e, target);
      }
    }
    if property == Some("output") {
      assert e == Member(Some("output"), target);
      LeadsSelf(Inner(), e);
    }
  }

  lemma {:induction false} CallOutput(e: Expr)
    requires e.Call? && IsGrammatical(e) && UnwrapChain(e.callee).Member?
    ensures AppliesOutput(e) <==> AppliesOutput(UnwrapChain(e.callee))
  {
    ThroughChain(e.callee, "", None);
    forall x
      ensures Leads(Inner(), e, Member(Some("output"), x)) <==> Leads(Inner(), e.callee, Member(Some("output"), x))
    {
      LeadsByStep(Inner(), e, Member(Some("output"), x));
      if Leads(Inner(), e.callee, Member(Some("output"), x)) {
        assert Inner()(e, e.callee);
      }
    }
  }

  /** What the root of a chain is. */
  lemma {:induction false} RootMeans(e: Expr)
    requires IsGrammatical(e)
    ensures forall name, variable :: StartsFrom(e, name, variable) <==>
              RootOf(e).Some? && RootOf(e).value.name == name && RootOf(e).value.variable == variable
    ensures RootOf(e).Some? ==> (RootOf(e).value.hasOutput <==> AppliesOutput(e))
  {
    hide StartsFrom, AppliesOutput;
    forall name, variable ensures StartsFrom(e, name, variable) <==>
        RootOf(e).Some? && RootOf(e).value.name == name && RootOf(e).value.variable == variable
    {
      ThroughChain(e, name, variable);
      RootFromMeans(UnwrapChain(e), false, name, variable);
    }
    ThroughChain(e, "", None);
    RootFromMeans(UnwrapChain(e), false, "", None);
  }

  lemma {:induction false} ProcedureNames(name: string)
    ensures IsProcedureRootName(name) <==> |name| >= 9 && name[|name| - 9..] == "Procedure"
  {
    if name == "publicProcedure" {
      assert name[6..] == "Procedure";
    }
    if name == "protectedProcedure" {
      assert name[9..] == "Procedure";
    }
  }

  lemma {:induction false} StartMeans(e: Expr)
    requires IsGrammatical(e)
    ensures StartsFromProcedure(e) <==> RootOf(e).Some? && IsProcedureRootName(RootOf(e).value.name)
  {
    hide StartsFrom, IsProcedureRootName;
    RootMeans(e);
    forall name ensures IsProcedureRootName(name) <==> |name| >= 9 && name[|name| - 9..] == "Procedure" {
      ProcedureNames(name);
    }
    if RootOf(e).Some? {
      assert StartsFrom(e, RootOf(e).value.name, RootOf(e).value.variable);
    }
  }

  ghost predicate AllGrammatical(inits: Initializers) {
    forall v | v in inits :: IsGrammatical(inits[v])
  }

  lemma {:induction false} InitializerMeans(inits: Initializers, e: Expr, x: Expr)
    requires IsGrammatical(e)
    ensures IsInitializerOf(inits, e, x) <==>
              RootOf(e).Some? && RootOf(e).value.variable.Some? && RootOf(e).value.variable.value in inits &&
              inits[RootOf(e).value.variable.value] == x
  {
    hide StartsFrom;
    RootMeans(e);
    if RootOf(e).Some? && RootOf(e).value.variable.Some? {
      assert StartsFrom(e, RootOf(e).value.name, Some(RootOf(e).value.variable.value));
    }
  }

  // ---- One step of inlining ----

  /** The initializer behind an expression, if there is one. */
  function NextInline(inits: Initializers, e: Expr): Option<Expr> {
    var root := RootOf(e);
    if root.Some? && root.value.variable.Some? && root.value.variable.value in inits then
      Some(inits[root.value.variable.value])
    else None
  }

  lemma {:induction false} ProcedureStep(inits: Initializers, e: Expr)
    requires IsGrammatical(e)
    ensures IsProcedure(inits, e) <==>
              (RootOf(e).Some? && IsProcedureRootName(RootOf(e).value.name)) ||
              (NextInline(inits, e).Some? && IsProcedure(inits, NextInline(inits, e).value))
  {
    hide IsInitializerOf, StartsFromProcedure;
    StartMeans(e);
    forall x ensures IsInitializerOf(inits, e, x) <==> NextInline(inits, e) == Some(x) {
      InitializerMeans(inits, e, x);
    }
    forall x ensures Leads(Inlining(inits), e, x) <==>
        e == x || (NextInline(inits, e).Some? && Leads(Inlining(inits), NextInline(inits, e).value, x))
    {
      LeadsByStep(Inlining(inits), e, x);
      if NextInline(inits, e).Some? {
        assert Inlining(inits)(e, NextInline(inits, e).value);
      }
    }
  }

  lemma {:induction false} OutputStep(inits: Initializers, e: Expr)
    requires IsGrammatical(e)
    ensures HasOutput(inits, e) <==>
              (AppliesOutput(e) && IsProcedure(inits, e)) ||
              (NextInline(inits, e).Some? && HasOutput(inits, NextInline(inits, e).value))
  {
    hide IsInitializerOf, AppliesOutput, IsProcedure;
    forall x ensures IsInitializerOf(inits, e, x) <==> NextInline(inits, e) == Some(x) {
      InitializerMeans(inits, e, x);
    }
    forall x ensures Leads(Inlining(inits), e, x) <==>
        e == x || (NextInline(inits, e).Some? && Leads(Inlining(inits), NextInline(inits, e).value, x))
    {
      LeadsByStep(Inlining(inits), e, x);
      if NextInline(inits, e).Some? {
        assert Inlining(inits)(e, NextInline(inits, e).value);
      }
    }
  }

  lemma {:induction false} OutputIsProcedure(inits: Initializers, e: Expr)
    requires HasOutput(inits, e)
    ensures IsProcedure(inits, e)
  {
    var x :| Leads(Inlining(inits), e, x) && AppliesOutput(x) && IsProcedure(inits, x);
    var y :| Leads(Inlining(inits), x, y) && StartsFromProcedure(y);
    LeadsJoin(Inlining(inits), e, x, y);
  }

  // ---- Around a cycle ----

  lemma {:induction false} NextIsTarget(inits: Initializers, v: Variable)
    requires v in inits
    ensures match Target(inits, v)
            case None => NextInline(inits, inits[v]) == None
            case Some(w) => w in inits && NextInline(inits, inits[v]) == Some(inits[w])
  {
  }

  /** On a cycle, inlining comes by every alias of it and nothing else. */
  lemma {:induction false} CycleProcedure(inits: Initializers, v: Variable, w: Variable)
    requires AllGrammatical(inits) && OnCycle(inits, v) && SameCycle(inits, v, w)
    ensures IsProcedure(inits, inits[v]) <==> IsProcedure(inits, inits[w])
    ensures HasOutput(inits, inits[v]) <==> HasOutput(inits, inits[w])
  {
    RoundTrip(inits, v, w);
    StepsKeep(inits, v, w);
    StepsKeep(inits, w, v);
  }

  /** What is behind an alias is a procedure, or has an output, only if the alias is or has. */
  lemma {:induction false} StepsKeep(inits: Initializers, v: Variable, w: Variable)
    requires AllGrammatical(inits) && v in inits && Leads(Aliasing(inits), v, w)
    ensures w in inits
    ensures IsProcedure(inits, inits[w]) ==> IsProcedure(inits, inits[v])
    ensures HasOutput(inits, inits[w]) ==> HasOutput(inits, inits[v])
  {
    hide IsProcedure, HasOutput, RootOf;
    var holds := x => x in inits && (IsProcedure(inits, inits[x]) ==> IsProcedure(inits, inits[v])) &&
                      (HasOutput(inits, inits[x]) ==> HasOutput(inits, inits[v]));
    forall a, b | holds(a) && Aliasing(inits)(a, b) ensures holds(b) {
      NextIsTarget(inits, a);
      ProcedureStep(inits, inits[a]);
      OutputStep(inits, inits[a]);
    }
    LeadsKeeps(Aliasing(inits), v, w, holds);
  }

  /** If no alias of a cycle starts from a procedure's name, none is a procedure. */
  lemma {:induction false} NoProcedureOnCycle(inits: Initializers, v: Variable)
    requires AllGrammatical(inits) && OnCycle(inits, v)
    requires forall w | SameCycle(inits, v, w) :: !IsProcedureRootName(OwnRoot(inits, w).name)
    ensures !IsProcedure(inits, inits[v])
  {
    hide StartsFromProcedure, IsInitializerOf, SameCycle, OwnRoot;
    var holds := e => exists w :: SameCycle(inits, v, w) && w in inits && e == inits[w];
    LeadsSelf(Aliasing(inits), v);
    SelfOnCycle(inits, v);
    forall a, b | holds(a) && Inlining(inits)(a, b) ensures holds(b) {
      var w :| SameCycle(inits, v, w) && w in inits && a == inits[w];
      InitializerMeans(inits, a, b);
      var t := NextOnCycle(inits, v, w);
    }
    forall e | Leads(Inlining(inits), inits[v], e) ensures !StartsFromProcedure(e) {
      LeadsKeeps(Inlining(inits), inits[v], e, holds);
      var w :| SameCycle(inits, v, w) && w in inits && e == inits[w];
      StartMeans(e);
      OwnRootIs(inits, v, w);
    }
  }

  /** If no alias of a cycle applies `.output`, none has an output. */
  lemma {:induction false} NoOutputOnCycle(inits: Initializers, v: Variable)
    requires AllGrammatical(inits) && OnCycle(inits, v)
    requires forall w | SameCycle(inits, v, w) :: !OwnRoot(inits, w).hasOutput
    ensures !HasOutput(inits, inits[v])
  {
    hide AppliesOutput, IsInitializerOf, SameCycle, OwnRoot, IsProcedure;
    var holds := e => exists w :: SameCycle(inits, v, w) && w in inits && e == inits[w];
    SelfOnCycle(inits, v);
    forall a, b | holds(a) && Inlining(inits)(a, b) ensures holds(b) {
      var w :| SameCycle(inits, v, w) && w in inits && a == inits[w];
      InitializerMeans(inits, a, b);
      var t := NextOnCycle(inits, v, w);
    }
    forall e | Leads(Inlining(inits), inits[v], e) ensures !AppliesOutput(e) {
      LeadsKeeps(Inlining(inits), inits[v], e, holds);
      var w :| SameCycle(inits, v, w) && w in inits && e == inits[w];
      RootMeans(e);
      OwnRootIs(inits, v, w);
    }
  }

  lemma {:induction false} SelfOnCycle(inits: Initializers, v: Variable)
    requires OnCycle(inits, v)
    ensures SameCycle(inits, v, v) && v in inits
  {
    LeadsSelf(Aliasing(inits), v);
  }

  lemma {:induction false} OwnRootIs(inits: Initializers, v: Variable, w: Variable)
    requires OnCycle(inits, v) && SameCycle(inits, v, w)
    ensures w in inits && RootOf(inits[w]) == Some(OwnRoot(inits, w))
  {
    CycleGoesOn(inits, w);
  }

  lemma {:induction false} NextOnCycle(inits: Initializers, v: Variable, w: Variable) returns (t: Variable)
    requires OnCycle(inits, v) && SameCycle(inits, v, w)
    ensures Target(inits, w) == Some(t) && SameCycle(inits, v, t) && t in inits
  {
    CycleGoesOn(inits, w);
    t := Target(inits, w).value;
    LeadsOn(Aliasing(inits), v, w, t);
  }

  // ---- The uncached meaning, and the cached answers ----

  /** What shows of a binding is what inlining its initializer comes by. */
  ghost predicate MeansInlining(names: Names, inits: Initializers, v: Variable) {
    v in inits &&
    Shown(names, v, Settled(inits, v)) ==
    Shown(names, v, Answer(HasOutput(inits, inits[v]), IsProcedure(inits, inits[v])))
  }

  lemma {:induction false} CycleMeansInlining(names: Names, inits: Initializers, v: Variable)
    requires WellNamed(names, inits) && AllGrammatical(inits) && OnCycle(inits, v) && IsHarmless(inits, v)
    ensures MeansInlining(names, inits, v)
  {
    hide IsProcedure, HasOutput, Leads, RootOf, IsProcedureRootName, AppliesOutput;
    SelfOnCycle(inits, v);
    OwnRootIs(inits, v, v);
    ProcedureStep(inits, inits[v]);
    OutputStep(inits, inits[v]);
    RootMeans(inits[v]);
    if forall w | SameCycle(inits, v, w) :: Agree(OwnRoot(inits, w), NextRoot(inits, w)) {
      AgreeingCycle(names, inits, v);
    } else {
      PlainCycle(names, inits, v);
    }
  }

  lemma {:induction false} AgreeingCycle(names: Names, inits: Initializers, v: Variable)
    requires WellNamed(names, inits) && AllGrammatical(inits) && OnCycle(inits, v)
    requires forall w | SameCycle(inits, v, w) :: Agree(OwnRoot(inits, w), NextRoot(inits, w))
    ensures MeansInlining(names, inits, v)
  {
    hide IsProcedure, HasOutput, RootOf, IsProcedureRootName, AppliesOutput;
    SelfOnCycle(inits, v);
    var root := OwnRoot(inits, v);
    var holds := x => SameCycle(inits, v, x) && Agree(root, OwnRoot(inits, x));
    forall a, b | holds(a) && Aliasing(inits)(a, b) ensures holds(b) {
      var t := NextOnCycle(inits, v, a);
    }
    forall w | SameCycle(inits, v, w) ensures Agree(root, OwnRoot(inits, w)) {
      LeadsKeeps(Aliasing(inits), v, w, holds);
    }
    OwnRootIs(inits, v, v);
    ProcedureStep(inits, inits[v]);
    OutputStep(inits, inits[v]);
    RootMeans(inits[v]);
    if IsProcedureRootName(root.name) {
      if !root.hasOutput {
        NoOutputOnCycle(inits, v);
      }
    } else {
      NoProcedureOnCycle(inits, v);
    }
  }

  lemma {:induction false} PlainCycle(names: Names, inits: Initializers, v: Variable)
    requires WellNamed(names, inits) && AllGrammatical(inits) && OnCycle(inits, v)
    requires forall w | SameCycle(inits, v, w) :: PassAsPlain(OwnRoot(inits, w), NextRoot(inits, w))
    ensures MeansInlining(names, inits, v)
  {
    hide IsProcedure, HasOutput, RootOf, IsProcedureRootName, AppliesOutput;
    SelfOnCycle(inits, v);
    OwnRootIs(inits, v, v);
    ProcedureStep(inits, inits[v]);
    NoOutputOnCycle(inits, v);
    if !IsProcedureRootName(OwnRoot(inits, v).name) {
      var w := NextOnCycle(inits, v, v);
      OwnRootIs(inits, v, w);
      ProcedureStep(inits, inits[w]);
      CycleProcedure(inits, v, w);
      var u := AliasBefore(names, inits, v);
      assert PassAsPlain(OwnRoot(inits, u), NextRoot(inits, u));
    }
  }

  /** Where cycles are harmless, every binding shows what inlining it comes by. */
  lemma {:induction false} SettledMeansInlining(names: Names, inits: Initializers, v: Variable)
    requires WellNamed(names, inits) && AllGrammatical(inits) && CyclesAreHarmless(inits) && v in inits
    ensures MeansInlining(names, inits, v)
    decreases Behind(inits, v)
  {
    hide IsProcedure, HasOutput, IsProcedureRootName, AppliesOutput, RootFrom, Leads;
    if OnCycle(inits, v) {
      CycleMeansInlining(names, inits, v);
    } else {
      NextIsTarget(inits, v);
      ProcedureStep(inits, inits[v]);
      OutputStep(inits, inits[v]);
      RootMeans(inits[v]);
      assert IsNamed(names, inits[v]);
      if Target(inits, v).Some? {
        BehindShrinks(inits, v);
        SettledMeansInlining(names, inits, Target(inits, v).value);
        if HasOutput(inits, inits[Target(inits, v).value]) {
          OutputIsProcedure(inits, inits[Target(inits, v).value]);
        }
      }
    }
  }

  /** The uncached meaning of an expression is what inlining it comes by. */
  lemma {:induction false} InlineMeansInlining(names: Names, inits: Initializers, e: Expr)
    requires WellNamed(names, inits) && AllGrammatical(inits) && CyclesAreHarmless(inits)
    requires IsGrammatical(e) && IsNamed(names, e)
    ensures Inline(inits, e) == Answer(HasOutput(inits, e), IsProcedure(inits, e))
  {
    hide IsProcedure, HasOutput, IsProcedureRootName, AppliesOutput, RootFrom;
    ProcedureStep(inits, e);
    OutputStep(inits, e);
    RootMeans(e);
    if NextInline(inits, e).Some? {
      var w := RootOf(e).value.variable.value;
      SettledMeansInlining(names, inits, w);
      if HasOutput(inits, inits[w]) {
        OutputIsProcedure(inits, inits[w]);
      }
    }
  }

  /**
   In a file whose alias cycles are harmless, every answer of every sequence of
   queries says whether the chain comes by a procedure's name, and whether
   `.output` is applied on the way to one.
   */
  lemma {:induction false} AnswersMeanInlining(names: Names, inits: Initializers, queries: seq<Expr>)
    requires WellNamed(names, inits) && AllGrammatical(inits) && CyclesAreHarmless(inits)
    requires forall q | q in queries :: IsGrammatical(q) && IsNamed(names, q)
    ensures forall i | 0 <= i < |queries| ::
              Answers(inits, queries, map[])[i] == Answer(HasOutput(inits, queries[i]), IsProcedure(inits, queries[i]))
  {
    hide WellNamed, AllGrammatical, CyclesAreHarmless, IsProcedure, HasOutput, IsGrammatical, IsNamed;
    CacheIsInvisible(names, inits, queries, map[]);
    forall i | 0 <= i < |queries|
      ensures Answers(inits, queries, map[])[i] == Answer(HasOutput(inits, queries[i]), IsProcedure(inits, queries[i]))
    {
      assert queries[i] in queries;
      InlineMeansInlining(names, inits, queries[i]);
    }
  }
}
