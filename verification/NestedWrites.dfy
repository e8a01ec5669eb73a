/**
 The nested-write walk: from a Prisma mutation's argument it follows relation
 and envelope properties through object literals, arrays and one `const` hop,
 and collects the writes that reach a concurrency-gated delegate.  The payload
 graph may be cyclic through `const` bindings; a memo on (payload, kind, model)
 keeps the walk finite.
 */
module NestedWrites {
  import opened Wrappers
  import opened Exploration

  type ObjectId = nat
  type Variable = nat

  /** `Wrapped` stands for the transparent wrappers, such as `satisfies` and `as`. */
  datatype Value =
    | Object(literal: ObjectId)
    | Array(elements: seq<Option<Value>>)
    | Identifier(variable: Option<Variable>)
    | Wrapped(inner: Value)
    | Opaque

  datatype Property = Property(key: Option<string>, value: Value) | Spread

  datatype Kind = Ambiguous | Data | Wrapper

  /** A (payload, kind, model) triple, the unit of memoisation. */
  datatype State = State(payload: ObjectId, kind: Kind, model: string)

  /** A property, given by its object and position, that writes through a gated delegate. */
  datatype NestedWrite = NestedWrite(payload: ObjectId, index: nat, delegate: string, mutator: string, relation: string)

  /** The object literals and `const` initializers of a file, and the relation graph of the schema. */
  datatype Program = Program(objects: map<ObjectId, seq<Property>>, consts: map<Variable, Value>,
                             relations: map<string, map<string, string>>, gatedDelegates: set<string>,
                             gatedMutators: set<string>, dataScalarModels: set<string>, envelopeKeys: set<string>)
  {
    ghost predicate WellFormed() {
      (forall id | id in objects :: forall i | 0 <= i < |objects[id]| ::
         objects[id][i].Property? ==> InRange(objects[id][i].value)) &&
      forall v | v in consts :: InRange(consts[v])
    }

    ghost predicate InRange(value: Value) {
      match value
      case Object(id) => id in objects
      case Array(elements) => forall i | 0 <= i < |elements| :: elements[i].Some? ==> InRange(elements[i].value)
      case Wrapped(inner) => InRange(inner)
      case _ => true
    }

    lemma PropertyInRange(id: ObjectId, i: nat)
      requires WellFormed() && id in objects && i < |objects[id]| && objects[id][i].Property?
      ensures InRange(objects[id][i].value)
    {
    }

    function Unwrap(value: Value): (inner: Value)
      ensures InRange(value) ==> InRange(inner)
    {
      if value.Wrapped? then Unwrap(value.inner) else value
    }

    /** The object literal a value denotes, directly or through one `const` binding. */
    function BoundObject(value: Value): (id: Option<ObjectId>)
      requires WellFormed() && InRange(value)
      ensures id.Some? ==> id.value in objects
    {
      match Unwrap(value)
      case Object(id) => Some(id)
      case Identifier(variable) =>
        if variable.Some? && variable.value in consts && Unwrap(consts[variable.value]).Object? then
          Some(Unwrap(consts[variable.value]).literal)
        else None
      case _ => None
    }

    function ElementObjects(elements: seq<Option<Value>>): (ids: seq<ObjectId>)
      requires WellFormed() && forall i | 0 <= i < |elements| :: elements[i].Some? ==> InRange(elements[i].value)
      ensures forall i | 0 <= i < |ids| :: ids[i] in objects
    {
      if elements == [] then []
      else
        var first := if elements[0].None? then None else BoundObject(elements[0].value);
        (if first.Some? then [first.value] else []) + ElementObjects(elements[1..])
    }

    /** Every object a payload denotes; an array counts only if all its elements are objects. */
    function PayloadObjects(value: Value): (ids: seq<ObjectId>)
      requires WellFormed() && InRange(value)
      ensures forall i | 0 <= i < |ids| :: ids[i] in objects
    {
      var inner := Unwrap(value);
      if inner.Array? then
        var ids := ElementObjects(inner.elements);
        if |ids| == |inner.elements| then ids else []
      else
        var single := BoundObject(inner);
        if single.Some? then [single.value] else []
    }

    predicate HasKey(payload: ObjectId, key: string)
      requires payload in objects
    {
      exists i | 0 <= i < |objects[payload]| :: objects[payload][i].Property? && objects[payload][i].key == Some(key)
    }

    /** The first gated mutator an envelope writes through, from property `i` on. */
    function MutatorIn(envelope: ObjectId, i: nat): Option<string>
      requires WellFormed() && envelope in objects && i <= |objects[envelope]|
      decreases |objects[envelope]| - i
    {
      if i == |objects[envelope]| then None
      else
        var member := objects[envelope][i];
        if member.Property? && member.key.Some? && member.key.value in gatedMutators &&
           PayloadObjects(member.value) != [] then
          member.key
        else MutatorIn(envelope, i + 1)
    }

    /** The mutator of the first envelope that has one. */
    function FirstMutator(envelopes: seq<ObjectId>): Option<string>
      requires WellFormed() && forall i | 0 <= i < |envelopes| :: envelopes[i] in objects
    {
      if envelopes == [] then None
      else
        var mutator := MutatorIn(envelopes[0], 0);
        if mutator.Some? then mutator else FirstMutator(envelopes[1..])
    }

    function RelationTarget(model: string, property: Property): Option<string> {
      if property.Property? && property.key.Some? && model in relations && property.key.value in relations[model] then
        Some(relations[model][property.key.value])
      else None
    }

    // ---- What one state contributes ----

    /** The gated write that property `i` of a payload of `model` makes, if any. */
    function HitAt(payload: ObjectId, model: string, i: nat): seq<NestedWrite>
      requires WellFormed() && payload in objects && i < |objects[payload]|
    {
      var property := objects[payload][i];
      var target := RelationTarget(model, property);
      if target.None? || target.value !in gatedDelegates then []
      else
        match FirstMutator(PayloadObjects(property.value))
        case None => []
        case Some(mutator) => [NestedWrite(payload, i, target.value, mutator, property.key.value)]
    }

    function HitsBelow(payload: ObjectId, model: string, n: nat): seq<NestedWrite>
      requires WellFormed() && payload in objects && n <= |objects[payload]|
    {
      if n == 0 then [] else HitsBelow(payload, model, n - 1) + HitAt(payload, model, n - 1)
    }

    function Hits(state: State): seq<NestedWrite>
      requires WellFormed() && state.payload in objects
    {
      if state.kind.Wrapper? then [] else HitsBelow(state.payload, state.model, |objects[state.payload]|)
    }

    function EnvelopeKind(key: string): Kind {
      if key == "data" || key == "create" then Data else if key == "upsert" then Wrapper else Ambiguous
    }

    function NestedKind(property: Property, state: State): Option<Kind>
      requires state.payload in objects
    {
      if property.Spread? || property.key.None? || property.key.value !in envelopeKeys then None
      else if state.kind.Ambiguous? && property.key.value != "data" then None
      else if state.kind.Ambiguous? && !HasKey(state.payload, "where") && state.model in dataScalarModels then None
      else Some(EnvelopeKind(property.key.value))
    }

    /** The states property `i` of `state` leads to through a relation. */
    function RelationStates(state: State, i: nat): seq<State>
      requires WellFormed() && state.payload in objects && i < |objects[state.payload]|
    {
      var property := objects[state.payload][i];
      var target := RelationTarget(state.model, property);
      if target.None? || target.value !in relations then []
      else StatesOf(PayloadObjects(property.value), Wrapper, target.value)
    }

    /** The states property `i` of `state` leads to through an envelope key. */
    function EnvelopeStates(state: State, i: nat): seq<State>
      requires WellFormed() && state.payload in objects && i < |objects[state.payload]|
    {
      var property := objects[state.payload][i];
      match NestedKind(property, state)
      case None => []
      case Some(kind) => StatesOf(PayloadObjects(property.value), kind, state.model)
    }

    function RelationStatesBelow(state: State, n: nat): seq<State>
      requires WellFormed() && state.payload in objects && n <= |objects[state.payload]|
    {
      if n == 0 then [] else RelationStatesBelow(state, n - 1) + RelationStates(state, n - 1)
    }

    function EnvelopeStatesBelow(state: State, n: nat): seq<State>
      requires WellFormed() && state.payload in objects && n <= |objects[state.payload]|
    {
      if n == 0 then [] else EnvelopeStatesBelow(state, n - 1) + EnvelopeStates(state, n - 1)
    }

    /** A wrapper follows envelopes only, data follows relations only, ambiguous payloads both. */
    function Next(state: State): seq<State>
      requires WellFormed() && state.payload in objects
    {
      (if state.kind.Wrapper? then [] else RelationStatesBelow(state, |objects[state.payload]|)) +
      (if state.kind.Data? then [] else EnvelopeStatesBelow(state, |objects[state.payload]|))
    }

    lemma {:induction false} BelowHolds(state: State, n: nat, i: nat)
      requires WellFormed() && state.payload in objects && i < n <= |objects[state.payload]|
      ensures forall t | t in RelationStates(state, i) :: t in RelationStatesBelow(state, n)
      ensures forall t | t in EnvelopeStates(state, i) :: t in EnvelopeStatesBelow(state, n)
    {
      hide RelationStates, EnvelopeStates;
      if i < n - 1 {
        BelowHolds(state, n - 1, i);
      }
    }

    // ---- The graph of states ----

    ghost predicate InUniverse(models: set<string>, s: State) {
      s.payload in objects && s.model in models
    }

    ghost function Universe(models: set<string>): set<State> {
      set p, k, m | p in objects.Keys && k in {Ambiguous, Data, Wrapper} && m in models :: State(p, k, m)
    }

    lemma UniverseMeaning(models: set<string>, s: State)
      ensures s in Universe(models) <==> InUniverse(models, s)
    {
      match s {
        case State(p, k, m) =>
          assert k.Ambiguous? || k.Data? || k.Wrapper?;
      }
    }

    ghost function Successors(s: State): set<State>
      requires WellFormed() && s.payload in objects
    {
      set t | t in Next(s)
    }

    ghost function StateGraph(models: set<string>): Graph<State>
      requires WellFormed()
    {
      map s | s in Universe(models) :: UniverseMeaning(models, s); Successors(s)
    }

    /** The gated relation writes of each state. */
    ghost function HitMap(models: set<string>): map<State, multiset<NestedWrite>>
      requires WellFormed()
    {
      map s | s in Universe(models) :: UniverseMeaning(models, s); multiset(Hits(s))
    }
  }

  function StatesOf(payloads: seq<ObjectId>, kind: Kind, model: string): (states: seq<State>)
    ensures |states| == |payloads|
    ensures forall i | 0 <= i < |states| :: states[i] == State(payloads[i], kind, model)
  {
    if payloads == [] then [] else [State(payloads[0], kind, model)] + StatesOf(payloads[1..], kind, model)
  }

  function KindName(kind: Kind): string {
    match kind case Ambiguous => "ambiguous" case Data => "data" case Wrapper => "wrapper"
  }

  function Identity(kind: Kind, model: string): string {
    KindName(kind) + ":" + model
  }

  /** The memo key names its kind and model: no two states of a payload share one. */
  lemma IdentityIsInjective(k: Kind, m: string, k': Kind, m': string)
    requires Identity(k, m) == Identity(k', m')
    ensures k == k' && m == m'
  {
    assert Identity(k, m)[0] == KindName(k)[0] && Identity(k', m')[0] == KindName(k')[0];
    var n := |KindName(k)| + 1;
    assert m == Identity(k, m)[n..] && m' == Identity(k', m')[n..];
  }

  /** The mutable state of one walk; `log` is the order in which states were expanded. */
  class Walk {
    const program: Program
    ghost const models: set<string>
    ghost const graph: Graph<State>
    ghost const hits: map<State, multiset<NestedWrite>>
    var found: seq<NestedWrite>
    var seen: map<ObjectId, set<string>>
    ghost var log: seq<State>

    constructor (program: Program, ghost model: string)
      requires program.WellFormed()
      ensures this.program == program && models == program.relations.Keys + {model}
      ensures graph == program.StateGraph(models) && hits == program.HitMap(models)
      ensures found == [] && log == [] && Valid()
    {
      this.program, this.models := program, program.relations.Keys + {model};
      this.graph := program.StateGraph(program.relations.Keys + {model});
      this.hits := program.HitMap(program.relations.Keys + {model});
      found, seen, log := [], map[], [];
    }

    /** The constants describe the program. */
    ghost predicate Frame()
      requires program.WellFormed()
    {
      program.relations.Keys <= models && graph == program.StateGraph(models) && hits == program.HitMap(models)
    }

    lemma StatesAre(s: State)
      requires program.WellFormed() && Frame()
      ensures s in graph <==> s.payload in program.objects && s.model in models
      ensures s in graph ==> s in hits && hits[s] == multiset(program.Hits(s)) && graph[s] == program.Successors(s)
    {
      program.UniverseMeaning(models, s);
    }

    /** What a relation property leads to are successors of its state. */
    lemma RelationSuccessors(s: State, i: nat, payloads: seq<ObjectId>, target: string)
      requires program.WellFormed() && Frame() && s in graph && s.payload in program.objects && !s.kind.Wrapper?
      requires i < |program.objects[s.payload]| && target in program.relations
      requires program.RelationStates(s, i) == StatesOf(payloads, Wrapper, target)
      ensures target in models
      ensures forall k | 0 <= k < |payloads| :: State(payloads[k], Wrapper, target) in graph[s]
    {
      StatesAre(s);
      program.BelowHolds(s, |program.objects[s.payload]|, i);
      forall k | 0 <= k < |payloads| ensures State(payloads[k], Wrapper, target) in program.Successors(s) {
        assert StatesOf(payloads, Wrapper, target)[k] in program.RelationStates(s, i);
      }
    }

    /** What an envelope property leads to are successors of its state. */
    lemma EnvelopeSuccessors(s: State, i: nat, payloads: seq<ObjectId>, kind: Kind)
      requires program.WellFormed() && Frame() && s in graph && s.payload in program.objects && !s.kind.Data?
      requires i < |program.objects[s.payload]|
      requires program.EnvelopeStates(s, i) == StatesOf(payloads, kind, s.model)
      ensures forall k | 0 <= k < |payloads| :: State(payloads[k], kind, s.model) in graph[s]
    {
      StatesAre(s);
      program.BelowHolds(s, |program.objects[s.payload]|, i);
      forall k | 0 <= k < |payloads| ensures State(payloads[k], kind, s.model) in program.Successors(s) {
        assert StatesOf(payloads, kind, s.model)[k] in program.EnvelopeStates(s, i);
      }
    }

    ghost predicate Remembered(s: State)
      reads this`seen
    {
      s.payload in seen && Identity(s.kind, s.model) in seen[s.payload]
    }

    /** The memo holds exactly the logged states, each logged once. */
    ghost predicate Memo()
      reads this`seen, this`log
    {
      (forall i, j | 0 <= i < j < |log| :: log[i] != log[j]) && forall s :: Remembered(s) <==> s in log
    }

    ghost predicate Valid()
      reads this`seen, this`log
    {
      program.WellFormed() && Frame() && Memo() && forall i | 0 <= i < |log| :: log[i] in graph
    }

    ghost function Unseen(): set<State>
      reads this`log
    {
      Remaining(graph, log)
    }

    method RememberNestedWalk(payload: ObjectId, identity: string, ghost s: State) returns (isNew: bool)
      requires Valid() && s in graph && s.payload == payload && identity == Identity(s.kind, s.model)
      modifies this`seen, this`log
      ensures Valid()
      ensures isNew <==> s !in old(log)
      ensures log == if isNew then old(log) + [s] else old(log)
    {
      hide Frame, Program.WellFormed;
      assert Remembered(s) <==> s in log;
      if payload in seen && identity in seen[payload] {
        return false;
      }
      ghost var before := log;
      seen := seen[payload := (if payload in seen then seen[payload] else {}) + {identity}];
      log := log + [s];
      forall t ensures Remembered(t) <==> t in log {
        if t.payload == payload && Identity(t.kind, t.model) == identity {
          IdentityIsInjective(t.kind, t.model, s.kind, s.model);
        }
        assert t in log <==> t in before || t == s;
        assert old(Remembered(t)) <==> t in before;
      }
      return true;
    }

    /** The walk has gone from `log'` and `before` to where it is now. */
    ghost predicate Went(log': seq<State>, before: multiset<NestedWrite>, from: State)
      reads this`log, this`found
    {
      Progress(graph, hits, log', before, log, multiset(found), from)
    }

    /** Walks one payload on behalf of a state that leads to it. */
    method CollectOne(payload: ObjectId, kind: Kind, model: string, ghost from: State)
      requires Valid() && from in graph && model in models && payload in program.objects
      requires State(payload, kind, model) in graph[from]
      modifies this
      ensures Valid() && Went(old(log), multiset(old(found)), from)
      ensures State(payload, kind, model) in log
      decreases Unseen(), 1
    {
      hide Frame, Memo, Progress, Remaining, Program.WellFormed;
      ghost var s := State(payload, kind, model);
      StatesAre(s);
      CollectNestedGatedWrites(payload, kind, model);
      ProgressVia(graph, hits, old(log), multiset(old(found)), log, multiset(found), from, s);
    }

    /** Walks every payload of a list, one after the other. */
    method CollectEach(payloads: seq<ObjectId>, kind: Kind, model: string, ghost from: State)
      requires Valid() && from in graph && model in models
      requires forall i | 0 <= i < |payloads| :: payloads[i] in program.objects
      requires forall i | 0 <= i < |payloads| :: State(payloads[i], kind, model) in graph[from]
      modifies this
      ensures Valid() && Went(old(log), multiset(old(found)), from)
      ensures forall i | 0 <= i < |payloads| :: State(payloads[i], kind, model) in log
      decreases Unseen(), 2
    {
      hide Frame, Memo, Progress, Remaining, Program.WellFormed;
      NoProgress(graph, hits, log, multiset(found), from);
      for i := 0 to |payloads|
        invariant Valid() && Went(old(log), multiset(old(found)), from)
        invariant forall k | 0 <= k < i :: State(payloads[k], kind, model) in log
      {
        ghost var log', found' := log, multiset(found);
        LogGrows(graph, hits, old(log), multiset(old(found)), log, multiset(found), from);
        CollectOne(payloads[i], kind, model, from);
        LogGrows(graph, hits, log', found', log, multiset(found), from);
        ProgressJoins(graph, hits, old(log), multiset(old(found)), log', found', log, multiset(found), from);
      }
    }

    /** One relation property: record its gated write, then walk its envelopes. */
    method CollectRelation(s: State, i: nat)
      requires Valid() && s in graph && s.payload in program.objects && s.kind != Wrapper
      requires i < |program.objects[s.payload]|
      modifies this
      ensures Valid() && Went(old(log), multiset(old(found)) + multiset(program.HitAt(s.payload, s.model, i)), s)
      ensures forall t | t in program.RelationStates(s, i) :: t in log
      decreases Unseen(), 3
    {
      hide Frame, Memo, Progress, Remaining, Program.WellFormed;
      var property := program.objects[s.payload][i];
      var target := program.RelationTarget(s.model, property);
      if target.Some? {
        program.PropertyInRange(s.payload, i);
        var envelopes := program.PayloadObjects(property.value);
        if target.value in program.gatedDelegates {
          var mutator := program.FirstMutator(envelopes);
          if mutator.Some? {
            found := found + [NestedWrite(s.payload, i, target.value, mutator.value, property.key.value)];
          }
        }
        assert multiset(found) == multiset(old(found)) + multiset(program.HitAt(s.payload, s.model, i));
        if target.value in program.relations {
          RelationSuccessors(s, i, envelopes, target.value);
          CollectEach(envelopes, Wrapper, target.value, s);
          return;
        }
      }
      assert multiset(found) == multiset(old(found)) + multiset(program.HitAt(s.payload, s.model, i));
      NoProgress(graph, hits, log, multiset(found), s);
    }

    method CollectRelationWrites(s: State)
      requires Valid() && s in graph && s.payload in program.objects && s.kind != Wrapper
      modifies this
      ensures Valid()
      ensures Went(old(log), multiset(old(found)) +
                   multiset(program.HitsBelow(s.payload, s.model, |program.objects[s.payload]|)), s)
      ensures forall t | t in program.RelationStatesBelow(s, |program.objects[s.payload]|) :: t in log
      decreases Unseen(), 4
    {
      hide Frame, Memo, Progress, Remaining, Program.WellFormed, Program.HitAt, Program.RelationStates;
      NoProgress(graph, hits, log, multiset(found), s);
      assert multiset(found) + multiset(program.HitsBelow(s.payload, s.model, 0)) == multiset(found);
      for i := 0 to |program.objects[s.payload]|
        invariant Valid() &&
                  Went(old(log), multiset(old(found)) + multiset(program.HitsBelow(s.payload, s.model, i)), s)
        invariant forall t | t in program.RelationStatesBelow(s, i) :: t in log
      {
        ghost var log', found', hit := log, multiset(found), multiset(program.HitAt(s.payload, s.model, i));
        ghost var below := multiset(old(found)) + multiset(program.HitsBelow(s.payload, s.model, i));
        LogGrows(graph, hits, old(log), below, log, multiset(found), s);
        ProgressBesides(graph, hits, old(log), below, log, multiset(found), s, hit);
        CollectRelation(s, i);
        LogGrows(graph, hits, log', found' + hit, log, multiset(found), s);
        ProgressJoins(graph, hits, old(log), below + hit, log', found' + hit, log, multiset(found), s);
        assert multiset(old(found)) + multiset(program.HitsBelow(s.payload, s.model, i + 1)) == below + hit;
      }
    }

    /** One envelope property: walk the payloads it holds. */
    method CollectEnvelope(s: State, i: nat)
      requires Valid() && s in graph && s.payload in program.objects && s.model in models && s.kind != Data
      requires i < |program.objects[s.payload]|
      modifies this
      ensures Valid() && Went(old(log), multiset(old(found)), s)
      ensures forall t | t in program.EnvelopeStates(s, i) :: t in log
      decreases Unseen(), 3
    {
      hide Frame, Memo, Progress, Remaining, Program.WellFormed;
      NoProgress(graph, hits, log, multiset(found), s);
      var property := program.objects[s.payload][i];
      var nested := program.NestedKind(property, s);
      if nested.Some? {
        program.PropertyInRange(s.payload, i);
        var payloads := program.PayloadObjects(property.value);
        EnvelopeSuccessors(s, i, payloads, nested.value);
        CollectEach(payloads, nested.value, s.model, s);
      }
    }

    method CollectEnvelopeWrites(s: State)
      requires Valid() && s in graph && s.payload in program.objects && s.model in models && s.kind != Data
      modifies this
      ensures Valid() && Went(old(log), multiset(old(found)), s)
      ensures forall t | t in program.EnvelopeStatesBelow(s, |program.objects[s.payload]|) :: t in log
      decreases Unseen(), 4
    {
      hide Frame, Memo, Progress, Remaining, Program.WellFormed, Program.EnvelopeStates;
      NoProgress(graph, hits, log, multiset(found), s);
      for i := 0 to |program.objects[s.payload]|
        invariant Valid() && Went(old(log), multiset(old(found)), s)
        invariant forall t | t in program.EnvelopeStatesBelow(s, i) :: t in log
      {
        ghost var log', found' := log, multiset(found);
        LogGrows(graph, hits, old(log), multiset(old(found)), log, multiset(found), s);
        CollectEnvelope(s, i);
        LogGrows(graph, hits, log', found', log, multiset(found), s);
        ProgressJoins(graph, hits, old(log), multiset(old(found)), log', found', log, multiset(found), s);
      }
    }

    /** Expands a state unless it was expanded before. */
    method CollectNestedGatedWrites(payload: ObjectId, kind: Kind, model: string)
      requires Valid() && State(payload, kind, model) in graph && payload in program.objects && model in models
      modifies this
      ensures Valid() && State(payload, kind, model) in log
      ensures Went(old(log), multiset(old(found)), State(payload, kind, model))
      decreases Unseen(), 0
    {
      hide Frame, Memo, Progress, Remaining, Program.WellFormed;
      var s := State(payload, kind, model);
      NoProgress(graph, hits, log, multiset(found), s);
      var isNew := RememberNestedWalk(payload, Identity(kind, model), s);
      if !isNew {
        return;
      }
      RemainingShrinks(graph, old(log), s);
      ghost var entered := log;
      Expand(s);
      LogGrows(graph, hits, entered, multiset(old(found)) + hits[s], log, multiset(found), s);
      ProgressEnters(graph, hits, old(log), multiset(old(found)), log, multiset(found), s);
    }

    method Expand(s: State)
      requires Valid() && s in graph && s.payload in program.objects && s.model in models
      modifies this
      ensures Valid() && s in hits && Went(old(log), multiset(old(found)) + hits[s], s)
      ensures forall t | t in graph[s] :: t in log
      decreases Unseen(), 5
    {
      hide Frame, Memo, Progress, Remaining, Program.WellFormed;
      StatesAre(s);
      NoProgress(graph, hits, log, multiset(found), s);
      assert multiset(found) + multiset([]) == multiset(found);
      if s.kind != Wrapper {
        CollectRelationWrites(s);
      }
      if s.kind != Data {
        ghost var log', found' := log, multiset(found);
        LogGrows(graph, hits, old(log), multiset(old(found)) + hits[s], log, multiset(found), s);
        CollectEnvelopeWrites(s);
        LogGrows(graph, hits, log', found', log, multiset(found), s);
        ProgressJoins(graph, hits, old(log), multiset(old(found)) + hits[s], log', found', log, multiset(found), s);
      }
    }
  }

  /** The graph of all states a mutation on `model` can lead to. */
  ghost function GraphFrom(program: Program, model: string): Graph<State>
    requires program.WellFormed()
  {
    program.StateGraph(program.relations.Keys + {model})
  }

  /** `log` lists every state reachable from the mutation's argument, each exactly once. */
  ghost predicate ListsReachable(program: Program, argument: ObjectId, model: string, log: seq<State>)
    requires program.WellFormed()
  {
    (forall i, j | 0 <= i < j < |log| :: log[i] != log[j]) &&
    forall s :: s in log <==> Reachable(GraphFrom(program, model), State(argument, Wrapper, model), s)
  }

  /**
   The whole walk from a mutation's argument.  It terminates even on cyclic
   payloads, and finds exactly the gated relation writes of the states
   reachable from the argument, each state contributing exactly once.
   */
  method FindWrites(program: Program, argument: ObjectId, model: string) returns (found: seq<NestedWrite>)
    requires program.WellFormed() && argument in program.objects
    ensures forall write :: write in found <==>
              exists s | s in GraphFrom(program, model) ::
                Reachable(GraphFrom(program, model), State(argument, Wrapper, model), s) && write in program.Hits(s)
    ensures exists log :: ListsReachable(program, argument, model, log) &&
              multiset(found) == Total(program.HitMap(program.relations.Keys + {model}), log)
  {
    hide Progress, Reachable, Total, Program.WellFormed, Program.Hits, Walk.Frame, Walk.Memo, Program.StateGraph,
         Program.HitMap;
    var walk := new Walk(program, model);
    ghost var root := State(argument, Wrapper, model);
    walk.StatesAre(root);
    walk.CollectNestedGatedWrites(argument, Wrapper, model);
    found := walk.found;
    WalkFinds(walk, root);
    assert ListsReachable(program, argument, model, walk.log);
  }

  /** What a walk that logged its root has found. */
  lemma WalkFinds(walk: Walk, root: State)
    requires walk.Valid() && root in walk.log
    requires Progress(walk.graph, walk.hits, [], multiset{}, walk.log, multiset(walk.found), root)
    ensures forall i, j | 0 <= i < j < |walk.log| :: walk.log[i] != walk.log[j]
    ensures forall s :: s in walk.log <==> Reachable(walk.graph, root, s)
    ensures multiset(walk.found) == Total(walk.hits, walk.log)
    ensures forall write :: write in walk.found <==>
              exists s | s in walk.graph :: Reachable(walk.graph, root, s) && write in walk.program.Hits(s)
  {
    WalkIsComplete(walk.graph, walk.hits, walk.log, multiset(walk.found), root);
    TotalMembers(walk.hits, walk.log);
    hide Progress, Reachable, Total, Program.WellFormed, Program.Hits, Walk.Valid;
    forall write
      ensures write in walk.found <==>
              exists s | s in walk.graph :: Reachable(walk.graph, root, s) && write in walk.program.Hits(s)
    {
      FoundMeansHit(walk, root, write);
    }
  }

  lemma FoundMeansHit(walk: Walk, root: State, write: NestedWrite)
    requires walk.Valid() && multiset(walk.found) == Total(walk.hits, walk.log)
    requires forall s :: s in walk.log <==> Reachable(walk.graph, root, s)
    requires forall w :: w in Total(walk.hits, walk.log) <==>
               exists s :: s in walk.log && s in walk.hits && w in walk.hits[s]
    ensures write in walk.found <==>
            exists s | s in walk.graph :: Reachable(walk.graph, root, s) && write in walk.program.Hits(s)
  {
    assert write in walk.found <==> write in multiset(walk.found);
    forall s | s in walk.graph ensures s in walk.hits && (write in walk.program.Hits(s) <==> write in walk.hits[s]) {
      walk.StatesAre(s);
    }
  }

  lemma {:induction false} TotalMembers(weight: map<State, multiset<NestedWrite>>, states: seq<State>)
    ensures forall w :: w in Total(weight, states) <==> exists s :: s in states && s in weight && w in weight[s]
  {
    if states != [] {
      var init, last := states[..|states| - 1], states[|states| - 1];
      TotalMembers(weight, init);
      assert states == init + [last];
    }
  }
}
