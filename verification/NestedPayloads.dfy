/**
 Which payloads of a mutation the nested-write walk is about, and what it finds
 there, in terms of the object literals, their keys and the schema alone.
 */
module NestedPayloads {
  import opened Exploration
  import opened NestedWrites
  import opened Trails
  import opened Wrappers

  // ---- Which objects a value holds ----

  /** Without its transparent wrappers `value` is `bare`. */
  predicate IsBare(value: Value, bare: Value) {
    match value
    case Wrapped(inner) => IsBare(inner, bare)
    case _ => bare == value
  }

  /** The value is the object literal, or a constant bound to it. */
  ghost predicate Denotes(program: Program, value: Value, literal: ObjectId) {
    IsBare(value, Object(literal)) ||
    exists v | v in program.consts :: IsBare(value, Identifier(Some(v))) && IsBare(program.consts[v], Object(literal))
  }

  /** The elements of an array all denote objects, the `n`-th this one. */
  ghost predicate ListsObject(program: Program, elements: seq<Option<Value>>, n: nat, literal: ObjectId) {
    (forall i | 0 <= i < |elements| :: elements[i].Some? && exists o :: Denotes(program, elements[i].value, o)) &&
    n < |elements| && Denotes(program, elements[n].value, literal)
  }

  /** The `n`-th object the payload holds. */
  ghost predicate Holds(program: Program, value: Value, n: nat, literal: ObjectId) {
    exists bare :: IsBare(value, bare) &&
      if bare.Array? then ListsObject(program, bare.elements, n, literal)
      else n == 0 && Denotes(program, value, literal)
  }

  /** The payload has this key at position `i`, holding an object there at `n`. */
  ghost predicate HoldsUnder(program: Program, payload: ObjectId, i: nat, key: string, n: nat, literal: ObjectId) {
    payload in program.objects && i < |program.objects[payload]| && program.objects[payload][i].Property? &&
    program.objects[payload][i].key == Some(key) && Holds(program, program.objects[payload][i].value, n, literal)
  }

  // ---- Which payloads a mutation leads to ----

  /** What a wrapper's key says of the payload under it. */
  predicate IsKindUnder(key: string, kind: Kind) {
    match kind
    case Data => key == "data" || key == "create"
    case Wrapper => key == "upsert"
    case Ambiguous => key != "data" && key != "create" && key != "upsert"
  }

  ghost predicate HasWhere(program: Program, payload: ObjectId) {
    payload in program.objects &&
    exists i | 0 <= i < |program.objects[payload]| ::
      program.objects[payload][i].Property? && program.objects[payload][i].key == Some("where")
  }

  /** A wrapper goes on through every envelope key. */
  ghost predicate UnwrapsTo(program: Program, s: State, t: State) {
    s.kind.Wrapper? && t.model == s.model &&
    exists i: nat, key, n: nat ::
      HoldsUnder(program, s.payload, i, key, n, t.payload) && key in program.envelopeKeys && IsKindUnder(key, t.kind)
  }

  /** An ambiguous payload goes on through `data` only, and only with a `where` or where the model has no such field. */
  ghost predicate MayBeEnvelopeOf(program: Program, s: State, t: State) {
    s.kind.Ambiguous? && t.kind.Data? && t.model == s.model && "data" in program.envelopeKeys &&
    (HasWhere(program, s.payload) || s.model !in program.dataScalarModels) &&
    exists i: nat, n: nat :: HoldsUnder(program, s.payload, i, "data", n, t.payload)
  }

  /** Data, or what may be data, goes on through relations, to wrappers of the related model. */
  ghost predicate RelatesTo(program: Program, s: State, t: State) {
    !s.kind.Wrapper? && t.kind.Wrapper? && s.model in program.relations && t.model in program.relations &&
    exists i: nat, key, n: nat ::
      HoldsUnder(program, s.payload, i, key, n, t.payload) && key in program.relations[s.model] &&
      program.relations[s.model][key] == t.model
  }

  ghost predicate Follows(program: Program, s: State, t: State) {
    UnwrapsTo(program, s, t) || MayBeEnvelopeOf(program, s, t) || RelatesTo(program, s, t)
  }

  ghost function Following(program: Program): Relation<State> {
    (s, t) => Follows(program, s, t)
  }

  /** The payloads of a mutation of `model` with this argument. */
  ghost predicate IsPayload(program: Program, argument: ObjectId, model: string, s: State) {
    Leads(Following(program), State(argument, Wrapper, model), s)
  }

  // ---- Which of their properties write ----

  /** The `n`-th object the value holds writes by its `i`-th property, named `mutator`. */
  ghost predicate WritesAt(program: Program, value: Value, n: nat, i: nat, mutator: string) {
    mutator in program.gatedMutators &&
    exists envelope, literal ::
      Holds(program, value, n, envelope) && HoldsUnder(program, envelope, i, mutator, 0, literal)
  }

  /** The first of these writes. */
  ghost predicate IsFirstWrite(program: Program, value: Value, mutator: string) {
    exists n: nat, i: nat :: WritesAt(program, value, n, i, mutator) &&
      forall m: nat, k: nat, other :: WritesAt(program, value, m, k, other) ==> n < m || (n == m && i <= k)
  }

  /** Data, or what may be data, that writes a gated relation. */
  ghost predicate IsGatedWrite(program: Program, s: State, write: NestedWrite) {
    !s.kind.Wrapper? && write.payload == s.payload && s.payload in program.objects &&
    write.index < |program.objects[s.payload]| &&
    var property := program.objects[s.payload][write.index];
    property.Property? && property.key == Some(write.relation) &&
    s.model in program.relations && write.relation in program.relations[s.model] &&
    program.relations[s.model][write.relation] == write.delegate && write.delegate in program.gatedDelegates &&
    IsFirstWrite(program, property.value, write.mutator)
  }

  // ---- The walk's notions are these ----

  lemma {:induction false} BareMeans(program: Program, value: Value, bare: Value)
    ensures IsBare(value, bare) <==> program.Unwrap(value) == bare
  {
    if value.Wrapped? {
      BareMeans(program, value.inner, bare);
    }
  }

  lemma {:induction false} BareIsNotWrapped(value: Value, bare: Value)
    requires IsBare(value, bare)
    ensures !bare.Wrapped? && IsBare(bare, bare)
  {
    if value.Wrapped? {
      BareIsNotWrapped(value.inner, bare);
    }
  }

  lemma {:induction false} BoundMeans(program: Program, value: Value, literal: ObjectId)
    requires program.WellFormed() && program.InRange(value)
    ensures program.BoundObject(value) == Some(literal) <==> Denotes(program, value, literal)
  {
    BareMeans(program, value, Object(literal));
    forall v: Variable ensures IsBare(value, Identifier(Some(v))) <==> program.Unwrap(value) == Identifier(Some(v)) {
      BareMeans(program, value, Identifier(Some(v)));
    }
    forall v: Variable | v in program.consts
      ensures IsBare(program.consts[v], Object(literal)) <==> program.Unwrap(program.consts[v]) == Object(literal)
    {
      BareMeans(program, program.consts[v], Object(literal));
    }
    match program.Unwrap(value)
    case Identifier(variable) =>
      if variable.Some? && variable.value in program.consts {
        assert program.Unwrap(value) == Identifier(Some(variable.value));
      }
    case _ =>
  }

  lemma {:induction false} DenotesMeans(program: Program, value: Value)
    requires program.WellFormed() && program.InRange(value)
    ensures forall literal: ObjectId ::
              Denotes(program, value, literal) <==> program.BoundObject(value) == Some(literal)
    ensures program.BoundObject(value).Some? <==> exists literal :: Denotes(program, value, literal)
  {
    hide Denotes;
    forall literal: ObjectId ensures Denotes(program, value, literal) <==> program.BoundObject(value) == Some(literal) {
      BoundMeans(program, value, literal);
    }
    if program.BoundObject(value).Some? {
      assert Denotes(program, value, program.BoundObject(value).value);
    }
  }

  /** As many objects as elements: then each element is an object, in order. */
  lemma {:induction false} ElementsMean(program: Program, elements: seq<Option<Value>>)
    requires program.WellFormed()
    requires forall i | 0 <= i < |elements| :: elements[i].Some? ==> program.InRange(elements[i].value)
    ensures var ids := program.ElementObjects(elements);
            |ids| <= |elements| &&
            (|ids| == |elements| <==>
             forall i | 0 <= i < |elements| :: elements[i].Some? && program.BoundObject(elements[i].value).Some?) &&
            (|ids| == |elements| ==>
             forall i | 0 <= i < |elements| :: program.BoundObject(elements[i].value) == Some(ids[i]))
  {
    hide Program.BoundObject;
    if elements != [] {
      ElementsMean(program, elements[1..]);
      assert forall i | 0 < i < |elements| :: elements[i] == elements[1..][i - 1];
      assert forall i | 0 <= i < |elements[1..]| :: elements[1..][i] == elements[i + 1];
    }
  }

  lemma {:induction false} HoldsMeans(program: Program, value: Value, n: nat, literal: ObjectId)
    requires program.WellFormed() && program.InRange(value)
    ensures Holds(program, value, n, literal) <==>
            n < |program.PayloadObjects(value)| && program.PayloadObjects(value)[n] == literal
  {
    hide Program.BoundObject, Denotes, Program.ElementObjects;
    var bare := program.Unwrap(value);
    forall b ensures IsBare(value, b) <==> b == bare {
      BareMeans(program, value, b);
    }
    BareIsNotWrapped(value, bare);
    if bare.Array? {
      ElementsMean(program, bare.elements);
      forall i | 0 <= i < |bare.elements| && bare.elements[i].Some? ensures
        forall o: ObjectId :: Denotes(program, bare.elements[i].value, o) <==>
          program.BoundObject(bare.elements[i].value) == Some(o)
        ensures program.BoundObject(bare.elements[i].value).Some? <==>
                    exists o :: Denotes(program, bare.elements[i].value, o)
      {
        DenotesMeans(program, bare.elements[i].value);
      }
    } else {
      DenotesMeans(program, value);
      BoundSheds(program, value);
    }
  }

  lemma {:induction false} BoundSheds(program: Program, value: Value)
    requires program.WellFormed() && program.InRange(value)
    ensures program.BoundObject(program.Unwrap(value)) == program.BoundObject(value)
  {
    BareMeans(program, value, program.Unwrap(value));
    BareIsNotWrapped(value, program.Unwrap(value));
  }

  lemma {:induction false} HoldsUnderMeans(program: Program, payload: ObjectId, i: nat, key: string, n: nat,
                                           literal: ObjectId)
    requires program.WellFormed() && payload in program.objects && i < |program.objects[payload]|
    ensures var property := program.objects[payload][i];
            HoldsUnder(program, payload, i, key, n, literal) <==>
              property.Property? && property.key == Some(key) &&
              n < |program.PayloadObjects(property.value)| && program.PayloadObjects(property.value)[n] == literal
  {
    var property := program.objects[payload][i];
    if property.Property? {
      program.PropertyInRange(payload, i);
      HoldsMeans(program, property.value, n, literal);
    }
  }

  /** A property of an envelope that writes: a gated mutator over a payload. */
  ghost predicate WritesIn(program: Program, envelope: ObjectId, i: nat, mutator: string) {
    mutator in program.gatedMutators && exists literal :: HoldsUnder(program, envelope, i, mutator, 0, literal)
  }

  lemma {:induction false} WritesInMeans(program: Program, envelope: ObjectId, i: nat, mutator: string)
    requires program.WellFormed() && envelope in program.objects && i < |program.objects[envelope]|
    ensures var member := program.objects[envelope][i];
            WritesIn(program, envelope, i, mutator) <==>
              member.Property? && member.key == Some(mutator) && mutator in program.gatedMutators &&
              program.PayloadObjects(member.value) != []
  {
    hide HoldsUnder;
    var member := program.objects[envelope][i];
    forall literal: ObjectId
      ensures HoldsUnder(program, envelope, i, mutator, 0, literal) <==>
                member.Property? && member.key == Some(mutator) &&
                0 < |program.PayloadObjects(member.value)| && program.PayloadObjects(member.value)[0] == literal
    {
      HoldsUnderMeans(program, envelope, i, mutator, 0, literal);
    }
    if member.Property? && member.key == Some(mutator) && program.PayloadObjects(member.value) != [] {
      assert HoldsUnder(program, envelope, i, mutator, 0, program.PayloadObjects(member.value)[0]);
    }
  }

  lemma {:induction false} WritesInRange(program: Program, envelope: ObjectId, i: nat, mutator: string)
    ensures WritesIn(program, envelope, i, mutator) ==> envelope in program.objects && i < |program.objects[envelope]|
  {
  }

  /** The first property, from `i` on, that writes. */
  ghost predicate IsFirstFrom(program: Program, envelope: ObjectId, i: nat, k: nat, mutator: string) {
    i <= k && WritesIn(program, envelope, k, mutator) &&
    forall l: nat, m | i <= l && WritesIn(program, envelope, l, m) :: k <= l
  }

  lemma {:induction false} MutatorMeans(program: Program, envelope: ObjectId, i: nat) returns (k: nat)
    requires program.WellFormed() && envelope in program.objects && i <= |program.objects[envelope]|
    ensures program.MutatorIn(envelope, i).None? ==> forall l: nat, m | i <= l :: !WritesIn(program, envelope, l, m)
    ensures program.MutatorIn(envelope, i).Some? ==>
              IsFirstFrom(program, envelope, i, k, program.MutatorIn(envelope, i).value)
    decreases |program.objects[envelope]| - i
  {
    hide WritesIn, Program.PayloadObjects;
    k := i;
    if i == |program.objects[envelope]| {
      forall l: nat, m | WritesIn(program, envelope, l, m) ensures l < i {
        WritesInRange(program, envelope, l, m);
      }
    } else {
      WritersHere(program, envelope, i);
      var later := MutatorMeans(program, envelope, i + 1);
      if forall m :: !WritesIn(program, envelope, i, m) {
        k := later;
        forall l: nat, m | i <= l && WritesIn(program, envelope, l, m) ensures i + 1 <= l {
        }
      }
    }
  }

  /** What writes here is what the search from here finds. */
  lemma {:induction false} WritersHere(program: Program, envelope: ObjectId, i: nat)
    requires program.WellFormed() && envelope in program.objects && i < |program.objects[envelope]|
    ensures forall m | WritesIn(program, envelope, i, m) :: program.MutatorIn(envelope, i) == Some(m)
    ensures (forall m :: !WritesIn(program, envelope, i, m)) ==>
              program.MutatorIn(envelope, i) == program.MutatorIn(envelope, i + 1)
  {
    hide WritesIn, Program.PayloadObjects;
    var member := program.objects[envelope][i];
    forall m | WritesIn(program, envelope, i, m) ensures program.MutatorIn(envelope, i) == Some(m) {
      WritesInMeans(program, envelope, i, m);
    }
    if member.Property? && member.key.Some? {
      WritesInMeans(program, envelope, i, member.key.value);
    }
  }

  /** The first write of the envelopes, by envelope and then by property. */
  ghost predicate IsFirstIn(program: Program, envelopes: seq<ObjectId>, n: nat, k: nat, mutator: string) {
    n < |envelopes| && WritesIn(program, envelopes[n], k, mutator) &&
    forall l: nat, j: nat, m | l < |envelopes| && WritesIn(program, envelopes[l], j, m) :: n < l || (n == l && k <= j)
  }

  lemma {:induction false} FirstMutatorMeans(program: Program, envelopes: seq<ObjectId>) returns (n: nat, k: nat)
    requires program.WellFormed() && forall i | 0 <= i < |envelopes| :: envelopes[i] in program.objects
    ensures program.FirstMutator(envelopes).None? ==>
              forall l: nat, j: nat, m | l < |envelopes| :: !WritesIn(program, envelopes[l], j, m)
    ensures program.FirstMutator(envelopes).Some? ==>
              IsFirstIn(program, envelopes, n, k, program.FirstMutator(envelopes).value)
  {
    hide WritesIn, Program.WellFormed, Program.MutatorIn;
    n, k := 0, 0;
    if envelopes != [] {
      var rest := envelopes[1..];
      k := MutatorMeans(program, envelopes[0], 0);
      var later, at := FirstMutatorMeans(program, rest);
      forall l: nat | l < |envelopes| ensures l > 0 ==> envelopes[l] == rest[l - 1] {
      }
      if program.MutatorIn(envelopes[0], 0).None? {
        n, k := later + 1, at;
        forall l: nat, j: nat, m | l < |envelopes| && WritesIn(program, envelopes[l], j, m)
          ensures l > 0 && WritesIn(program, rest[l - 1], j, m)
        {
        }
      }
    }
  }

  lemma {:induction false} OneIsFirst(program: Program, envelopes: seq<ObjectId>, n: nat, k: nat, m: string, n': nat,
                                      k': nat, m': string)
    requires IsFirstIn(program, envelopes, n, k, m) && IsFirstIn(program, envelopes, n', k', m')
    ensures n == n' && k == k' && m == m'
  {
  }

  lemma {:induction false} FirstWriteMeans(program: Program, value: Value, mutator: string)
    requires program.WellFormed() && program.InRange(value)
    ensures program.FirstMutator(program.PayloadObjects(value)) == Some(mutator) <==>
                IsFirstWrite(program, value, mutator)
  {
    hide WritesIn, Program.WellFormed, Program.PayloadObjects, Program.FirstMutator, Holds;
    var envelopes := program.PayloadObjects(value);
    var n', i' := FirstMutatorMeans(program, envelopes);
    forall n: nat, i: nat, m
      ensures WritesAt(program, value, n, i, m) <==> n < |envelopes| && WritesIn(program, envelopes[n], i, m)
    {
      WritesAtMeans(program, value, n, i, m);
    }
    if IsFirstWrite(program, value, mutator) {
      var n: nat, i: nat :| WritesAt(program, value, n, i, mutator) &&
        forall m: nat, k: nat, other :: WritesAt(program, value, m, k, other) ==> n < m || (n == m && i <= k);
      assert IsFirstIn(program, envelopes, n, i, mutator);
      OneIsFirst(program, envelopes, n, i, mutator, n', i', program.FirstMutator(envelopes).value);
    }
    if program.FirstMutator(envelopes) == Some(mutator) {
      assert IsFirstIn(program, envelopes, n', i', mutator);
      assert WritesAt(program, value, n', i', mutator);
    }
  }

  lemma {:induction false} WritesAtMeans(program: Program, value: Value, n: nat, i: nat, m: string)
    requires program.WellFormed() && program.InRange(value)
    ensures WritesAt(program, value, n, i, m) <==>
              n < |program.PayloadObjects(value)| && WritesIn(program, program.PayloadObjects(value)[n], i, m)
  {
    hide HoldsUnder, Program.PayloadObjects, Holds;
    forall envelope: ObjectId
      ensures Holds(program, value, n, envelope) <==>
                n < |program.PayloadObjects(value)| && program.PayloadObjects(value)[n] == envelope
    {
      HoldsMeans(program, value, n, envelope);
    }
  }

  // ---- The walk, in the payloads' own terms ----

  lemma {:induction false} HitMeans(program: Program, s: State, i: nat, write: NestedWrite)
    requires program.WellFormed() && s.payload in program.objects && i < |program.objects[s.payload]| &&
             !s.kind.Wrapper?
    ensures write in program.HitAt(s.payload, s.model, i) <==> IsGatedWrite(program, s, write) && write.index == i
  {
    hide IsFirstWrite, Program.FirstMutator, Program.PayloadObjects;
    var property := program.objects[s.payload][i];
    if property.Property? {
      program.PropertyInRange(s.payload, i);
      forall m ensures program.FirstMutator(program.PayloadObjects(property.value)) == Some(m) <==>
                         IsFirstWrite(program, property.value, m)
      {
        FirstWriteMeans(program, property.value, m);
      }
    }
  }

  lemma {:induction false} HitsBelowMean(program: Program, s: State, n: nat, write: NestedWrite)
    requires program.WellFormed() && s.payload in program.objects && n <= |program.objects[s.payload]| &&
             !s.kind.Wrapper?
    ensures write in program.HitsBelow(s.payload, s.model, n) <==> IsGatedWrite(program, s, write) && write.index < n
  {
    hide IsGatedWrite, Program.HitAt;
    if n > 0 {
      HitsBelowMean(program, s, n - 1, write);
      HitMeans(program, s, n - 1, write);
    }
  }

  lemma {:induction false} HitsMean(program: Program, s: State, write: NestedWrite)
    requires program.WellFormed() && s.payload in program.objects
    ensures write in program.Hits(s) <==> IsGatedWrite(program, s, write)
  {
    hide IsFirstWrite, Program.HitsBelow;
    if !s.kind.Wrapper? {
      HitsBelowMean(program, s, |program.objects[s.payload]|, write);
    }
  }

  lemma {:induction false} StatesOfMean(payloads: seq<ObjectId>, kind: Kind, model: string, t: State)
    ensures t in StatesOf(payloads, kind, model) <==> t.kind == kind && t.model == model && t.payload in payloads
  {
    var states := StatesOf(payloads, kind, model);
    if t in states {
      var i :| 0 <= i < |states| && states[i] == t;
    }
    if t.kind == kind && t.model == model && t.payload in payloads {
      var i :| 0 <= i < |payloads| && payloads[i] == t.payload;
      assert states[i] == t;
    }
  }

  lemma {:induction false} HeldMeans(program: Program, payload: ObjectId, i: nat, key: string, literal: ObjectId)
    requires program.WellFormed() && payload in program.objects && i < |program.objects[payload]|
    ensures var property := program.objects[payload][i];
            (exists n: nat :: HoldsUnder(program, payload, i, key, n, literal)) <==>
            property.Property? && property.key == Some(key) && literal in program.PayloadObjects(property.value)
  {
    hide HoldsUnder, Program.PayloadObjects;
    var property := program.objects[payload][i];
    forall n: nat ensures HoldsUnder(program, payload, i, key, n, literal) <==>
        property.Property? && property.key == Some(key) &&
        n < |program.PayloadObjects(property.value)| && program.PayloadObjects(property.value)[n] == literal
    {
      HoldsUnderMeans(program, payload, i, key, n, literal);
    }
    if property.Property? && property.key == Some(key) && literal in program.PayloadObjects(property.value) {
      var n :| 0 <= n < |program.PayloadObjects(property.value)| &&
        program.PayloadObjects(property.value)[n] == literal;
      assert HoldsUnder(program, payload, i, key, n, literal);
    }
  }

  /** A relation at position `i` leads from `s` to `t`. */
  ghost predicate RelatesAt(program: Program, s: State, t: State, i: nat) {
    t.kind.Wrapper? && s.model in program.relations && t.model in program.relations &&
    exists key, n: nat ::
      HoldsUnder(program, s.payload, i, key, n, t.payload) && key in program.relations[s.model] &&
      program.relations[s.model][key] == t.model
  }

  lemma {:induction false} RelationMeans(program: Program, s: State, t: State, i: nat)
    requires program.WellFormed() && s.payload in program.objects && i < |program.objects[s.payload]|
    ensures t in program.RelationStates(s, i) <==> RelatesAt(program, s, t, i)
  {
    hide HoldsUnder, Program.PayloadObjects;
    var property := program.objects[s.payload][i];
    if property.Property? && property.key.Some? {
      HeldMeans(program, s.payload, i, property.key.value, t.payload);
    }
    forall key: string, n: nat | HoldsUnder(program, s.payload, i, key, n, t.payload)
      ensures property.Property? && property.key == Some(key)
    {
      HeldMeans(program, s.payload, i, key, t.payload);
    }
    var target := program.RelationTarget(s.model, property);
    if target.Some? && target.value in program.relations {
      StatesOfMean(program.PayloadObjects(property.value), Wrapper, target.value, t);
    }
  }

  /** An envelope key at position `i` leads from `s` to `t`. */
  ghost predicate EnvelopeAt(program: Program, s: State, t: State, i: nat) {
    t.model == s.model && !s.kind.Data? &&
    exists key, n: nat :: HoldsUnder(program, s.payload, i, key, n, t.payload) && key in program.envelopeKeys &&
      IsKindUnder(key, t.kind) &&
      (s.kind.Ambiguous? ==> key == "data" && (HasWhere(program, s.payload) || s.model !in program.dataScalarModels))
  }

  lemma {:induction false} EnvelopeMeans(program: Program, s: State, t: State, i: nat)
    requires program.WellFormed() && s.payload in program.objects && i < |program.objects[s.payload]| && !s.kind.Data?
    ensures t in program.EnvelopeStates(s, i) <==> EnvelopeAt(program, s, t, i)
  {
    hide HoldsUnder, Program.PayloadObjects;
    var property := program.objects[s.payload][i];
    if property.Property? && property.key.Some? {
      HeldMeans(program, s.payload, i, property.key.value, t.payload);
    }
    forall key: string, n: nat | HoldsUnder(program, s.payload, i, key, n, t.payload)
      ensures property.Property? && property.key == Some(key)
    {
      HeldMeans(program, s.payload, i, key, t.payload);
    }
    var kind := program.NestedKind(property, s);
    if kind.Some? {
      StatesOfMean(program.PayloadObjects(property.value), kind.value, s.model, t);
      match t.kind case Ambiguous => case Data => case Wrapper =>
    }
  }

  lemma {:induction false} RelationsBelowMean(program: Program, s: State, t: State, n: nat)
    requires program.WellFormed() && s.payload in program.objects && n <= |program.objects[s.payload]|
    ensures t in program.RelationStatesBelow(s, n) <==> exists i: nat :: i < n && RelatesAt(program, s, t, i)
  {
    hide RelatesAt, Program.RelationStates;
    if n > 0 {
      RelationsBelowMean(program, s, t, n - 1);
      RelationMeans(program, s, t, n - 1);
    }
  }

  lemma {:induction false} EnvelopesBelowMean(program: Program, s: State, t: State, n: nat)
    requires program.WellFormed() && s.payload in program.objects && n <= |program.objects[s.payload]| && !s.kind.Data?
    ensures t in program.EnvelopeStatesBelow(s, n) <==> exists i: nat :: i < n && EnvelopeAt(program, s, t, i)
  {
    hide EnvelopeAt, Program.EnvelopeStates;
    if n > 0 {
      EnvelopesBelowMean(program, s, t, n - 1);
      EnvelopeMeans(program, s, t, n - 1);
    }
  }

  lemma {:induction false} NextMeansFollows(program: Program, s: State, t: State)
    requires program.WellFormed() && s.payload in program.objects
    ensures t in program.Next(s) <==> Follows(program, s, t)
  {
    hide HoldsUnder, Program.RelationStatesBelow, Program.EnvelopeStatesBelow, HasWhere;
    var n := |program.objects[s.payload]|;
    RelationsBelowMean(program, s, t, n);
    if !s.kind.Data? {
      EnvelopesBelowMean(program, s, t, n);
    }
    forall i: nat, key, m: nat | HoldsUnder(program, s.payload, i, key, m, t.payload) ensures i < n {
      UnderInRange(program, s.payload, i, key, m, t.payload);
    }
    FollowsAt(program, s, t);
  }

  lemma {:induction false} UnderInRange(program: Program, payload: ObjectId, i: nat, key: string, n: nat,
                                        literal: ObjectId)
    requires HoldsUnder(program, payload, i, key, n, literal)
    ensures payload in program.objects && i < |program.objects[payload]|
  {
  }

  /** Following is following some property. */
  lemma {:induction false} FollowsAt(program: Program, s: State, t: State)
    ensures Follows(program, s, t) <==>
              (!s.kind.Wrapper? && exists i: nat :: RelatesAt(program, s, t, i)) ||
              (!s.kind.Data? && exists i: nat :: EnvelopeAt(program, s, t, i))
  {
    hide HoldsUnder, HasWhere;
    if i: nat :| EnvelopeAt(program, s, t, i) && !s.kind.Data? {
      var key, n: nat :| HoldsUnder(program, s.payload, i, key, n, t.payload) && key in program.envelopeKeys &&
        IsKindUnder(key, t.kind) &&
        (s.kind.Ambiguous? ==> key == "data" && (HasWhere(program, s.payload) || s.model !in program.dataScalarModels));
      match s.kind case Ambiguous => case Wrapper => case Data =>
    }
    if MayBeEnvelopeOf(program, s, t) {
      var i: nat, n: nat :| HoldsUnder(program, s.payload, i, "data", n, t.payload);
      assert EnvelopeAt(program, s, t, i);
    }
    if UnwrapsTo(program, s, t) {
      var i: nat, key, n: nat :|
        HoldsUnder(program, s.payload, i, key, n, t.payload) && key in program.envelopeKeys && IsKindUnder(key, t.kind);
      assert EnvelopeAt(program, s, t, i);
    }
    if RelatesTo(program, s, t) {
      var i: nat, key, n: nat :| HoldsUnder(program, s.payload, i, key, n, t.payload) &&
        key in program.relations[s.model] && program.relations[s.model][key] == t.model;
      assert RelatesAt(program, s, t, i);
    }
  }

  lemma {:induction false} FollowingStays(program: Program, model: string, s: State, t: State)
    requires program.WellFormed() && s in GraphFrom(program, model) && Follows(program, s, t)
    ensures t in GraphFrom(program, model) && t in GraphFrom(program, model)[s]
  {
    hide HoldsUnder, Program.Next;
    var models := program.relations.Keys + {model};
    program.UniverseMeaning(models, s);
    program.UniverseMeaning(models, t);
    NextMeansFollows(program, s, t);
    forall i: nat, key, n: nat | HoldsUnder(program, s.payload, i, key, n, t.payload)
      ensures t.payload in program.objects
    {
      UnderInRange(program, s.payload, i, key, n, t.payload);
      HoldsUnderMeans(program, s.payload, i, key, n, t.payload);
    }
  }

  lemma {:induction false} StepsFollow(program: Program, model: string, s: State, t: State)
    requires program.WellFormed() && s in GraphFrom(program, model)
    ensures Edges(GraphFrom(program, model))(s, t) <==> Follows(program, s, t)
  {
    hide Follows, Program.Next;
    program.UniverseMeaning(program.relations.Keys + {model}, s);
    NextMeansFollows(program, s, t);
    if Follows(program, s, t) {
      FollowingStays(program, model, s, t);
    }
  }

  /** The states the walk can reach are the payloads of the mutation. */
  lemma {:induction false} ReachableMeansPayload(program: Program, argument: ObjectId, model: string, s: State)
    requires program.WellFormed() && argument in program.objects
    ensures Reachable(GraphFrom(program, model), State(argument, Wrapper, model), s) <==>
              IsPayload(program, argument, model, s)
    ensures IsPayload(program, argument, model, s) ==> s in GraphFrom(program, model)
  {
    hide Follows, Program.StateGraph;
    var graph, root := GraphFrom(program, model), State(argument, Wrapper, model);
    RootInGraph(program, argument, model);
    if IsPayload(program, argument, model, s) {
      var holds := x => x in graph && Leads(Edges(graph), root, x);
      LeadsSelf(Edges(graph), root);
      forall x, y | holds(x) && Following(program)(x, y) ensures holds(y) {
        FollowingStays(program, model, x, y);
        StepsFollow(program, model, x, y);
        LeadsOn(Edges(graph), root, x, y);
      }
      LeadsKeeps(Following(program), root, s, holds);
    }
    if Reachable(graph, root, s) {
      var holds := x => x in graph && Leads(Following(program), root, x);
      LeadsSelf(Following(program), root);
      forall x, y | holds(x) && Edges(graph)(x, y) ensures holds(y) {
        StepsFollow(program, model, x, y);
        LeadsOn(Following(program), root, x, y);
      }
      LeadsKeeps(Edges(graph), root, s, holds);
    }
  }

  lemma {:induction false} RootInGraph(program: Program, argument: ObjectId, model: string)
    requires program.WellFormed() && argument in program.objects
    ensures State(argument, Wrapper, model) in GraphFrom(program, model)
  {
    program.UniverseMeaning(program.relations.Keys + {model}, State(argument, Wrapper, model));
  }

  /** What the walk promises of its findings. */
  ghost predicate IsFindings(program: Program, argument: ObjectId, model: string, found: seq<NestedWrite>)
    requires program.WellFormed()
  {
    forall write :: write in found <==>
      exists s | s in GraphFrom(program, model) ::
        Reachable(GraphFrom(program, model), State(argument, Wrapper, model), s) && StateHits(program, s, write)
  }

  ghost predicate StateHits(program: Program, s: State, write: NestedWrite)
    requires program.WellFormed()
  {
    s.payload in program.objects && write in program.Hits(s)
  }

  /** The findings are exactly the gated relation writes of the mutation's payloads. */
  lemma {:induction false} FindsExactlyGatedWrites(program: Program, argument: ObjectId, model: string,
                                                   found: seq<NestedWrite>)
    requires program.WellFormed() && argument in program.objects && IsFindings(program, argument, model, found)
    ensures forall write :: write in found <==>
              exists s :: IsPayload(program, argument, model, s) && IsGatedWrite(program, s, write)
  {
    hide Reachable, IsPayload, IsGatedWrite, Program.StateGraph, Program.Hits;
    forall s ensures Reachable(GraphFrom(program, model), State(argument, Wrapper, model), s) <==>
        IsPayload(program, argument, model, s)
      ensures IsPayload(program, argument, model, s) ==> s in GraphFrom(program, model)
    {
      ReachableMeansPayload(program, argument, model, s);
    }
    forall s, write
      ensures StateHits(program, s, write) <==> s.payload in program.objects && IsGatedWrite(program, s, write)
    {
      if s.payload in program.objects {
        HitsMean(program, s, write);
      }
    }
    forall s, write | IsGatedWrite(program, s, write) ensures s.payload in program.objects {
      GatedInRange(program, s, write);
    }
  }

  lemma {:induction false} GatedInRange(program: Program, s: State, write: NestedWrite)
    requires IsGatedWrite(program, s, write)
    ensures s.payload in program.objects
  {
  }

  lemma {:induction false} InGraph(program: Program, model: string, s: State)
    requires program.WellFormed() && s in GraphFrom(program, model)
    ensures s.payload in program.objects
  {
    program.UniverseMeaning(program.relations.Keys + {model}, s);
  }

  /** The whole walk, by what it means. */
  method GatedWritesOf(program: Program, argument: ObjectId, model: string) returns (found: seq<NestedWrite>)
    requires program.WellFormed() && argument in program.objects
    ensures forall write :: write in found <==>
              exists s :: IsPayload(program, argument, model, s) && IsGatedWrite(program, s, write)
  {
    hide IsPayload, IsGatedWrite, Program.Hits, Program.StateGraph, Program.HitMap, Program.WellFormed, Reachable;
    found := FindWrites(program, argument, model);
    forall s: State | s in GraphFrom(program, model) ensures s.payload in program.objects {
      InGraph(program, model, s);
    }
    FindsExactlyGatedWrites(program, argument, model, found);
  }
}
