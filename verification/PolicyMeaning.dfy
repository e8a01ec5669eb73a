/**
 The main results about the restricted-syntax builder: the emitted list means
 the declared tree, and the order in which nodes are authored is irrelevant.
 */
module PolicyMeaning {
  import opened Wrappers
  import opened RestrictedSyntax
  import opened FlatConfig
  import opened PolicyTree
  import opened Sequences

  // ---- Which selectors a family carries ----

  ghost predicate Registered(ids: seq<string>, selectors: Registry) {
    forall id | id in ids :: id in selectors
  }

  ghost predicate Added(chain: seq<Node>, id: string) {
    exists node | node in chain :: node.Policy? && id in node.selectors
  }

  ghost predicate Removed(chain: seq<Node>, id: string) {
    exists node | node in chain :: node.Exception? && id in node.remove
  }

  lemma {:induction false} AddMeaning(id: string, add: seq<string>, selectors: Registry, applied: seq<string>)
    requires NoRepeats(applied) && Registered(applied, selectors)
    requires AddSelectors(id, add, selectors, applied).Ok?
    ensures AddSelectors(id, add, selectors, applied).value == applied + add
    ensures NoRepeats(applied + add) && Registered(applied + add, selectors)
  {
    if add != [] {
      AddMeaning(id, add[1..], selectors, applied + [add[0]]);
      assert applied + [add[0]] + add[1..] == applied + add;
    } else {
      assert applied + add == applied;
    }
  }

  lemma WithoutMeaning(applied: seq<string>, id: string)
    requires NoRepeats(applied) && id in applied
    ensures NoRepeats(Without(applied, id))
    ensures forall x :: x in Without(applied, id) <==> x in applied && x != id
  {
  }

  lemma {:induction false} RemoveMeaning(id: string, remove: seq<string>, selectors: Registry, applied: seq<string>)
    requires NoRepeats(applied) && Registered(applied, selectors)
    requires RemoveSelectors(id, remove, selectors, applied).Ok?
    ensures var kept := RemoveSelectors(id, remove, selectors, applied).value;
            NoRepeats(kept) && Registered(kept, selectors) &&
            forall x :: x in kept <==> x in applied && x !in remove
  {
    if remove != [] {
      WithoutMeaning(applied, remove[0]);
      RemoveMeaning(id, remove[1..], selectors, Without(applied, remove[0]));
      assert remove == [remove[0]] + remove[1..];
    }
  }

  /** Composition adds every policy's selectors and takes away what the final exception removes. */
  lemma {:induction false} ComposeMeaning(chain: seq<Node>, selectors: Registry, applied: seq<string>)
    requires NoRepeats(applied) && Registered(applied, selectors)
    requires forall i | 0 <= i < |chain| - 1 :: chain[i].Policy?
    requires Compose(chain, selectors, applied).Ok?
    ensures var ids := Compose(chain, selectors, applied).value;
            NoRepeats(ids) && Registered(ids, selectors) &&
            forall x :: x in ids <==> (x in applied || Added(chain, x)) && !Removed(chain, x)
  {
    if chain != [] {
      var node := chain[0];
      var next := Apply(node, selectors, applied).value;
      assert chain == [node] + chain[1..];
      if node.Policy? {
        AddMeaning(node.id, node.selectors, selectors, applied);
      } else {
        RemoveMeaning(node.id, node.remove, selectors, applied);
        assert chain[1..] == [];
      }
      ComposeMeaning(chain[1..], selectors, next);
      forall x ensures Added(chain, x) <==> (node.Policy? && x in node.selectors) || Added(chain[1..], x)
               ensures Removed(chain, x) <==> (node.Exception? && x in node.remove) || Removed(chain[1..], x)
      {
      }
    }
  }

  lemma FamilySelectors(family: Family, byId: map<string, Node>, selectors: Registry)
    requires ValidIndex(byId) && Resolved(family, byId, selectors)
    ensures NoRepeats(family.selectorIds) && Registered(family.selectorIds, selectors)
    ensures forall x :: x in family.selectorIds <==> Added(family.chain, x) && !Removed(family.chain, x)
  {
    FamilyShape(family.node, byId, selectors);
    forall i | 0 <= i < |family.chain| - 1 ensures family.chain[i].Policy? {
      ChainPrefixes(family.node, byId, i);
    }
    ComposeMeaning(family.chain, selectors, []);
  }

  /** Sorting by `order` keeps the ids and puts them in strictly increasing position. */
  lemma SortedIdsMeaning(ids: seq<string>, order: seq<string>)
    requires NoRepeats(ids) && forall id | id in ids :: id in order
    ensures forall x :: x in SortedIds(ids, order) <==> x in ids
    ensures forall i, j | 0 <= i < j < |SortedIds(ids, order)| ::
              PositionIn(order, SortedIds(ids, order)[i]) < PositionIn(order, SortedIds(ids, order)[j])
    ensures |SortedIds(ids, order)| == |ids|
  {
    var key := (id: string) => PositionIn(order, id);
    var sorted := SortedIds(ids, order);
    SortSorts(key, ids);
    SameMembers(sorted, ids);
    NoRepeatsMeansOnce(ids);
    NoRepeatsMeansOnce(sorted);
    assert |multiset(sorted)| == |sorted| && |multiset(ids)| == |ids|;
    forall i, j | 0 <= i < j < |sorted|
      ensures PositionIn(order, sorted[i]) < PositionIn(order, sorted[j])
    {
      assert sorted[i] in ids && sorted[j] in ids;
      assert key(sorted[i]) <= key(sorted[j]) && sorted[i] != sorted[j];
    }
  }

  lemma {:induction false} LookupKeepsLength(ids: seq<string>, selectors: Registry)
    requires Registered(ids, selectors)
    ensures |Lookup(ids, selectors)| == |ids|
    ensures forall i | 0 <= i < |ids| :: Lookup(ids, selectors)[i] == selectors[ids[i]]
  {
    if ids != [] {
      LookupKeepsLength(ids[1..], selectors);
    }
  }

  /** What a family's own rule reports: its selectors in `order`, or nothing. */
  function Reported(family: Family, selectors: Registry, order: seq<string>): seq<Selector> {
    Lookup(SortedIds(family.selectorIds, order), selectors)
  }

  lemma RuleIsOffOnlyWhenEmpty(family: Family, byId: map<string, Node>, selectors: Registry, order: seq<string>)
    requires ValidIndex(byId) && Resolved(family, byId, selectors)
    requires forall id | id in selectors :: id in order
    ensures Reported(family, selectors, order) == [] <==> family.selectorIds == []
  {
    FamilySelectors(family, byId, selectors);
    SortedIdsMeaning(family.selectorIds, order);
    LookupKeepsLength(SortedIds(family.selectorIds, order), selectors);
  }

  // ---- Resolution is a fold over the matching families ----

  function Fold(families: seq<Family>, selectors: Registry, order: seq<string>): Entry {
    if families == [] then Absent
    else Override(Fold(families[..|families| - 1], selectors, order),
                  RuleOf(families[|families| - 1], selectors, order))
  }

  ghost predicate Emittable(families: seq<Family>) {
    forall family | family in families ::
      family.fileGroups != [] && forall pattern | pattern in family.ignores :: !IsNegated(pattern)
  }

  lemma EmitAllInit(families: seq<Family>, selectors: Registry, order: seq<string>)
    requires Emittable(families) && families != []
    ensures var n := |families| - 1;
            Emittable(families[..n]) &&
            EmitAll(families, selectors, order)[..n] == EmitAll(families[..n], selectors, order)
  {
  }

  lemma FoldSnoc(before: seq<Family>, last: Family, selectors: Registry, order: seq<string>)
    ensures Fold(before + [last], selectors, order) ==
            Override(Fold(before, selectors, order), RuleOf(last, selectors, order))
  {
  }

  lemma {:induction false} ResolutionIsFold(families: seq<Family>, selectors: Registry, order: seq<string>,
                                            path: string)
    requires Emittable(families)
    ensures ResolvePath(EmitAll(families, selectors, order), path) == Fold(Matching(families, path), selectors, order)
  {
    if families != [] {
      var init, last := families[..|families| - 1], families[|families| - 1];
      EmitAllInit(families, selectors, order);
      ResolutionIsFold(init, selectors, order, path);
      EmittedEntryMatchesFamily(last, selectors, order, path);
      FoldSnoc(Matching(init, path), last, selectors, order);
    }
  }

  // ---- An accepted declaration is a complete, unambiguous tree ----

  lemma {:induction false} FamiliesMeaning(nodes: seq<Node>, byId: map<string, Node>, selectors: Registry)
    requires ValidIndex(byId) && forall node | node in nodes :: Indexed(node, byId)
    ensures FamiliesOf(nodes, byId, selectors).Ok? <==>
              forall i | 0 <= i < |nodes| :: FamilyOf(nodes[i], byId, selectors).Ok?
    ensures FamiliesOf(nodes, byId, selectors).Ok? ==>
              var families := FamiliesOf(nodes, byId, selectors).value;
              |families| == |nodes| &&
              forall i | 0 <= i < |nodes| :: Ok(families[i]) == FamilyOf(nodes[i], byId, selectors)
  {
    hide FamilyOf, ValidIndex, Indexed;
    if nodes != [] {
      FamiliesMeaning(nodes[1..], byId, selectors);
      var rest := nodes[1..];
      if FamiliesOf(nodes, byId, selectors).Ok? {
        forall i | 0 <= i < |nodes| ensures FamilyOf(nodes[i], byId, selectors).Ok? {
          assert i > 0 ==> nodes[i] == rest[i - 1];
        }
      } else if FamilyOf(nodes[0], byId, selectors).Ok? {
        var i :| 0 <= i < |rest| && !FamilyOf(rest[i], byId, selectors).Ok?;
        assert nodes[i + 1] == rest[i];
      }
    }
  }

  /** Acceptance is the conjunction of the individual checks. */
  lemma AcceptedParts(declaration: Declaration) returns (byId: map<string, Node>)
    requires Resolve(declaration).Ok?
    ensures CheckOrder(declaration.order, 0, declaration.selectors).Ok?
    ensures CheckCovered(declaration.keys, declaration.order).Ok?
    ensures IndexNodes(declaration.Nodes(), map[]) == Ok(byId) && ValidIndex(byId)
    ensures forall node | node in declaration.Nodes() :: Indexed(node, byId)
    ensures forall id | id in byId :: byId[id] in declaration.Nodes()
    ensures FamiliesOf(declaration.Nodes(), byId, declaration.selectors) == Resolve(declaration)
    ensures CheckNarrowing(Resolve(declaration).value, IndexFamilies(Resolve(declaration).value)).Ok?
    ensures CheckUnambiguous(Resolve(declaration).value).Ok?
    ensures forall i, j | 0 <= i < j < |declaration.Nodes()| :: declaration.Nodes()[i].id != declaration.Nodes()[j].id
  {
    byId := IndexNodes(declaration.Nodes(), map[]).value;
    IndexIsValid(declaration.Nodes(), map[]);
  }

  lemma FamiliesAreComplete(nodes: seq<Node>, byId: map<string, Node>, selectors: Registry)
    requires ValidIndex(byId) && forall node | node in nodes :: Indexed(node, byId)
    requires forall id | id in byId :: byId[id] in nodes
    requires forall i, j | 0 <= i < j < |nodes| :: nodes[i].id != nodes[j].id
    requires FamiliesOf(nodes, byId, selectors).Ok?
    ensures Complete(FamiliesOf(nodes, byId, selectors).value, byId, selectors)
  {
    FamiliesMeaning(nodes, byId, selectors);
    var families := FamiliesOf(nodes, byId, selectors).value;
    forall i | 0 <= i < |families| ensures families[i].node == nodes[i] && Resolved(families[i], byId, selectors) {
      FamilyShape(nodes[i], byId, selectors);
    }
    forall id | id in byId
      ensures HasFamily(byId[id], byId, selectors) && FamilyOf(byId[id], byId, selectors).value in families
    {
      var i :| 0 <= i < |nodes| && nodes[i] == byId[id];
      assert families[i] in families;
    }
  }

  lemma {:induction false} PositiveMeaning(id: string, patterns: seq<string>)
    ensures CheckPositive(id, patterns).Ok? <==> forall pattern | pattern in patterns :: !IsNegated(pattern)
  {
    if patterns != [] {
      PositiveMeaning(id, patterns[1..]);
      assert patterns == [patterns[0]] + patterns[1..];
    }
  }

  lemma {:induction false} PositiveIgnoresOfChain(chain: seq<Node>)
    requires forall node | node in chain :: Declare(node).Ok?
    ensures forall pattern | pattern in AllIgnores(chain) :: !IsNegated(pattern)
  {
    if chain != [] {
      assert chain[0] in chain;
      PositiveIgnoresOfChain(chain[1..]);
      PositiveMeaning(chain[0].id, chain[0].files);
      PositiveMeaning(chain[0].id, chain[0].ignores);
    }
  }

  /** What acceptance establishes, in the terms the proofs use. */
  ghost predicate Accepted(families: seq<Family>, byId: map<string, Node>, selectors: Registry, order: seq<string>) {
    ValidIndex(byId) && Complete(families, byId, selectors) && PairwiseCompatible(families) &&
    Emittable(SortBy(DepthOf, families)) && (forall id | id in selectors :: id in order) &&
    forall id | id in byId && byId[id].Policy? :: byId[id].selectors != []
  }

  lemma FamilyIsEmittable(families: seq<Family>, byId: map<string, Node>, selectors: Registry, family: Family)
    requires ValidIndex(byId) && Complete(families, byId, selectors) && family in families
    requires forall id | id in byId :: Declare(byId[id]).Ok?
    ensures family.fileGroups != [] && forall pattern | pattern in family.ignores :: !IsNegated(pattern)
  {
    CompleteChains(families, byId, selectors, family);
    FamilyShape(family.node, byId, selectors);
    forall node | node in family.chain ensures Declare(node).Ok? {
      var i :| 0 <= i < |family.chain| && family.chain[i] == node;
      assert HasFamily(family.chain[i], byId, selectors);
    }
    PositiveIgnoresOfChain(family.chain);
  }

  lemma CompleteIsEmittable(families: seq<Family>, byId: map<string, Node>, selectors: Registry)
    requires ValidIndex(byId) && Complete(families, byId, selectors)
    requires forall id | id in byId :: Declare(byId[id]).Ok?
    ensures Emittable(SortBy(DepthOf, families))
  {
    SortSorts(DepthOf, families);
    SameMembers(SortBy(DepthOf, families), families);
    forall family | family in families
      ensures family.fileGroups != [] && forall pattern | pattern in family.ignores :: !IsNegated(pattern)
    {
      FamilyIsEmittable(families, byId, selectors, family);
    }
  }

  lemma AcceptanceMeaning(declaration: Declaration) returns (byId: map<string, Node>)
    requires declaration.Authored() && Resolve(declaration).Ok?
    ensures Ok(byId) == IndexNodes(declaration.Nodes(), map[])
    ensures Accepted(Resolve(declaration).value, byId, declaration.selectors, declaration.order)
  {
    byId := AcceptedParts(declaration);
    FamiliesAreComplete(declaration.Nodes(), byId, declaration.selectors);
    UnambiguousMeaning(Resolve(declaration).value);
    CoveredMeaning(declaration.keys, declaration.order);
    forall id | id in byId ensures Declare(byId[id]).Ok? {
      assert byId[id] in declaration.policies || byId[id] in declaration.exceptions;
    }
    CompleteIsEmittable(Resolve(declaration).value, byId, declaration.selectors);
  }

  /** The emitted configs: parent before child. */
  function Configs(declaration: Declaration, families: seq<Family>): seq<Config>
    requires forall family | family in SortBy(DepthOf, families) :: family.fileGroups != []
  {
    EmitAll(SortBy(DepthOf, families), declaration.selectors, declaration.order)
  }

  // ---- The flat list means the tree ----

  /** What the tree says about the paths whose deepest family is `family`. */
  function Decision(family: Family, byId: map<string, Node>, selectors: Registry, order: seq<string>): Entry
    requires ValidIndex(byId) && Resolved(family, byId, selectors)
  {
    if family.selectorIds != [] then Present(2, Reported(family, selectors, order))
    else if family.node.Parent().Some? then
      FamilyShape(family.node, byId, selectors);
      ChainStep(family.node, byId);
      var parent := FamilyOf(byId[family.node.Parent().value], byId, selectors);
      Present(0, if parent.Ok? then Reported(parent.value, selectors, order) else [])
    else Present(0, [])
  }

  /** A policy's family always carries the policy's own selectors. */
  lemma PolicyFamiliesReport(family: Family, byId: map<string, Node>, selectors: Registry, order: seq<string>)
    requires ValidIndex(byId) && Resolved(family, byId, selectors)
    requires family.node.Policy? && family.node.selectors != []
    requires forall id | id in selectors :: id in order
    ensures Reported(family, selectors, order) != []
  {
    FamilyShape(family.node, byId, selectors);
    FamilySelectors(family, byId, selectors);
    var id := family.node.selectors[0];
    assert family.node in family.chain;
    assert Added(family.chain, id);
    forall node | node in family.chain ensures node.Policy? {
      var i :| 0 <= i < |family.chain| && family.chain[i] == node;
      ChainPrefixes(family.node, byId, i);
    }
    assert id in family.selectorIds;
    RuleIsOffOnlyWhenEmpty(family, byId, selectors, order);
  }

  lemma FoldOfLineage(family: Family, byId: map<string, Node>, selectors: Registry, order: seq<string>)
    requires ValidIndex(byId) && Resolved(family, byId, selectors) && AllHaveFamilies(family.chain, byId, selectors)
    requires forall i | 0 <= i < |family.chain| :: family.chain[i].Policy? ==> family.chain[i].selectors != []
    requires forall id | id in selectors :: id in order
    ensures Fold(Lineage(family.chain, byId, selectors), selectors, order) == Decision(family, byId, selectors, order)
  {
    hide FamilyOf, ChainOf, FilesOf, SortedIds, Lookup;
    FamilyShape(family.node, byId, selectors);
    RuleIsOffOnlyWhenEmpty(family, byId, selectors, order);
    var lineage := Lineage(family.chain, byId, selectors);
    var n := |lineage|;
    assert lineage[n - 1] == family;
    if family.selectorIds == [] {
      if family.node.Policy? {
        PolicyFamiliesReport(family, byId, selectors, order);
        assert false;
      }
      ChainStep(family.node, byId);
      var parentNode := byId[family.node.policy];
      FamilyShapeOfParent(family, byId, selectors);
      var parent := FamilyOf(parentNode, byId, selectors).value;
      assert lineage[..n - 1][n - 2] == parent;
      FamilyShape(parentNode, byId, selectors);
      PolicyFamiliesReport(parent, byId, selectors, order);
    }
  }

  /** The node before the last of a chain is the parent of the last. */
  lemma FamilyShapeOfParent(family: Family, byId: map<string, Node>, selectors: Registry)
    requires ValidIndex(byId) && Resolved(family, byId, selectors) && AllHaveFamilies(family.chain, byId, selectors)
    requires family.node.Parent().Some?
    ensures |family.chain| >= 2 && family.node.Parent().value in byId
    ensures family.chain[|family.chain| - 2] == byId[family.node.Parent().value]
    ensures HasFamily(byId[family.node.Parent().value], byId, selectors)
  {
    FamilyShape(family.node, byId, selectors);
    ChainStep(family.node, byId);
    var above := ChainOf(byId[family.node.Parent().value], byId).value;
    ChainStep(byId[family.node.Parent().value], byId);
    assert family.chain == above + [family.node];
    assert above[|above| - 1] == family.chain[|family.chain| - 2];
    ChainPrefixes(byId[family.node.Parent().value], byId, |above| - 1);
  }

  /** `order` lists exactly the registered selectors, each once. */
  lemma {:induction false} OrderMeaning(order: seq<string>, i: nat, selectors: Registry)
    requires i <= |order|
    requires forall j | 0 <= j < i :: order[j] in selectors && order[j] !in order[..j] && order[j] !in order[j + 1..]
    ensures CheckOrder(order, i, selectors).Ok? <==>
            NoRepeats(order) && forall id | id in order :: id in selectors
    decreases |order| - i
  {
    if i < |order| {
      if order[i] in selectors && order[i] !in order[..i] && order[i] !in order[i + 1..] {
        OrderMeaning(order, i + 1, selectors);
      } else if order[i] in order[i + 1..] {
        var k :| 0 <= k < |order[i + 1..]| && order[i + 1..][k] == order[i];
        assert order[i + 1 + k] == order[i];
      }
    } else {
      forall j, k | 0 <= j < k < |order| ensures order[j] != order[k] {
        assert order[j + 1..][k - j - 1] == order[k];
      }
    }
  }

  lemma {:induction false} CoveredMeaning(keys: seq<string>, order: seq<string>)
    ensures CheckCovered(keys, order).Ok? <==> forall id | id in keys :: id in order
  {
    if keys != [] {
      CoveredMeaning(keys[1..], order);
      assert keys == [keys[0]] + keys[1..];
    }
  }

  /** No matching family: the path gets no entry. */
  lemma UnmatchedPathsGetNothing(declaration: Declaration, path: string)
    requires declaration.Authored() && Resolve(declaration).Ok?
    requires forall family | family in Resolve(declaration).value :: !FamilyMatches(family, path)
    ensures Emittable(SortBy(DepthOf, Resolve(declaration).value))
    ensures ResolvePath(Configs(declaration, Resolve(declaration).value), path) == Absent
  {
    var families := Resolve(declaration).value;
    var byId := AcceptanceMeaning(declaration);
    var sorted := SortBy(DepthOf, families);
    ResolutionIsFold(sorted, declaration.selectors, declaration.order, path);
    MatchingMembers(families, path);
    assert forall i | 0 <= i < |Matching(sorted, path)| :: Matching(sorted, path)[i] in Matching(sorted, path);
  }

  /** On an accepted tree the fold over the sorted families is the deepest family's decision. */
  lemma DeepestDecides(families: seq<Family>, byId: map<string, Node>, selectors: Registry, order: seq<string>,
                       path: string)
      returns (deepest: Family)
    requires Accepted(families, byId, selectors, order) && Matching(families, path) != []
    ensures Deepest(deepest, families, path) && Resolved(deepest, byId, selectors)
    ensures AllHaveFamilies(deepest.chain, byId, selectors)
    ensures ResolvePath(EmitAll(SortBy(DepthOf, families), selectors, order), path) ==
            Decision(deepest, byId, selectors, order)
  {
    ResolutionIsFold(SortBy(DepthOf, families), selectors, order, path);
    deepest := MatchingIsLineage(families, byId, selectors, path);
    CompleteChains(families, byId, selectors, deepest);
    forall i | 0 <= i < |deepest.chain| && deepest.chain[i].Policy? ensures deepest.chain[i].selectors != [] {
      assert HasFamily(deepest.chain[i], byId, selectors);
    }
    FoldOfLineage(deepest, byId, selectors, order);
  }

  lemma DecisionMeaning(family: Family, byId: map<string, Node>, selectors: Registry, order: seq<string>)
      returns (ids: seq<string>)
    requires ValidIndex(byId) && Resolved(family, byId, selectors)
    requires forall id | id in selectors :: id in order
    ensures forall id :: id in ids <==> Added(family.chain, id) && !Removed(family.chain, id)
    ensures forall i, j | 0 <= i < j < |ids| :: PositionIn(order, ids[i]) < PositionIn(order, ids[j])
    ensures Registered(ids, selectors)
    ensures ids != [] ==> Decision(family, byId, selectors, order) == Present(2, Lookup(ids, selectors))
    ensures ids == [] ==>
              Decision(family, byId, selectors, order).Present? &&
              Decision(family, byId, selectors, order).severity == 0
  {
    FamilySelectors(family, byId, selectors);
    SortedIdsMeaning(family.selectorIds, order);
    ids := SortedIds(family.selectorIds, order);
  }

  /** The whole chain of a matching family matches, and only its end can be an exception. */
  lemma DeepestChain(families: seq<Family>, byId: map<string, Node>, selectors: Registry, deepest: Family, path: string)
    requires ValidIndex(byId) && Complete(families, byId, selectors)
    requires Resolved(deepest, byId, selectors) && FamilyMatches(deepest, path)
    requires AllHaveFamilies(deepest.chain, byId, selectors)
    ensures forall node | node in deepest.chain ::
              exists family | family in families :: family.node == node && FamilyMatches(family, path)
    ensures forall i | 0 <= i < |deepest.chain| - 1 :: deepest.chain[i].Policy?
  {
    FamilyShape(deepest.node, byId, selectors);
    forall i | 0 <= i < |deepest.chain| - 1 ensures deepest.chain[i].Policy? {
      ChainPrefixes(deepest.node, byId, i);
    }
    forall node | node in deepest.chain
      ensures exists family | family in families :: family.node == node && FamilyMatches(family, path)
    {
      var i :| 0 <= i < |deepest.chain| && deepest.chain[i] == node;
      assert HasFamily(deepest.chain[i], byId, selectors);
      AncestorsMatch(deepest, byId, selectors, i, path);
      FamilyShape(node, byId, selectors);
      assert FamilyOf(byId[node.id], byId, selectors).value in families;
    }
  }

  /**
   The main result.  For every accepted declaration and every path some family
   matches: the matching families are one ancestor chain ending in `deepest`,
   and last-match-wins over the emitted list reports exactly the ids that chain
   adds minus those it removes, in `order`; with no id left the rule is off.
   */
  lemma FlatListMeansTree(declaration: Declaration, path: string) returns (deepest: Family, ids: seq<string>)
    requires declaration.Authored() && Resolve(declaration).Ok?
    requires Matching(Resolve(declaration).value, path) != []
    ensures Emittable(SortBy(DepthOf, Resolve(declaration).value))
    ensures Deepest(deepest, Resolve(declaration).value, path)
    ensures forall node | node in deepest.chain ::
              exists family | family in Resolve(declaration).value :: family.node == node && FamilyMatches(family, path)
    ensures forall i | 0 <= i < |deepest.chain| - 1 :: deepest.chain[i].Policy?
    ensures forall id :: id in ids <==> Added(deepest.chain, id) && !Removed(deepest.chain, id)
    ensures forall i, j | 0 <= i < j < |ids| ::
              PositionIn(declaration.order, ids[i]) < PositionIn(declaration.order, ids[j])
    ensures Registered(ids, declaration.selectors)
    ensures var entry := ResolvePath(Configs(declaration, Resolve(declaration).value), path);
            if ids != [] then entry == Present(2, Lookup(ids, declaration.selectors))
            else (entry.Present? && entry.severity == 0)
  {
    var families, selectors := Resolve(declaration).value, declaration.selectors;
    var byId := AcceptanceMeaning(declaration);
    deepest := DeepestDecides(families, byId, selectors, declaration.order, path);
    ids := DecisionMeaning(deepest, byId, selectors, declaration.order);
    DeepestChain(families, byId, selectors, deepest, path);
  }
}
