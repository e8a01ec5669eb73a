/** The authored order of policies and exceptions decides nothing. */
module PolicyOrder {
  import opened Wrappers
  import opened RestrictedSyntax
  import opened FlatConfig
  import opened PolicyTree
  import opened PolicyMeaning
  import opened Sequences

  lemma {:induction false} IndexSucceeds(nodes: seq<Node>, byId: map<string, Node>)
    requires forall i, j | 0 <= i < j < |nodes| :: nodes[i].id != nodes[j].id
    requires forall i | 0 <= i < |nodes| :: nodes[i].id !in byId
    ensures IndexNodes(nodes, byId).Ok?
  {
    if nodes != [] {
      IndexSucceeds(nodes[1..], byId[nodes[0].id := nodes[0]]);
    }
  }

  lemma {:induction false} IndexFamiliesMeaning(families: seq<Family>)
    ensures forall id | id in IndexFamilies(families) ::
              IndexFamilies(families)[id] in families && IndexFamilies(families)[id].node.id == id
    ensures forall family | family in families :: family.node.id in IndexFamilies(families)
  {
    if families != [] {
      var init, last := families[..|families| - 1], families[|families| - 1];
      IndexFamiliesMeaning(init);
      assert families == init + [last];
    }
  }

  lemma {:induction false} NarrowingMeaning(families: seq<Family>, familyById: map<string, Family>)
    ensures CheckNarrowing(families, familyById).Ok? <==>
            forall i | 0 <= i < |families| ::
              families[i].node.Parent().Some? && families[i].node.Parent().value in familyById ==>
                NarrowsParent(families[i], familyById[families[i].node.Parent().value])
  {
    if families != [] {
      NarrowingMeaning(families[1..], familyById);
      assert forall i | 0 < i < |families| :: families[i] == families[1..][i - 1];
      assert forall i | 0 <= i < |families[1..]| :: families[1..][i] == families[i + 1];
    }
  }

  /** Two complete lists over one index hold the same families. */
  lemma CompleteListsAgree(xs: seq<Family>, ys: seq<Family>, byId: map<string, Node>, selectors: Registry)
    requires ValidIndex(byId) && Complete(xs, byId, selectors) && Complete(ys, byId, selectors)
    ensures forall family :: family in xs <==> family in ys
  {
  }

  lemma IndexIsResolution(xs: seq<Family>, byId: map<string, Node>, selectors: Registry)
    requires ValidIndex(byId) && Complete(xs, byId, selectors)
    ensures forall id :: id in IndexFamilies(xs) <==> id in byId
    ensures forall id | id in byId ::
              HasFamily(byId[id], byId, selectors) && IndexFamilies(xs)[id] == FamilyOf(byId[id], byId, selectors).value
  {
    IndexFamiliesMeaning(xs);
    forall id | id in byId
      ensures id in IndexFamilies(xs) && IndexFamilies(xs)[id] == FamilyOf(byId[id], byId, selectors).value
    {
      assert HasFamily(byId[id], byId, selectors);
      FamilyShape(byId[id], byId, selectors);
      assert Resolved(IndexFamilies(xs)[id], byId, selectors);
    }
    forall id | id in IndexFamilies(xs) ensures id in byId {
      assert Resolved(IndexFamilies(xs)[id], byId, selectors);
    }
  }

  lemma IndexedFamiliesAgree(xs: seq<Family>, ys: seq<Family>, byId: map<string, Node>, selectors: Registry)
    requires ValidIndex(byId) && Complete(xs, byId, selectors) && Complete(ys, byId, selectors)
    ensures IndexFamilies(xs) == IndexFamilies(ys)
  {
    IndexIsResolution(xs, byId, selectors);
    IndexIsResolution(ys, byId, selectors);
  }

  /** The narrowing check sees a set of families, not a list. */
  lemma NarrowingIgnoresOrder(xs: seq<Family>, ys: seq<Family>, familyById: map<string, Family>)
    requires forall family :: family in xs <==> family in ys
    requires CheckNarrowing(xs, familyById).Ok?
    ensures CheckNarrowing(ys, familyById).Ok?
  {
    NarrowingMeaning(xs, familyById);
    NarrowingMeaning(ys, familyById);
    forall i | 0 <= i < |ys| ensures exists k :: 0 <= k < |xs| && xs[k] == ys[i] {
      assert ys[i] in xs;
    }
  }

  /** The disjointness check sees a set of families, not a list. */
  lemma UnambiguousIgnoresOrder(xs: seq<Family>, ys: seq<Family>)
    requires forall family :: family in xs <==> family in ys
    requires forall i, j | 0 <= i < j < |ys| :: ys[i] != ys[j]
    requires PairwiseCompatible(xs)
    ensures PairwiseCompatible(ys)
  {
    forall i, j | 0 <= i < j < |ys| ensures Compatible(ys[i], ys[j]) {
      assert ys[i] in xs && ys[j] in xs;
      var k :| 0 <= k < |xs| && xs[k] == ys[i];
      var l :| 0 <= l < |xs| && xs[l] == ys[j];
      if k < l {
        assert Compatible(xs[k], xs[l]);
      } else {
        assert Compatible(xs[l], xs[k]);
        CompatibleIsSymmetric(xs[l], xs[k]);
      }
    }
  }

  lemma ChecksIgnoreOrder(xs: seq<Family>, ys: seq<Family>, byId: map<string, Node>, selectors: Registry)
    requires ValidIndex(byId) && Complete(xs, byId, selectors) && Complete(ys, byId, selectors)
    requires CheckNarrowing(xs, IndexFamilies(xs)).Ok? && CheckUnambiguous(xs).Ok?
    ensures CheckNarrowing(ys, IndexFamilies(ys)).Ok? && CheckUnambiguous(ys).Ok?
  {
    CompleteListsAgree(xs, ys, byId, selectors);
    IndexedFamiliesAgree(xs, ys, byId, selectors);
    NarrowingIgnoresOrder(xs, ys, IndexFamilies(xs));
    UnambiguousMeaning(xs);
    UnambiguousMeaning(ys);
    UnambiguousIgnoresOrder(xs, ys);
  }

  /** `e` declares the same nodes as `d`, authored in another order. */
  ghost predicate Reordered(d: Declaration, e: Declaration) {
    d.Authored() && e.Authored() && d.selectors == e.selectors && d.order == e.order &&
    multiset(d.policies) == multiset(e.policies) && multiset(d.exceptions) == multiset(e.exceptions)
  }

  lemma ReorderedNodes(d: Declaration, e: Declaration)
    requires Reordered(d, e)
    ensures multiset(d.Nodes()) == multiset(e.Nodes())
    ensures forall node :: node in d.Nodes() <==> node in e.Nodes()
  {
    SameMembers(d.Nodes(), e.Nodes());
  }

  /** Distinct ids are a property of the set of nodes. */
  lemma DistinctIdsCarryOver(xs: seq<Node>, ys: seq<Node>)
    requires multiset(xs) == multiset(ys)
    requires forall i, j | 0 <= i < j < |xs| :: xs[i].id != xs[j].id
    ensures forall i, j | 0 <= i < j < |ys| :: ys[i].id != ys[j].id
  {
    SameMembers(xs, ys);
    assert NoRepeats(xs);
    NoRepeatsMeansOnce(xs);
    NoRepeatsMeansOnce(ys);
    forall i, j | 0 <= i < j < |ys| ensures ys[i].id != ys[j].id {
      assert ys[i] in ys && ys[j] in ys;
      var k :| 0 <= k < |xs| && xs[k] == ys[i];
      var l :| 0 <= l < |xs| && xs[l] == ys[j];
      assert ys[i] != ys[j];
    }
  }

  lemma SameNodesSameIndex(xs: seq<Node>, ys: seq<Node>)
    requires forall node :: node in xs <==> node in ys
    requires IndexNodes(xs, map[]).Ok? && IndexNodes(ys, map[]).Ok?
    ensures IndexNodes(xs, map[]) == IndexNodes(ys, map[])
  {
    IndexIsValid(xs, map[]);
    IndexIsValid(ys, map[]);
    var byId, other := IndexNodes(xs, map[]).value, IndexNodes(ys, map[]).value;
    forall id | id in byId ensures id in other && other[id] == byId[id] {
      assert byId[id] in ys && Indexed(byId[id], other);
    }
    forall id | id in other ensures id in byId {
      assert other[id] in xs && Indexed(other[id], byId);
    }
    assert byId == other;
  }

  lemma ReorderedIndex(d: Declaration, e: Declaration) returns (byId: map<string, Node>)
    requires Reordered(d, e) && Resolve(d).Ok?
    ensures IndexNodes(d.Nodes(), map[]) == Ok(byId) && IndexNodes(e.Nodes(), map[]) == Ok(byId)
  {
    byId := AcceptedParts(d);
    ReorderedNodes(d, e);
    DistinctIdsCarryOver(d.Nodes(), e.Nodes());
    IndexSucceeds(e.Nodes(), map[]);
    SameNodesSameIndex(d.Nodes(), e.Nodes());
  }

  /** Reordering the authored nodes keeps acceptance. */
  lemma ReorderingKeepsAcceptance(d: Declaration, e: Declaration)
    requires Reordered(d, e) && Resolve(d).Ok?
    ensures Resolve(e).Ok?
  {
    var byId := AcceptedParts(d);
    var sameIndex := ReorderedIndex(d, e);
    ReorderedNodes(d, e);
    CoveredMeaning(d.keys, d.order);
    CoveredMeaning(e.keys, e.order);
    IndexIsValid(e.Nodes(), map[]);
    FamiliesMeaning(d.Nodes(), byId, d.selectors);
    FamiliesMeaning(e.Nodes(), byId, d.selectors);
    forall i | 0 <= i < |e.Nodes()| ensures FamilyOf(e.Nodes()[i], byId, d.selectors).Ok? {
      assert e.Nodes()[i] in d.Nodes();
      var k :| 0 <= k < |d.Nodes()| && d.Nodes()[k] == e.Nodes()[i];
    }
    FamiliesAreComplete(d.Nodes(), byId, d.selectors);
    FamiliesAreComplete(e.Nodes(), byId, d.selectors);
    ChecksIgnoreOrder(FamiliesOf(d.Nodes(), byId, d.selectors).value, FamiliesOf(e.Nodes(), byId, d.selectors).value,
                      byId, d.selectors);
  }

  /** One index has one deepest family per path. */
  lemma DeepestIsUnique(x: Family, y: Family, families: seq<Family>, byId: map<string, Node>, selectors: Registry,
                        path: string)
    requires ValidIndex(byId) && Complete(families, byId, selectors)
    requires Deepest(x, families, path) && Deepest(y, families, path)
    ensures x == y
  {
    assert Resolved(x, byId, selectors) && Resolved(y, byId, selectors);
    NestedDepths(x, y, byId, selectors);
    NestedDepths(y, x, byId, selectors);
  }

  lemma NoMatchNoEntry(families: seq<Family>, selectors: Registry, order: seq<string>, path: string)
    requires Emittable(SortBy(DepthOf, families))
    requires forall family | family in families :: !FamilyMatches(family, path)
    ensures ResolvePath(EmitAll(SortBy(DepthOf, families), selectors, order), path) == Absent
  {
    var matching := Matching(SortBy(DepthOf, families), path);
    MatchingMembers(families, path);
    if matching != [] {
      HeadIsMember(matching);
      assert false;
    }
    ResolutionIsFold(SortBy(DepthOf, families), selectors, order, path);
  }

  /** The same index and the same members resolve every path to the same entry. */
  lemma SameFamiliesSameEntry(xs: seq<Family>, ys: seq<Family>, byId: map<string, Node>, selectors: Registry,
                              order: seq<string>, path: string)
    requires Accepted(xs, byId, selectors, order) && Accepted(ys, byId, selectors, order)
    ensures ResolvePath(EmitAll(SortBy(DepthOf, xs), selectors, order), path) ==
            ResolvePath(EmitAll(SortBy(DepthOf, ys), selectors, order), path)
  {
    CompleteListsAgree(xs, ys, byId, selectors);
    if exists family | family in xs :: FamilyMatches(family, path) {
      var family :| family in xs && FamilyMatches(family, path);
      assert family in Matching(xs, path) && family in Matching(ys, path);
      var x := DeepestDecides(xs, byId, selectors, order, path);
      var y := DeepestDecides(ys, byId, selectors, order, path);
      assert Deepest(y, xs, path);
      DeepestIsUnique(x, y, xs, byId, selectors, path);
    } else {
      NoMatchNoEntry(xs, selectors, order, path);
      NoMatchNoEntry(ys, selectors, order, path);
    }
  }

  /**
   Authoring order is irrelevant: a reordered declaration is accepted exactly
   when the original is, and then resolves every path to the same entry, down
   to the order of the reported selectors.
   */
  lemma AuthoringOrderIsIrrelevant(d: Declaration, e: Declaration)
    requires Reordered(d, e)
    ensures Resolve(d).Ok? <==> Resolve(e).Ok?
    ensures Resolve(d).Ok? ==>
              Emittable(SortBy(DepthOf, Resolve(d).value)) && Emittable(SortBy(DepthOf, Resolve(e).value)) &&
              forall path ::
                ResolvePath(Configs(d, Resolve(d).value), path) == ResolvePath(Configs(e, Resolve(e).value), path)
  {
    assert Reordered(e, d);
    if Resolve(e).Ok? {
      ReorderingKeepsAcceptance(e, d);
    }
    if Resolve(d).Ok? {
      ReorderingKeepsAcceptance(d, e);
      var byId := ReorderedIndex(d, e);
      var byIdD := AcceptanceMeaning(d);
      var byIdE := AcceptanceMeaning(e);
      forall path
        ensures ResolvePath(Configs(d, Resolve(d).value), path) == ResolvePath(Configs(e, Resolve(e).value), path)
      {
        SameFamiliesSameEntry(Resolve(d).value, Resolve(e).value, byId, d.selectors, d.order, path);
      }
    }
  }
}
