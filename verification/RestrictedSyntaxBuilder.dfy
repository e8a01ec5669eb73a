/** The builder's loops, each computing the value its specification function names. */
module RestrictedSyntaxBuilder {
  import opened Wrappers
  import opened RestrictedSyntax
  import opened PolicyTree
  import opened PolicyMeaning
  import opened Sequences

  method BuildIndex(nodes: seq<Node>) returns (r: Result<map<string, Node>, Failure>)
    ensures r == IndexNodes(nodes, map[])
  {
    var byId: map<string, Node> := map[];
    for i := 0 to |nodes|
      invariant IndexNodes(nodes[i..], byId) == IndexNodes(nodes, map[])
    {
      assert nodes[i..][1..] == nodes[i + 1..];
      if nodes[i].id in byId {
        return Err(DuplicateNode(nodes[i].id));
      }
      byId := byId[nodes[i].id := nodes[i]];
    }
    return Ok(byId);
  }

  /** Walks up `within`, unshifting each node, until the root or a failure. */
  method BuildChain(node: Node, byId: map<string, Node>) returns (r: Result<seq<Node>, Failure>)
    requires ValidIndex(byId) && Indexed(node, byId)
    ensures r == ChainOf(node, byId)
  {
    var chain: seq<Node> := [];
    var current := node;
    while true
      invariant Indexed(current, byId) && forall member | member in chain :: Indexed(member, byId)
      invariant Climb(node.id, current, chain, byId) == ChainOf(node, byId)
      decreases byId.Keys - Ids(chain)
    {
      if current in chain {
        return Err(WithinCycle(node.id));
      }
      assert forall member | member in chain ::
               Indexed(member, byId) && (member.id == current.id ==> member == byId[current.id]);
      assert current.id !in Ids(chain);
      ghost var before := chain;
      chain := [current] + chain;
      assert current.id in Ids(chain) && Ids(before) <= Ids(chain);
      match current.Parent() {
        case None =>
          return Ok(chain);
        case Some(parent) =>
          if parent !in byId {
            return Err(UnknownParent(current.id, parent));
          }
          if byId[parent].Exception? {
            return Err(ExceptionParent(current.id, parent));
          }
          current := byId[parent];
      }
    }
  }

  method ApplyPolicy(node: Node, selectors: Registry, start: seq<string>) returns (r: Result<seq<string>, Failure>)
    requires node.Policy?
    ensures r == Apply(node, selectors, start)
  {
    var applied := start;
    for i := 0 to |node.selectors|
      invariant AddSelectors(node.id, node.selectors[i..], selectors, applied) == Apply(node, selectors, start)
    {
      var id := node.selectors[i];
      assert node.selectors[i..][1..] == node.selectors[i + 1..];
      if id !in selectors {
        return Err(UnknownSelector(node.id, id));
      }
      if id in applied {
        return Err(ReAddedSelector(node.id, id));
      }
      applied := applied + [id];
    }
    return Ok(applied);
  }

  /** Finds each removed id by position and splices it out. */
  method ApplyException(node: Node, selectors: Registry, start: seq<string>) returns (r: Result<seq<string>, Failure>)
    requires node.Exception?
    ensures r == Apply(node, selectors, start)
  {
    var applied := start;
    for i := 0 to |node.remove|
      invariant RemoveSelectors(node.id, node.remove[i..], selectors, applied) == Apply(node, selectors, start)
    {
      var id := node.remove[i];
      assert node.remove[i..][1..] == node.remove[i + 1..];
      if id !in selectors {
        return Err(UnknownSelector(node.id, id));
      }
      var index := PositionIn(applied, id);
      if index == -1 {
        return Err(NeverApplied(node.id, id));
      }
      applied := applied[..index] + applied[index + 1..];
    }
    return Ok(applied);
  }

  method ComposeSelectorIds(chain: seq<Node>, selectors: Registry) returns (r: Result<seq<string>, Failure>)
    ensures r == Compose(chain, selectors, [])
  {
    var applied: seq<string> := [];
    for i := 0 to |chain|
      invariant Compose(chain[i..], selectors, applied) == Compose(chain, selectors, [])
    {
      assert chain[i..][1..] == chain[i + 1..];
      var next;
      if chain[i].Policy? {
        next := ApplyPolicy(chain[i], selectors, applied);
      } else {
        next := ApplyException(chain[i], selectors, applied);
      }
      if next.Err? {
        return next;
      }
      applied := next.value;
    }
    return Ok(applied);
  }

  function Prepend(done: seq<Family>, rest: Result<seq<Family>, Failure>): (r: Result<seq<Family>, Failure>)
    ensures done == [] ==> r == rest
    ensures rest == Ok([]) ==> r == Ok(done)
  {
    match rest
    case Ok(families) =>
      assert done == [] ==> done + families == families;
      assert families == [] ==> done + families == done;
      Ok(done + families)
    case Err(error) => Err(error)
  }

  lemma PrependStep(done: seq<Family>, nodes: seq<Node>, byId: map<string, Node>, selectors: Registry)
    requires nodes != [] && ValidIndex(byId) && forall node | node in nodes :: Indexed(node, byId)
    requires FamilyOf(nodes[0], byId, selectors).Ok?
    ensures Prepend(done, FamiliesOf(nodes, byId, selectors)) ==
            Prepend(done + [FamilyOf(nodes[0], byId, selectors).value], FamiliesOf(nodes[1..], byId, selectors))
  {
    hide FamilyOf, ValidIndex, Indexed;
    var first := FamilyOf(nodes[0], byId, selectors).value;
    var rest := FamiliesOf(nodes[1..], byId, selectors);
    assert rest.Ok? ==> done + ([first] + rest.value) == (done + [first]) + rest.value;
  }

  method BuildFamily(node: Node, byId: map<string, Node>, selectors: Registry) returns (r: Result<Family, Failure>)
    requires ValidIndex(byId) && Indexed(node, byId)
    ensures r == FamilyOf(node, byId, selectors)
  {
    var chain := BuildChain(node, byId);
    if chain.Err? {
      return Err(chain.error);
    }
    ChainStep(node, byId);
    var ids := ComposeSelectorIds(chain.value, selectors);
    if ids.Err? {
      return Err(ids.error);
    }
    return Ok(Family(chain.value[|chain.value| - 1], |chain.value| - 1, chain.value, FilesOf(chain.value),
                     Distinct(AllIgnores(chain.value)), ids.value));
  }

  method ResolveFamilies(nodes: seq<Node>, byId: map<string, Node>, selectors: Registry)
      returns (r: Result<seq<Family>, Failure>)
    requires ValidIndex(byId) && forall node | node in nodes :: Indexed(node, byId)
    ensures r == FamiliesOf(nodes, byId, selectors)
  {
    var families: seq<Family> := [];
    assert nodes[0..] == nodes;
    for i := 0 to |nodes|
      invariant FamiliesOf(nodes, byId, selectors) == Prepend(families, FamiliesOf(nodes[i..], byId, selectors))
    {
      assert nodes[i..][1..] == nodes[i + 1..];
      var family := BuildFamily(nodes[i], byId, selectors);
      if family.Err? {
        return Err(family.error);
      }
      PrependStep(families, nodes[i..], byId, selectors);
      families := families + [family.value];
    }
    return Ok(families);
  }

  /** Compares every family with every later one. */
  method CheckPairs(families: seq<Family>) returns (r: Result<(), Failure>)
    ensures r == CheckUnambiguous(families)
  {
    for i := 0 to |families|
      invariant CheckUnambiguous(families[i..]) == CheckUnambiguous(families)
    {
      assert families[i..][1..] == families[i + 1..];
      for j := i + 1 to |families|
        invariant CheckAgainst(families[i], families[j..]) == CheckAgainst(families[i], families[i + 1..])
      {
        assert families[j..][1..] == families[j + 1..];
        if !Compatible(families[i], families[j]) {
          return Err(Ambiguous(families[i].node.id, families[j].node.id));
        }
      }
    }
    return Ok(());
  }

  /** The cartesian product, own patterns first, as a reassigned list of combinations. */
  method IntersectGroups(groups: seq<seq<string>>) returns (files: seq<FileEntry>)
    requires groups != []
    ensures files == IntersectFileGroups(groups)
  {
    var combinations: seq<seq<string>> := [[]];
    var i := |groups|;
    assert groups[..i] == groups;
    while i > 0
      invariant 0 <= i <= |groups|
      invariant Product(groups[..i], combinations) == Product(groups, [[]])
    {
      i := i - 1;
      assert groups[..i + 1][..i] == groups[..i];
      combinations := ExtendAll(combinations, groups[i]);
    }
    ProductsAreNonEmpty(groups, [[]]);
    files := EntriesOf(combinations);
  }

  /** One config entry, its `files` distributed by the loop. */
  method EmitConfig(family: Family, selectors: Registry, order: seq<string>) returns (config: Config)
    requires family.fileGroups != []
    ensures config == Emit(family, selectors, order)
  {
    var files := IntersectGroups(family.fileGroups);
    var name := "musi/restricted-syntax/" + family.node.id;
    config := Config(name, files, family.ignores, RuleOf(family, selectors, order));
  }

  method EmitConfigs(families: seq<Family>, selectors: Registry, order: seq<string>) returns (configs: seq<Config>)
    requires forall family | family in families :: family.fileGroups != []
    ensures configs == EmitAll(families, selectors, order)
  {
    hide Emit;
    configs := [];
    for i := 0 to |families|
      invariant |configs| == i && forall k | 0 <= k < i :: configs[k] == Emit(families[k], selectors, order)
    {
      var config := EmitConfig(families[i], selectors, order);
      configs := configs + [config];
    }
  }

  /** The whole build, failing where the source fails and with the same failure. */
  method Build(declaration: Declaration) returns (r: Result<seq<Config>, Failure>)
    ensures r.Err? <==> Resolve(declaration).Err?
    ensures r.Err? ==> r.error == Resolve(declaration).error
    ensures r.Ok? ==>
              (forall family | family in SortBy(DepthOf, Resolve(declaration).value) :: family.fileGroups != []) &&
              r.value == Configs(declaration, Resolve(declaration).value)
  {
    var selectors := declaration.selectors;
    var order := CheckOrder(declaration.order, 0, selectors);
    if order.Err? {
      return Err(order.error);
    }
    var covered := CheckCovered(declaration.keys, declaration.order);
    if covered.Err? {
      return Err(covered.error);
    }
    var byId := BuildIndex(declaration.Nodes());
    if byId.Err? {
      return Err(byId.error);
    }
    IndexIsValid(declaration.Nodes(), map[]);
    var families := ResolveFamilies(declaration.Nodes(), byId.value, selectors);
    if families.Err? {
      return Err(families.error);
    }
    var narrowing := CheckNarrowing(families.value, IndexFamilies(families.value));
    if narrowing.Err? {
      return Err(narrowing.error);
    }
    var unambiguous := CheckPairs(families.value);
    if unambiguous.Err? {
      return Err(unambiguous.error);
    }
    var sorted := SortBy(DepthOf, families.value);
    FamiliesHaveGroups(declaration.Nodes(), byId.value, selectors);
    var configs := EmitConfigs(sorted, selectors, declaration.order);
    return Ok(configs);
  }

  lemma FamiliesHaveGroups(nodes: seq<Node>, byId: map<string, Node>, selectors: Registry)
    requires ValidIndex(byId) && forall node | node in nodes :: Indexed(node, byId)
    requires FamiliesOf(nodes, byId, selectors).Ok?
    ensures forall family | family in SortBy(DepthOf, FamiliesOf(nodes, byId, selectors).value) ::
              family.fileGroups != []
  {
    var families := FamiliesOf(nodes, byId, selectors).value;
    FamiliesMeaning(nodes, byId, selectors);
    SortSorts(DepthOf, families);
    SameMembers(SortBy(DepthOf, families), families);
    forall family | family in families ensures family.fileGroups != [] {
      var i :| 0 <= i < |families| && families[i] == family;
      FamilyShape(nodes[i], byId, selectors);
    }
  }
}
