/**
 Which declarations the builder accepts, and what it emits for them, in terms of
 the declaration alone: who is within whom, which patterns are listed where.
 */
module PolicyAcceptance {
  import opened Wrappers
  import opened Glob
  import opened RestrictedSyntax
  import opened FlatConfig
  import opened PolicyTree
  import opened PolicyMeaning
  import opened PolicyOrder
  import opened Sequences
  import opened Trails

  // ---- What a declaration says ----

  /** `x` says that it is within `y`. */
  predicate NamesParent(x: Node, y: Node) {
    match x
    case Policy(_, within, _, _, _) => within == Some(y.id)
    case Exception(_, policy, _, _, _, _) => policy == y.id
  }

  ghost function ParentIn(d: Declaration): Relation<Node> {
    (x, y) => x in d.Nodes() && y in d.Nodes() && NamesParent(x, y)
  }

  /** `a` is `x` or one of the nodes around it. */
  ghost predicate Around(d: Declaration, a: Node, x: Node) {
    Leads(ParentIn(d), x, a)
  }

  /** A path is inside a node when every node around it lists the path and none ignores it. */
  ghost predicate Inside(d: Declaration, x: Node, path: string) {
    forall a | Around(d, a, x) ::
      (exists pattern | pattern in a.files :: Matches(path, pattern)) &&
      forall pattern | pattern in a.ignores :: !Matches(path, pattern)
  }

  /** `order` lists exactly the registered ids, each once. */
  ghost predicate OrderFits(d: Declaration) {
    NoRepeats(d.order) && forall id :: id in d.order <==> id in d.selectors
  }

  ghost predicate DistinctIds(d: Declaration) {
    forall i, j | 0 <= i < j < |d.Nodes()| :: d.Nodes()[i].id != d.Nodes()[j].id
  }

  /** Every node that is within something is within a policy, and none is within itself. */
  ghost predicate IsForest(d: Declaration) {
    (forall x | x in d.Nodes() && (x.Policy? ==> x.within.Some?) :: exists y :: y in d.policies && NamesParent(x, y)) &&
    forall x, y | ParentIn(d)(x, y) :: !Around(d, x, y)
  }

  /** A policy adds registered ids that nothing around it has; an exception removes ids something around it adds. */
  ghost predicate SelectorsFit(d: Declaration, x: Node) {
    match x
    case Policy(_, _, _, _, add) =>
      NoRepeats(add) &&
      forall id | id in add ::
        id in d.selectors && forall a | Around(d, a, x) && a.Policy? && id in a.selectors :: a == x
    case Exception(_, _, _, _, remove, _) =>
      NoRepeats(remove) &&
      forall id | id in remove :: id in d.selectors && exists a :: Around(d, a, x) && a.Policy? && id in a.selectors
  }

  predicate IsPlain(pattern: string) {
    forall c | c in pattern :: c !in "*?[]{}!+@()"
  }

  /** An exception that is not global lists literal paths, all of them inside the policy it names. */
  ghost predicate Narrows(d: Declaration, x: Node) {
    x.Exception? && !x.global ==>
      forall path | path in x.files :: IsPlain(path) && forall y | ParentIn(d)(x, y) :: Inside(d, y, path)
  }

  /** Two patterns part ways before either has a magic character. */
  predicate PartWays(left: string, right: string) {
    exists k: nat | k < |left| :: PartAt(left, right, k)
  }

  predicate PartAt(left: string, right: string, k: nat) {
    k < |left| && k < |right| && IsPlain(left[..k + 1]) && IsPlain(right[..k + 1]) && left[k] != right[k]
  }

  /** The three reasons for which no path can be inside both `x` and `y`. */
  ghost predicate KeepsOut(d: Declaration, x: Node, y: Node) {
    (forall pattern | pattern in x.files :: exists a :: Around(d, a, y) && pattern in a.ignores) ||
    (forall path | path in x.files :: IsPlain(path) && !Inside(d, y, path)) ||
    (forall left, right | left in x.files && right in y.files :: PartWays(left, right))
  }

  ghost predicate Apart(d: Declaration, x: Node, y: Node) {
    Around(d, x, y) || Around(d, y, x) || KeepsOut(d, x, y) || KeepsOut(d, y, x)
  }

  ghost predicate WellFormed(d: Declaration) {
    OrderFits(d) && DistinctIds(d) && IsForest(d) && (forall x | x in d.Nodes() :: SelectorsFit(d, x)) &&
    (forall x | x in d.exceptions :: Narrows(d, x)) &&
    forall i, j | 0 <= i < j < |d.Nodes()| :: Apart(d, d.Nodes()[i], d.Nodes()[j])
  }

  /** What the constructors of a node demand. */
  lemma {:induction false} DeclaredExactly(x: Node)
    ensures Declare(x).Ok? <==>
            x.files != [] && (x.Policy? ==> x.selectors != []) && (x.Exception? ==> x.remove != []) &&
            forall pattern | pattern in x.files || pattern in x.ignores :: pattern == "" || pattern[0] != '!'
    ensures Declare(x).Ok? ==> Declare(x).value == x
  {
    PositiveMeaning(x.id, x.files);
    PositiveMeaning(x.id, x.ignores);
  }

  // ---- Chains are what is around a node ----

  /** The index of a declaration. */
  ghost predicate IndexOf(d: Declaration, byId: map<string, Node>) {
    ValidIndex(byId) && (forall x | x in d.Nodes() :: Indexed(x, byId)) &&
    (forall id | id in byId :: byId[id] in d.Nodes())
  }

  lemma {:induction false} IndexOfDistinct(d: Declaration) returns (byId: map<string, Node>)
    requires DistinctIds(d)
    ensures IndexNodes(d.Nodes(), map[]) == Ok(byId) && IndexOf(d, byId)
  {
    IndexSucceeds(d.Nodes(), map[]);
    byId := IndexNodes(d.Nodes(), map[]).value;
    IndexIsValid(d.Nodes(), map[]);
  }

  /** The node a parent name stands for. */
  lemma {:induction false} ParentIsIndexed(d: Declaration, byId: map<string, Node>, x: Node, y: Node)
    requires IndexOf(d, byId) && x in d.Nodes()
    ensures ParentIn(d)(x, y) <==> x.Parent().Some? && x.Parent().value in byId && byId[x.Parent().value] == y
  {
  }

  lemma {:induction false} ChainIsAround(d: Declaration, byId: map<string, Node>, x: Node, a: Node)
    requires IndexOf(d, byId) && x in d.Nodes() && ChainOf(x, byId).Ok?
    ensures a in ChainOf(x, byId).value <==> Around(d, a, x)
    decreases |ChainOf(x, byId).value|
  {
    hide ChainOf, ValidIndex;
    ChainStep(x, byId);
    LeadsSelf(ParentIn(d), x);
    if x.Parent().Some? {
      var y := byId[x.Parent().value];
      ParentIsIndexed(d, byId, x, y);
      ChainIsAround(d, byId, y, a);
      if Around(d, a, y) {
        LeadsFrom(ParentIn(d), x, y, a);
      }
      if a != x && Around(d, a, x) {
        var z := FirstStep(ParentIn(d), x, a);
        ParentIsIndexed(d, byId, x, z);
      }
    } else if a != x && Around(d, a, x) {
      var z := FirstStep(ParentIn(d), x, a);
      ParentIsIndexed(d, byId, x, z);
    }
  }

  /** All chains are found exactly when the declaration is a forest. */
  lemma {:induction false} ChainsMeanForest(d: Declaration, byId: map<string, Node>)
    requires d.Authored() && IndexOf(d, byId) && forall x | x in d.Nodes() :: ChainOf(x, byId).Ok?
    ensures IsForest(d)
  {
    forall x | x in d.Nodes() && x.Parent().Some?
      ensures exists y :: y in d.policies && NamesParent(x, y)
    {
      ChainStep(x, byId);
      var y := byId[x.Parent().value];
      ParentIsIndexed(d, byId, x, y);
      assert y in d.policies;
    }
    forall x, y | ParentIn(d)(x, y) ensures !Around(d, x, y) {
      ParentIsIndexed(d, byId, x, y);
      ChainStep(x, byId);
      ChainIsAround(d, byId, y, x);
      if x in ChainOf(y, byId).value {
        var i :| 0 <= i < |ChainOf(y, byId).value| && ChainOf(y, byId).value[i] == x;
        ChainPrefixes(y, byId, i);
      }
    }
  }

  lemma {:induction false} ForestClimbs(d: Declaration, byId: map<string, Node>, start: string, current: Node,
                                        chain: seq<Node>)
    requires d.Authored() && IndexOf(d, byId) && IsForest(d) && current in d.Nodes()
    requires forall n | n in chain :: Indexed(n, byId) && exists p :: ParentIn(d)(n, p) && Around(d, current, p)
    ensures Climb(start, current, chain, byId).Ok?
    decreases byId.Keys - Ids(chain)
  {
    assert current !in chain;
    var longer := [current] + chain;
    if current.Parent().Some? {
      var y :| y in d.policies && NamesParent(current, y);
      ParentIsIndexed(d, byId, current, y);
      assert current.id !in Ids(chain) by {
        assert forall n | n in chain :: Indexed(n, byId) && (n.id == current.id ==> n == byId[current.id]);
      }
      assert current in longer && current.id in Ids(longer);
      forall n | n in longer ensures Indexed(n, byId) && exists p :: ParentIn(d)(n, p) && Around(d, y, p) {
        if n == current {
          LeadsSelf(ParentIn(d), y);
        } else {
          var p :| ParentIn(d)(n, p) && Around(d, current, p);
          LeadsOn(ParentIn(d), p, current, y);
        }
      }
      ForestClimbs(d, byId, start, y, longer);
    }
  }

  // ---- Families are what a node and those around it say ----

  lemma {:induction false} AllIgnoresMeaning(chain: seq<Node>, pattern: string)
    ensures pattern in AllIgnores(chain) <==> exists node :: node in chain && pattern in node.ignores
  {
    if chain != [] {
      AllIgnoresMeaning(chain[1..], pattern);
      assert chain == [chain[0]] + chain[1..];
    }
  }

  /** What a family's patterns say is what the node and those around it say. */
  lemma {:induction false} FamilyIsInside(d: Declaration, byId: map<string, Node>, x: Node, path: string)
    requires IndexOf(d, byId) && x in d.Nodes() && HasFamily(x, byId, d.selectors)
    ensures var family := FamilyOf(x, byId, d.selectors).value;
            (FamilyMatches(family, path) <==> Inside(d, x, path)) &&
            (forall pattern :: pattern in family.ignores <==> exists a :: Around(d, a, x) && pattern in a.ignores)
  {
    hide ChainOf, ValidIndex, Around, Inside, FamilyMatches;
    FamilyShape(x, byId, d.selectors);
    var family := FamilyOf(x, byId, d.selectors).value;
    forall a ensures a in family.chain <==> Around(d, a, x) {
      ChainIsAround(d, byId, x, a);
    }
    forall pattern
      ensures pattern in family.ignores <==> exists a :: Around(d, a, x) && pattern in a.ignores
    {
      AllIgnoresMeaning(family.chain, pattern);
    }
    PatternsAreInside(d, family, x, path);
  }

  lemma {:induction false} PatternsAreInside(d: Declaration, family: Family, x: Node, path: string)
    requires family.fileGroups == FilesOf(family.chain) && forall a :: a in family.chain <==> Around(d, a, x)
    requires forall pattern :: pattern in family.ignores <==> exists a :: Around(d, a, x) && pattern in a.ignores
    ensures FamilyMatches(family, path) <==> Inside(d, x, path)
  {
    hide Matches, Around;
    if FamilyMatches(family, path) {
      forall a | Around(d, a, x) ensures SomeMatches(a.files, path) {
        var i :| 0 <= i < |family.chain| && family.chain[i] == a;
        assert family.fileGroups[i] in family.fileGroups;
      }
    }
    if Inside(d, x, path) {
      forall group | group in family.fileGroups ensures SomeMatches(group, path) {
        var i :| 0 <= i < |family.fileGroups| && family.fileGroups[i] == group;
        assert family.chain[i] in family.chain;
      }
    }
  }

  // ---- Selectors ----

  lemma {:induction false} AddSucceeds(id: string, add: seq<string>, selectors: Registry, applied: seq<string>)
    requires NoRepeats(applied)
    ensures AddSelectors(id, add, selectors, applied).Ok? <==>
            NoRepeats(add) && forall x | x in add :: x in selectors && x !in applied
  {
    if add != [] {
      var rest := add[1..];
      assert add == [add[0]] + rest;
      if add[0] in selectors && add[0] !in applied {
        AddSucceeds(id, rest, selectors, applied + [add[0]]);
        if NoRepeats(add) {
          forall i, j | 0 <= i < j < |rest| ensures rest[i] != rest[j] {
            assert add[i + 1] != add[j + 1];
          }
          forall x | x in rest ensures x != add[0] {
            var i :| 0 <= i < |rest| && rest[i] == x;
            assert add[0] != add[i + 1];
          }
        }
        if NoRepeats(rest) && add[0] !in rest {
          forall i, j | 0 <= i < j < |add| ensures add[i] != add[j] {
            assert add[j] == rest[j - 1];
            assert i > 0 ==> add[i] == rest[i - 1];
          }
        }
      }
    }
  }

  lemma {:induction false} RemoveSucceeds(id: string, remove: seq<string>, selectors: Registry, applied: seq<string>)
    requires NoRepeats(applied)
    ensures RemoveSelectors(id, remove, selectors, applied).Ok? <==>
            NoRepeats(remove) && forall x | x in remove :: x in selectors && x in applied
  {
    if remove != [] {
      var rest := remove[1..];
      assert remove == [remove[0]] + rest;
      if remove[0] in selectors && remove[0] in applied {
        WithoutMeaning(applied, remove[0]);
        RemoveSucceeds(id, rest, selectors, Without(applied, remove[0]));
        if NoRepeats(remove) {
          forall i, j | 0 <= i < j < |rest| ensures rest[i] != rest[j] {
            assert remove[i + 1] != remove[j + 1];
          }
          forall x | x in rest ensures x != remove[0] {
            var i :| 0 <= i < |rest| && rest[i] == x;
            assert remove[0] != remove[i + 1];
          }
        }
        if NoRepeats(rest) && remove[0] !in rest {
          forall i, j | 0 <= i < j < |remove| ensures remove[i] != remove[j] {
            assert remove[j] == rest[j - 1];
            assert i > 0 ==> remove[i] == rest[i - 1];
          }
        }
      }
    }
  }

  lemma {:induction false} ComposeSnoc(chain: seq<Node>, x: Node, selectors: Registry, applied: seq<string>)
    ensures Compose(chain + [x], selectors, applied) ==
            match Compose(chain, selectors, applied)
            case Err(error) => Err(error)
            case Ok(ids) => Apply(x, selectors, ids)
  {
    if chain == [] {
      assert chain + [x] == [x] && [x][1..] == [];
      match Apply(x, selectors, applied)
      case Ok(ids) => assert Compose([], selectors, ids) == Ok(ids);
      case Err(_) =>
    } else {
      assert (chain + [x])[0] == chain[0] && (chain + [x])[1..] == chain[1..] + [x];
      match Apply(chain[0], selectors, applied)
      case Ok(ids) => ComposeSnoc(chain[1..], x, selectors, ids);
      case Err(_) =>
    }
  }

  /** A node is around its parent only if it is its own ancestor. */
  lemma {:induction false} NotAroundParent(d: Declaration, byId: map<string, Node>, x: Node)
    requires IndexOf(d, byId) && x in d.Nodes() && ChainOf(x, byId).Ok? && x.Parent().Some?
    ensures x.Parent().value in byId && ParentIn(d)(x, byId[x.Parent().value])
    ensures ChainOf(byId[x.Parent().value], byId).Ok? && !Around(d, x, byId[x.Parent().value])
    ensures forall a :: Around(d, a, x) <==> a == x || Around(d, a, byId[x.Parent().value])
  {
    hide ChainOf, ValidIndex, Around;
    ChainStep(x, byId);
    var y := byId[x.Parent().value];
    ParentIsIndexed(d, byId, x, y);
    ChainIsAround(d, byId, y, x);
    if x in ChainOf(y, byId).value {
      var i :| 0 <= i < |ChainOf(y, byId).value| && ChainOf(y, byId).value[i] == x;
      ChainPrefixes(y, byId, i);
    }
    forall a ensures Around(d, a, x) <==> a == x || Around(d, a, y) {
      ChainIsAround(d, byId, x, a);
      ChainIsAround(d, byId, y, a);
    }
  }

  /** What has been applied by the end of a policy's chain is what the policies around it add. */
  lemma {:induction false} AppliedAround(d: Declaration, byId: map<string, Node>, y: Node)
    requires IndexOf(d, byId) && y in d.Nodes() && y.Policy? && HasFamily(y, byId, d.selectors)
    ensures var ids := FamilyOf(y, byId, d.selectors).value.selectorIds;
            NoRepeats(ids) && forall id :: id in ids <==> exists a :: Around(d, a, y) && a.Policy? && id in a.selectors
  {
    hide ChainOf, ValidIndex, Around, FamilyOf, HasFamily, NoRepeats, Declare;
    FamilyShape(y, byId, d.selectors);
    var family := FamilyOf(y, byId, d.selectors).value;
    FamilySelectors(family, byId, d.selectors);
    forall a ensures a in family.chain <==> Around(d, a, y) {
      ChainIsAround(d, byId, y, a);
    }
    forall a | a in family.chain ensures a.Policy? {
      var i :| 0 <= i < |family.chain| && family.chain[i] == a;
      ChainPrefixes(y, byId, i);
    }
  }

  lemma {:induction false} ApplyMeansFit(d: Declaration, x: Node, y: Node, ids: seq<string>)
    requires NoRepeats(ids) && !Around(d, x, y) && forall a :: Around(d, a, x) <==> a == x || Around(d, a, y)
    requires forall id :: id in ids <==> exists a :: Around(d, a, y) && a.Policy? && id in a.selectors
    ensures Apply(x, d.selectors, ids).Ok? <==> SelectorsFit(d, x)
  {
    hide Around;
    match x
    case Policy(id, _, _, _, add) =>
      AddSucceeds(id, add, d.selectors, ids);
    case Exception(id, _, _, _, remove, _) =>
      RemoveSucceeds(id, remove, d.selectors, ids);
  }

  /** A node has a family exactly when its parent has one and its selectors fit. */
  lemma {:induction false} FamilyStep(d: Declaration, byId: map<string, Node>, x: Node)
    requires IndexOf(d, byId) && x in d.Nodes() && ChainOf(x, byId).Ok?
    ensures x.Parent().Some? ==> x.Parent().value in byId
    ensures FamilyOf(x, byId, d.selectors).Ok? <==>
              SelectorsFit(d, x) && (x.Parent().Some? ==> FamilyOf(byId[x.Parent().value], byId, d.selectors).Ok?)
  {
    hide ChainOf, ValidIndex, Around;
    ChainStep(x, byId);
    ChainPrefixes(x, byId, |ChainOf(x, byId).value| - 1);
    if x.Parent().None? {
      ComposeSnoc([], x, d.selectors, []);
      assert [] + [x] == [x];
      AddSucceeds(x.id, x.selectors, d.selectors, []);
      forall a | Around(d, a, x) ensures a == x {
        ChainIsAround(d, byId, x, a);
      }
    } else {
      var y := byId[x.Parent().value];
      NotAroundParent(d, byId, x);
      ChainStep(y, byId);
      ComposeSnoc(ChainOf(y, byId).value, x, d.selectors, []);
      if FamilyOf(y, byId, d.selectors).Ok? {
        AppliedAround(d, byId, y);
        assert Compose(ChainOf(y, byId).value, d.selectors, []) ==
               Ok(FamilyOf(y, byId, d.selectors).value.selectorIds);
        ApplyMeansFit(d, x, y, FamilyOf(y, byId, d.selectors).value.selectorIds);
      }
    }
  }

  lemma {:induction false} FittingHasFamily(d: Declaration, byId: map<string, Node>, x: Node)
    requires IndexOf(d, byId) && x in d.Nodes() && ChainOf(x, byId).Ok?
    requires forall y | y in d.Nodes() :: SelectorsFit(d, y)
    ensures FamilyOf(x, byId, d.selectors).Ok?
    decreases |ChainOf(x, byId).value|
  {
    hide ChainOf, FamilyOf, SelectorsFit, ValidIndex;
    FamilyStep(d, byId, x);
    if x.Parent().Some? {
      ChainStep(x, byId);
      FittingHasFamily(d, byId, byId[x.Parent().value]);
    }
  }

  /** All families are found exactly when the nodes form a forest and all selectors fit. */
  lemma {:induction false} FamiliesMeanFitting(d: Declaration, byId: map<string, Node>)
    requires d.Authored() && IndexOf(d, byId)
    ensures FamiliesOf(d.Nodes(), byId, d.selectors).Ok? <==>
                IsForest(d) && forall x | x in d.Nodes() :: SelectorsFit(d, x)
  {
    FamiliesMeaning(d.Nodes(), byId, d.selectors);
    if FamiliesOf(d.Nodes(), byId, d.selectors).Ok? {
      forall x | x in d.Nodes() ensures ChainOf(x, byId).Ok? && SelectorsFit(d, x) {
        var i :| 0 <= i < |d.Nodes()| && d.Nodes()[i] == x;
        assert FamilyOf(d.Nodes()[i], byId, d.selectors).Ok?;
        FamilyStep(d, byId, x);
      }
      ChainsMeanForest(d, byId);
    } else if IsForest(d) && forall x | x in d.Nodes() :: SelectorsFit(d, x) {
      forall i | 0 <= i < |d.Nodes()| ensures FamilyOf(d.Nodes()[i], byId, d.selectors).Ok? {
        ForestClimbs(d, byId, d.Nodes()[i].id, d.Nodes()[i], []);
        FittingHasFamily(d, byId, d.Nodes()[i]);
      }
    }
  }

  // ---- The checks ----

  lemma {:induction false} PlainMeansLiteral(pattern: string)
    ensures IsPlain(pattern) <==> IsLiteralPath(pattern)
  {
    if IsLiteralPath(pattern) {
      forall c | c in pattern ensures c !in "*?[]{}!+@()" {
        var i :| 0 <= i < |pattern| && pattern[i] == c;
      }
    }
  }

  lemma {:induction false} PlainSplits(a: string, b: string)
    ensures IsPlain(a + b) <==> IsPlain(a) && IsPlain(b)
  {
    if IsPlain(a + b) {
      assert forall c | c in a :: c in a + b;
      assert forall c | c in b :: c in a + b;
    }
  }

  lemma {:induction false} PartStart(left: string, right: string, k: nat)
    ensures PartAt(left, right, k) ==> left != [] && right != [] && !IsMagic(left[0]) && !IsMagic(right[0])
  {
    if PartAt(left, right, k) {
      assert left[0] in left[..k + 1] && right[0] in right[..k + 1];
    }
  }

  /** Static prefixes are incomparable exactly when the patterns part ways before any magic character. */
  lemma {:induction false} PrefixesMeanPartWays(left: string, right: string)
    ensures !(StaticPrefix(right) <= StaticPrefix(left)) && !(StaticPrefix(left) <= StaticPrefix(right)) <==>
            PartWays(left, right)
    decreases |left|
  {
    if left == [] || right == [] || IsMagic(left[0]) || IsMagic(right[0]) {
      forall k: nat ensures !PartAt(left, right, k) {
        PartStart(left, right, k);
      }
    } else if left[0] != right[0] {
      assert left[..0 + 1] == [left[0]] && right[..0 + 1] == [right[0]];
      assert PartAt(left, right, 0);
      assert StaticPrefix(left)[0] == left[0] && StaticPrefix(right)[0] == right[0];
    } else {
      PrefixesMeanPartWays(left[1..], right[1..]);
      PrefixBehind(left[0], StaticPrefix(left[1..]), StaticPrefix(right[1..]));
      PrefixBehind(left[0], StaticPrefix(right[1..]), StaticPrefix(left[1..]));
      if k: nat :| PartAt(left[1..], right[1..], k) {
        PartFurther(left, right, k);
      }
      if k: nat :| PartAt(left, right, k) {
        PartFurther(left, right, k - 1);
      }
    }
  }

  lemma {:induction false} PrefixBehind(c: char, a: string, b: string)
    ensures [c] + a <= [c] + b <==> a <= b
  {
    if [c] + a <= [c] + b {
      assert forall i | 0 <= i < |a| :: a[i] == ([c] + a)[i + 1] == ([c] + b)[i + 1] == b[i];
    }
  }

  lemma {:induction false} PartFurther(left: string, right: string, k: nat)
    requires left != [] && right != [] && left[0] == right[0] && !IsMagic(left[0])
    ensures PartAt(left, right, k + 1) <==> PartAt(left[1..], right[1..], k)
  {
    var l, r := left[1..], right[1..];
    if k < |l| && k < |r| {
      assert left[..k + 1 + 1] == [left[0]] + l[..k + 1] && right[..k + 1 + 1] == [right[0]] + r[..k + 1];
      PlainSplits([left[0]], l[..k + 1]);
      PlainSplits([right[0]], r[..k + 1]);
    }
  }

  /** The disjointness proof of two families is one of the three reasons of their nodes. */
  lemma {:induction false} ExclusionMeansKeepsOut(d: Declaration, byId: map<string, Node>, x: Node, y: Node)
    requires IndexOf(d, byId) && x in d.Nodes() && y in d.Nodes()
    requires HasFamily(x, byId, d.selectors) && HasFamily(y, byId, d.selectors)
    ensures var left, right := FamilyOf(x, byId, d.selectors).value, FamilyOf(y, byId, d.selectors).value;
            KeepsOut(d, x, y) <==>
            ExcludedByIgnores(left, right) || ExcludedByLiteralPaths(left, right) || ExcludedByPrefix(left, right)
  {
    hide ValidIndex, HasFamily, FamilyOf, FamilyMatches, Around, Inside, IsPlain, IsLiteralPath, PartWays, StaticPrefix;
    FamilyShape(x, byId, d.selectors);
    FamilyShape(y, byId, d.selectors);
    forall path ensures FamilyMatches(FamilyOf(y, byId, d.selectors).value, path) <==> Inside(d, y, path) {
      FamilyIsInside(d, byId, y, path);
    }
    FamilyIsInside(d, byId, y, "");
    forall pattern ensures IsPlain(pattern) <==> IsLiteralPath(pattern) {
      PlainMeansLiteral(pattern);
    }
    forall left, right
      ensures !(StaticPrefix(right) <= StaticPrefix(left)) && !(StaticPrefix(left) <= StaticPrefix(right)) <==>
              PartWays(left, right)
    {
      PrefixesMeanPartWays(left, right);
    }
  }

  lemma {:induction false} CompatibleMeansApart(d: Declaration, byId: map<string, Node>, x: Node, y: Node)
    requires IndexOf(d, byId) && x in d.Nodes() && y in d.Nodes()
    requires HasFamily(x, byId, d.selectors) && HasFamily(y, byId, d.selectors)
    ensures Compatible(FamilyOf(x, byId, d.selectors).value, FamilyOf(y, byId, d.selectors).value) <==> Apart(d, x, y)
  {
    hide ValidIndex, HasFamily, FamilyOf, ExcludedByIgnores, ExcludedByLiteralPaths, ExcludedByPrefix, Around, KeepsOut;
    FamilyShape(x, byId, d.selectors);
    FamilyShape(y, byId, d.selectors);
    ChainIsAround(d, byId, x, y);
    ChainIsAround(d, byId, y, x);
    ExclusionMeansKeepsOut(d, byId, x, y);
    ExclusionMeansKeepsOut(d, byId, y, x);
    PrefixesAreSymmetric(FamilyOf(x, byId, d.selectors).value, FamilyOf(y, byId, d.selectors).value);
  }

  lemma {:induction false} PrefixesAreSymmetric(x: Family, y: Family)
    ensures ExcludedByPrefix(x, y) <==> ExcludedByPrefix(y, x)
  {
  }

  lemma {:induction false} NarrowerMeansNarrows(d: Declaration, byId: map<string, Node>, x: Node, y: Node)
    requires IndexOf(d, byId) && ParentIn(d)(x, y)
    requires HasFamily(x, byId, d.selectors) && HasFamily(y, byId, d.selectors)
    ensures NarrowsParent(FamilyOf(x, byId, d.selectors).value, FamilyOf(y, byId, d.selectors).value) <==> Narrows(d, x)
  {
    hide ValidIndex, HasFamily, FamilyOf, FamilyMatches, Inside, IsPlain, IsLiteralPath;
    FamilyShape(x, byId, d.selectors);
    FamilyShape(y, byId, d.selectors);
    forall path ensures FamilyMatches(FamilyOf(y, byId, d.selectors).value, path) <==> Inside(d, y, path) {
      FamilyIsInside(d, byId, y, path);
    }
    forall pattern ensures IsPlain(pattern) <==> IsLiteralPath(pattern) {
      PlainMeansLiteral(pattern);
    }
    forall z | ParentIn(d)(x, z) ensures z == y {
      ParentIsIndexed(d, byId, x, z);
      ParentIsIndexed(d, byId, x, y);
    }
  }

  // ---- Acceptance ----

  /** What comes before the narrowing check. */
  ghost predicate FamiliesFit(d: Declaration) {
    OrderFits(d) && DistinctIds(d) && IsForest(d) && forall x | x in d.Nodes() :: SelectorsFit(d, x)
  }

  lemma {:induction false} OrderMeansFits(d: Declaration)
    requires d.Authored()
    ensures CheckOrder(d.order, 0, d.selectors).Ok? && CheckCovered(d.keys, d.order).Ok? <==> OrderFits(d)
  {
    OrderMeaning(d.order, 0, d.selectors);
    CoveredMeaning(d.keys, d.order);
  }

  /** The families of a declaration whose nodes fit. */
  lemma {:induction false} FamiliesOfFitting(d: Declaration) returns (byId: map<string, Node>, families: seq<Family>)
    requires d.Authored() && FamiliesFit(d)
    ensures IndexOf(d, byId) && |families| == |d.Nodes()| && Complete(families, byId, d.selectors)
    ensures forall i | 0 <= i < |families| ::
              HasFamily(d.Nodes()[i], byId, d.selectors) &&
              families[i] == FamilyOf(d.Nodes()[i], byId, d.selectors).value
    ensures Resolve(d) == if CheckNarrowing(families, IndexFamilies(families)).Err? then
                            Err(CheckNarrowing(families, IndexFamilies(families)).error)
                          else if CheckUnambiguous(families).Err? then Err(CheckUnambiguous(families).error)
                          else Ok(families)
  {
    hide Complete, FamilyOf, CheckNarrowing, CheckUnambiguous, CheckOrder, CheckCovered, SelectorsFit, IsForest,
         Declare;
    byId := IndexOfDistinct(d);
    OrderMeansFits(d);
    FamiliesMeanFitting(d, byId);
    FamiliesMeaning(d.Nodes(), byId, d.selectors);
    FamiliesAreComplete(d.Nodes(), byId, d.selectors);
    families := FamiliesOf(d.Nodes(), byId, d.selectors).value;
  }

  /** An exception is within a policy, and so has a parent to narrow. */
  lemma {:induction false} NarrowingMeansNarrows(d: Declaration, byId: map<string, Node>, families: seq<Family>)
    requires d.Authored() && IndexOf(d, byId) && IsForest(d) && |families| == |d.Nodes()|
    requires Complete(families, byId, d.selectors)
    requires forall i | 0 <= i < |families| ::
               HasFamily(d.Nodes()[i], byId, d.selectors) &&
               families[i] == FamilyOf(d.Nodes()[i], byId, d.selectors).value
    ensures CheckNarrowing(families, IndexFamilies(families)).Ok? <==> forall x | x in d.exceptions :: Narrows(d, x)
  {
    hide ValidIndex, HasFamily, FamilyOf, Complete, Narrows, NarrowsParent, IsForest, Declare;
    NarrowingMeaning(families, IndexFamilies(families));
    IndexIsResolution(families, byId, d.selectors);
    forall i | 0 <= i < |families|
      ensures (families[i].node.Parent().Some? && families[i].node.Parent().value in IndexFamilies(families) ==>
                 NarrowsParent(families[i], IndexFamilies(families)[families[i].node.Parent().value])) <==>
              (d.Nodes()[i].Exception? ==> Narrows(d, d.Nodes()[i]))
    {
      NarrowingOfOne(d, byId, families, i);
    }
    forall x | x in d.exceptions ensures exists i :: 0 <= i < |d.Nodes()| && d.Nodes()[i] == x {
      assert x in d.Nodes();
    }
    ExceptionsAreListed(d);
  }

  lemma {:induction false} ExceptionsAreListed(d: Declaration)
    requires d.Authored()
    ensures forall i | 0 <= i < |d.Nodes()| :: d.Nodes()[i].Exception? <==> d.Nodes()[i] in d.exceptions
  {
    forall i | 0 <= i < |d.Nodes()| ensures d.Nodes()[i].Exception? <==> d.Nodes()[i] in d.exceptions {
      assert d.Nodes()[i] in d.policies || d.Nodes()[i] in d.exceptions;
    }
  }

  lemma {:induction false} NarrowingOfOne(d: Declaration, byId: map<string, Node>, families: seq<Family>, i: nat)
    requires d.Authored() && IndexOf(d, byId) && IsForest(d) && |families| == |d.Nodes()| && i < |families|
    requires HasFamily(d.Nodes()[i], byId, d.selectors)
    requires families[i] == FamilyOf(d.Nodes()[i], byId, d.selectors).value
    requires forall id :: id in IndexFamilies(families) <==> id in byId
    requires forall id | id in byId :: HasFamily(byId[id], byId, d.selectors) &&
               IndexFamilies(families)[id] == FamilyOf(byId[id], byId, d.selectors).value
    ensures (families[i].node.Parent().Some? && families[i].node.Parent().value in IndexFamilies(families) ==>
               NarrowsParent(families[i], IndexFamilies(families)[families[i].node.Parent().value])) <==>
            (d.Nodes()[i].Exception? ==> Narrows(d, d.Nodes()[i]))
  {
    hide ValidIndex, FamilyOf, FamilyMatches, IsLiteralPath;
    var x := d.Nodes()[i];
    FamilyShape(x, byId, d.selectors);
    if x.Exception? {
      var y :| y in d.policies && NamesParent(x, y);
      ParentIsIndexed(d, byId, x, y);
      NarrowerMeansNarrows(d, byId, x, y);
    }
  }

  lemma {:induction false} UnambiguousMeansApart(d: Declaration, byId: map<string, Node>, families: seq<Family>)
    requires IndexOf(d, byId) && |families| == |d.Nodes()|
    requires forall i | 0 <= i < |families| ::
               HasFamily(d.Nodes()[i], byId, d.selectors) &&
               families[i] == FamilyOf(d.Nodes()[i], byId, d.selectors).value
    ensures CheckUnambiguous(families).Ok? <==>
            forall i, j | 0 <= i < j < |d.Nodes()| :: Apart(d, d.Nodes()[i], d.Nodes()[j])
  {
    hide ValidIndex, HasFamily, FamilyOf, Apart, Compatible;
    UnambiguousMeaning(families);
    forall i, j | 0 <= i < j < |families|
      ensures Compatible(families[i], families[j]) <==> Apart(d, d.Nodes()[i], d.Nodes()[j])
    {
      CompatibleMeansApart(d, byId, d.Nodes()[i], d.Nodes()[j]);
    }
  }

  /** The build accepts exactly the well-formed declarations. */
  lemma {:induction false} AcceptedExactlyWhenWellFormed(d: Declaration)
    requires d.Authored()
    ensures Resolve(d).Ok? <==> WellFormed(d)
  {
    hide Resolve, Complete, HasFamily, FamilyOf, FamiliesOf, IndexFamilies, CheckNarrowing, CheckUnambiguous,
         CheckOrder, CheckCovered, Narrows, Apart, OrderFits, DistinctIds, IsForest, SelectorsFit, Declare;
    if Resolve(d).Ok? {
      AcceptedFits(d);
    }
    if FamiliesFit(d) {
      var byId, families := FamiliesOfFitting(d);
      NarrowingMeansNarrows(d, byId, families);
      UnambiguousMeansApart(d, byId, families);
    }
  }

  lemma {:induction false} AcceptedFits(d: Declaration)
    requires d.Authored() && Resolve(d).Ok?
    ensures FamiliesFit(d)
  {
    hide Complete, HasFamily, FamilyOf, CheckNarrowing, CheckUnambiguous, OrderFits, IsForest, SelectorsFit, Declare;
    var byId := AcceptedParts(d);
    OrderMeansFits(d);
    FamiliesMeanFitting(d, byId);
  }

  // ---- Refusal ----

  lemma {:induction false} OrderErrors(order: seq<string>, i: nat, selectors: Registry)
    requires i <= |order| && CheckOrder(order, i, selectors).Err?
    ensures var error := CheckOrder(order, i, selectors).error;
            error.OrderUnknown? || error.OrderTwice?
    decreases |order| - i
  {
    if order[i] in selectors && order[i] !in order[..i] && order[i] !in order[i + 1..] {
      OrderErrors(order, i + 1, selectors);
    }
  }

  lemma {:induction false} CoverErrors(keys: seq<string>, order: seq<string>)
    requires CheckCovered(keys, order).Err?
    ensures CheckCovered(keys, order).error.OrderMissing?
  {
    if keys[0] in order {
      CoverErrors(keys[1..], order);
    }
  }

  lemma {:induction false} IndexErrors(nodes: seq<Node>, byId: map<string, Node>)
    requires IndexNodes(nodes, byId).Err?
    ensures IndexNodes(nodes, byId).error.DuplicateNode?
  {
    if nodes[0].id !in byId {
      IndexErrors(nodes[1..], byId[nodes[0].id := nodes[0]]);
    }
  }

  predicate IsTreeFault(error: Failure) {
    error.WithinCycle? || error.UnknownParent? || error.ExceptionParent?
  }

  predicate IsSelectorFault(error: Failure) {
    error.UnknownSelector? || error.ReAddedSelector? || error.NeverApplied?
  }

  lemma {:induction false} ClimbErrors(start: string, current: Node, chain: seq<Node>, byId: map<string, Node>)
    requires ValidIndex(byId) && Indexed(current, byId)
    requires forall node | node in chain :: Indexed(node, byId)
    requires Climb(start, current, chain, byId).Err?
    ensures IsTreeFault(Climb(start, current, chain, byId).error)
    decreases byId.Keys - Ids(chain)
  {
    var longer := [current] + chain;
    if current !in chain && current.Parent().Some? && current.Parent().value in byId &&
       byId[current.Parent().value].Policy? {
      assert current.id !in Ids(chain) by {
        assert forall n | n in chain :: Indexed(n, byId) && (n.id == current.id ==> n == byId[current.id]);
      }
      assert current in longer && current.id in Ids(longer);
      ClimbErrors(start, byId[current.Parent().value], longer, byId);
    }
  }

  lemma {:induction false} AddErrors(id: string, add: seq<string>, selectors: Registry, applied: seq<string>)
    requires AddSelectors(id, add, selectors, applied).Err?
    ensures IsSelectorFault(AddSelectors(id, add, selectors, applied).error)
  {
    if add[0] in selectors && add[0] !in applied {
      AddErrors(id, add[1..], selectors, applied + [add[0]]);
    }
  }

  lemma {:induction false} RemoveErrors(id: string, remove: seq<string>, selectors: Registry, applied: seq<string>)
    requires RemoveSelectors(id, remove, selectors, applied).Err?
    ensures IsSelectorFault(RemoveSelectors(id, remove, selectors, applied).error)
  {
    if remove[0] in selectors && remove[0] in applied {
      RemoveErrors(id, remove[1..], selectors, Without(applied, remove[0]));
    }
  }

  lemma {:induction false} ComposeErrors(chain: seq<Node>, selectors: Registry, applied: seq<string>)
    requires Compose(chain, selectors, applied).Err?
    ensures IsSelectorFault(Compose(chain, selectors, applied).error)
  {
    match Apply(chain[0], selectors, applied)
    case Ok(next) => ComposeErrors(chain[1..], selectors, next);
    case Err(_) =>
      match chain[0]
      case Policy(id, _, _, _, add) => AddErrors(id, add, selectors, applied);
      case Exception(id, _, _, _, remove, _) => RemoveErrors(id, remove, selectors, applied);
  }

  lemma {:induction false} FamiliesErrors(nodes: seq<Node>, byId: map<string, Node>, selectors: Registry)
    requires ValidIndex(byId) && forall node | node in nodes :: Indexed(node, byId)
    requires FamiliesOf(nodes, byId, selectors).Err?
    ensures var error := FamiliesOf(nodes, byId, selectors).error;
            IsTreeFault(error) || IsSelectorFault(error)
  {
    match FamilyOf(nodes[0], byId, selectors)
    case Ok(_) => FamiliesErrors(nodes[1..], byId, selectors);
    case Err(_) =>
      match ChainOf(nodes[0], byId)
      case Err(_) => ClimbErrors(nodes[0].id, nodes[0], [], byId);
      case Ok(chain) =>
        ChainStep(nodes[0], byId);
        ComposeErrors(chain, selectors, []);
  }

  lemma {:induction false} NarrowingErrors(families: seq<Family>, familyById: map<string, Family>) returns (i: nat)
    requires CheckNarrowing(families, familyById).Err?
    ensures i < |families| && families[i].node.Parent().Some? && families[i].node.Parent().value in familyById
    ensures !NarrowsParent(families[i], familyById[families[i].node.Parent().value])
    ensures CheckNarrowing(families, familyById).error ==
            NotNarrower(families[i].node.id, families[i].node.Parent().value)
  {
    var parent := families[0].node.Parent();
    if parent.Some? && parent.value in familyById && !NarrowsParent(families[0], familyById[parent.value]) {
      i := 0;
    } else {
      i := NarrowingErrors(families[1..], familyById);
      i := i + 1;
    }
  }

  lemma {:induction false} AgainstErrors(left: Family, rights: seq<Family>) returns (j: nat)
    requires CheckAgainst(left, rights).Err?
    ensures j < |rights| && !Compatible(left, rights[j])
    ensures CheckAgainst(left, rights).error == Ambiguous(left.node.id, rights[j].node.id)
  {
    if Compatible(left, rights[0]) {
      j := AgainstErrors(left, rights[1..]);
      j := j + 1;
    } else {
      j := 0;
    }
  }

  lemma {:induction false} UnambiguousErrors(families: seq<Family>) returns (i: nat, j: nat)
    requires CheckUnambiguous(families).Err?
    ensures i < j < |families| && !Compatible(families[i], families[j])
    ensures CheckUnambiguous(families).error == Ambiguous(families[i].node.id, families[j].node.id)
  {
    match CheckAgainst(families[0], families[1..])
    case Err(_) =>
      var k := AgainstErrors(families[0], families[1..]);
      i, j := 0, k + 1;
    case Ok(_) =>
      i, j := UnambiguousErrors(families[1..]);
      i, j := i + 1, j + 1;
  }

  /** An exception that does not narrow its policy `y`, and the failure that says so. */
  ghost predicate SaysNotNarrower(d: Declaration, error: Failure) {
    exists x, y | x in d.exceptions && ParentIn(d)(x, y) :: !Narrows(d, x) && error == NotNarrower(x.id, y.id)
  }

  /** Two nodes that are not apart, and the failure that says so. */
  ghost predicate SaysAmbiguous(d: Declaration, error: Failure) {
    exists x, y | x in d.Nodes() && y in d.Nodes() :: !Apart(d, x, y) && error == Ambiguous(x.id, y.id)
  }

  lemma {:induction false} NarrowingRefusal(d: Declaration, byId: map<string, Node>, families: seq<Family>)
    requires d.Authored() && IndexOf(d, byId) && IsForest(d) && |families| == |d.Nodes()|
    requires Complete(families, byId, d.selectors)
    requires forall i | 0 <= i < |families| ::
               HasFamily(d.Nodes()[i], byId, d.selectors) &&
               families[i] == FamilyOf(d.Nodes()[i], byId, d.selectors).value
    requires CheckNarrowing(families, IndexFamilies(families)).Err?
    ensures SaysNotNarrower(d, CheckNarrowing(families, IndexFamilies(families)).error)
  {
    hide Narrows, FamilyOf, NarrowsParent, IsForest, Complete, Declare, CheckNarrowing;
    IndexIsResolution(families, byId, d.selectors);
    var i := NarrowingErrors(families, IndexFamilies(families));
    NarrowingOfOne(d, byId, families, i);
    ExceptionsAreListed(d);
    FamilyShape(d.Nodes()[i], byId, d.selectors);
    ParentIsIndexed(d, byId, d.Nodes()[i], byId[families[i].node.Parent().value]);
  }

  lemma {:induction false} AmbiguityRefusal(d: Declaration, byId: map<string, Node>, families: seq<Family>)
    requires IndexOf(d, byId) && |families| == |d.Nodes()|
    requires forall i | 0 <= i < |families| ::
               HasFamily(d.Nodes()[i], byId, d.selectors) &&
               families[i] == FamilyOf(d.Nodes()[i], byId, d.selectors).value
    requires CheckUnambiguous(families).Err?
    ensures SaysAmbiguous(d, CheckUnambiguous(families).error)
  {
    hide FamilyOf, Apart, Compatible, CheckUnambiguous;
    var i, j := UnambiguousErrors(families);
    CompatibleMeansApart(d, byId, d.Nodes()[i], d.Nodes()[j]);
    FamilyShape(d.Nodes()[i], byId, d.selectors);
    FamilyShape(d.Nodes()[j], byId, d.selectors);
  }

  lemma {:induction false} RefusalAfterFamilies(d: Declaration)
    requires d.Authored() && FamiliesFit(d) && !WellFormed(d)
    ensures Resolve(d).Err?
    ensures if exists x | x in d.exceptions :: !Narrows(d, x) then SaysNotNarrower(d, Resolve(d).error)
            else SaysAmbiguous(d, Resolve(d).error)
  {
    hide Narrows, Apart, FamilyOf, Complete, OrderFits, DistinctIds, IsForest, SelectorsFit, SaysNotNarrower,
         SaysAmbiguous, Resolve, HasFamily, Declare, CheckNarrowing, CheckUnambiguous;
    var byId, families := FamiliesOfFitting(d);
    NarrowingMeansNarrows(d, byId, families);
    UnambiguousMeansApart(d, byId, families);
    if CheckNarrowing(families, IndexFamilies(families)).Err? {
      NarrowingRefusal(d, byId, families);
    } else {
      AmbiguityRefusal(d, byId, families);
    }
  }

  /** The first thing that is wrong names the failure. */
  lemma {:induction false} RefusalNamesTheFault(d: Declaration)
    requires d.Authored() && !WellFormed(d)
    ensures Resolve(d).Err?
    ensures var error := Resolve(d).error;
            if !OrderFits(d) then error.OrderUnknown? || error.OrderTwice? || error.OrderMissing?
            else if !DistinctIds(d) then error.DuplicateNode?
            else if !FamiliesFit(d) then IsTreeFault(error) || IsSelectorFault(error)
            else if exists x | x in d.exceptions :: !Narrows(d, x) then SaysNotNarrower(d, error)
            else SaysAmbiguous(d, error)
  {
    hide WellFormed, FamiliesFit, OrderFits, SaysNotNarrower, SaysAmbiguous, Narrows, CheckOrder, CheckCovered,
         IndexNodes, FamiliesOf;
    AcceptedExactlyWhenWellFormed(d);
    if !OrderFits(d) {
      OrderMeansFits(d);
      if CheckOrder(d.order, 0, d.selectors).Err? {
        OrderErrors(d.order, 0, d.selectors);
      } else {
        CoverErrors(d.keys, d.order);
      }
    } else if !DistinctIds(d) {
      OrderMeansFits(d);
      if IndexNodes(d.Nodes(), map[]).Ok? {
        IndexIsValid(d.Nodes(), map[]);
      } else {
        IndexErrors(d.Nodes(), map[]);
      }
    } else if !FamiliesFit(d) {
      TreeRefusal(d);
    } else {
      RefusalAfterFamilies(d);
    }
  }

  lemma {:induction false} TreeRefusal(d: Declaration)
    requires d.Authored() && OrderFits(d) && DistinctIds(d) && !FamiliesFit(d)
    ensures Resolve(d).Err? && (IsTreeFault(Resolve(d).error) || IsSelectorFault(Resolve(d).error))
  {
    hide IsForest, SelectorsFit, FamiliesOf;
    OrderMeansFits(d);
    var byId := IndexOfDistinct(d);
    FamiliesMeanFitting(d, byId);
    FamiliesErrors(d.Nodes(), byId, d.selectors);
  }

  /** Every path an exception lists, short of what it ignores itself, is inside it. */
  lemma {:induction false} ListedPathsAreInside(d: Declaration, x: Node, path: string)
    requires d.Authored() && WellFormed(d) && x in d.exceptions && !x.global && path in x.files
    requires forall pattern | pattern in x.ignores :: !Matches(path, pattern)
    ensures Inside(d, x, path)
  {
    hide Matches, OrderFits, SelectorsFit, Apart, Inside;
    assert x in d.Nodes() && Narrows(d, x);
    PlainMeansLiteral(path);
    LiteralMatchesOnlyItself(path, path);
    InsideByParent(d, x, path);
  }

  lemma {:induction false} InsideByParent(d: Declaration, x: Node, path: string)
    requires x in d.Nodes() && (exists pattern | pattern in x.files :: Matches(path, pattern))
    requires forall pattern | pattern in x.ignores :: !Matches(path, pattern)
    requires forall y | ParentIn(d)(x, y) :: Inside(d, y, path)
    ensures Inside(d, x, path)
  {
    hide Matches;
    forall a | Around(d, a, x) && a != x ensures exists y :: ParentIn(d)(x, y) && Around(d, a, y) {
      var y := FirstStep(ParentIn(d), x, a);
    }
  }

  // ---- What the emitted list reports ----

  /** Some policy the path is inside adds `id`, and no exception it is inside removes it. */
  ghost predicate Applies(d: Declaration, path: string, id: string) {
    (exists p | p in d.Nodes() && p.Policy? :: Inside(d, p, path) && id in p.selectors) &&
    forall x | x in d.Nodes() && x.Exception? && id in x.remove :: !Inside(d, x, path)
  }

  /** A family of an accepted declaration, by its node. */
  lemma {:induction false} FamilyOfNode(d: Declaration, byId: map<string, Node>, x: Node, path: string)
      returns (family: Family)
    requires d.Authored() && Resolve(d).Ok? && IndexOf(d, byId) && IndexNodes(d.Nodes(), map[]) == Ok(byId)
    requires Complete(Resolve(d).value, byId, d.selectors) && x in d.Nodes()
    ensures family in Resolve(d).value && family.node == x && (FamilyMatches(family, path) <==> Inside(d, x, path))
  {
    assert HasFamily(byId[x.id], byId, d.selectors);
    FamilyShape(x, byId, d.selectors);
    FamilyIsInside(d, byId, x, path);
    family := FamilyOf(x, byId, d.selectors).value;
  }

  lemma {:induction false} FamilyMeansInside(d: Declaration, byId: map<string, Node>, family: Family, path: string)
    requires IndexOf(d, byId) && Resolve(d).Ok? && family in Resolve(d).value
    requires Complete(Resolve(d).value, byId, d.selectors)
    ensures family.node in d.Nodes() && (FamilyMatches(family, path) <==> Inside(d, family.node, path))
  {
    var i :| 0 <= i < |Resolve(d).value| && Resolve(d).value[i] == family;
    assert Resolved(Resolve(d).value[i], byId, d.selectors);
    FamilyIsInside(d, byId, family.node, path);
  }

  /** A path that is inside nothing gets no entry. */
  lemma {:induction false} OutsideGetsNothing(d: Declaration, path: string)
    requires d.Authored() && Resolve(d).Ok? && forall x | x in d.Nodes() :: !Inside(d, x, path)
    ensures Emittable(SortBy(DepthOf, Resolve(d).value))
    ensures ResolvePath(Configs(d, Resolve(d).value), path) == Absent
  {
    hide Inside, FamilyMatches, Complete, Resolve, Declare;
    var byId := AcceptanceMeaning(d);
    IndexIsValid(d.Nodes(), map[]);
    forall family | family in Resolve(d).value ensures !FamilyMatches(family, path) {
      FamilyMeansInside(d, byId, family, path);
    }
    UnmatchedPathsGetNothing(d, path);
  }

  /**
   The emitted list in the declaration's own terms.  A path that is inside some
   node gets exactly the ids that some policy around it adds and no exception
   around it removes, in `order`, each with its registered selector; with none
   left the rule is off.
   */
  lemma {:induction false} ReportsWhatApplies(d: Declaration, path: string) returns (ids: seq<string>)
    requires d.Authored() && Resolve(d).Ok? && exists x | x in d.Nodes() :: Inside(d, x, path)
    ensures Emittable(SortBy(DepthOf, Resolve(d).value))
    ensures forall id :: id in ids <==> Applies(d, path, id)
    ensures forall i, j | 0 <= i < j < |ids| :: PositionIn(d.order, ids[i]) < PositionIn(d.order, ids[j])
    ensures var entry := ResolvePath(Configs(d, Resolve(d).value), path);
            if ids == [] then entry.Present? && entry.severity == 0
            else
              entry.Present? && entry.severity == 2 && |entry.options| == |ids| &&
              forall i | 0 <= i < |ids| :: ids[i] in d.selectors && entry.options[i] == d.selectors[ids[i]]
  {
    hide Inside, FamilyMatches, Complete, Declare, Resolve, ResolvePath, Configs, Matching, PositionIn, Added, Removed,
         Applies, Accepted, Deepest, Emittable, IndexNodes, Lookup, SortBy, ValidIndex;
    var byId := AcceptanceMeaning(d);
    IndexIsValid(d.Nodes(), map[]);
    var x :| x in d.Nodes() && Inside(d, x, path);
    var family := FamilyOfNode(d, byId, x, path);
    assert family in Matching(Resolve(d).value, path);
    var deepest;
    deepest, ids := FlatListMeansTree(d, path);
    LookupKeepsLength(ids, d.selectors);
    ChainIsInside(d, byId, deepest, path);
    forall id ensures id in ids <==> Applies(d, path, id) {
      ChainApplies(d, deepest.chain, path, id);
    }
  }

  lemma {:induction false} ChainApplies(d: Declaration, chain: seq<Node>, path: string, id: string)
    requires forall node :: node in chain <==> node in d.Nodes() && Inside(d, node, path)
    ensures Added(chain, id) && !Removed(chain, id) <==> Applies(d, path, id)
  {
    hide Inside;
  }

  /** The chain of the deepest match holds exactly the nodes the path is inside. */
  lemma {:induction false} ChainIsInside(d: Declaration, byId: map<string, Node>, deepest: Family, path: string)
    requires d.Authored() && Resolve(d).Ok? && IndexOf(d, byId) && IndexNodes(d.Nodes(), map[]) == Ok(byId)
    requires Complete(Resolve(d).value, byId, d.selectors) && Deepest(deepest, Resolve(d).value, path)
    requires forall node | node in deepest.chain ::
               exists family | family in Resolve(d).value :: family.node == node && FamilyMatches(family, path)
    ensures forall node :: node in deepest.chain <==> node in d.Nodes() && Inside(d, node, path)
  {
    hide Inside, FamilyMatches, Complete, Declare, Resolve;
    forall node | node in deepest.chain ensures node in d.Nodes() && Inside(d, node, path) {
      var family :| family in Resolve(d).value && family.node == node && FamilyMatches(family, path);
      FamilyMeansInside(d, byId, family, path);
    }
    forall node | node in d.Nodes() && Inside(d, node, path) ensures node in deepest.chain {
      var family := FamilyOfNode(d, byId, node, path);
    }
  }
}
