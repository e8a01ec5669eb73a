/**
 The laws of the policy tree: chains, disjointness, composition of selectors,
 and the main results, that the flat list means the tree and that the authored
 order of the nodes cannot matter.
 */
module PolicyTree {
  import opened Wrappers
  import opened Glob
  import opened RestrictedSyntax
  import opened Sequences

  // ---- Chains ----

  /** What the climb has already collected below `current` only ever adds a tail. */
  lemma {:induction false} ClimbForgetsTail(start: string, start': string, current: Node, chain: seq<Node>,
                                            tail: seq<Node>, byId: map<string, Node>)
    requires ValidIndex(byId) && Indexed(current, byId)
    requires forall node | node in chain + tail :: Indexed(node, byId)
    requires Climb(start, current, chain + tail, byId).Ok?
    ensures forall node | node in chain :: node in chain + tail
    ensures Climb(start', current, chain, byId).Ok?
    ensures Climb(start, current, chain + tail, byId).value == Climb(start', current, chain, byId).value + tail
    decreases byId.Keys - Ids(chain + tail)
  {
    var longer := [current] + (chain + tail);
    assert longer == ([current] + chain) + tail;
    if current.Parent().Some? {
      assert current.id !in Ids(chain + tail) by {
        assert forall node | node in chain + tail ::
                 Indexed(node, byId) && (node.id == current.id ==> node == byId[current.id]);
      }
      assert current in longer && current.id in Ids(longer);
      ClimbForgetsTail(start, start', byId[current.Parent().value], [current] + chain, tail, byId);
    }
  }

  /** A chain is the parent's chain followed by the node itself. */
  lemma ChainStep(node: Node, byId: map<string, Node>)
    requires ValidIndex(byId) && Indexed(node, byId) && ChainOf(node, byId).Ok?
    ensures node.Parent().None? ==> ChainOf(node, byId).value == [node]
    ensures node.Parent().Some? ==>
              var parent := node.Parent().value;
              parent in byId && byId[parent].Policy? && ChainOf(byId[parent], byId).Ok? &&
              ChainOf(node, byId).value == ChainOf(byId[parent], byId).value + [node]
  {
    if node.Parent().Some? {
      var parent := byId[node.Parent().value];
      assert [node] + [] == [] + [node];
      ClimbForgetsTail(node.id, parent.id, parent, [], [node], byId);
    }
  }

  /** Every prefix of a chain is the chain of its last node; only that node may be an exception. */
  lemma {:induction false} ChainPrefixes(node: Node, byId: map<string, Node>, i: nat)
    requires ValidIndex(byId) && Indexed(node, byId) && ChainOf(node, byId).Ok?
    requires i < |ChainOf(node, byId).value|
    ensures var chain := ChainOf(node, byId).value;
            chain[|chain| - 1] == node && Indexed(chain[i], byId) &&
            ChainOf(chain[i], byId) == Ok(chain[..i + 1]) && (i < |chain| - 1 ==> chain[i].Policy?)
    decreases |ChainOf(node, byId).value|
  {
    ChainStep(node, byId);
    var chain := ChainOf(node, byId).value;
    if i < |chain| - 1 {
      var parent := byId[node.Parent().value];
      var above := ChainOf(parent, byId).value;
      assert chain[..i + 1] == above[..i + 1];
      ChainPrefixes(parent, byId, i);
      if i == |above| - 1 {
        assert above[i] == parent;
      }
    } else {
      assert chain[..i + 1] == chain;
    }
  }

  // ---- Families ----

  ghost predicate HasFamily(node: Node, byId: map<string, Node>, selectors: Registry)
    requires ValidIndex(byId)
  {
    Indexed(node, byId) && FamilyOf(node, byId, selectors).Ok?
  }

  /** `family` is the family its own node resolves to. */
  ghost predicate Resolved(family: Family, byId: map<string, Node>, selectors: Registry)
    requires ValidIndex(byId)
  {
    Indexed(family.node, byId) && FamilyOf(family.node, byId, selectors) == Ok(family)
  }

  lemma FamilyShape(node: Node, byId: map<string, Node>, selectors: Registry)
    requires ValidIndex(byId) && HasFamily(node, byId, selectors)
    ensures var family := FamilyOf(node, byId, selectors).value;
            family.node == node && Resolved(family, byId, selectors) &&
            ChainOf(node, byId) == Ok(family.chain) && family.chain != [] &&
            family.chain[|family.chain| - 1] == node && family.depth == |family.chain| - 1 &&
            family.fileGroups == FilesOf(family.chain) && node.files in family.fileGroups
  {
    var chain := ChainOf(node, byId).value;
    ChainPrefixes(node, byId, |chain| - 1);
    assert FilesOf(chain)[|chain| - 1] == node.files;
  }

  /** A family list that holds exactly the resolved families of an index, each once. */
  ghost predicate Complete(families: seq<Family>, byId: map<string, Node>, selectors: Registry)
    requires ValidIndex(byId)
  {
    (forall i | 0 <= i < |families| :: Resolved(families[i], byId, selectors)) &&
    (forall i, j | 0 <= i < j < |families| :: families[i].node != families[j].node) &&
    (forall id | id in byId ::
       HasFamily(byId[id], byId, selectors) && FamilyOf(byId[id], byId, selectors).value in families)
  }

  lemma {:induction false} IgnoresOfPrefix(chain: seq<Node>, i: nat)
    requires i <= |chain|
    ensures forall pattern | pattern in AllIgnores(chain[..i]) :: pattern in AllIgnores(chain)
  {
    if i > 0 {
      IgnoresOfPrefix(chain[1..], i - 1);
      assert chain[..i][1..] == chain[1..][..i - 1];
    }
  }

  /** A child family is a subset of each of its ancestors' families. */
  lemma AncestorsMatch(family: Family, byId: map<string, Node>, selectors: Registry, i: nat, path: string)
    requires ValidIndex(byId) && Resolved(family, byId, selectors)
    requires i < |family.chain| && Indexed(family.chain[i], byId)
    requires HasFamily(family.chain[i], byId, selectors)
    requires FamilyMatches(family, path)
    ensures FamilyMatches(FamilyOf(family.chain[i], byId, selectors).value, path)
  {
    hide ValidIndex, HasFamily, Matches, Climb;
    FamilyShape(family.node, byId, selectors);
    FamilyShape(family.chain[i], byId, selectors);
    ChainPrefixes(family.node, byId, i);
    var ancestor := FamilyOf(family.chain[i], byId, selectors).value;
    assert ancestor.chain == family.chain[..i + 1];
    forall group | group in ancestor.fileGroups ensures SomeMatches(group, path) {
      var k :| 0 <= k < |ancestor.fileGroups| && ancestor.fileGroups[k] == group;
      assert group == family.fileGroups[k];
    }
    IgnoresOfPrefix(family.chain, i + 1);
    forall pattern | pattern in ancestor.ignores ensures !Matches(path, pattern) {
      assert pattern in AllIgnores(family.chain);
      assert pattern in family.ignores;
    }
  }

  // ---- Disjointness ----

  lemma PrefixesOfOneAreComparable(a: string, b: string, whole: string)
    requires a <= whole && b <= whole
    ensures a <= b || b <= a
  {
  }

  /** A path in `x` matches one of `x`'s own patterns. */
  lemma OwnPatternMatches(x: Family, path: string) returns (own: string)
    requires x.node.files in x.fileGroups && FamilyMatches(x, path)
    ensures own in x.node.files && Matches(path, own)
  {
    assert SomeMatches(x.node.files, path);
    own :| own in x.node.files && Matches(path, own);
  }

  lemma IgnoresAreSound(x: Family, y: Family, path: string)
    requires ExcludedByIgnores(x, y) && x.node.files in x.fileGroups && FamilyMatches(x, path)
    ensures !FamilyMatches(y, path)
  {
  }

  lemma LiteralPathsAreSound(x: Family, y: Family, path: string)
    requires ExcludedByLiteralPaths(x, y) && x.node.files in x.fileGroups && FamilyMatches(x, path)
    ensures !FamilyMatches(y, path)
  {
    var own := OwnPatternMatches(x, path);
    LiteralMatchesOnlyItself(path, own);
  }

  lemma PrefixesAreSound(x: Family, y: Family, path: string)
    requires ExcludedByPrefix(x, y) && FamilyMatches(x, path)
    requires x.node.files in x.fileGroups && y.node.files in y.fileGroups
    ensures !FamilyMatches(y, path)
  {
    var left := OwnPatternMatches(x, path);
    MatchStartsWithStaticPrefix(path, left);
    if FamilyMatches(y, path) {
      var right := OwnPatternMatches(y, path);
      MatchStartsWithStaticPrefix(path, right);
      PrefixesOfOneAreComparable(StaticPrefix(left), StaticPrefix(right), path);
      assert false;
    }
  }

  /** The disjointness proofs never claim too much: no path is in both families. */
  lemma DisjointnessIsSound(x: Family, y: Family, path: string)
    requires ProvablyDisjoint(x, y)
    requires x.node.files in x.fileGroups && y.node.files in y.fileGroups
    ensures !(FamilyMatches(x, path) && FamilyMatches(y, path))
  {
    if FamilyMatches(x, path) {
      if ExcludedByIgnores(x, y) {
        IgnoresAreSound(x, y, path);
      } else if ExcludedByLiteralPaths(x, y) {
        LiteralPathsAreSound(x, y, path);
      } else if ExcludedByPrefix(x, y) {
        PrefixesAreSound(x, y, path);
      } else if FamilyMatches(y, path) {
        if ExcludedByIgnores(y, x) {
          IgnoresAreSound(y, x, path);
        } else {
          LiteralPathsAreSound(y, x, path);
        }
      }
    }
  }

  ghost predicate PairwiseCompatible(families: seq<Family>) {
    forall i, j | 0 <= i < j < |families| :: Compatible(families[i], families[j])
  }

  lemma {:induction false} CheckAgainstMeaning(left: Family, rights: seq<Family>)
    ensures CheckAgainst(left, rights).Ok? <==> forall i | 0 <= i < |rights| :: Compatible(left, rights[i])
  {
    hide Compatible;
    if rights != [] {
      var rest := rights[1..];
      CheckAgainstMeaning(left, rest);
      assert forall i | 0 < i < |rights| :: rights[i] == rest[i - 1];
      forall i | 0 <= i < |rest| ensures rest[i] == rights[i + 1] {
      }
    }
  }

  lemma {:induction false} UnambiguousMeaning(families: seq<Family>)
    ensures CheckUnambiguous(families).Ok? <==> PairwiseCompatible(families)
  {
    if families != [] {
      var rest := families[1..];
      CheckAgainstMeaning(families[0], rest);
      UnambiguousMeaning(rest);
      assert forall i | 0 < i < |families| :: families[i] == rest[i - 1];
      if PairwiseCompatible(families) {
        forall i | 0 <= i < |rest| ensures Compatible(families[0], rest[i]) {
          assert rest[i] == families[i + 1];
        }
        forall i, j | 0 <= i < j < |rest| ensures Compatible(rest[i], rest[j]) {
          assert rest[i] == families[i + 1] && rest[j] == families[j + 1];
        }
      }
    }
  }

  lemma CompatibleIsSymmetric(x: Family, y: Family)
    ensures Compatible(x, y) <==> Compatible(y, x)
  {
  }

  // ---- Sorting ----

  ghost predicate StrictlySorted<T>(key: T -> int, xs: seq<T>) {
    forall i, j | 0 <= i < j < |xs| :: key(xs[i]) < key(xs[j])
  }

  lemma SortSorts<T>(key: T -> int, xs: seq<T>)
    ensures Sorting.Sorted(AtMost, key, SortBy(key, xs))
    ensures multiset(SortBy(key, xs)) == multiset(xs)
  {
    Sorting.SortSorts(AtMost, key, xs);
  }

  /** Strictly sorted lists with the same members are the same list. */
  lemma StrictlySortedIsUnique<T>(key: T -> int, xs: seq<T>, ys: seq<T>)
    requires StrictlySorted(key, xs) && StrictlySorted(key, ys)
    requires forall x :: x in xs <==> x in ys
    ensures xs == ys
  {
    Sorting.SortedIsUnique(AtMost, key, xs, ys);
  }

  // ---- The matching families of a path are one chain ----

  function Matching(families: seq<Family>, path: string): (matching: seq<Family>)
    ensures forall family :: family in matching <==> family in families && FamilyMatches(family, path)
  {
    if families == [] then []
    else
      var last := families[|families| - 1];
      var before := Matching(families[..|families| - 1], path);
      assert families == families[..|families| - 1] + [last];
      if FamilyMatches(last, path) then before + [last] else before
  }

  lemma {:induction false} MatchingStaysSorted(families: seq<Family>, path: string)
    requires Sorting.Sorted(AtMost, DepthOf, families)
    requires forall i, j | 0 <= i < j < |families| && FamilyMatches(families[i], path) &&
             FamilyMatches(families[j], path) ::
               families[i].depth != families[j].depth
    ensures StrictlySorted(DepthOf, Matching(families, path))
  {
    if families != [] {
      var init, last := families[..|families| - 1], families[|families| - 1];
      MatchingStaysSorted(init, path);
      var before := Matching(init, path);
      if FamilyMatches(last, path) {
        forall i | 0 <= i < |before| ensures DepthOf(before[i]) < DepthOf(last) {
          assert before[i] in before;
          var k :| 0 <= k < |init| && init[k] == before[i];
          assert families[k] == before[i] && DepthOf(families[k]) <= DepthOf(families[|families| - 1]);
        }
      }
    }
  }

  ghost predicate AllHaveFamilies(chain: seq<Node>, byId: map<string, Node>, selectors: Registry)
    requires ValidIndex(byId)
  {
    forall i | 0 <= i < |chain| :: HasFamily(chain[i], byId, selectors)
  }

  /** The families along a chain, root first. */
  ghost function Lineage(chain: seq<Node>, byId: map<string, Node>, selectors: Registry): (lineage: seq<Family>)
    requires ValidIndex(byId) && AllHaveFamilies(chain, byId, selectors)
    ensures |lineage| == |chain|
    ensures forall i | 0 <= i < |lineage| :: lineage[i] == FamilyOf(chain[i], byId, selectors).value
  {
    seq(|chain|, i requires 0 <= i < |chain| => FamilyOf(chain[i], byId, selectors).value)
  }

  /** Every family that matches `path` is `deepest` or one of its ancestors. */
  ghost predicate Deepest(deepest: Family, families: seq<Family>, path: string) {
    deepest in families && FamilyMatches(deepest, path) &&
    forall family | family in families && FamilyMatches(family, path) :: family.node in deepest.chain
  }

  lemma CompleteChains(families: seq<Family>, byId: map<string, Node>, selectors: Registry, family: Family)
    requires ValidIndex(byId) && Complete(families, byId, selectors) && family in families
    ensures Resolved(family, byId, selectors) && family.chain != [] && family.depth == |family.chain| - 1
    ensures family.chain[family.depth] == family.node
    ensures AllHaveFamilies(family.chain, byId, selectors)
    ensures family.node.files in family.fileGroups && family.fileGroups == FilesOf(family.chain)
  {
    FamilyShape(family.node, byId, selectors);
    forall i | 0 <= i < |family.chain| ensures HasFamily(family.chain[i], byId, selectors) {
      ChainPrefixes(family.node, byId, i);
      assert HasFamily(byId[family.chain[i].id], byId, selectors);
    }
  }

  /** Two nested families of equal depth are the same family. */
  lemma NestedDepths(x: Family, y: Family, byId: map<string, Node>, selectors: Registry)
    requires ValidIndex(byId) && Resolved(x, byId, selectors) && Resolved(y, byId, selectors)
    requires x.node in y.chain
    ensures x.depth <= y.depth && y.chain[..x.depth + 1] == x.chain
    ensures x.depth == y.depth ==> x == y
  {
    hide FamilyOf, ChainOf, FilesOf, Indexed, ValidIndex;
    FamilyShape(x.node, byId, selectors);
    FamilyShape(y.node, byId, selectors);
    var i :| 0 <= i < |y.chain| && y.chain[i] == x.node;
    ChainPrefixes(y.node, byId, i);
    assert x.chain == y.chain[..i + 1];
  }

  lemma MatchingAreNested(families: seq<Family>, byId: map<string, Node>, selectors: Registry, x: Family, y: Family,
                          path: string)
    requires ValidIndex(byId) && Complete(families, byId, selectors) && PairwiseCompatible(families)
    requires x in families && y in families && FamilyMatches(x, path) && FamilyMatches(y, path)
    ensures Nested(x, y)
  {
    CompleteChains(families, byId, selectors, x);
    CompleteChains(families, byId, selectors, y);
    var i :| 0 <= i < |families| && families[i] == x;
    var j :| 0 <= j < |families| && families[j] == y;
    if i == j {
      assert x.node in x.chain;
    } else {
      if i < j {
        assert Compatible(x, y);
      } else {
        assert Compatible(y, x);
        CompatibleIsSymmetric(x, y);
      }
      if ProvablyDisjoint(x, y) {
        DisjointnessIsSound(x, y, path);
      }
    }
  }

  /** Sorted by depth, the families matching a path have strictly increasing depths. */
  lemma MatchingIsStrict(families: seq<Family>, byId: map<string, Node>, selectors: Registry, path: string)
    requires ValidIndex(byId) && Complete(families, byId, selectors) && PairwiseCompatible(families)
    ensures StrictlySorted(DepthOf, Matching(SortBy(DepthOf, families), path))
  {
    var sorted := SortBy(DepthOf, families);
    SortSorts(DepthOf, families);
    SameMembers(sorted, families);
    SortedIsComplete(families, byId, selectors);
    forall i, j | 0 <= i < j < |sorted| && FamilyMatches(sorted[i], path) && FamilyMatches(sorted[j], path)
      ensures sorted[i].depth != sorted[j].depth
    {
      assert sorted[i] in sorted && sorted[j] in sorted;
      MatchingAreNested(families, byId, selectors, sorted[i], sorted[j], path);
      if sorted[i].node in sorted[j].chain {
        NestedDepths(sorted[i], sorted[j], byId, selectors);
      } else {
        NestedDepths(sorted[j], sorted[i], byId, selectors);
      }
    }
    MatchingStaysSorted(sorted, path);
  }

  /** A matching family at least as deep as every other is the deepest of one chain. */
  lemma MaximalIsDeepest(families: seq<Family>, byId: map<string, Node>, selectors: Registry, deepest: Family,
                         path: string)
    requires ValidIndex(byId) && Complete(families, byId, selectors) && PairwiseCompatible(families)
    requires deepest in families && FamilyMatches(deepest, path)
    requires forall family | family in families && FamilyMatches(family, path) :: family.depth <= deepest.depth
    ensures Deepest(deepest, families, path)
  {
    CompleteChains(families, byId, selectors, deepest);
    forall family | family in families && FamilyMatches(family, path) ensures family.node in deepest.chain {
      CompleteChains(families, byId, selectors, family);
      MatchingAreNested(families, byId, selectors, family, deepest, path);
      if deepest.node in family.chain {
        NestedDepths(deepest, family, byId, selectors);
      }
    }
  }

  /** The last of the matching families is the deepest. */
  lemma LastIsDeepest(families: seq<Family>, byId: map<string, Node>, selectors: Registry, matching: seq<Family>,
                      path: string)
    requires ValidIndex(byId) && Complete(families, byId, selectors) && PairwiseCompatible(families)
    requires forall family :: family in matching <==> family in families && FamilyMatches(family, path)
    requires StrictlySorted(DepthOf, matching) && matching != []
    ensures Deepest(matching[|matching| - 1], families, path)
  {
    hide FamilyMatches, ValidIndex, Complete, PairwiseCompatible, Deepest;
    var deepest := matching[|matching| - 1];
    assert deepest in matching;
    forall family | family in families && FamilyMatches(family, path) ensures family.depth <= deepest.depth {
      assert family in matching;
      var k :| 0 <= k < |matching| && matching[k] == family;
      assert k < |matching| - 1 ==> DepthOf(matching[k]) < DepthOf(matching[|matching| - 1]);
    }
    MaximalIsDeepest(families, byId, selectors, deepest, path);
  }

  lemma MatchingMembers(families: seq<Family>, path: string)
    ensures forall family :: family in Matching(SortBy(DepthOf, families), path) <==>
              family in families && FamilyMatches(family, path)
  {
    SortSorts(DepthOf, families);
    SameMembers(SortBy(DepthOf, families), families);
  }

  /** The matching entries of the sorted list, in order, are the lineage of the deepest match. */
  lemma MatchingIsLineage(families: seq<Family>, byId: map<string, Node>, selectors: Registry, path: string)
      returns (deepest: Family)
    requires ValidIndex(byId) && Complete(families, byId, selectors) && PairwiseCompatible(families)
    requires Matching(families, path) != []
    ensures Deepest(deepest, families, path) && AllHaveFamilies(deepest.chain, byId, selectors)
    ensures Matching(SortBy(DepthOf, families), path) == Lineage(deepest.chain, byId, selectors)
  {
    var matching := Matching(SortBy(DepthOf, families), path);
    MatchingMembers(families, path);
    assert Matching(families, path)[0] in Matching(families, path);
    assert Matching(families, path)[0] in matching;
    MatchingIsStrict(families, byId, selectors, path);
    LastIsDeepest(families, byId, selectors, matching, path);
    deepest := matching[|matching| - 1];
    CompleteChains(families, byId, selectors, deepest);
    LineageIsMatching(families, byId, selectors, path, deepest);
    StrictlySortedIsUnique(DepthOf, matching, Lineage(deepest.chain, byId, selectors));
  }

  lemma SortedIsComplete(families: seq<Family>, byId: map<string, Node>, selectors: Registry)
    requires ValidIndex(byId) && Complete(families, byId, selectors)
    ensures Complete(SortBy(DepthOf, families), byId, selectors)
  {
    var sorted := SortBy(DepthOf, families);
    SortSorts(DepthOf, families);
    SameMembers(sorted, families);
    assert NoRepeats(families);
    NoRepeatsMeansOnce(families);
    NoRepeatsMeansOnce(sorted);
    forall i | 0 <= i < |sorted| ensures Resolved(sorted[i], byId, selectors) {
      assert sorted[i] in sorted;
    }
    forall i, j | 0 <= i < j < |sorted| ensures sorted[i].node != sorted[j].node {
      assert sorted[i] != sorted[j];
    }
  }

  lemma LineageMember(families: seq<Family>, byId: map<string, Node>, selectors: Registry, path: string,
                      deepest: Family, i: nat)
    requires ValidIndex(byId) && Complete(families, byId, selectors) && deepest in families &&
             FamilyMatches(deepest, path)
    requires i < |deepest.chain| && AllHaveFamilies(deepest.chain, byId, selectors)
    ensures var member := Lineage(deepest.chain, byId, selectors)[i];
            member.depth == i && member in families && FamilyMatches(member, path)
  {
    CompleteChains(families, byId, selectors, deepest);
    FamilyShape(deepest.node, byId, selectors);
    ChainPrefixes(deepest.node, byId, i);
    FamilyShape(deepest.chain[i], byId, selectors);
    AncestorsMatch(deepest, byId, selectors, i, path);
    assert byId[deepest.chain[i].id] == deepest.chain[i];
  }

  /** The lineage of the deepest match is strictly sorted and holds exactly the matching families. */
  lemma LineageIsMatching(families: seq<Family>, byId: map<string, Node>, selectors: Registry, path: string,
                          deepest: Family)
    requires ValidIndex(byId) && Complete(families, byId, selectors) && Deepest(deepest, families, path)
    requires AllHaveFamilies(deepest.chain, byId, selectors)
    ensures StrictlySorted(DepthOf, Lineage(deepest.chain, byId, selectors))
    ensures forall family :: family in Lineage(deepest.chain, byId, selectors) <==>
              family in families && FamilyMatches(family, path)
  {
    var lineage := Lineage(deepest.chain, byId, selectors);
    forall i | 0 <= i < |lineage|
      ensures lineage[i].depth == i && lineage[i] in families && FamilyMatches(lineage[i], path)
    {
      LineageMember(families, byId, selectors, path, deepest, i);
    }
    forall family | family in families && FamilyMatches(family, path) ensures family in lineage {
      var i :| 0 <= i < |deepest.chain| && deepest.chain[i] == family.node;
      assert Resolved(family, byId, selectors);
      assert lineage[i] == family;
    }
  }
}
