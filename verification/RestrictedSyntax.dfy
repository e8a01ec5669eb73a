/**
 The restricted-syntax builder: a tree of file families, where policies add
 selector ids and exceptions remove them, compiled into a flat list of config
 entries in which the last matching entry decides.

 Functions give the value each step computes, failures included; the methods
 of module RestrictedSyntaxBuilder run the same steps as loops.
 */
module RestrictedSyntax {
  import opened Wrappers
  import opened Glob
  import Sorting

  // ---- Declarations ----

  datatype Node =
    | Policy(id: string, within: Option<string>, files: seq<string>, ignores: seq<string>, selectors: seq<string>)
    | Exception(id: string, policy: string, files: seq<string>, ignores: seq<string>, remove: seq<string>, global: bool)
  {
    function Parent(): Option<string> {
      match this
      case Policy(_, within, _, _, _) => within
      case Exception(_, policy, _, _, _, _) => Some(policy)
    }
  }

  datatype Selector = Selector(selector: string, message: string)

  type Registry = map<string, Selector>

  datatype Failure =
    | NoFiles(id: string)
    | NoSelectors(id: string)
    | NegatedPattern(id: string, pattern: string)
    | DuplicateNode(id: string)
    | WithinCycle(id: string)
    | UnknownParent(id: string, parent: string)
    | ExceptionParent(id: string, parent: string)
    | UnknownSelector(id: string, selector: string)
    | ReAddedSelector(id: string, selector: string)
    | NeverApplied(id: string, selector: string)
    | NotNarrower(id: string, parent: string)
    | Ambiguous(left: string, right: string)
    | OrderUnknown(selector: string)
    | OrderTwice(selector: string)
    | OrderMissing(selector: string)

  predicate IsNegated(pattern: string) {
    pattern != [] && pattern[0] == '!'
  }

  function CheckPositive(id: string, patterns: seq<string>): Result<(), Failure> {
    if patterns == [] then Ok(())
    else if IsNegated(patterns[0]) then Err(NegatedPattern(id, patterns[0]))
    else CheckPositive(id, patterns[1..])
  }

  /** What `restrictedSyntaxPolicy` and `restrictedSyntaxException` return for a declaration. */
  function Declare(node: Node): Result<Node, Failure> {
    if node.files == [] then Err(NoFiles(node.id))
    else if (if node.Policy? then node.selectors else node.remove) == [] then Err(NoSelectors(node.id))
    else
      var _ :- CheckPositive(node.id, node.files);
      var _ :- CheckPositive(node.id, node.ignores);
      Ok(node)
  }

  // ---- Families ----

  datatype Family = Family(node: Node, depth: nat, chain: seq<Node>, fileGroups: seq<seq<string>>,
                           ignores: seq<string>, selectorIds: seq<string>)

  function IndexNodes(nodes: seq<Node>, byId: map<string, Node>): Result<map<string, Node>, Failure> {
    if nodes == [] then Ok(byId)
    else if nodes[0].id in byId then Err(DuplicateNode(nodes[0].id))
    else IndexNodes(nodes[1..], byId[nodes[0].id := nodes[0]])
  }

  ghost predicate Indexed(node: Node, byId: map<string, Node>) {
    node.id in byId && byId[node.id] == node
  }

  /** An index maps each id to a node carrying that id. */
  ghost predicate ValidIndex(byId: map<string, Node>) {
    forall id | id in byId :: byId[id].id == id
  }

  ghost function Ids(chain: seq<Node>): set<string> {
    set node | node in chain :: node.id
  }

  /** Walks from `current` to its root, collecting the root-first chain in front of `chain`. */
  function Climb(start: string, current: Node, chain: seq<Node>, byId: map<string, Node>): Result<seq<Node>, Failure>
    requires ValidIndex(byId) && Indexed(current, byId)
    requires forall node | node in chain :: Indexed(node, byId)
    decreases byId.Keys - Ids(chain)
  {
    if current in chain then Err(WithinCycle(start))
    else
      var longer := [current] + chain;
      match current.Parent()
      case None => Ok(longer)
      case Some(parent) =>
        if parent !in byId then Err(UnknownParent(current.id, parent))
        else if byId[parent].Exception? then Err(ExceptionParent(current.id, parent))
        else
          assert forall node | node in chain ::
                   Indexed(node, byId) && (node.id == current.id ==> node == byId[current.id]);
          assert current.id !in Ids(chain);
          assert current.id in Ids(longer);
          Climb(start, byId[parent], longer, byId)
  }

  function ChainOf(node: Node, byId: map<string, Node>): Result<seq<Node>, Failure>
    requires ValidIndex(byId) && Indexed(node, byId)
  {
    Climb(node.id, node, [], byId)
  }

  function AddSelectors(id: string, add: seq<string>, selectors: Registry, applied: seq<string>)
      : Result<seq<string>, Failure>
  {
    if add == [] then Ok(applied)
    else if add[0] !in selectors then Err(UnknownSelector(id, add[0]))
    else if add[0] in applied then Err(ReAddedSelector(id, add[0]))
    else AddSelectors(id, add[1..], selectors, applied + [add[0]])
  }

  /** `applied` with its first occurrence of `id` spliced out. */
  function Without(applied: seq<string>, id: string): seq<string>
    requires id in applied
  {
    var index := PositionIn(applied, id);
    applied[..index] + applied[index + 1..]
  }

  function RemoveSelectors(id: string, remove: seq<string>, selectors: Registry, applied: seq<string>)
      : Result<seq<string>, Failure>
  {
    if remove == [] then Ok(applied)
    else if remove[0] !in selectors then Err(UnknownSelector(id, remove[0]))
    else if remove[0] !in applied then Err(NeverApplied(id, remove[0]))
    else RemoveSelectors(id, remove[1..], selectors, Without(applied, remove[0]))
  }

  function Apply(node: Node, selectors: Registry, applied: seq<string>): Result<seq<string>, Failure> {
    match node
    case Policy(id, _, _, _, add) => AddSelectors(id, add, selectors, applied)
    case Exception(id, _, _, _, remove, _) => RemoveSelectors(id, remove, selectors, applied)
  }

  function Compose(chain: seq<Node>, selectors: Registry, applied: seq<string>): Result<seq<string>, Failure> {
    if chain == [] then Ok(applied)
    else
      var next :- Apply(chain[0], selectors, applied);
      Compose(chain[1..], selectors, next)
  }

  function FilesOf(chain: seq<Node>): (groups: seq<seq<string>>)
    ensures |groups| == |chain|
    ensures forall i | 0 <= i < |chain| :: groups[i] == chain[i].files
  {
    seq(|chain|, i requires 0 <= i < |chain| => chain[i].files)
  }

  function AllIgnores(chain: seq<Node>): seq<string> {
    if chain == [] then [] else chain[0].ignores + AllIgnores(chain[1..])
  }

  /** `xs` with later repetitions dropped, as spreading a JavaScript Set gives it. */
  function Distinct(xs: seq<string>): (ys: seq<string>)
    ensures forall x :: x in ys <==> x in xs
    ensures forall i, j | 0 <= i < j < |ys| :: ys[i] != ys[j]
  {
    if xs == [] then []
    else
      var last := xs[|xs| - 1];
      var before := Distinct(xs[..|xs| - 1]);
      assert xs == xs[..|xs| - 1] + [last];
      if last in before then before else before + [last]
  }

  function ResolveFamily(chain: seq<Node>, selectors: Registry): Result<Family, Failure>
    requires chain != []
  {
    var ids :- Compose(chain, selectors, []);
    Ok(Family(chain[|chain| - 1], |chain| - 1, chain, FilesOf(chain), Distinct(AllIgnores(chain)), ids))
  }

  function FamilyOf(node: Node, byId: map<string, Node>, selectors: Registry): Result<Family, Failure>
    requires ValidIndex(byId) && Indexed(node, byId)
  {
    var chain :- ChainOf(node, byId);
    if chain == [] then Err(WithinCycle(node.id)) else ResolveFamily(chain, selectors)
  }

  function FamiliesOf(nodes: seq<Node>, byId: map<string, Node>, selectors: Registry): Result<seq<Family>, Failure>
    requires ValidIndex(byId)
    requires forall node | node in nodes :: Indexed(node, byId)
  {
    if nodes == [] then Ok([])
    else
      var first :- FamilyOf(nodes[0], byId, selectors);
      var rest :- FamiliesOf(nodes[1..], byId, selectors);
      Ok([first] + rest)
  }

  // ---- Checks ----

  predicate SomeMatches(patterns: seq<string>, path: string) {
    exists pattern | pattern in patterns :: Matches(path, pattern)
  }

  predicate FamilyMatches(family: Family, path: string) {
    !SomeMatches(family.ignores, path) &&
    forall group | group in family.fileGroups :: SomeMatches(group, path)
  }

  predicate ExcludedByIgnores(x: Family, y: Family) {
    forall pattern | pattern in x.node.files :: pattern in y.ignores
  }

  predicate ExcludedByLiteralPaths(x: Family, y: Family) {
    (forall pattern | pattern in x.node.files :: IsLiteralPath(pattern)) &&
    forall path | path in x.node.files :: !FamilyMatches(y, path)
  }

  predicate ExcludedByPrefix(x: Family, y: Family) {
    forall left | left in x.node.files ::
      forall right | right in y.node.files ::
        !(StaticPrefix(right) <= StaticPrefix(left)) && !(StaticPrefix(left) <= StaticPrefix(right))
  }

  predicate ProvablyDisjoint(x: Family, y: Family) {
    ExcludedByIgnores(x, y) || ExcludedByIgnores(y, x) ||
    ExcludedByLiteralPaths(x, y) || ExcludedByLiteralPaths(y, x) || ExcludedByPrefix(x, y)
  }

  predicate Nested(x: Family, y: Family) {
    y.node in x.chain || x.node in y.chain
  }

  predicate Compatible(x: Family, y: Family) {
    Nested(x, y) || ProvablyDisjoint(x, y)
  }

  predicate NarrowsParent(family: Family, parent: Family) {
    family.node.Policy? || family.node.global ||
    ((forall pattern | pattern in family.node.files :: IsLiteralPath(pattern)) &&
     forall path | path in family.node.files :: FamilyMatches(parent, path))
  }

  function IndexFamilies(families: seq<Family>): (byId: map<string, Family>) {
    if families == [] then map[]
    else
      var last := families[|families| - 1];
      IndexFamilies(families[..|families| - 1])[last.node.id := last]
  }

  function CheckNarrowing(families: seq<Family>, familyById: map<string, Family>): Result<(), Failure> {
    if families == [] then Ok(())
    else
      var family := families[0];
      var parentId := family.node.Parent();
      if parentId.Some? && parentId.value in familyById && !NarrowsParent(family, familyById[parentId.value]) then
        Err(NotNarrower(family.node.id, parentId.value))
      else
        CheckNarrowing(families[1..], familyById)
  }

  function CheckAgainst(left: Family, rights: seq<Family>): Result<(), Failure> {
    if rights == [] then Ok(())
    else if !Compatible(left, rights[0]) then Err(Ambiguous(left.node.id, rights[0].node.id))
    else CheckAgainst(left, rights[1..])
  }

  function CheckUnambiguous(families: seq<Family>): Result<(), Failure> {
    if families == [] then Ok(())
    else
      var _ :- CheckAgainst(families[0], families[1..]);
      CheckUnambiguous(families[1..])
  }

  /** `order` must list every selector id exactly once; the first offence found is the error. */
  function CheckOrder(order: seq<string>, i: nat, selectors: Registry): Result<(), Failure>
    requires i <= |order|
    decreases |order| - i
  {
    if i == |order| then Ok(())
    else if order[i] !in selectors then Err(OrderUnknown(order[i]))
    else if order[i] in order[..i] || order[i] in order[i + 1..] then Err(OrderTwice(order[i]))
    else CheckOrder(order, i + 1, selectors)
  }

  /** `keys` are the registry's ids in insertion order. */
  function CheckCovered(keys: seq<string>, order: seq<string>): Result<(), Failure> {
    if keys == [] then Ok(())
    else if keys[0] !in order then Err(OrderMissing(keys[0]))
    else CheckCovered(keys[1..], order)
  }

  // ---- Emission ----

  /** A `files` element: one pattern, or patterns that must all match. */
  datatype FileEntry = One(pattern: string) | All(patterns: seq<string>)

  datatype Rule = Off | Report(selectors: seq<Selector>)

  datatype Config = Config(name: string, files: seq<FileEntry>, ignores: seq<string>, rule: Rule)

  predicate AtMost(a: int, b: int) {
    a <= b
  }

  /** `Array.prototype.sort` with a numeric comparator. */
  function SortBy<T>(key: T -> int, xs: seq<T>): seq<T> {
    Sorting.Sort(AtMost, key, xs)
  }

  function DepthOf(family: Family): int {
    family.depth
  }

  /** `Array.prototype.indexOf`. */
  function PositionIn(order: seq<string>, id: string): (i: int)
    ensures -1 <= i < |order|
    ensures i == -1 <==> id !in order
    ensures 0 <= i ==> order[i] == id
  {
    if order == [] then -1
    else if order[0] == id then 0
    else
      var later := PositionIn(order[1..], id);
      if later == -1 then -1 else later + 1
  }

  function Extensions(combination: seq<string>, group: seq<string>): seq<seq<string>> {
    if group == [] then [] else [combination + [group[0]]] + Extensions(combination, group[1..])
  }

  function ExtendAll(combinations: seq<seq<string>>, group: seq<string>): seq<seq<string>> {
    if combinations == [] then []
    else Extensions(combinations[0], group) + ExtendAll(combinations[1..], group)
  }

  /** The product of the groups, last group first, appended to each of `combinations`. */
  function Product(groups: seq<seq<string>>, combinations: seq<seq<string>>): seq<seq<string>> {
    if groups == [] then combinations
    else Product(groups[..|groups| - 1], ExtendAll(combinations, groups[|groups| - 1]))
  }

  function KeepUnmatched(own: string, ancestors: seq<string>): seq<string> {
    if ancestors == [] then []
    else if Matches(own, ancestors[0]) then KeepUnmatched(own, ancestors[1..])
    else [ancestors[0]] + KeepUnmatched(own, ancestors[1..])
  }

  function DropRedundant(combination: seq<string>): seq<string>
    requires combination != []
  {
    if !IsLiteralPath(combination[0]) then combination
    else [combination[0]] + KeepUnmatched(combination[0], combination[1..])
  }

  function EntryOf(combination: seq<string>): FileEntry {
    if |combination| == 1 then One(combination[0]) else All(combination)
  }

  ghost predicate AllNonEmpty(combinations: seq<seq<string>>) {
    forall i | 0 <= i < |combinations| :: combinations[i] != []
  }

  function EntriesOf(combinations: seq<seq<string>>): seq<FileEntry>
    requires AllNonEmpty(combinations)
  {
    if combinations == [] then []
    else [EntryOf(DropRedundant(combinations[0]))] + EntriesOf(combinations[1..])
  }

  lemma ProductsAreNonEmpty(groups: seq<seq<string>>, combinations: seq<seq<string>>)
    requires groups != [] || AllNonEmpty(combinations)
    ensures AllNonEmpty(Product(groups, combinations))
  {
    if groups != [] {
      var extended := ExtendAll(combinations, groups[|groups| - 1]);
      ExtensionsAreNonEmpty(combinations, groups[|groups| - 1]);
      ProductsAreNonEmpty(groups[..|groups| - 1], extended);
    }
  }

  lemma ExtensionsAreNonEmpty(combinations: seq<seq<string>>, group: seq<string>)
    ensures AllNonEmpty(ExtendAll(combinations, group))
  {
    if combinations != [] {
      ExtensionsOfOneAreNonEmpty(combinations[0], group);
      ExtensionsAreNonEmpty(combinations[1..], group);
    }
  }

  lemma {:induction false} ExtensionsOfOneAreNonEmpty(combination: seq<string>, group: seq<string>)
    ensures AllNonEmpty(Extensions(combination, group))
  {
    if group != [] {
      ExtensionsOfOneAreNonEmpty(combination, group[1..]);
    }
  }

  function IntersectFileGroups(groups: seq<seq<string>>): seq<FileEntry>
    requires groups != []
  {
    ProductsAreNonEmpty(groups, [[]]);
    EntriesOf(Product(groups, [[]]))
  }

  /** The registered selectors of `ids`; the builder only asks for registered ids. */
  function Lookup(ids: seq<string>, selectors: Registry): seq<Selector> {
    if ids == [] then []
    else (if ids[0] in selectors then [selectors[ids[0]]] else []) + Lookup(ids[1..], selectors)
  }

  function SortedIds(ids: seq<string>, order: seq<string>): seq<string> {
    SortBy(id => PositionIn(order, id), ids)
  }

  function RuleOf(family: Family, selectors: Registry, order: seq<string>): Rule {
    var applied := Lookup(SortedIds(family.selectorIds, order), selectors);
    if applied == [] then Off else Report(applied)
  }

  function Emit(family: Family, selectors: Registry, order: seq<string>): Config
    requires family.fileGroups != []
  {
    Config("musi/restricted-syntax/" + family.node.id, IntersectFileGroups(family.fileGroups),
           family.ignores, RuleOf(family, selectors, order))
  }

  function EmitAll(families: seq<Family>, selectors: Registry, order: seq<string>): (configs: seq<Config>)
    requires forall family | family in families :: family.fileGroups != []
    ensures |configs| == |families|
    ensures forall i | 0 <= i < |families| :: configs[i] == Emit(families[i], selectors, order)
  {
    if families == [] then []
    else [Emit(families[0], selectors, order)] + EmitAll(families[1..], selectors, order)
  }

  // ---- The whole build ----

  /** `keys` lists the registry's ids in insertion order; only the choice of error depends on it. */
  datatype Declaration = Declaration(selectors: Registry, keys: seq<string>, policies: seq<Node>,
                                     exceptions: seq<Node>, order: seq<string>)
  {
    function Nodes(): seq<Node> {
      policies + exceptions
    }

    /** What the constructors of the registry and of the nodes guarantee. */
    ghost predicate Authored() {
      (forall id :: id in keys <==> id in selectors) &&
      (forall node | node in policies :: node.Policy? && Declare(node).Ok?) &&
      (forall node | node in exceptions :: node.Exception? && Declare(node).Ok?)
    }
  }

  lemma {:induction false} IndexIsValid(nodes: seq<Node>, byId: map<string, Node>)
    requires ValidIndex(byId) && IndexNodes(nodes, byId).Ok?
    ensures ValidIndex(IndexNodes(nodes, byId).value)
    ensures forall id | id in byId ::
              id in IndexNodes(nodes, byId).value && IndexNodes(nodes, byId).value[id] == byId[id]
    ensures forall node | node in nodes :: node.id !in byId && Indexed(node, IndexNodes(nodes, byId).value)
    ensures forall id | id in IndexNodes(nodes, byId).value :: id in byId || IndexNodes(nodes, byId).value[id] in nodes
    ensures forall i, j | 0 <= i < j < |nodes| :: nodes[i].id != nodes[j].id
  {
    if nodes != [] {
      IndexIsValid(nodes[1..], byId[nodes[0].id := nodes[0]]);
    }
  }

  /** The families of a declaration in authored order, or the first failure. */
  function Resolve(declaration: Declaration): Result<seq<Family>, Failure> {
    var _ :- CheckOrder(declaration.order, 0, declaration.selectors);
    var _ :- CheckCovered(declaration.keys, declaration.order);
    var byId :- IndexNodes(declaration.Nodes(), map[]);
    IndexIsValid(declaration.Nodes(), map[]);
    var families :- FamiliesOf(declaration.Nodes(), byId, declaration.selectors);
    var _ :- CheckNarrowing(families, IndexFamilies(families));
    var _ :- CheckUnambiguous(families);
    Ok(families)
  }
}
