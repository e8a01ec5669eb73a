/**
 The worklist that collects a repository's production packages.  Manifests are
 memoised, workspace packages are not: every request for one enqueues its
 dependencies again.  The run ends exactly when no workspace package depends on
 itself through workspace names, and then it has found exactly the packages
 reachable from the root packages.
 */
module DependencyClosure {
  import opened Sequences
  import opened Sorting
  import opened Trails
  import opened Wrappers

  type Path = string

  datatype RootPackage = RootPackage(name: Option<string>, manifestPath: Path, dependencyNames: seq<string>)

  datatype PackageInfo = PackageInfo(name: string, version: string, license: string, manifestPath: Path)

  datatype Request = Request(fromManifestPath: Path, dependencyName: string)

  /** What the file system says: how names resolve, and what each manifest reads as. */
  datatype World = World(rootPackages: seq<RootPackage>, resolution: map<Request, Path>,
                         infos: map<Path, PackageInfo>, packages: map<Path, RootPackage>)

  const WORKSPACE_PREFIX := "@musi/"

  predicate IsNamedWorkspace(pkg: RootPackage) {
    pkg.name.Some? && WORKSPACE_PREFIX <= pkg.name.value
  }

  /** Later root packages of the same name replace earlier ones. */
  function WorkspaceMap(packages: seq<RootPackage>): (m: map<string, RootPackage>)
    ensures forall name | name in m :: m[name] in packages
  {
    if packages == [] then map[]
    else
      var last := packages[|packages| - 1];
      var before := WorkspaceMap(packages[..|packages| - 1]);
      if IsNamedWorkspace(last) then before[last.name.value := last] else before
  }

  function RequestsOf(pkg: RootPackage): (requests: seq<Request>)
    ensures |requests| == |pkg.dependencyNames|
    ensures forall i | 0 <= i < |requests| :: requests[i] == Request(pkg.manifestPath, pkg.dependencyNames[i])
  {
    seq(|pkg.dependencyNames|,
        i requires 0 <= i < |pkg.dependencyNames| => Request(pkg.manifestPath, pkg.dependencyNames[i]))
  }

  function RootRequests(packages: seq<RootPackage>): seq<Request> {
    if packages == [] then []
    else RootRequests(packages[..|packages| - 1]) + RequestsOf(packages[|packages| - 1])
  }

  function KeyOf(info: PackageInfo): string {
    info.name + "@" + info.version
  }

  // ---- One step ----

  datatype State = State(packagesByKey: map<string, PackageInfo>, visited: set<Path>, queue: seq<Request>)

  /** A manifest whose package is recorded and whose dependencies are followed. */
  predicate Readable(world: World, manifest: Path) {
    manifest in world.infos && manifest in world.packages
  }

  function Process(world: World, state: State, request: Request): State {
    var workspaces := WorkspaceMap(world.rootPackages);
    if request.dependencyName in workspaces then
      state.(queue := state.queue + RequestsOf(workspaces[request.dependencyName]))
    else if request !in world.resolution || world.resolution[request] in state.visited then
      state
    else
      var manifest := world.resolution[request];
      var visited := state.visited + {manifest};
      if !Readable(world, manifest) then
        state.(visited := visited)
      else
        var info := world.infos[manifest];
        State(state.packagesByKey[KeyOf(info) := info], visited, state.queue + RequestsOf(world.packages[manifest]))
  }

  /** Takes the first request off the queue and processes it; an empty queue stays. */
  function Step(world: World, state: State): State {
    if state.queue == [] then state
    else Process(world, state.(queue := state.queue[1..]), state.queue[0])
  }

  function Start(world: World): State {
    State(map[], {}, RootRequests(world.rootPackages))
  }

  function Run(world: World, n: nat): State {
    if n == 0 then Start(world) else Step(world, Run(world, n - 1))
  }

  ghost predicate Terminates(world: World) {
    exists n: nat :: Run(world, n).queue == []
  }

  // ---- Reachability, independent of the run ----

  /** The requests one request leads to, memoisation aside. */
  function Expansion(world: World, request: Request): seq<Request> {
    var workspaces := WorkspaceMap(world.rootPackages);
    if request.dependencyName in workspaces then RequestsOf(workspaces[request.dependencyName])
    else if request in world.resolution && Readable(world, world.resolution[request]) then
      RequestsOf(world.packages[world.resolution[request]])
    else []
  }

  ghost function Expanding(world: World): Relation<Request> {
    (request, next) => next in Expansion(world, request)
  }

  ghost predicate Reachable(world: World, request: Request) {
    exists root | root in RootRequests(world.rootPackages) :: Leads(Expanding(world), root, request)
  }

  /** `request` names an installed package, not a workspace one, and its manifest is readable. */
  predicate Names(world: World, request: Request, info: PackageInfo) {
    request.dependencyName !in WorkspaceMap(world.rootPackages) &&
    request in world.resolution && Readable(world, world.resolution[request]) &&
    world.infos[world.resolution[request]] == info
  }

  lemma RootsAreReachable(world: World, request: Request)
    requires request in RootRequests(world.rootPackages)
    ensures Reachable(world, request)
  {
    LeadsSelf(Expanding(world), request);
  }

  lemma ExpansionIsReachable(world: World, request: Request, next: Request)
    requires Reachable(world, request) && next in Expansion(world, request)
    ensures Reachable(world, next)
  {
    var root :| root in RootRequests(world.rootPackages) && Leads(Expanding(world), root, request);
    LeadsOn(Expanding(world), root, request, next);
  }

  // ---- The invariant of the worklist ----

  /** Everything taken or queued is reachable, and every recorded package is named by a reachable request. */
  ghost predicate Sound(world: World, state: State, taken: set<Request>) {
    (forall r | r in taken :: Reachable(world, r)) &&
    (forall r | r in state.queue :: Reachable(world, r)) &&
    (forall key | key in state.packagesByKey ::
       KeyOf(state.packagesByKey[key]) == key &&
       exists r :: Reachable(world, r) && Names(world, r, state.packagesByKey[key]))
  }

  ghost predicate Covered(requests: seq<Request>, state: State, taken: set<Request>) {
    forall r | r in requests :: r in taken || r in state.queue
  }

  /** The roots, and whatever a taken request leads to, are taken or still queued. */
  ghost predicate Closed(world: World, state: State, taken: set<Request>) {
    Covered(RootRequests(world.rootPackages), state, taken) &&
    (forall r | r in taken :: Covered(Expansion(world, r), state, taken)) &&
    (forall r | r in taken && r.dependencyName !in WorkspaceMap(world.rootPackages) && r in world.resolution ::
       world.resolution[r] in state.visited)
  }

  /** Every visited readable manifest is recorded, and its requests are taken or still queued. */
  ghost predicate Recorded(world: World, state: State, taken: set<Request>) {
    forall manifest | manifest in state.visited && Readable(world, manifest) ::
      KeyOf(world.infos[manifest]) in state.packagesByKey &&
      Covered(RequestsOf(world.packages[manifest]), state, taken)
  }

  ghost predicate Invariant(world: World, state: State, taken: set<Request>) {
    Sound(world, state, taken) && Closed(world, state, taken) && Recorded(world, state, taken)
  }

  lemma StartInvariant(world: World)
    ensures Invariant(world, Start(world), {})
  {
    forall r | r in RootRequests(world.rootPackages) ensures Reachable(world, r) {
      RootsAreReachable(world, r);
    }
  }

  lemma StepSound(world: World, state: State, taken: set<Request>)
    requires Sound(world, state, taken) && state.queue != []
    ensures Sound(world, Step(world, state), taken + {state.queue[0]})
  {
    var request, next := state.queue[0], Step(world, state);
    StepQueue(world, state);
    forall r | r in Expansion(world, request) ensures Reachable(world, r) {
      ExpansionIsReachable(world, request, r);
    }
    forall key | key in next.packagesByKey
      ensures KeyOf(next.packagesByKey[key]) == key
      ensures exists r :: Reachable(world, r) && Names(world, r, next.packagesByKey[key])
    {
      if key !in state.packagesByKey || next.packagesByKey[key] != state.packagesByKey[key] {
        assert Names(world, request, next.packagesByKey[key]);
      }
    }
  }

  /** A step only ever takes the first request off the queue. */
  lemma StepCovers(world: World, requests: seq<Request>, state: State, taken: set<Request>)
    requires Covered(requests, state, taken) && state.queue != []
    ensures Covered(requests, Step(world, state), taken + {state.queue[0]})
  {
  }

  lemma StepExpands(world: World, state: State, taken: set<Request>)
    requires Recorded(world, state, taken) && state.queue != []
    ensures Covered(Expansion(world, state.queue[0]), Step(world, state), taken + {state.queue[0]})
  {
  }

  lemma StepClosed(world: World, state: State, taken: set<Request>)
    requires Closed(world, state, taken) && Recorded(world, state, taken) && state.queue != []
    ensures Closed(world, Step(world, state), taken + {state.queue[0]})
  {
    StepCovers(world, RootRequests(world.rootPackages), state, taken);
    StepExpands(world, state, taken);
    forall r | r in taken ensures Covered(Expansion(world, r), Step(world, state), taken + {state.queue[0]}) {
      StepCovers(world, Expansion(world, r), state, taken);
    }
  }

  lemma StepRecorded(world: World, state: State, taken: set<Request>)
    requires Recorded(world, state, taken) && state.queue != []
    ensures Recorded(world, Step(world, state), taken + {state.queue[0]})
  {
  }

  lemma StepInvariant(world: World, state: State, taken: set<Request>)
    requires Invariant(world, state, taken) && state.queue != []
    ensures Invariant(world, Step(world, state), taken + {state.queue[0]})
  {
    StepSound(world, state, taken);
    StepClosed(world, state, taken);
    StepRecorded(world, state, taken);
  }

  /** What a step does to the queue: the first request leaves, its expansion may join. */
  lemma StepQueue(world: World, state: State)
    requires state.queue != []
    ensures var next := Step(world, state);
            next.queue == state.queue[1..] || next.queue == state.queue[1..] + Expansion(world, state.queue[0])
    ensures forall r | r in state.queue :: r == state.queue[0] || r in Step(world, state).queue
    ensures forall r | r in Step(world, state).queue :: r in state.queue || r in Expansion(world, state.queue[0])
  {
  }

  /** With an empty queue, what was taken is everything reachable. */
  lemma TakenIsReachable(world: World, state: State, taken: set<Request>)
    requires Invariant(world, state, taken) && state.queue == []
    ensures forall r :: Reachable(world, r) <==> r in taken
  {
    forall r | Reachable(world, r) ensures r in taken {
      var root :| root in RootRequests(world.rootPackages) && Leads(Expanding(world), root, r);
      var trail :| Joins(Expanding(world), trail, root, r);
      TrailIsTaken(world, state, taken, trail, |trail| - 1);
    }
  }

  lemma {:induction false} TrailIsTaken(world: World, state: State, taken: set<Request>, trail: seq<Request>, i: nat)
    requires Invariant(world, state, taken) && state.queue == []
    requires Trail(Expanding(world), trail) && trail[0] in RootRequests(world.rootPackages) && i < |trail|
    ensures trail[i] in taken
  {
    if i > 0 {
      TrailIsTaken(world, state, taken, trail, i - 1);
      assert Expanding(world)(trail[i - 1], trail[i - 1 + 1]);
    }
  }

  /** The collected packages are exactly the reachable ones, by name and version. */
  ghost predicate Collected(world: World, packagesByKey: map<string, PackageInfo>) {
    (forall key :: key in packagesByKey <==>
      exists r, info :: Reachable(world, r) && Names(world, r, info) && KeyOf(info) == key) &&
    (forall key | key in packagesByKey ::
      KeyOf(packagesByKey[key]) == key && exists r :: Reachable(world, r) && Names(world, r, packagesByKey[key]))
  }

  lemma EmptyQueueCollected(world: World, state: State, taken: set<Request>)
    requires Invariant(world, state, taken) && state.queue == []
    ensures Collected(world, state.packagesByKey)
  {
    TakenIsReachable(world, state, taken);
    forall key
      ensures key in state.packagesByKey <==>
              exists r, info :: Reachable(world, r) && Names(world, r, info) && KeyOf(info) == key
    {
      if r, info :| Reachable(world, r) && Names(world, r, info) && KeyOf(info) == key {
        assert world.resolution[r] in state.visited;
      }
      if key in state.packagesByKey {
        var r :| Reachable(world, r) && Names(world, r, state.packagesByKey[key]);
      }
    }
  }

  // ---- Termination ----

  /** Workspace `name` depends on workspace `next`. */
  predicate WorkspaceEdge(world: World, name: string, next: string) {
    var workspaces := WorkspaceMap(world.rootPackages);
    name in workspaces && next in workspaces && next in workspaces[name].dependencyNames
  }

  ghost function Depending(world: World): Relation<string> {
    (name, next) => WorkspaceEdge(world, name, next)
  }

  ghost predicate Acyclic(world: World) {
    !exists cycle :: Cycle(Depending(world), cycle)
  }

  /** Dependencies have lower rank. */
  ghost predicate Ranked(world: World, rank: map<string, nat>) {
    (forall name | name in WorkspaceMap(world.rootPackages) :: name in rank) &&
    forall name, next | WorkspaceEdge(world, name, next) :: rank[next] < rank[name]
  }

  /** Walks from the end of `path` inside `names` until nothing of `names` is left to step to. */
  lemma {:induction false} FindSink(world: World, names: set<string>, path: seq<string>) returns (sink: string)
    requires Acyclic(world) && Trail(Depending(world), path) && NoRepeats(path)
    requires forall i | 0 <= i < |path| :: path[i] in names
    ensures sink in names && forall next | next in names :: !WorkspaceEdge(world, sink, next)
    decreases names - (set name | name in path)
  {
    var last := Last(path);
    if next :| next in names && WorkspaceEdge(world, last, next) {
      if next in path {
        var i :| 0 <= i < |path| && path[i] == next;
        TrailSuffix(Depending(world), path, i);
        assert Cycle(Depending(world), path[i..]);
        assert false;
      } else {
        assert next in names - (set name | name in path);
        assert next in (set name | name in path + [next]);
        TrailsJoin(Depending(world), path, [next]);
        sink := FindSink(world, names, path + [next]);
      }
    } else {
      sink := last;
    }
  }

  /** Without a cycle the workspace names can be ranked. */
  lemma {:induction false} RankNames(world: World, names: set<string>) returns (rank: map<string, nat>)
    requires Acyclic(world)
    ensures rank.Keys == names
    ensures forall name | name in names :: rank[name] < |names|
    ensures forall name, next | name in names && next in names && WorkspaceEdge(world, name, next) ::
              rank[next] < rank[name]
    decreases |names|
  {
    if names == {} {
      rank := map[];
    } else {
      var some :| some in names;
      var sink := FindSink(world, names, [some]);
      var above := RankNames(world, names - {sink});
      rank := map name | name in names :: if name == sink then 0 else above[name] + 1;
    }
  }

  /** Number of steps a request costs once every manifest is visited: one, plus its expansion. */
  ghost function Weight(world: World, rank: map<string, nat>, name: string): (w: nat)
    requires Ranked(world, rank)
    ensures w > 0
    decreases if name in WorkspaceMap(world.rootPackages) then rank[name] + 1 else 0, 0
  {
    var workspaces := WorkspaceMap(world.rootPackages);
    if name !in workspaces then 1
    else
      assert forall next | next in workspaces[name].dependencyNames && next in workspaces ::
               WorkspaceEdge(world, name, next);
      1 + NamesWeight(world, rank, workspaces[name].dependencyNames, rank[name])
  }

  ghost function NamesWeight(world: World, rank: map<string, nat>, names: seq<string>, bound: nat): nat
    requires Ranked(world, rank)
    requires forall name | name in names && name in WorkspaceMap(world.rootPackages) :: rank[name] < bound
    decreases bound, |names|
  {
    if names == [] then 0 else Weight(world, rank, names[0]) + NamesWeight(world, rank, names[1..], bound)
  }

  ghost function QueueWeight(world: World, rank: map<string, nat>, queue: seq<Request>): nat
    requires Ranked(world, rank)
  {
    if queue == [] then 0 else Weight(world, rank, queue[0].dependencyName) + QueueWeight(world, rank, queue[1..])
  }

  lemma {:induction false} QueueWeightSplits(world: World, rank: map<string, nat>, a: seq<Request>, b: seq<Request>)
    requires Ranked(world, rank)
    ensures QueueWeight(world, rank, a + b) == QueueWeight(world, rank, a) + QueueWeight(world, rank, b)
  {
    if a == [] {
      assert a + b == b;
    } else {
      QueueWeightSplits(world, rank, a[1..], b);
      assert (a + b)[1..] == a[1..] + b;
    }
  }

  lemma {:induction false} RequestsWeigh(world: World, rank: map<string, nat>, names: seq<string>, bound: nat,
                                         requests: seq<Request>)
    requires Ranked(world, rank) && |requests| == |names|
    requires forall i | 0 <= i < |names| :: requests[i].dependencyName == names[i]
    requires forall name | name in names && name in WorkspaceMap(world.rootPackages) :: rank[name] < bound
    ensures QueueWeight(world, rank, requests) == NamesWeight(world, rank, names, bound)
  {
    if names != [] {
      RequestsWeigh(world, rank, names[1..], bound, requests[1..]);
    }
  }

  ghost function Unvisited(world: World, state: State): set<Path> {
    world.resolution.Values - state.visited
  }

  /** Each step visits a new manifest, or visits none and makes the queue lighter. */
  lemma StepShrinks(world: World, rank: map<string, nat>, state: State)
    requires Ranked(world, rank) && state.queue != []
    ensures var next := Step(world, state);
            Unvisited(world, next) < Unvisited(world, state) ||
            (Unvisited(world, next) == Unvisited(world, state) &&
             QueueWeight(world, rank, next.queue) < QueueWeight(world, rank, state.queue))
  {
    var request, rest := state.queue[0], state.queue[1..];
    var workspaces := WorkspaceMap(world.rootPackages);
    if request.dependencyName in workspaces {
      var pkg := workspaces[request.dependencyName];
      QueueWeightSplits(world, rank, rest, RequestsOf(pkg));
      assert forall next | next in pkg.dependencyNames && next in workspaces ::
               WorkspaceEdge(world, request.dependencyName, next);
      RequestsWeigh(world, rank, pkg.dependencyNames, rank[request.dependencyName], RequestsOf(pkg));
    } else if request in world.resolution && world.resolution[request] !in state.visited {
      assert world.resolution[request] in Unvisited(world, state);
    }
  }

  lemma {:induction false} RunEnds(world: World, rank: map<string, nat>, n: nat)
    requires Ranked(world, rank)
    ensures Terminates(world)
    decreases Unvisited(world, Run(world, n)), QueueWeight(world, rank, Run(world, n).queue)
  {
    var state := Run(world, n);
    if state.queue != [] {
      StepShrinks(world, rank, state);
      assert Run(world, n + 1) == Step(world, state);
      RunEnds(world, rank, n + 1);
    }
  }

  /** A request for some package of the cycle is queued. */
  ghost predicate Live(cycle: seq<string>, queue: seq<Request>) {
    exists r | r in queue :: r.dependencyName in cycle
  }

  /** The requests of a package on the cycle include one for the next package on it. */
  lemma CycleGoesOn(world: World, cycle: seq<string>, name: string)
    requires Cycle(Depending(world), cycle) && name in cycle
    ensures name in WorkspaceMap(world.rootPackages) && Live(cycle, RequestsOf(WorkspaceMap(world.rootPackages)[name]))
  {
    var i :| 0 <= i < |cycle| && cycle[i] == name;
    var next := if i + 1 < |cycle| then cycle[i + 1] else cycle[0];
    assert Depending(world)(cycle[i], next);
    var pkg := WorkspaceMap(world.rootPackages)[name];
    var k :| 0 <= k < |pkg.dependencyNames| && pkg.dependencyNames[k] == next;
    assert RequestsOf(pkg)[k] in RequestsOf(pkg);
  }

  lemma {:induction false} RootRequestsInclude(packages: seq<RootPackage>, pkg: RootPackage)
    requires pkg in packages
    ensures forall r | r in RequestsOf(pkg) :: r in RootRequests(packages)
  {
    if pkg != packages[|packages| - 1] {
      assert packages == packages[..|packages| - 1] + [packages[|packages| - 1]];
      RootRequestsInclude(packages[..|packages| - 1], pkg);
    }
  }

  lemma {:induction false} CycleNeverEnds(world: World, cycle: seq<string>, n: nat)
    requires Cycle(Depending(world), cycle)
    ensures Live(cycle, Run(world, n).queue)
  {
    if n == 0 {
      CycleGoesOn(world, cycle, cycle[0]);
      RootRequestsInclude(world.rootPackages, WorkspaceMap(world.rootPackages)[cycle[0]]);
    } else {
      CycleNeverEnds(world, cycle, n - 1);
      var state := Run(world, n - 1);
      var r :| r in state.queue && r.dependencyName in cycle;
      StepQueue(world, state);
      if r == state.queue[0] {
        CycleGoesOn(world, cycle, r.dependencyName);
        var more :| more in RequestsOf(WorkspaceMap(world.rootPackages)[r.dependencyName]) &&
            more.dependencyName in cycle;
        assert more in Run(world, n).queue;
      } else {
        assert r in Run(world, n).queue;
      }
    }
  }

  /** The collection ends exactly when no workspace package depends on itself. */
  lemma TerminatesExactlyWhenAcyclic(world: World)
    ensures Terminates(world) <==> Acyclic(world)
  {
    if Acyclic(world) {
      var rank := RankNames(world, WorkspaceMap(world.rootPackages).Keys);
      RunEnds(world, rank, 0);
    }
    if cycle :| Cycle(Depending(world), cycle) {
      forall n: nat ensures Run(world, n).queue != [] {
        CycleNeverEnds(world, cycle, n);
      }
    }
  }

  // ---- The imperative collection ----

  class Collection {
    var packagesByKey: map<string, PackageInfo>
    var visitedManifests: set<Path>
    var queue: seq<Request>
    var workspaceByName: map<string, RootPackage>

    ghost function Abstract(): State
      reads this
    {
      State(packagesByKey, visitedManifests, queue)
    }

    constructor (world: World)
      ensures packagesByKey == map[] && visitedManifests == {} && queue == []
      ensures workspaceByName == WorkspaceMap(world.rootPackages)
    {
      packagesByKey, visitedManifests, queue := map[], {}, [];
      workspaceByName := WorkspaceMap(world.rootPackages);
    }

    method EnqueueDependencies(pkg: RootPackage)
      modifies this`queue
      ensures queue == old(queue) + RequestsOf(pkg)
    {
      for i := 0 to |pkg.dependencyNames|
        invariant queue == old(queue) + RequestsOf(pkg)[..i]
      {
        queue := queue + [Request(pkg.manifestPath, pkg.dependencyNames[i])];
      }
    }

    method ProcessDependencyRequest(world: World, request: Request)
      requires workspaceByName == WorkspaceMap(world.rootPackages)
      modifies this
      ensures workspaceByName == old(workspaceByName)
      ensures Abstract() == Process(world, old(Abstract()), request)
    {
      if request.dependencyName in workspaceByName {
        EnqueueDependencies(workspaceByName[request.dependencyName]);
        return;
      }
      if request !in world.resolution || world.resolution[request] in visitedManifests {
        return;
      }
      var manifest := world.resolution[request];
      visitedManifests := visitedManifests + {manifest};
      if manifest !in world.infos || manifest !in world.packages {
        return;
      }
      var info := world.infos[manifest];
      packagesByKey := packagesByKey[KeyOf(info) := info];
      EnqueueDependencies(world.packages[manifest]);
    }

    /** One turn of the loop: shift a request and process it. */
    method TakeNext(world: World)
      requires workspaceByName == WorkspaceMap(world.rootPackages) && queue != []
      modifies this
      ensures workspaceByName == old(workspaceByName)
      ensures Abstract() == Step(world, old(Abstract()))
    {
      var next := queue[0];
      queue := queue[1..];
      ProcessDependencyRequest(world, next);
    }
  }

  method EnqueueRoots(world: World) returns (state: Collection)
    ensures fresh(state) && state.Abstract() == Start(world)
    ensures state.workspaceByName == WorkspaceMap(world.rootPackages)
  {
    state := new Collection(world);
    for i := 0 to |world.rootPackages|
      invariant state.Abstract() == State(map[], {}, RootRequests(world.rootPackages[..i]))
      invariant state.workspaceByName == WorkspaceMap(world.rootPackages)
    {
      assert world.rootPackages[..i + 1][..i] == world.rootPackages[..i];
      state.EnqueueDependencies(world.rootPackages[i]);
    }
    assert world.rootPackages[..|world.rootPackages|] == world.rootPackages;
  }

  /** The packages a map holds, each under its own key, sorted by key. */
  ghost predicate Lists(le: Order<string>, packagesByKey: map<string, PackageInfo>, packages: seq<PackageInfo>) {
    Sorted(le, KeyOf, packages) && DistinctKeys(KeyOf, packages) &&
    forall info :: info in packages <==> KeyOf(info) in packagesByKey && packagesByKey[KeyOf(info)] == info
  }

  /** The values of the map in any order, then sorted: the keys decide the result. */
  method SortPackages(packagesByKey: map<string, PackageInfo>, le: Order<string>) returns (packages: seq<PackageInfo>)
    requires TotalOrder(le) && forall key | key in packagesByKey :: KeyOf(packagesByKey[key]) == key
    ensures Lists(le, packagesByKey, packages)
  {
    var values: seq<PackageInfo>, keys := [], packagesByKey.Keys;
    while keys != {}
      invariant keys <= packagesByKey.Keys && DistinctKeys(KeyOf, values)
      invariant forall info :: info in values <==>
                  KeyOf(info) in packagesByKey.Keys - keys && packagesByKey[KeyOf(info)] == info
      decreases keys
    {
      var key :| key in keys;
      assert forall i | 0 <= i < |values| :: values[i] in values;
      values := values + [packagesByKey[key]];
      keys := keys - {key};
    }
    packages := Sort(le, KeyOf, values);
    SortSorts(le, KeyOf, values);
    SameKeysDistinct(KeyOf, values, packages);
    SameMembers(packages, values);
  }

  /** Shifts requests until the queue is empty; acyclicity is exactly what makes the loop end. */
  method CollectProductionPackages(world: World, le: Order<string>) returns (packages: seq<PackageInfo>)
    requires Acyclic(world) && TotalOrder(le)
    ensures exists packagesByKey :: Collected(world, packagesByKey) && Lists(le, packagesByKey, packages)
  {
    ghost var rank := RankNames(world, WorkspaceMap(world.rootPackages).Keys);
    var state := EnqueueRoots(world);
    StartInvariant(world);
    ghost var s, taken := Start(world), {};
    while state.queue != []
      invariant state.workspaceByName == WorkspaceMap(world.rootPackages)
      invariant state.Abstract() == s
      invariant Invariant(world, s, taken)
      decreases Unvisited(world, s), QueueWeight(world, rank, s.queue)
    {
      StepInvariant(world, s, taken);
      StepShrinks(world, rank, s);
      state.TakeNext(world);
      s, taken := Step(world, s), taken + {s.queue[0]};
    }
    EmptyQueueCollected(world, s, taken);
    packages := SortPackages(state.packagesByKey, le);
    assert Collected(world, s.packagesByKey) && Lists(le, s.packagesByKey, packages);
  }

  /** Two workspace packages that depend on each other: the collection never ends. */
  lemma MutualDependencyNeverEnds()
    ensures var a := RootPackage(Some("@musi/a"), "a/package.json", ["@musi/b"]);
            var b := RootPackage(Some("@musi/b"), "b/package.json", ["@musi/a"]);
            !Terminates(World([a, b], map[], map[], map[]))
  {
    var a := RootPackage(Some("@musi/a"), "a/package.json", ["@musi/b"]);
    var b := RootPackage(Some("@musi/b"), "b/package.json", ["@musi/a"]);
    var world := World([a, b], map[], map[], map[]);
    assert [a, b][..1] == [a] && [a][..0] == [];
    assert WorkspaceMap([a]) == map["@musi/a" := a];
    assert WorkspaceMap(world.rootPackages) == map["@musi/a" := a, "@musi/b" := b];
    assert "@musi/b" in a.dependencyNames && "@musi/a" in b.dependencyNames;
    assert Cycle(Depending(world), ["@musi/a", "@musi/b"]);
    TerminatesExactlyWhenAcyclic(world);
  }
}
