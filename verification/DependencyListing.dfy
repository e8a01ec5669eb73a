/**
 What the list of production packages holds, in terms of the repository alone:
 who depends on whom, what is a workspace package, and what each manifest says.
 */
module DependencyListing {
  import opened DependencyClosure
  import opened Sequences
  import opened Sorting
  import opened Trails
  import opened Wrappers

  // ---- What the repository says ----

  /** The package at `i` is the last of this name. */
  ghost predicate IsLastNamed(packages: seq<RootPackage>, name: string, i: nat) {
    i < |packages| && packages[i].name == Some(name) && forall j | i < j < |packages| :: packages[j].name != Some(name)
  }

  /** The root package that `name` stands for: the last of that name, if the name is in the workspace's scope. */
  ghost predicate IsWorkspace(world: World, name: string, pkg: RootPackage) {
    "@musi/" <= name && exists i: nat :: IsLastNamed(world.rootPackages, name, i) && world.rootPackages[i] == pkg
  }

  ghost predicate InWorkspace(world: World, name: string) {
    exists pkg :: IsWorkspace(world, name, pkg)
  }

  /** The request asks for a package that is installed, with a readable manifest that says `info` and `pkg`. */
  ghost predicate Installed(world: World, request: Request, info: PackageInfo, pkg: RootPackage) {
    !InWorkspace(world, request.dependencyName) && request in world.resolution &&
    var manifest := world.resolution[request];
    manifest in world.infos && world.infos[manifest] == info &&
    manifest in world.packages && world.packages[manifest] == pkg
  }

  ghost predicate AsksFor(pkg: RootPackage, request: Request) {
    request.fromManifestPath == pkg.manifestPath && request.dependencyName in pkg.dependencyNames
  }

  /** What a request stands for asks for the next. */
  ghost predicate LeadsToRequest(world: World, request: Request, next: Request) {
    exists pkg :: AsksFor(pkg, next) &&
      (IsWorkspace(world, request.dependencyName, pkg) || exists info :: Installed(world, request, info, pkg))
  }

  ghost function Asking(world: World): Relation<Request> {
    (request, next) => LeadsToRequest(world, request, next)
  }

  /** A production dependency of some root package, direct or not. */
  ghost predicate IsRequested(world: World, request: Request) {
    exists root, pkg | pkg in world.rootPackages :: AsksFor(pkg, root) && Leads(Asking(world), root, request)
  }

  /** A package some root package needs. */
  ghost predicate IsNeeded(world: World, info: PackageInfo) {
    exists request, pkg :: IsRequested(world, request) && Installed(world, request, info, pkg)
  }

  // ---- The worklist's notions are these ----

  lemma {:induction false} WorkspaceMapMeans(packages: seq<RootPackage>, name: string)
    ensures name in WorkspaceMap(packages) <==> "@musi/" <= name && exists i: nat :: IsLastNamed(packages, name, i)
    ensures name in WorkspaceMap(packages) ==>
              exists i: nat :: IsLastNamed(packages, name, i) && packages[i] == WorkspaceMap(packages)[name]
  {
    if packages != [] {
      var init, last := packages[..|packages| - 1], packages[|packages| - 1];
      WorkspaceMapMeans(init, name);
      if last.name == Some(name) {
        assert IsLastNamed(packages, name, |packages| - 1);
      } else {
        forall i: nat ensures IsLastNamed(packages, name, i) <==> IsLastNamed(init, name, i) {
          NotTheLast(packages, name, i);
        }
      }
    }
  }

  lemma {:induction false} NotTheLast(packages: seq<RootPackage>, name: string, i: nat)
    requires packages != [] && packages[|packages| - 1].name != Some(name)
    ensures IsLastNamed(packages, name, i) <==> IsLastNamed(packages[..|packages| - 1], name, i)
  {
  }

  lemma {:induction false} OneIsLast(packages: seq<RootPackage>, name: string, i: nat, j: nat)
    requires IsLastNamed(packages, name, i) && IsLastNamed(packages, name, j)
    ensures i == j
  {
  }

  lemma {:induction false} WorkspaceMeans(world: World, name: string)
    ensures forall pkg :: name in WorkspaceMap(world.rootPackages) && WorkspaceMap(world.rootPackages)[name] == pkg <==>
                     IsWorkspace(world, name, pkg)
    ensures name in WorkspaceMap(world.rootPackages) <==> InWorkspace(world, name)
  {
    hide WorkspaceMap;
    WorkspaceMapMeans(world.rootPackages, name);
    if name in WorkspaceMap(world.rootPackages) {
      var i: nat :| IsLastNamed(world.rootPackages, name, i) &&
                    world.rootPackages[i] == WorkspaceMap(world.rootPackages)[name];
      forall pkg | IsWorkspace(world, name, pkg) ensures pkg == world.rootPackages[i] {
        var j: nat :| IsLastNamed(world.rootPackages, name, j) && world.rootPackages[j] == pkg;
        OneIsLast(world.rootPackages, name, i, j);
      }
      assert IsWorkspace(world, name, world.rootPackages[i]);
    }
  }

  lemma {:induction false} RequestsMean(pkg: RootPackage, request: Request)
    ensures request in RequestsOf(pkg) <==> AsksFor(pkg, request)
  {
    if AsksFor(pkg, request) {
      var i :| 0 <= i < |pkg.dependencyNames| && pkg.dependencyNames[i] == request.dependencyName;
      assert RequestsOf(pkg)[i] == request;
    }
  }

  lemma {:induction false} RootRequestsMean(packages: seq<RootPackage>, request: Request)
    ensures request in RootRequests(packages) <==> exists pkg | pkg in packages :: AsksFor(pkg, request)
  {
    if packages != [] {
      RootRequestsMean(packages[..|packages| - 1], request);
      RequestsMean(packages[|packages| - 1], request);
      assert packages == packages[..|packages| - 1] + [packages[|packages| - 1]];
    }
  }

  lemma {:induction false} ExpansionMeans(world: World, request: Request, next: Request)
    ensures next in Expansion(world, request) <==> LeadsToRequest(world, request, next)
  {
    hide WorkspaceMap, IsWorkspace, InWorkspace, RequestsOf;
    WorkspaceMeans(world, request.dependencyName);
    forall pkg ensures next in RequestsOf(pkg) <==> AsksFor(pkg, next) {
      RequestsMean(pkg, next);
    }
    if request in world.resolution && Readable(world, world.resolution[request]) {
      var manifest := world.resolution[request];
      assert !InWorkspace(world, request.dependencyName) ==>
               Installed(world, request, world.infos[manifest], world.packages[manifest]);
    }
  }

  lemma {:induction false} NamesMeans(world: World, request: Request, info: PackageInfo)
    ensures Names(world, request, info) <==> exists pkg :: Installed(world, request, info, pkg)
  {
    hide WorkspaceMap, IsWorkspace, InWorkspace;
    WorkspaceMeans(world, request.dependencyName);
    if Names(world, request, info) {
      assert Installed(world, request, info, world.packages[world.resolution[request]]);
    }
  }

  lemma {:induction false} ReachableMeans(world: World, request: Request)
    ensures Reachable(world, request) <==> IsRequested(world, request)
  {
    hide Expansion, LeadsToRequest, RootRequests;
    forall a, b ensures Expanding(world)(a, b) <==> Asking(world)(a, b) {
      ExpansionMeans(world, a, b);
    }
    forall root ensures Leads(Expanding(world), root, request) <==> Leads(Asking(world), root, request) {
      SameSteps(Expanding(world), Asking(world), root, request);
      SameSteps(Asking(world), Expanding(world), root, request);
    }
    forall root ensures root in RootRequests(world.rootPackages) <==>
                          exists pkg | pkg in world.rootPackages :: AsksFor(pkg, root)
    {
      RootRequestsMean(world.rootPackages, root);
    }
  }

  lemma {:induction false} SameSteps<T(!new)>(step: Relation<T>, other: Relation<T>, a: T, b: T)
    requires forall x, y | step(x, y) :: other(x, y)
    ensures Leads(step, a, b) ==> Leads(other, a, b)
  {
    if Leads(step, a, b) {
      var trail :| Joins(step, trail, a, b);
      assert Joins(other, trail, a, b);
    }
  }

  // ---- What is listed ----

  /** What `CollectProductionPackages` promises of its result. */
  ghost predicate IsListing(world: World, le: Order<string>, packages: seq<PackageInfo>) {
    exists packagesByKey :: Collected(world, packagesByKey) && Lists(le, packagesByKey, packages)
  }

  lemma {:induction false} KeyIsInjective(a: PackageInfo, b: PackageInfo)
    requires '@' !in a.version && '@' !in b.version && KeyOf(a) == KeyOf(b)
    ensures a.name == b.name && a.version == b.version
  {
    VersionBegins(a);
    VersionBegins(b);
    assert |a.name| == |b.name|;
  }

  /** The version begins after the last at-sign of a key. */
  lemma {:induction false} VersionBegins(info: PackageInfo)
    requires '@' !in info.version
    ensures KeyOf(info)[..|info.name|] == info.name && KeyOf(info)[|info.name| + 1..] == info.version
    ensures KeyOf(info)[|info.name|] == '@'
    ensures forall k | |info.name| < k < |KeyOf(info)| :: KeyOf(info)[k] != '@'
  {
    assert KeyOf(info) == info.name + ("@" + info.version);
    forall k | |info.name| < k < |KeyOf(info)| ensures KeyOf(info)[k] != '@' {
      assert KeyOf(info)[k] == info.version[k - |info.name| - 1];
    }
  }

  /**
   The list holds, for each name and version that some root package needs, one
   package of that name and version; every package listed is needed; and no two
   listed agree on both.
   */
  lemma {:induction false} ListsWhatIsNeeded(world: World, le: Order<string>, packages: seq<PackageInfo>)
    requires IsListing(world, le, packages)
    requires forall info | IsNeeded(world, info) :: '@' !in info.version
    ensures forall info | info in packages :: IsNeeded(world, info)
    ensures forall info | IsNeeded(world, info) ::
              exists listed :: listed in packages && listed.name == info.name && listed.version == info.version
    ensures forall i, j | 0 <= i < j < |packages| ::
              packages[i].name != packages[j].name || packages[i].version != packages[j].version
    ensures forall i, j | 0 <= i < j < |packages| ::
              le(packages[i].name + "@" + packages[i].version, packages[j].name + "@" + packages[j].version)
  {
    hide Reachable, Names, IsRequested, Installed;
    var packagesByKey :| Collected(world, packagesByKey) && Lists(le, packagesByKey, packages);
    forall info ensures IsNeeded(world, info) <==> exists r :: Reachable(world, r) && Names(world, r, info) {
      NeededMeans(world, info);
    }
    forall info | info in packages ensures IsNeeded(world, info) {
    }
    forall info | IsNeeded(world, info)
      ensures exists listed :: listed in packages && listed.name == info.name && listed.version == info.version
    {
      var listed := packagesByKey[KeyOf(info)];
      KeyIsInjective(info, listed);
      assert listed in packages;
    }
    forall i, j | 0 <= i < j < |packages|
      ensures packages[i].name != packages[j].name || packages[i].version != packages[j].version
    {
      assert KeyOf(packages[i]) != KeyOf(packages[j]);
    }
  }

  lemma {:induction false} NeededMeans(world: World, info: PackageInfo)
    ensures IsNeeded(world, info) <==> exists r :: Reachable(world, r) && Names(world, r, info)
  {
    hide Reachable, Names, IsRequested, Installed;
    forall r ensures Reachable(world, r) <==> IsRequested(world, r) {
      ReachableMeans(world, r);
    }
    forall r ensures Names(world, r, info) <==> exists pkg :: Installed(world, r, info, pkg) {
      NamesMeans(world, r, info);
    }
  }

  // ---- When the collection ends ----

  /** A workspace package depends on another by name. */
  ghost predicate DependsOn(world: World, name: string, next: string) {
    InWorkspace(world, next) && exists pkg :: IsWorkspace(world, name, pkg) && next in pkg.dependencyNames
  }

  ghost function WorkspaceDependencies(world: World): Relation<string> {
    (name, next) => DependsOn(world, name, next)
  }

  lemma {:induction false} DependingMeans(world: World, name: string, next: string)
    ensures WorkspaceEdge(world, name, next) <==> DependsOn(world, name, next)
  {
    hide WorkspaceMap, IsWorkspace, InWorkspace;
    WorkspaceMeans(world, name);
    WorkspaceMeans(world, next);
  }

  lemma {:induction false} CycleMeansReturn<T(!new)>(step: Relation<T>)
    ensures (exists cycle :: Cycle(step, cycle)) <==> exists a, b :: step(a, b) && Leads(step, b, a)
  {
    if cycle :| Cycle(step, cycle) {
      assert Joins(step, cycle, cycle[0], Last(cycle));
      assert step(Last(cycle), cycle[0]);
    }
    if a, b :| step(a, b) && Leads(step, b, a) {
      var cycle :| Joins(step, cycle, b, a);
      assert Cycle(step, cycle);
    }
  }

  /** The collection ends exactly when no workspace package depends on itself, directly or not. */
  lemma {:induction false} EndsExactlyWithoutSelfDependency(world: World)
    ensures Terminates(world) <==>
            !exists name, next :: DependsOn(world, name, next) && Leads(WorkspaceDependencies(world), next, name)
  {
    hide DependsOn, WorkspaceEdge, Terminates, Leads, Cycle;
    TerminatesExactlyWhenAcyclic(world);
    CycleMeansReturn(Depending(world));
    forall a, b ensures Depending(world)(a, b) <==> WorkspaceDependencies(world)(a, b) {
      DependingMeans(world, a, b);
    }
    forall a, b ensures Leads(Depending(world), a, b) <==> Leads(WorkspaceDependencies(world), a, b) {
      SameSteps(Depending(world), WorkspaceDependencies(world), a, b);
      SameSteps(WorkspaceDependencies(world), Depending(world), a, b);
    }
    if exists name, next :: DependsOn(world, name, next) && Leads(WorkspaceDependencies(world), next, name) {
      var name, next :| DependsOn(world, name, next) && Leads(WorkspaceDependencies(world), next, name);
      assert Depending(world)(name, next);
    }
    if a, b :| Depending(world)(a, b) && Leads(Depending(world), b, a) {
      assert DependsOn(world, a, b);
    }
  }
}
