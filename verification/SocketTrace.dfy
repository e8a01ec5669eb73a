/**
 What a stretch of the traversal means for the socket-listener rule, read off
 the syntax tree: which function, block and lifecycle callback a place lies in,
 what was registered and unregistered there, and the reports due for it.
 */
module SocketTrace {
  import opened Sequences
  import opened SyntaxTree
  import opened Wrappers

  datatype Verb = On | Off | RemoveAllListeners

  /** The event argument of a call: static text, an identifier, or nothing usable. */
  datatype EventArgument = Text(text: string) | Name(name: string) | NoEvent

  datatype SocketCall = SocketCall(verb: Verb, objectName: string, event: EventArgument, handler: Option<string>)

  /** A call's first child is its callee; a `return` holds its argument as its first child. */
  datatype Kind =
    | Function(name: Option<string>)
    | Block
    | Call(lifecycle: bool, socket: Option<SocketCall>)
    | Return(returnedName: Option<string>)
    | ConstString(constName: string, value: string)
    | Other

  type Node = Tree<Kind>

  // ---- What the tree itself says ----

  /** A function that is the first argument of a lifecycle hook call. */
  predicate IsLifecycleCallback(root: Node, p: Path)
    requires ValidPath(root, p)
  {
    p != [] && p[|p| - 1] == 1 && At(root, p).kind.Function? &&
    (ValidPrefix(root, p, |p| - 1);
     var parent := At(root, p[..|p| - 1]);
     parent.kind.Call? && parent.kind.lifecycle)
  }

  /** The nearest lifecycle callback around a position, itself included. */
  function Owner(root: Node, p: Path): Option<Path>
    requires ValidPath(root, p)
    decreases |p|
  {
    if IsLifecycleCallback(root, p) then Some(p) else OwnerOutside(root, p)
  }

  function OwnerOutside(root: Node, p: Path): Option<Path>
    requires ValidPath(root, p)
    decreases |p|, 0
  {
    if p == [] then None else (ValidPrefix(root, p, |p| - 1); Owner(root, p[..|p| - 1]))
  }

  /** A function around a position: where it is, what it is called, and the lifecycle callback it belongs to. */
  datatype FunctionScope = FunctionScope(path: Path, name: Option<string>, callback: bool, owner: Option<Path>)

  /** The functions around a position, outermost first, with or without the position itself. */
  function FunctionsAt(root: Node, p: Path): seq<FunctionScope>
    requires ValidPath(root, p)
    decreases |p|, 1
  {
    FunctionsOutside(root, p) +
    if At(root, p).kind.Function? then
      [FunctionScope(p, At(root, p).kind.name, IsLifecycleCallback(root, p), Owner(root, p))]
    else []
  }

  function FunctionsOutside(root: Node, p: Path): seq<FunctionScope>
    requires ValidPath(root, p)
    decreases |p|, 0
  {
    if p == [] then [] else (ValidPrefix(root, p, |p| - 1); FunctionsAt(root, p[..|p| - 1]))
  }

  /** The blocks around a position, outermost first; `None` stands for the file itself. */
  function BlocksAt(root: Node, p: Path): seq<Option<Path>>
    requires ValidPath(root, p)
    decreases |p|, 1
  {
    BlocksOutside(root, p) + if At(root, p).kind.Block? then [Some(p)] else []
  }

  function BlocksOutside(root: Node, p: Path): seq<Option<Path>>
    requires ValidPath(root, p)
    decreases |p|, 0
  {
    if p == [] then [None] else (ValidPrefix(root, p, |p| - 1); BlocksAt(root, p[..|p| - 1]))
  }

  /** A function returned on the spot by a lifecycle callback. */
  predicate IsReturnedCleanup(root: Node, p: Path)
    requires ValidPath(root, p)
  {
    p != [] && p[|p| - 1] == 0 && At(root, p).kind.Function? &&
    (ValidPrefix(root, p, |p| - 1);
     At(root, p[..|p| - 1]).kind.Return? && InnermostIsCallback(FunctionsOutside(root, p)))
  }

  predicate InnermostIsCallback(functions: seq<FunctionScope>) {
    functions != [] && functions[|functions| - 1].callback
  }

  predicate ReturnsFunction(n: Node) {
    n.children != [] && n.children[0].kind.Function?
  }

  /** The name a `return` hands out, unless it returns a function on the spot. */
  function ReturnedName(n: Node): Option<string> {
    if n.kind.Return? && !ReturnsFunction(n) then n.kind.returnedName else None
  }

  /** Everything the tree says about one position. */
  datatype Place = Place(path: Path, kind: Kind, handsOut: Option<string>, functions: seq<FunctionScope>,
                         blocks: seq<Option<Path>>, callback: bool, returned: bool)

  function PlaceOf(root: Node, p: Path): Place
    requires ValidPath(root, p)
  {
    Place(p, At(root, p).kind, ReturnedName(At(root, p)), FunctionsOutside(root, p), BlocksOutside(root, p),
          IsLifecycleCallback(root, p), IsReturnedCleanup(root, p))
  }

  function FunctionAround(place: Place): Option<Path> {
    if place.functions == [] then None else Some(place.functions[|place.functions| - 1].path)
  }

  function OwnerOf(place: Place): Option<Path> {
    if place.functions == [] then None else place.functions[|place.functions| - 1].owner
  }

  function BlockAround(place: Place): Option<Path> {
    if place.blocks == [] then None else place.blocks[|place.blocks| - 1]
  }

  function SocketCallOf(place: Place): Option<SocketCall> {
    if place.kind.Call? then place.kind.socket else None
  }

  predicate IsOnCall(place: Place) {
    SocketCallOf(place).Some? && SocketCallOf(place).value.verb.On?
  }

  predicate IsCleanupCall(place: Place) {
    SocketCallOf(place).Some? && !SocketCallOf(place).value.verb.On?
  }

  // ---- How the places nest ----

  ghost predicate Nested(functions: seq<FunctionScope>, p: Path) {
    (forall i | 0 <= i < |functions| :: functions[i].path < p &&
       (functions[i].callback ==> functions[i].owner == Some(functions[i].path)) &&
       (functions[i].owner.Some? ==> functions[i].owner.value <= functions[i].path)) &&
    forall i, j | 0 <= i < j < |functions| :: |functions[i].path| < |functions[j].path|
  }

  ghost predicate BlocksNested(blocks: seq<Option<Path>>, p: Path) {
    blocks != [] &&
    (forall i | 0 <= i < |blocks| :: blocks[i].Some? ==> blocks[i].value < p) &&
    (forall i | 0 < i < |blocks| :: blocks[i].Some?) &&
    forall i, j | 0 <= i < j < |blocks| && blocks[i].Some? :: |blocks[i].value| < |blocks[j].value|
  }

  lemma {:induction false} OwnerIsAround(root: Node, p: Path)
    requires ValidPath(root, p)
    ensures Owner(root, p).Some? ==> Owner(root, p).value <= p
    decreases |p|
  {
    if !IsLifecycleCallback(root, p) && p != [] {
      ValidPrefix(root, p, |p| - 1);
      OwnerIsAround(root, p[..|p| - 1]);
    }
  }

  lemma {:induction false} FunctionsNest(root: Node, p: Path)
    requires ValidPath(root, p)
    ensures Nested(FunctionsOutside(root, p), p)
    decreases |p|
  {
    hide ValidPath, IsLifecycleCallback, Owner;
    if p != [] {
      var q := p[..|p| - 1];
      ValidPrefix(root, p, |p| - 1);
      FunctionsNest(root, q);
      OwnerIsAround(root, q);
      if IsLifecycleCallback(root, q) {
        CallbackOwnsItself(root, q);
      }
      NestedFurther(FunctionsOutside(root, q), FunctionsAt(root, q), p);
    }
  }

  lemma CallbackOwnsItself(root: Node, p: Path)
    requires ValidPath(root, p) && IsLifecycleCallback(root, p)
    ensures Owner(root, p) == Some(p)
  {
  }

  lemma NestedFurther(outside: seq<FunctionScope>, at: seq<FunctionScope>, p: Path)
    requires p != [] && Nested(outside, p[..|p| - 1])
    requires at == outside || (at != [] && at == outside + [at[|at| - 1]] && at[|at| - 1].path == p[..|p| - 1])
    requires at != outside ==> var s := at[|at| - 1];
               (s.callback ==> s.owner == Some(s.path)) && (s.owner.Some? ==> s.owner.value <= s.path)
    ensures Nested(at, p)
  {
  }

  lemma {:induction false} BlocksNest(root: Node, p: Path)
    requires ValidPath(root, p)
    ensures BlocksNested(BlocksOutside(root, p), p)
    decreases |p|
  {
    hide ValidPath;
    if p != [] {
      var q := p[..|p| - 1];
      ValidPrefix(root, p, |p| - 1);
      BlocksNest(root, q);
      BlocksNestedFurther(BlocksOutside(root, q), q, BlocksAt(root, q), p);
    }
  }

  lemma BlocksNestedFurther(outside: seq<Option<Path>>, q: Path, at: seq<Option<Path>>, p: Path)
    requires BlocksNested(outside, q) && q < p
    requires at == outside || at == outside + [Some(q)]
    ensures BlocksNested(at, p)
  {
    forall i | 0 <= i < |at| && at[i].Some? ensures at[i].value < p {
      assert at[i].value <= q;
    }
  }

  /** The innermost function around a position belongs to the nearest lifecycle callback around it. */
  lemma {:induction false} OwnerOfPlace(root: Node, p: Path)
    requires ValidPath(root, p)
    ensures OwnerOf(PlaceOf(root, p)) == OwnerOutside(root, p)
    decreases |p|
  {
    if p != [] {
      var q := p[..|p| - 1];
      ValidPrefix(root, p, |p| - 1);
      OwnerOfPlace(root, q);
      assert FunctionsOutside(root, p) == FunctionsAt(root, q) && OwnerOutside(root, p) == Owner(root, q);
      if !At(root, q).kind.Function? {
        assert FunctionsAt(root, q) == FunctionsOutside(root, q);
      }
    }
  }

  // ---- The rule's data ----

  datatype OnCall = OnCall(path: Path, key: Option<string>, objectName: string)

  datatype CleanupCalls = CleanupCalls(offKeys: set<string>, removeAll: set<string>)

  const NO_CLEANUP := CleanupCalls({}, {})

  datatype EffectContext = EffectContext(onCalls: seq<OnCall>, gathered: CleanupCalls)

  /** A frame refers to its effect context by the callback that created it. */
  datatype Frame = Frame(context: Option<Path>, inCleanup: bool, isEffectCallback: bool, functionName: Option<string>,
                         own: CleanupCalls, cleanupNames: set<string>, named: map<string, CleanupCalls>)

  datatype Message = OutsideEffect | MissingCleanup

  datatype Report = Report(path: Path, message: Message)

  predicate Covers(gathered: CleanupCalls, call: OnCall) {
    (call.key.Some? && call.key.value in gathered.offKeys) || call.objectName in gathered.removeAll
  }

  function Union(a: CleanupCalls, b: CleanupCalls): CleanupCalls {
    CleanupCalls(a.offKeys + b.offKeys, a.removeAll + b.removeAll)
  }

  /** What one cleanup call unregisters; an `off` without a key counts for nothing. */
  function Unregisters(call: SocketCall, key: Option<string>): CleanupCalls {
    if call.verb.RemoveAllListeners? then CleanupCalls({}, {call.objectName})
    else if key.Some? then CleanupCalls({key.value}, {})
    else NO_CLEANUP
  }

  /** The innermost scope that gives `name` a non-empty string wins. */
  function ResolveConstString(scopes: seq<map<string, string>>, name: string): Option<string> {
    if scopes == [] then None
    else
      var last := scopes[|scopes| - 1];
      if name in last && last[name] != "" then Some(last[name]) else ResolveConstString(scopes[..|scopes| - 1], name)
  }

  function ListenerKey(scopes: seq<map<string, string>>, call: SocketCall): Option<string> {
    var event := match call.event
                 case Text(text) => if text != "" then Some(text) else None
                 case Name(name) => ResolveConstString(scopes, name)
                 case NoEvent => None;
    if call.verb.RemoveAllListeners? || event.None? || call.handler.None? then None
    else Some(call.objectName + "::" + event.value + "::" + call.handler.value)
  }

  // ---- What a stretch of the traversal means, read off the tree ----

  /** An entered place is annotated with whether it is in cleanup and with its listener key. */
  datatype Event = Enter(place: Place, cleaning: bool, key: Option<string>) | Leave(place: Place)

  type Trace = seq<Event>

  /** The function at `f` was entered as cleanup. */
  predicate Cleans(t: Trace, f: Path) {
    t != [] &&
    var e := t[|t| - 1];
    if e.Enter? && e.place.path == f then e.cleaning else Cleans(t[..|t| - 1], f)
  }

  /** The cleanup calls made by `f` itself while it is not known to be cleanup. */
  function Own(t: Trace, f: Path): CleanupCalls {
    if t == [] then NO_CLEANUP
    else
      var e, own := t[|t| - 1], Own(t[..|t| - 1], f);
      if e.Enter? && IsCleanupCall(e.place) && FunctionAround(e.place) == Some(f) && OwnerOf(e.place).Some? &&
         !e.cleaning then
        Union(own, Unregisters(SocketCallOf(e.place).value, e.key))
      else own
  }

  /** The names handed out by the `return`s of the lifecycle callback `f`. */
  function Returned(t: Trace, f: Path): set<string> {
    if t == [] then {}
    else
      var e, names := t[|t| - 1], Returned(t[..|t| - 1], f);
      if e.Enter? && e.place.handsOut.Some? && FunctionAround(e.place) == Some(f) &&
         InnermostIsCallback(e.place.functions) then
        names + {e.place.handsOut.value}
      else names
  }

  /** The named functions directly inside `f` that have been left, with the cleanup calls each made. */
  function Named(t: Trace, f: Path): map<string, CleanupCalls> {
    if t == [] then map[]
    else
      var e, named := t[|t| - 1], Named(t[..|t| - 1], f);
      if e.Leave? && e.place.kind.Function? && e.place.kind.name.Some? && FunctionAround(e.place) == Some(f) &&
         !e.place.callback then
        named[e.place.kind.name.value := Own(t[..|t| - 1], e.place.path)]
      else named
  }

  /**
   What the lifecycle callback `o` is credited with: cleanup calls inside its
   cleanup functions, and the calls of a named function it returns.
   */
  function Gathered(t: Trace, o: Path): CleanupCalls {
    if t == [] then NO_CLEANUP
    else
      var e, before := t[|t| - 1], t[..|t| - 1];
      if e.Leave? || OwnerOf(e.place) != Some(o) then Gathered(before, o)
      else if IsCleanupCall(e.place) && e.cleaning then
        Union(Gathered(before, o), Unregisters(SocketCallOf(e.place).value, e.key))
      else if e.place.handsOut.Some? && InnermostIsCallback(e.place.functions) &&
              e.place.handsOut.value in Named(before, o) then
        Union(Gathered(before, o), Named(before, o)[e.place.handsOut.value])
      else Gathered(before, o)
  }

  predicate IsPending(e: Event, o: Path) {
    e.Enter? && IsOnCall(e.place) && OwnerOf(e.place) == Some(o) && !e.cleaning
  }

  function OnCallOf(e: Event): OnCall
    requires e.Enter? && IsOnCall(e.place)
  {
    OnCall(e.place.path, e.key, SocketCallOf(e.place).value.objectName)
  }

  /** The `on` calls outside cleanup whose nearest lifecycle callback is `o`. */
  function Pending(t: Trace, o: Path): seq<OnCall> {
    if t == [] then []
    else Pending(t[..|t| - 1], o) + PendingOn(t[|t| - 1], o)
  }

  function PendingOn(e: Event, o: Path): seq<OnCall> {
    if IsPending(e, o) then [OnCallOf(e)] else []
  }

  /** The constant strings declared directly in a block. */
  function Consts(t: Trace, block: Option<Path>): map<string, string> {
    if t == [] then map[]
    else
      var e, consts := t[|t| - 1], Consts(t[..|t| - 1], block);
      if e.Enter? && e.place.kind.ConstString? && e.place.kind.value != "" && BlockAround(e.place) == block then
        consts[e.place.kind.constName := e.place.kind.value]
      else consts
  }

  /** The reports due for calls that nothing covers. */
  function Uncovered(calls: seq<OnCall>, gathered: CleanupCalls): seq<Report> {
    if calls == [] then []
    else
      Uncovered(calls[..|calls| - 1], gathered) +
      if Covers(gathered, calls[|calls| - 1]) then [] else [Report(calls[|calls| - 1].path, MissingCleanup)]
  }

  /** Reports are made when a call outside every lifecycle callback is met and when such a callback is left. */
  function ReportsOf(t: Trace): seq<Report> {
    if t == [] then []
    else
      var e, before := t[|t| - 1], t[..|t| - 1];
      ReportsOf(before) +
      if e.Enter? && IsOnCall(e.place) && OwnerOf(e.place).None? then [Report(e.place.path, OutsideEffect)]
      else if e.Leave? && e.place.callback then Uncovered(Pending(before, e.place.path), Gathered(before, e.place.path))
      else []
  }

  function FrameOf(t: Trace, f: FunctionScope): Frame {
    Frame(f.owner, Cleans(t, f.path), f.callback, f.name, Own(t, f.path), Returned(t, f.path), Named(t, f.path))
  }

  function Frames(t: Trace, functions: seq<FunctionScope>): (frames: seq<Frame>)
    ensures |frames| == |functions|
    ensures forall i | 0 <= i < |functions| :: frames[i] == FrameOf(t, functions[i])
  {
    seq(|functions|, i requires 0 <= i < |functions| => FrameOf(t, functions[i]))
  }

  function Scopes(t: Trace, blocks: seq<Option<Path>>): (scopes: seq<map<string, string>>)
    ensures |scopes| == |blocks|
    ensures forall i | 0 <= i < |blocks| :: scopes[i] == Consts(t, blocks[i])
  {
    seq(|blocks|, i requires 0 <= i < |blocks| => Consts(t, blocks[i]))
  }

  /** A function is cleanup inside cleanup, when returned on the spot, or when its name was returned before. */
  predicate CleaningAt(t: Trace, place: Place) {
    var around := FunctionAround(place);
    (around.Some? && Cleans(t, around.value)) ||
    (place.kind.Function? &&
     (place.returned || (place.kind.name.Some? && around.Some? && place.kind.name.value in Returned(t, around.value))))
  }

  function KeyAt(t: Trace, place: Place): Option<string> {
    if SocketCallOf(place).Some? then ListenerKey(Scopes(t, place.blocks), SocketCallOf(place).value) else None
  }

  function Entry(root: Node, t: Trace, p: Path): Event
    requires ValidPath(root, p)
  {
    Enter(PlaceOf(root, p), CleaningAt(t, PlaceOf(root, p)), KeyAt(t, PlaceOf(root, p)))
  }

  /** The trace after the traversal of one more subtree. */
  function TraceNode(root: Node, n: Node, p: Path, t: Trace): Trace
    requires ValidPath(root, p) && At(root, p) == n
    decreases n, 1
  {
    TraceChildren(root, n, p, t + [Entry(root, t, p)], |n.children|) + [Leave(PlaceOf(root, p))]
  }

  function TraceChildren(root: Node, n: Node, p: Path, t: Trace, k: nat): Trace
    requires ValidPath(root, p) && At(root, p) == n && k <= |n.children|
    decreases n, 0, k
  {
    if k == 0 then t
    else
      ValidChild(root, p, k - 1);
      TraceNode(root, n.children[k - 1], p + [k - 1], TraceChildren(root, n, p, t, k - 1))
  }

  /** One child more. */
  lemma NextChild(root: Node, n: Node, p: Path, t: Trace, k: nat)
    requires ValidPath(root, p) && At(root, p) == n && 0 < k <= |n.children|
    ensures ValidPath(root, p + [k - 1]) && At(root, p + [k - 1]) == n.children[k - 1]
    ensures TraceChildren(root, n, p, t, k) ==
            TraceNode(root, n.children[k - 1], p + [k - 1], TraceChildren(root, n, p, t, k - 1))
  {
    ValidChild(root, p, k - 1);
  }

  // ---- Where events lie ----

  ghost predicate Real(root: Node, e: Event) {
    ValidPath(root, e.place.path) && e.place == PlaceOf(root, e.place.path)
  }

  /** Nothing at or below `p` has been entered yet. */
  ghost predicate Untouched(root: Node, t: Trace, p: Path) {
    forall e | e in t :: Real(root, e) && !(p <= e.place.path)
  }

  /** `after` continues `before` by events at or below `p`. */
  ghost predicate Extends(root: Node, before: Trace, after: Trace, p: Path) {
    before <= after && forall e | e in after[|before|..] :: Real(root, e) && p <= e.place.path
  }

  ghost predicate ExtendsBefore(root: Node, before: Trace, after: Trace, p: Path, k: nat) {
    before <= after &&
    forall e | e in after[|before|..] :: Real(root, e) && p < e.place.path && e.place.path[|p|] < k
  }

  lemma {:induction false} TraceExtends(root: Node, n: Node, p: Path, t: Trace)
    requires ValidPath(root, p) && At(root, p) == n
    ensures Extends(root, t, TraceNode(root, n, p, t), p)
    decreases n, 1
  {
    hide ValidPath, At, TraceChildren;
    var entered := t + [Entry(root, t, p)];
    ChildrenExtend(root, n, p, entered, |n.children|);
    var below := TraceChildren(root, n, p, entered, |n.children|);
    assert (below + [Leave(PlaceOf(root, p))])[|t|..] ==
           [Entry(root, t, p)] + below[|entered|..] + [Leave(PlaceOf(root, p))];
  }

  lemma {:induction false} ChildrenExtend(root: Node, n: Node, p: Path, t: Trace, k: nat)
    requires ValidPath(root, p) && At(root, p) == n && k <= |n.children|
    ensures ExtendsBefore(root, t, TraceChildren(root, n, p, t, k), p, k)
    decreases n, 0, k
  {
    hide ValidPath, At, TraceNode, PlaceOf, Real;
    if k > 0 {
      ValidChild(root, p, k - 1);
      ChildrenExtend(root, n, p, t, k - 1);
      var before := TraceChildren(root, n, p, t, k - 1);
      TraceExtends(root, n.children[k - 1], p + [k - 1], before);
      var after := TraceChildren(root, n, p, t, k);
      assert after[|t|..] == before[|t|..] + after[|before|..];
      forall e | e in after[|before|..] ensures p < e.place.path && e.place.path[|p|] == k - 1 {
        BelowChild(p, k - 1, e.place.path);
      }
    }
  }

  lemma BelowChild(p: Path, i: nat, q: Path)
    requires p + [i] <= q
    ensures p < q && q[|p|] == i
  {
  }

  /** Once the children before the `k`-th are done, the `k`-th is still untouched. */
  lemma ChildUntouched(root: Node, n: Node, p: Path, t: Trace, e: Event, k: nat)
    requires ValidPath(root, p) && At(root, p) == n && k < |n.children|
    requires Untouched(root, t, p) && Real(root, e) && e.place.path == p
    ensures Untouched(root, TraceChildren(root, n, p, t + [e], k), p + [k])
  {
    hide ValidPath, At, TraceChildren, PlaceOf;
    var entered := t + [e];
    ChildrenExtend(root, n, p, entered, k);
    var after := TraceChildren(root, n, p, entered, k);
    forall x | x in after ensures Real(root, x) && !(p + [k] <= x.place.path) {
      assert after == entered + after[|entered|..];
      if p + [k] <= x.place.path {
        BelowChild(p, k, x.place.path);
      }
    }
  }

  // ---- One event further ----

  /** The contexts are those of the lifecycle callbacks entered so far, each holding what the trace says. */
  ghost predicate ContextsAgree(t: Trace, contexts: map<Path, EffectContext>) {
    forall o | o in contexts :: contexts[o] == EffectContext(Pending(t, o), Gathered(t, o))
  }

  ghost predicate Known(functions: seq<FunctionScope>, contexts: map<Path, EffectContext>) {
    forall s | s in functions && s.owner.Some? :: s.owner.value in contexts
  }

  /** An event concerns the innermost function, block and callback around it and nothing else. */
  lemma EventIsLocal(t: Trace, e: Event)
    ensures forall f: FunctionScope | f.path != e.place.path && FunctionAround(e.place) != Some(f.path) ::
              FrameOf(t + [e], f) == FrameOf(t, f)
    ensures forall b | BlockAround(e.place) != b :: Consts(t + [e], b) == Consts(t, b)
    ensures forall o | OwnerOf(e.place) != Some(o) ::
              Pending(t + [e], o) == Pending(t, o) && Gathered(t + [e], o) == Gathered(t, o)
  {
  }

  lemma FramesStep(t: Trace, e: Event)
    requires Nested(e.place.functions, e.place.path)
    ensures var functions := e.place.functions;
            Frames(t + [e], functions) ==
            if functions == [] then []
            else Frames(t, functions)[|functions| - 1 := FrameOf(t + [e], functions[|functions| - 1])]
  {
  }

  lemma ScopesStep(t: Trace, e: Event)
    requires BlocksNested(e.place.blocks, e.place.path)
    ensures var blocks := e.place.blocks;
            Scopes(t + [e], blocks) == Scopes(t, blocks)[|blocks| - 1 := Consts(t + [e], blocks[|blocks| - 1])]
  {
  }

  /** Nothing is known of a function or block that has not been entered. */
  lemma {:induction false} NothingKnown(root: Node, t: Trace, p: Path)
    requires Untouched(root, t, p)
    ensures Own(t, p) == NO_CLEANUP && Returned(t, p) == {} && Named(t, p) == map[] && !Cleans(t, p)
    ensures Pending(t, p) == [] && Gathered(t, p) == NO_CLEANUP && Consts(t, Some(p)) == map[]
  {
    if t != [] {
      var before, e := t[..|t| - 1], t[|t| - 1];
      assert forall x | x in before :: x in t;
      NothingKnown(root, before, p);
      FunctionsNest(root, e.place.path);
      BlocksNest(root, e.place.path);
      assert FunctionAround(e.place) != Some(p) && BlockAround(e.place) != Some(p) && OwnerOf(e.place) != Some(p) by {
        if e.place.functions != [] {
          var last := e.place.functions[|e.place.functions| - 1];
          assert last.owner == Some(p) ==> p <= last.path <= e.place.path;
        }
      }
    }
  }

  /** An event that changes nothing but, for an entered function, its own flag. */
  predicate Quiet(e: Event) {
    match e
    case Enter(place, _, _) =>
      SocketCallOf(place).None? && !(place.handsOut.Some? && InnermostIsCallback(place.functions)) &&
      !(place.kind.ConstString? && place.kind.value != "")
    case Leave(place) => !place.kind.Function? && !place.callback
  }

  lemma QuietStep(t: Trace, e: Event, contexts: map<Path, EffectContext>)
    requires Quiet(e) && Nested(e.place.functions, e.place.path) && ContextsAgree(t, contexts)
    ensures Frames(t + [e], e.place.functions) == Frames(t, e.place.functions)
    ensures Scopes(t + [e], e.place.blocks) == Scopes(t, e.place.blocks)
    ensures ContextsAgree(t + [e], contexts) && ReportsOf(t + [e]) == ReportsOf(t)
  {
  }

  /** The frame pushed for a function under `parent`. */
  function NewFrame(parent: Option<Frame>, p: Path, name: Option<string>, callback: bool, returned: bool): Frame {
    Frame(if callback then Some(p) else if parent.Some? then parent.value.context else None,
          (parent.Some? && parent.value.inCleanup) || returned ||
          (name.Some? && parent.Some? && name.value in parent.value.cleanupNames),
          callback, name, NO_CLEANUP, {}, map[])
  }

  function Top(stack: seq<Frame>): Option<Frame> {
    if stack == [] then None else Some(Last(stack))
  }

  /** Of a function just entered nothing is known but its flag. */
  lemma JustEntered(root: Node, t: Trace, p: Path)
    requires ValidPath(root, p) && At(root, p).kind.Function? && Untouched(root, t, p)
    ensures var e := Entry(root, t, p);
            Own(t + [e], p) == NO_CLEANUP && Returned(t + [e], p) == {} && Named(t + [e], p) == map[] &&
            Cleans(t + [e], p) == e.cleaning
  {
    hide ValidPath, IsLifecycleCallback, IsReturnedCleanup, KeyAt, Gathered, Pending, Consts;
    var e := Entry(root, t, p);
    var after := t + [e];
    assert after[..|after| - 1] == t && after[|after| - 1] == e;
    NothingKnown(root, t, p);
  }

  lemma PushedFrame(root: Node, t: Trace, p: Path)
    requires ValidPath(root, p) && At(root, p).kind.Function? && Untouched(root, t, p)
    ensures var e, outside := Entry(root, t, p), FunctionsOutside(root, p);
            FunctionsAt(root, p) == outside + [Last(FunctionsAt(root, p))] &&
            Last(FunctionsAt(root, p)).owner == Owner(root, p) &&
            FrameOf(t + [e], Last(FunctionsAt(root, p))) ==
            NewFrame(Top(Frames(t, outside)), p, e.place.kind.name, e.place.callback, e.place.returned)
  {
    hide ValidPath, IsLifecycleCallback, IsReturnedCleanup, KeyAt, Own, Returned, Named, Cleans;
    FunctionsNest(root, p);
    OwnerOfPlace(root, p);
    JustEntered(root, t, p);
  }

  /** A lifecycle callback just entered has gathered nothing. */
  lemma ContextIsFresh(root: Node, t: Trace, p: Path, contexts: map<Path, EffectContext>)
    requires ValidPath(root, p) && At(root, p).kind.Function? && Untouched(root, t, p)
    requires Known(FunctionsOutside(root, p), contexts) && ContextsAgree(t + [Entry(root, t, p)], contexts)
    ensures var extended := if IsLifecycleCallback(root, p) then contexts[p := EffectContext([], NO_CLEANUP)]
                            else contexts;
            Known(FunctionsAt(root, p), extended) && ContextsAgree(t + [Entry(root, t, p)], extended)
  {
    hide ValidPath, IsLifecycleCallback, IsReturnedCleanup, KeyAt, Own, Named, Returned, Cleans;
    var e := Entry(root, t, p);
    var after := t + [e];
    assert after[..|after| - 1] == t && after[|after| - 1] == e;
    OwnerOfPlace(root, p);
    NothingKnown(root, t, p);
    var outside, at := FunctionsOutside(root, p), FunctionsAt(root, p);
    assert at == outside + [Last(at)];
  }

  lemma FunctionStep(root: Node, t: Trace, p: Path, contexts: map<Path, EffectContext>)
    requires ValidPath(root, p) && At(root, p).kind.Function? && Untouched(root, t, p)
    requires Known(FunctionsOutside(root, p), contexts) && ContextsAgree(t, contexts)
    ensures var e := Entry(root, t, p);
            var stack := Frames(t, FunctionsOutside(root, p));
            Frames(t + [e], FunctionsAt(root, p)) ==
            stack + [NewFrame(Top(stack), p, e.place.kind.name, e.place.callback, e.place.returned)]
    ensures var extended := if IsLifecycleCallback(root, p) then contexts[p := EffectContext([], NO_CLEANUP)]
                            else contexts;
            Known(FunctionsAt(root, p), extended) && ContextsAgree(t + [Entry(root, t, p)], extended)
  {
    hide ValidPath, IsLifecycleCallback, IsReturnedCleanup, Frames, FrameOf, NewFrame, KeyAt, ContextsAgree, Known,
         Untouched, Nested;
    var e := Entry(root, t, p);
    var after := t + [e];
    FunctionsNest(root, p);
    QuietStep(t, e, contexts);
    PushedFrame(root, t, p);
    ContextIsFresh(root, t, p, contexts);
    var outside, at := FunctionsOutside(root, p), FunctionsAt(root, p);
    assert Frames(after, at) == Frames(after, outside) + [FrameOf(after, Last(at))];
  }

  lemma ScopesSame(t: Trace, e: Event, blocks: seq<Option<Path>>)
    requires e.Enter? && e.place.kind.ConstString? ==> e.place.kind.value == ""
    ensures Scopes(t + [e], blocks) == Scopes(t, blocks)
  {
  }

  lemma ReportsSame(t: Trace, e: Event)
    requires if e.Enter? then !IsOnCall(e.place) || OwnerOf(e.place).Some? else !e.place.callback
    ensures ReportsOf(t + [e]) == ReportsOf(t)
  {
  }

  /** A call or constant entered inside cleanup, or one that is no cleanup call, leaves the frames alone. */
  lemma FramesSame(t: Trace, e: Event)
    requires Nested(e.place.functions, e.place.path)
    requires e.Enter? && e.place.handsOut.None?
    requires IsCleanupCall(e.place) && OwnerOf(e.place).Some? ==> e.cleaning
    ensures Frames(t + [e], e.place.functions) == Frames(t, e.place.functions)
  {
  }

  lemma ConstStep(t: Trace, e: Event, contexts: map<Path, EffectContext>)
    requires e.Enter? && e.place.kind.ConstString? && e.place.kind.value != "" && e.place.handsOut.None?
    requires Nested(e.place.functions, e.place.path) && BlocksNested(e.place.blocks, e.place.path)
    requires ContextsAgree(t, contexts)
    ensures Frames(t + [e], e.place.functions) == Frames(t, e.place.functions)
    ensures var scopes := Scopes(t, e.place.blocks);
            Scopes(t + [e], e.place.blocks) ==
            SetLast(scopes, Last(scopes)[e.place.kind.constName := e.place.kind.value])
    ensures ContextsAgree(t + [e], contexts) && ReportsOf(t + [e]) == ReportsOf(t)
  {
    hide Frames, ReportsOf;
    var after := t + [e];
    assert after[..|after| - 1] == t && after[|after| - 1] == e;
    FramesSame(t, e);
    ReportsSame(t, e);
    ScopesStep(t, e);
  }

  lemma ReturnFrames(t: Trace, e: Event)
    requires e.Enter? && e.place.kind.Return? && e.place.handsOut.Some? && InnermostIsCallback(e.place.functions)
    requires Nested(e.place.functions, e.place.path)
    ensures var stack, name := Frames(t, e.place.functions), e.place.handsOut.value;
            Frames(t + [e], e.place.functions) ==
            SetLast(stack, Last(stack).(cleanupNames := Last(stack).cleanupNames + {name}))
  {
  }

  lemma ReturnStep(t: Trace, e: Event, contexts: map<Path, EffectContext>)
    requires e.Enter? && e.place.kind.Return? && e.place.handsOut.Some? && InnermostIsCallback(e.place.functions)
    requires Nested(e.place.functions, e.place.path)
    requires ContextsAgree(t, contexts) && Known(e.place.functions, contexts)
    ensures Last(e.place.functions).owner == Some(Last(e.place.functions).path) &&
            Last(e.place.functions).path in contexts
    ensures var stack, name := Frames(t, e.place.functions), e.place.handsOut.value;
            var top, owner := Last(stack), Last(e.place.functions).path;
            Frames(t + [e], e.place.functions) == SetLast(stack, top.(cleanupNames := top.cleanupNames + {name})) &&
            ContextsAgree(t + [e],
              if name in top.named then
                contexts[owner := contexts[owner].(gathered := Union(contexts[owner].gathered, top.named[name]))]
              else contexts)
    ensures Scopes(t + [e], e.place.blocks) == Scopes(t, e.place.blocks) && ReportsOf(t + [e]) == ReportsOf(t)
  {
    hide Frames, ReportsOf, Scopes;
    var after := t + [e];
    assert after[..|after| - 1] == t && after[|after| - 1] == e;
    ReturnFrames(t, e);
    ScopesSame(t, e, e.place.blocks);
    ReportsSame(t, e);
    var last := Last(e.place.functions);
    assert last in e.place.functions;
    EventIsLocal(t, e);
    assert Pending(after, last.path) == Pending(t, last.path);
  }

  lemma OnStep(t: Trace, e: Event, contexts: map<Path, EffectContext>)
    requires e.Enter? && IsOnCall(e.place) && e.place.handsOut.None?
    requires Nested(e.place.functions, e.place.path)
    requires ContextsAgree(t, contexts) && Known(e.place.functions, contexts)
    ensures Frames(t + [e], e.place.functions) == Frames(t, e.place.functions)
    ensures Scopes(t + [e], e.place.blocks) == Scopes(t, e.place.blocks)
    ensures OwnerOf(e.place).Some? ==> OwnerOf(e.place).value in contexts
    ensures ContextsAgree(t + [e],
              if OwnerOf(e.place).Some? && !e.cleaning then
                var owner := OwnerOf(e.place).value;
                contexts[owner := contexts[owner].(onCalls := contexts[owner].onCalls + [OnCallOf(e)])]
              else contexts)
    ensures ReportsOf(t + [e]) ==
            ReportsOf(t) + if OwnerOf(e.place).None? then [Report(e.place.path, OutsideEffect)] else []
  {
    hide Frames, Scopes;
    var after := t + [e];
    assert after[..|after| - 1] == t && after[|after| - 1] == e;
    FramesSame(t, e);
    ScopesSame(t, e, e.place.blocks);
    EventIsLocal(t, e);
    if e.place.functions != [] {
      assert Last(e.place.functions) in e.place.functions;
    }
  }

  lemma CleanupFrames(t: Trace, e: Event)
    requires e.Enter? && IsCleanupCall(e.place) && e.place.handsOut.None?
    requires Nested(e.place.functions, e.place.path) && OwnerOf(e.place).Some? && !e.cleaning
    ensures var stack := Frames(t, e.place.functions);
            var calls := Unregisters(SocketCallOf(e.place).value, e.key);
            Frames(t + [e], e.place.functions) == SetLast(stack, Last(stack).(own := Union(Last(stack).own, calls)))
  {
  }

  lemma CleanupStep(t: Trace, e: Event, contexts: map<Path, EffectContext>)
    requires e.Enter? && IsCleanupCall(e.place) && e.place.handsOut.None?
    requires Nested(e.place.functions, e.place.path)
    requires ContextsAgree(t, contexts) && Known(e.place.functions, contexts)
    ensures OwnerOf(e.place).Some? ==> OwnerOf(e.place).value in contexts && e.place.functions != []
    ensures var stack := Frames(t, e.place.functions);
            var calls := Unregisters(SocketCallOf(e.place).value, e.key);
            Frames(t + [e], e.place.functions) ==
            if OwnerOf(e.place).Some? && !e.cleaning then
              SetLast(stack, Last(stack).(own := Union(Last(stack).own, calls)))
            else stack
    ensures ContextsAgree(t + [e],
              if OwnerOf(e.place).Some? && e.cleaning then
                var owner, calls := OwnerOf(e.place).value, Unregisters(SocketCallOf(e.place).value, e.key);
                contexts[owner := contexts[owner].(gathered := Union(contexts[owner].gathered, calls))]
              else contexts)
    ensures Scopes(t + [e], e.place.blocks) == Scopes(t, e.place.blocks) && ReportsOf(t + [e]) == ReportsOf(t)
  {
    hide Frames, Scopes, ReportsOf, Unregisters;
    var after := t + [e];
    assert after[..|after| - 1] == t && after[|after| - 1] == e;
    if OwnerOf(e.place).Some? && !e.cleaning {
      CleanupFrames(t, e);
    } else {
      FramesSame(t, e);
    }
    ScopesSame(t, e, e.place.blocks);
    ReportsSame(t, e);
    EventIsLocal(t, e);
    if e.place.functions != [] {
      assert Last(e.place.functions) in e.place.functions;
    }
  }

  /** What is found on the stack when the function at `p` is left. */
  lemma StackAtLeave(root: Node, t: Trace, p: Path)
    requires ValidPath(root, p) && At(root, p).kind.Function?
    ensures var stack, below := Frames(t, FunctionsAt(root, p)), Frames(t, FunctionsOutside(root, p));
            var callback := IsLifecycleCallback(root, p);
            stack == below + [Last(stack)] && Last(stack).own == Own(t, p) &&
            Last(stack).functionName == At(root, p).kind.name && Last(stack).isEffectCallback == callback &&
            (callback ==> Last(stack).context == Some(p)) &&
            (below != [] ==> (Last(below).context == Last(stack).context <==> !callback))
  {
    hide ValidPath, IsLifecycleCallback, Own, Named, Returned, Cleans;
    FunctionsNest(root, p);
    OwnerOfPlace(root, p);
    var outside, at := FunctionsOutside(root, p), FunctionsAt(root, p);
    var s := Last(at);
    assert at == outside + [s];
    assert Frames(t, at) == Frames(t, outside) + [FrameOf(t, s)];
    if outside != [] {
      var o := Last(outside);
      assert o.owner == OwnerOf(PlaceOf(root, p));
      assert o.owner.Some? ==> o.owner.value <= o.path < p;
    }
  }

  /** A `Leave` changes one thing known of any function: what the one around it has stored by name. */
  lemma LeaveStores(t: Trace, e: Event, f: Path)
    requires e.Leave? && e.place.kind.Function?
    ensures Own(t + [e], f) == Own(t, f) && Returned(t + [e], f) == Returned(t, f) && Cleans(t + [e], f) == Cleans(t, f)
    ensures Named(t + [e], f) ==
            if e.place.kind.name.Some? && FunctionAround(e.place) == Some(f) && !e.place.callback then
              Named(t, f)[e.place.kind.name.value := Own(t, e.place.path)]
            else Named(t, f)
  {
    var after := t + [e];
    assert after[..|after| - 1] == t && after[|after| - 1] == e;
  }

  lemma LeaveFrames(t: Trace, e: Event)
    requires e.Leave? && e.place.kind.Function? && Nested(e.place.functions, e.place.path)
    ensures var below := Frames(t, e.place.functions);
            Frames(t + [e], e.place.functions) ==
            if e.place.kind.name.Some? && below != [] && !e.place.callback then
              SetLast(below, Last(below).(named := Last(below).named[e.place.kind.name.value := Own(t, e.place.path)]))
            else below
  {
    hide Own, Returned, Named, Cleans;
    FramesStep(t, e);
    if e.place.functions != [] {
      LeaveStores(t, e, Last(e.place.functions).path);
    }
  }

  lemma LeaveIsQuiet(root: Node, t: Trace, p: Path, contexts: map<Path, EffectContext>)
    requires ValidPath(root, p) && ContextsAgree(t, contexts)
    ensures var e := Leave(PlaceOf(root, p));
            Scopes(t + [e], BlocksOutside(root, p)) == Scopes(t, BlocksOutside(root, p)) &&
            ContextsAgree(t + [e], contexts)
  {
    hide ValidPath, IsLifecycleCallback, IsReturnedCleanup, Frames, Scopes, Own, Named;
    var e := Leave(PlaceOf(root, p));
    var after := t + [e];
    assert after[..|after| - 1] == t && after[|after| - 1] == e;
    ScopesSame(t, e, BlocksOutside(root, p));
    assert forall o | o in contexts :: Pending(after, o) == Pending(t, o) && Gathered(after, o) == Gathered(t, o);
  }

  /** Leaving a lifecycle callback reports what its context leaves uncovered. */
  lemma LeaveReportsUncovered(root: Node, t: Trace, p: Path, contexts: map<Path, EffectContext>)
    requires ValidPath(root, p) && At(root, p).kind.Function?
    requires ContextsAgree(t, contexts) && Known(FunctionsAt(root, p), contexts)
    ensures IsLifecycleCallback(root, p) ==> p in contexts
    ensures ReportsOf(t + [Leave(PlaceOf(root, p))]) == ReportsOf(t) +
            if IsLifecycleCallback(root, p) then Uncovered(contexts[p].onCalls, contexts[p].gathered) else []
  {
    hide ValidPath, IsLifecycleCallback, IsReturnedCleanup, Uncovered, Pending, Gathered;
    var after := t + [Leave(PlaceOf(root, p))];
    assert after[..|after| - 1] == t;
    assert Last(FunctionsAt(root, p)) in FunctionsAt(root, p);
  }

  /** Leaving a function hands its own cleanup calls to the frame below under its name. */
  lemma LeaveStep(root: Node, t: Trace, p: Path, contexts: map<Path, EffectContext>)
    requires ValidPath(root, p) && At(root, p).kind.Function?
    requires ContextsAgree(t, contexts) && Known(FunctionsAt(root, p), contexts)
    ensures var e := Leave(PlaceOf(root, p));
            var stack := Frames(t, FunctionsAt(root, p));
            stack != [] &&
            (var top, below := Last(stack), stack[..|stack| - 1];
            Frames(t + [e], FunctionsOutside(root, p)) ==
            (if top.functionName.Some? && below != [] && Last(below).context == top.context then
              SetLast(below, Last(below).(named := Last(below).named[top.functionName.value := top.own]))
            else below) &&
            top.isEffectCallback == e.place.callback &&
            (top.isEffectCallback ==> top.context == Some(p) && p in contexts) &&
            ReportsOf(t + [e]) ==
            ReportsOf(t) + if top.isEffectCallback then Uncovered(contexts[p].onCalls, contexts[p].gathered) else [])
    ensures var e := Leave(PlaceOf(root, p));
            Scopes(t + [e], BlocksOutside(root, p)) == Scopes(t, BlocksOutside(root, p)) &&
            ContextsAgree(t + [e], contexts)
  {
    hide ValidPath, IsLifecycleCallback, IsReturnedCleanup, Frames, Uncovered, Scopes, Own, Named, ContextsAgree, Known,
         ReportsOf, Nested, FunctionsAt, FunctionsOutside;
    FunctionsNest(root, p);
    StackAtLeave(root, t, p);
    LeaveFrames(t, Leave(PlaceOf(root, p)));
    LeaveReportsUncovered(root, t, p, contexts);
    LeaveIsQuiet(root, t, p, contexts);
  }
}
