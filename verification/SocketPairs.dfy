/**
 Which `off` undoes which `on`, and which calls of a file are reported, in terms
 of the calls' own fields, the constants declared around them and the shape of
 the tree.
 */
module SocketPairs {
  import opened Sequences
  import opened SocketListeners
  import opened SocketTrace
  import opened SocketVerdicts
  import opened SyntaxTree
  import opened Wrappers

  // ---- What an event argument stands for ----

  /** How deep a block lies; the file itself lies above all. */
  function Depth(block: Option<Path>): nat {
    match block
    case None => 0
    case Some(path) => |path| + 1
  }

  predicate Declares(e: Event, name: string) {
    e.Enter? && e.place.kind.ConstString? && e.place.kind.constName == name && e.place.kind.value != ""
  }

  /** The event at `d` declares `name` in a block around the place. */
  predicate DeclaresAround(t: Trace, place: Place, name: string, d: nat) {
    d < |t| && Declares(t[d], name) && BlockAround(t[d].place) in place.blocks
  }

  /** The declaration in force: in the innermost block that declares the name so far, and the last one there. */
  ghost predicate InForce(t: Trace, place: Place, name: string, d: nat) {
    DeclaresAround(t, place, name, d) &&
    forall k: nat | DeclaresAround(t, place, name, k) ::
      Depth(BlockAround(t[k].place)) < Depth(BlockAround(t[d].place)) ||
      (BlockAround(t[k].place) == BlockAround(t[d].place) && k <= d)
  }

  /** The event a call names: its own text, or the constant in force at the call. */
  ghost predicate NamesEvent(t: Trace, place: Place, call: SocketCall, event: string) {
    match call.event
    case Text(text) => text != "" && event == text
    case Name(name) => exists d: nat :: InForce(t, place, name, d) && event == t[d].place.kind.value
    case NoEvent => false
  }

  lemma {:induction false} ConstsMeaning(t: Trace, block: Option<Path>, name: string)
    ensures name !in Consts(t, block) ==>
              forall d: nat | d < |t| && Declares(t[d], name) :: BlockAround(t[d].place) != block
    ensures name in Consts(t, block) ==>
              exists d: nat :: LastIn(t, block, name, d) && Consts(t, block)[name] == t[d].place.kind.value
  {
    if t != [] {
      var before, e := t[..|t| - 1], t[|t| - 1];
      ConstsMeaning(before, block, name);
      if Declares(e, name) && BlockAround(e.place) == block {
        assert LastIn(t, block, name, |t| - 1);
      } else {
        forall d: nat | LastIn(before, block, name, d) ensures LastIn(t, block, name, d) {
        }
        assert forall d: nat | d < |before| :: before[d] == t[d];
      }
    }
  }

  /** The last declaration of `name` in the block. */
  ghost predicate LastIn(t: Trace, block: Option<Path>, name: string, d: nat) {
    d < |t| && Declares(t[d], name) && BlockAround(t[d].place) == block &&
    forall k | d < k < |t| && Declares(t[k], name) :: BlockAround(t[k].place) != block
  }

  lemma {:induction false} ConstIsNonEmpty(t: Trace, block: Option<Path>, name: string)
    requires name in Consts(t, block)
    ensures Consts(t, block)[name] != ""
  {
    if t != [] && !(Declares(t[|t| - 1], name) && BlockAround(t[|t| - 1].place) == block) {
      ConstIsNonEmpty(t[..|t| - 1], block, name);
    }
  }

  predicate HasValue(scope: map<string, string>, name: string) {
    name in scope && scope[name] != ""
  }

  ghost predicate FoundAt(scopes: seq<map<string, string>>, name: string, i: nat, value: string) {
    i < |scopes| && HasValue(scopes[i], name) && scopes[i][name] == value &&
    forall k | i < k < |scopes| :: !HasValue(scopes[k], name)
  }

  /** The search through the scopes finds the value of the innermost block that has one. */
  lemma {:induction false} ResolveMeaning(scopes: seq<map<string, string>>, name: string) returns (i: nat)
    ensures match ResolveConstString(scopes, name)
            case None => forall k | 0 <= k < |scopes| :: !HasValue(scopes[k], name)
            case Some(value) => FoundAt(scopes, name, i, value)
  {
    i := 0;
    if scopes != [] {
      var front, last := scopes[..|scopes| - 1], scopes[|scopes| - 1];
      if HasValue(last, name) {
        i := |scopes| - 1;
      } else {
        i := ResolveMeaning(front, name);
        assert forall k | 0 <= k < |scopes| :: scopes[k] == if k < |front| then front[k] else last;
      }
    }
  }

  lemma {:induction false} DepthsIncrease(blocks: seq<Option<Path>>, p: Path)
    requires BlocksNested(blocks, p)
    ensures forall i, k | 0 <= i < k < |blocks| :: Depth(blocks[i]) < Depth(blocks[k])
  {
  }

  /** Resolving a name finds exactly the declaration in force. */
  lemma {:induction false} ScopesMeaning(t: Trace, place: Place, name: string)
    requires BlocksNested(place.blocks, place.path)
    ensures match ResolveConstString(Scopes(t, place.blocks), name)
            case None => forall d: nat :: !InForce(t, place, name, d)
            case Some(value) => exists d: nat :: InForce(t, place, name, d) && t[d].place.kind.value == value
  {
    hide Consts;
    var scopes := Scopes(t, place.blocks);
    var i := ResolveMeaning(scopes, name);
    DepthsIncrease(place.blocks, place.path);
    match ResolveConstString(scopes, name)
    case None =>
      forall d: nat ensures !DeclaresAround(t, place, name, d) {
        if d < |t| && BlockAround(t[d].place) in place.blocks {
          var i :| 0 <= i < |place.blocks| && place.blocks[i] == BlockAround(t[d].place);
          Undeclared(t, place.blocks[i], name);
        }
      }
    case Some(value) =>
      assert forall k | i < k < |scopes| :: !HasValue(scopes[k], name);
      var d := InnermostInForce(t, place, name, i);
  }

  lemma {:induction false} InnermostInForce(t: Trace, place: Place, name: string, i: nat) returns (d: nat)
    requires forall i, k | 0 <= i < k < |place.blocks| :: Depth(place.blocks[i]) < Depth(place.blocks[k])
    requires i < |place.blocks| && name in Consts(t, place.blocks[i])
    requires forall k | i < k < |place.blocks| ::
               name !in Consts(t, place.blocks[k]) || Consts(t, place.blocks[k])[name] == ""
    ensures InForce(t, place, name, d) && t[d].place.kind.value == Consts(t, place.blocks[i])[name]
  {
    hide Consts;
    ConstsMeaning(t, place.blocks[i], name);
    d :| LastIn(t, place.blocks[i], name, d) && Consts(t, place.blocks[i])[name] == t[d].place.kind.value;
    forall k: nat | DeclaresAround(t, place, name, k)
      ensures Depth(BlockAround(t[k].place)) < Depth(place.blocks[i]) ||
              (BlockAround(t[k].place) == place.blocks[i] && k <= d)
    {
      var l :| 0 <= l < |place.blocks| && place.blocks[l] == BlockAround(t[k].place);
      Undeclared(t, place.blocks[l], name);
      assert l <= i;
    }
  }

  lemma {:induction false} Undeclared(t: Trace, block: Option<Path>, name: string)
    ensures name !in Consts(t, block) || Consts(t, block)[name] == "" ==>
              forall d: nat | d < |t| && Declares(t[d], name) :: BlockAround(t[d].place) != block
  {
    ConstsMeaning(t, block, name);
    if name in Consts(t, block) {
      ConstIsNonEmpty(t, block, name);
    }
  }

  lemma {:induction false} OneInForce(t: Trace, place: Place, name: string, d: nat, k: nat)
    requires InForce(t, place, name, d) && InForce(t, place, name, k)
    ensures d == k
  {
  }

  // ---- Which `off` undoes which `on` ----

  /** A call that names an event and a handler. */
  ghost predicate Listens(t: Trace, place: Place, call: SocketCall, event: string, handler: string) {
    !call.verb.RemoveAllListeners? && NamesEvent(t, place, call, event) && call.handler == Some(handler)
  }

  lemma {:induction false} KeyMeaning(t: Trace, place: Place, call: SocketCall)
    requires BlocksNested(place.blocks, place.path)
    ensures var key := ListenerKey(Scopes(t, place.blocks), call);
            (key.Some? <==> exists event, handler :: Listens(t, place, call, event, handler)) &&
            forall event, handler | Listens(t, place, call, event, handler) ::
              key == Some(call.objectName + "::" + event + "::" + handler)
  {
    hide ResolveConstString;
    if call.event.Name? {
      ScopesMeaning(t, place, call.event.name);
    }
    var key := ListenerKey(Scopes(t, place.blocks), call);
    if key.Some? {
      var event := match call.event
                   case Text(text) => text
                   case Name(name) => ResolveConstString(Scopes(t, place.blocks), name).value
                   case NoEvent => "";
      assert Listens(t, place, call, event, call.handler.value);
    }
    forall event, handler | Listens(t, place, call, event, handler)
      ensures key == Some(call.objectName + "::" + event + "::" + handler)
    {
      match call.event
      case Text(text) =>
      case Name(name) =>
        var value := ResolveConstString(Scopes(t, place.blocks), name);
        var d: nat :| InForce(t, place, name, d) && event == t[d].place.kind.value;
        var k: nat :| InForce(t, place, name, k) && value.value == t[k].place.kind.value;
        OneInForce(t, place, name, d, k);
    }
  }

  /** The separator of a key's parts occurs neither in the object's name nor in the handler's text. */
  predicate IsPlainCall(call: SocketCall) {
    ':' !in call.objectName && (call.handler.Some? ==> IsPlainHandler(call.handler.value))
  }

  predicate IsPlainHandler(handler: string) {
    (handler != "" ==> handler[0] != ':') && forall k | 0 <= k < |handler| - 1 :: !ColonsAt(handler, k)
  }

  predicate ColonsAt(s: string, k: nat)
    requires k < |s| - 1
  {
    s[k] == ':' && s[k + 1] == ':'
  }

  /** The object's name ends at the first colon of a key. */
  lemma {:induction false} ObjectEnds(o: string, rest: string)
    requires ':' !in o
    ensures (o + ":" + rest)[|o|] == ':' && forall k | 0 <= k < |o| :: (o + ":" + rest)[k] != ':'
    ensures (o + ":" + rest)[..|o|] == o && (o + ":" + rest)[|o| + 1..] == rest
  {
    assert forall k | 0 <= k < |o| :: (o + ":" + rest)[k] == o[k] && o[k] in o;
  }

  /** The handler begins after the last pair of colons of a key. */
  lemma {:induction false} HandlerBegins(v: string, h: string)
    requires IsPlainHandler(h)
    ensures ColonsAt(v + "::" + h, |v|)
    ensures forall k | |v| < k < |v + "::" + h| - 1 :: !ColonsAt(v + "::" + h, k)
    ensures (v + "::" + h)[..|v|] == v && (v + "::" + h)[|v| + 2..] == h
  {
    var whole := v + "::" + h;
    forall k | |v| < k < |whole| - 1 ensures !ColonsAt(whole, k) {
      if k >= |v| + 2 {
        assert whole[k] == h[k - |v| - 2] && whole[k + 1] == h[k + 1 - |v| - 2];
        assert !ColonsAt(h, k - |v| - 2);
      } else {
        assert whole[k + 1] == h[0];
      }
    }
  }

  lemma {:induction false} KeyIsInjective(o: string, v: string, h: string, o': string, v': string, h': string)
    requires ':' !in o && ':' !in o' && IsPlainHandler(h) && IsPlainHandler(h')
    requires o + "::" + v + "::" + h == o' + "::" + v' + "::" + h'
    ensures o == o' && v == v' && h == h'
  {
    var rest, rest' := v + "::" + h, v' + "::" + h';
    assert o + "::" + v + "::" + h == o + ":" + (":" + rest) && o' + "::" + v' + "::" + h' == o' + ":" + (":" + rest');
    ObjectEnds(o, ":" + rest);
    ObjectEnds(o', ":" + rest');
    assert |o| == |o'|;
    assert rest == (":" + rest)[1..] == (":" + rest')[1..] == rest';
    HandlerBegins(v, h);
    HandlerBegins(v', h');
    assert |v| == |v'|;
  }

  /**
   The cleanup call at `i` undoes the `on` call at `j`: it removes all listeners
   of the same object, or it names the same object, event and handler.
   */
  ghost predicate Undoes(t: Trace, i: nat, j: nat)
    requires i < |t| && j < |t|
  {
    IsCleanupCall(t[i].place) && IsOnCall(t[j].place) &&
    var off, on := SocketCallOf(t[i].place).value, SocketCallOf(t[j].place).value;
    off.objectName == on.objectName &&
    (off.verb.RemoveAllListeners? ||
     exists event, handler ::
       Listens(t[..i], t[i].place, off, event, handler) && Listens(t[..j], t[j].place, on, event, handler))
  }

  /** An entered place of the file, annotated by what came before. */
  ghost predicate IsEntry(root: Node, t: Trace, i: nat) {
    i < |t| && ValidPath(root, t[i].place.path) && t[i] == Entry(root, t[..i], t[i].place.path)
  }

  /** Keys match exactly when the calls' own fields say so. */
  lemma {:induction false} CoverageMeansUndoes(root: Node, t: Trace, i: nat, j: nat)
    requires IsEntry(root, t, i) && IsEntry(root, t, j) && IsCleanupCall(t[i].place) && IsOnCall(t[j].place)
    requires IsPlainCall(SocketCallOf(t[i].place).value) && IsPlainCall(SocketCallOf(t[j].place).value)
    ensures Covers(Unregisters(SocketCallOf(t[i].place).value, t[i].key), OnCallOf(t[j])) <==> Undoes(t, i, j)
  {
    hide ValidPath, PlaceOf, CleaningAt, ListenerKey, Listens, Scopes;
    var off, on := SocketCallOf(t[i].place).value, SocketCallOf(t[j].place).value;
    EntryBlocks(root, t, i);
    EntryBlocks(root, t, j);
    KeyMeaning(t[..i], t[i].place, off);
    KeyMeaning(t[..j], t[j].place, on);
    if !off.verb.RemoveAllListeners? && t[i].key.Some? && t[i].key == t[j].key {
      var event, handler :| Listens(t[..i], t[i].place, off, event, handler);
      var event', handler' :| Listens(t[..j], t[j].place, on, event', handler');
      ListenerParts(t[..i], t[i].place, off, event, handler);
      ListenerParts(t[..j], t[j].place, on, event', handler');
      KeyIsInjective(off.objectName, event, handler, on.objectName, event', handler');
    }
  }

  lemma {:induction false} ListenerParts(t: Trace, place: Place, call: SocketCall, event: string, handler: string)
    requires Listens(t, place, call, event, handler) && IsPlainCall(call)
    ensures ':' !in call.objectName && IsPlainHandler(handler)
  {
  }

  lemma {:induction false} EntryBlocks(root: Node, t: Trace, i: nat)
    requires IsEntry(root, t, i)
    ensures BlocksNested(t[i].place.blocks, t[i].place.path) && t[i].key == KeyAt(t[..i], t[i].place)
  {
    BlocksNest(root, t[i].place.path);
  }

  // ---- Where a place lies ----

  /** A function of the tree, at `f`. */
  predicate FunctionAt(root: Node, f: Path) {
    ValidPath(root, f) && At(root, f).kind.Function?
  }

  /** The first argument of a lifecycle hook's call. */
  predicate HookAt(root: Node, f: Path) {
    FunctionAt(root, f) && f != [] && f[|f| - 1] == 1 &&
    (ValidPrefix(root, f, |f| - 1);
     At(root, f[..|f| - 1]).kind.Call? && At(root, f[..|f| - 1]).kind.lifecycle)
  }

  /** `f` is the innermost function around `p`. */
  ghost predicate DirectlyIn(root: Node, p: Path, f: Path) {
    f < p && FunctionAt(root, f) && forall g | FunctionAt(root, g) && g < p :: g <= f
  }

  /** `o` is the innermost lifecycle callback around `p`. */
  ghost predicate BelongsTo(root: Node, p: Path, o: Path) {
    o < p && HookAt(root, o) && forall g | HookAt(root, g) && g < p :: g <= o
  }

  lemma {:induction false} SamePath(p: Path, q: Path)
    requires p <= q && q <= p
    ensures p == q
  {
  }

  lemma {:induction false} ParentPrefix(p: Path, g: Path)
    requires p != [] && g < p
    ensures g <= p[..|p| - 1]
  {
  }

  lemma {:induction false} AroundMeansDirectlyIn(root: Node, p: Path, f: Path)
    requires ValidPath(root, p)
    ensures FunctionAround(PlaceOf(root, p)) == Some(f) <==> DirectlyIn(root, p, f)
    decreases |p|
  {
    hide ValidPath, IsLifecycleCallback, Owner;
    if p != [] {
      var q := p[..|p| - 1];
      ValidPrefix(root, p, |p| - 1);
      assert FunctionsOutside(root, p) == FunctionsAt(root, q);
      forall g | FunctionAt(root, g) && g < p ensures g <= q {
        ParentPrefix(p, g);
      }
      if At(root, q).kind.Function? {
        assert FunctionAt(root, q) && q < p && DirectlyIn(root, p, q);
        if DirectlyIn(root, p, f) {
          ParentPrefix(p, f);
          SamePath(q, f);
        }
      } else {
        assert FunctionsAt(root, q) == FunctionsOutside(root, q);
        AroundMeansDirectlyIn(root, q, f);
        assert forall g | FunctionAt(root, g) && g < p :: g != q;
      }
    }
  }

  lemma {:induction false} OwnerMeansBelongsTo(root: Node, p: Path, o: Path)
    requires ValidPath(root, p)
    ensures OwnerOutside(root, p) == Some(o) <==> BelongsTo(root, p, o)
    decreases |p|
  {
    hide ValidPath;
    if p != [] {
      var q := p[..|p| - 1];
      ValidPrefix(root, p, |p| - 1);
      forall g | HookAt(root, g) && g < p ensures g <= q {
        ParentPrefix(p, g);
      }
      assert IsLifecycleCallback(root, q) <==> HookAt(root, q);
      if HookAt(root, q) {
        assert q < p && BelongsTo(root, p, q);
        if BelongsTo(root, p, o) {
          ParentPrefix(p, o);
          SamePath(q, o);
        }
      } else {
        OwnerMeansBelongsTo(root, q, o);
        assert forall g | HookAt(root, g) && g < p :: g != q;
      }
    }
  }

  // ---- What is reported, read off the file ----

  /** The entry of a `return` that stands directly in the lifecycle callback `o`. */
  ghost predicate ReturnsFrom(root: Node, t: Trace, r: nat, o: Path) {
    r < |t| && t[r].Enter? && ValidPath(root, t[r].place.path) && At(root, t[r].place.path).kind.Return? &&
    DirectlyIn(root, t[r].place.path, o) && HookAt(root, o)
  }

  /** That `return` names `name`, not a function on the spot. */
  ghost predicate ReturnsNamed(root: Node, t: Trace, r: nat, o: Path, name: string) {
    ReturnsFrom(root, t, r, o) &&
    var n := At(root, t[r].place.path);
    (n.children == [] || !n.children[0].kind.Function?) && n.kind.returnedName == Some(name)
  }

  /** A named function directly in `o`, itself no lifecycle callback. */
  ghost predicate NamedIn(root: Node, f: Path, o: Path, name: string) {
    FunctionAt(root, f) && !HookAt(root, f) && At(root, f).kind.name == Some(name) && DirectlyIn(root, f, o)
  }

  /** The event at `l` leaves a function of this name directly in `o`. */
  ghost predicate LeavesNamed(root: Node, t: Trace, l: nat, o: Path, name: string) {
    l < |t| && t[l].Leave? && NamedIn(root, t[l].place.path, o, name)
  }

  /**
   The call at `i` is made directly by a named function of `o`, the last of its
   name to be left before a `return` of that name directly in `o`.
   */
  ghost predicate HandedOver(root: Node, t: Trace, i: nat, o: Path, name: string, l: nat, r: nat)
    requires i < |t|
  {
    i < l < r && LeavesNamed(root, t, l, o, name) && ReturnsNamed(root, t, r, o, name) &&
    DirectlyIn(root, t[i].place.path, t[l].place.path) &&
    forall k | l < k < r :: !LeavesNamed(root, t, k, o, name)
  }

  lemma {:induction false} StoresMeansLeaves(root: Node, e: Event, o: Path, name: string)
    requires Real(root, e)
    ensures Stores(e, o, name) <==> e.Leave? && NamedIn(root, e.place.path, o, name)
  {
    hide ValidPath;
    AroundMeansDirectlyIn(root, e.place.path, o);
    assert IsLifecycleCallback(root, e.place.path) && FunctionAt(root, e.place.path) ==> HookAt(root, e.place.path);
  }

  lemma {:induction false} InnermostMeansHook(root: Node, e: Event, o: Path)
    requires Real(root, e)
    ensures InnermostIsCallback(e.place.functions) && OwnerOf(e.place) == Some(o) <==>
            DirectlyIn(root, e.place.path, o) && HookAt(root, o)
  {
    hide ValidPath, Owner;
    var p := e.place.path;
    AroundMeansDirectlyIn(root, p, o);
    OwnerOfPlace(root, p);
    OwnerMeansBelongsTo(root, p, o);
    FunctionsNest(root, p);
    InnermostIsHook(root, p);
    if DirectlyIn(root, p, o) && HookAt(root, o) {
      assert forall g | HookAt(root, g) && g < p :: FunctionAt(root, g);
    }
  }

  /** The innermost function around a place is a callback exactly when it is a hook's argument. */
  lemma {:induction false} InnermostIsHook(root: Node, p: Path)
    requires ValidPath(root, p)
    ensures var functions := FunctionsOutside(root, p);
            functions != [] ==>
              FunctionAt(root, Last(functions).path) &&
              (Last(functions).callback <==> HookAt(root, Last(functions).path))
    decreases |p|
  {
    hide ValidPath, Owner;
    if p != [] {
      var q := p[..|p| - 1];
      ValidPrefix(root, p, |p| - 1);
      if !At(root, q).kind.Function? {
        assert FunctionsAt(root, q) == FunctionsOutside(root, q);
        InnermostIsHook(root, q);
      }
    }
  }

  lemma {:induction false} PicksUpMeansReturns(root: Node, t: Trace, r: nat, o: Path, name: string)
    requires r < |t| && Real(root, t[r])
    ensures PicksUp(t[r], o, name) <==> ReturnsNamed(root, t, r, o, name)
  {
    hide ValidPath, FunctionsOutside, BlocksOutside, IsLifecycleCallback, IsReturnedCleanup, DirectlyIn, HookAt;
    InnermostMeansHook(root, t[r], o);
  }

  /** The function at `f` is what the `return` at `r`, directly in the lifecycle callback `o`, returns. */
  ghost predicate ReturnedAtOnce(root: Node, f: Path, r: Path, o: Path) {
    f == r + [0] && ValidPath(root, r) && At(root, r).kind.Return? && DirectlyIn(root, r, o) && HookAt(root, o)
  }

  /** The function at `f`, directly in `o`, has the name that `o` returned at `r`. */
  ghost predicate ReturnedByName(root: Node, t: Trace, f: Path, r: nat, o: Path, name: string)
    requires FunctionAt(root, f)
  {
    ReturnsNamed(root, t, r, o, name) && At(root, f).kind.name == Some(name) && DirectlyIn(root, f, o)
  }

  /** Entered as a cleanup function: returned on the spot by a lifecycle callback, or by name before. */
  ghost predicate BecomesCleanup(root: Node, t: Trace, k: nat) {
    k < |t| && t[k].Enter? && FunctionAt(root, t[k].place.path) &&
    ((exists r, o :: ReturnedAtOnce(root, t[k].place.path, r, o)) ||
     exists r: nat, o, name :: r < k && ReturnedByName(root, t, t[k].place.path, r, o, name))
  }

  /** The place lies in such a function, itself included. */
  ghost predicate InCleanupOf(root: Node, t: Trace, p: Path) {
    exists k: nat :: BecomesCleanup(root, t, k) && t[k].place.path <= p
  }

  /** Something directly in a lifecycle callback has it as its innermost function. */
  lemma {:induction false} AtParent(root: Node, q: Path)
    requires ValidPath(root, q)
    ensures InnermostIsCallback(FunctionsOutside(root, q)) <==> exists o :: DirectlyIn(root, q, o) && HookAt(root, o)
  {
    hide ValidPath, FunctionsOutside, IsLifecycleCallback, DirectlyIn, HookAt, BlocksOutside, IsReturnedCleanup;
    var functions := FunctionsOutside(root, q);
    InnermostIsHook(root, q);
    if functions != [] {
      AroundMeansDirectlyIn(root, q, Last(functions).path);
    }
    forall o ensures DirectlyIn(root, q, o) ==> functions != [] && Last(functions).path == o {
      AroundMeansDirectlyIn(root, q, o);
    }
  }

  lemma {:induction false} OutsideReturned(root: Node, f: Path)
    requires ValidPath(root, f) && f != [] && ValidPath(root, f[..|f| - 1])
    ensures !At(root, f[..|f| - 1]).kind.Function? ==>
              FunctionsOutside(root, f) == FunctionsOutside(root, f[..|f| - 1])
  {
    assert FunctionsOutside(root, f) == FunctionsAt(root, f[..|f| - 1]);
  }

  lemma {:induction false} SpotMeansReturned(root: Node, f: Path)
    requires FunctionAt(root, f)
    ensures IsReturnedCleanup(root, f) <==> exists r, o :: ReturnedAtOnce(root, f, r, o)
  {
    hide ValidPath, FunctionsOutside, IsLifecycleCallback, DirectlyIn, HookAt;
    if f != [] {
      ValidPrefix(root, f, |f| - 1);
      var q := f[..|f| - 1];
      AtParent(root, q);
      OutsideReturned(root, f);
      if IsReturnedCleanup(root, f) {
        var o :| DirectlyIn(root, q, o) && HookAt(root, o);
        assert f == q + [0];
        assert ReturnedAtOnce(root, f, q, o);
      }
      if r: Path, o: Path :| ReturnedAtOnce(root, f, r, o) {
        assert r == q && f[|f| - 1] == 0;
      }
    }
  }

  lemma {:induction false} StartsMeansBecomes(root: Node, t: Trace, k: nat)
    requires forall e | e in t :: Real(root, e)
    ensures StartsCleanup(t, k) <==> BecomesCleanup(root, t, k)
  {
    if k < |t| && t[k].Enter? {
      assert Real(root, t[k]);
      EnteredKind(root, t[k]);
      if FunctionAt(root, t[k].place.path) {
        hide ValidPath, PlaceOf, DirectlyIn, HookAt, ReturnsIt, ReturnedByName, ReturnedAtOnce, FunctionAt;
        SpotMeansReturned(root, t[k].place.path);
        forall r: nat
          ensures ReturnsIt(t, k, r) <==>
                      r < k && exists o, name :: ReturnedByName(root, t, t[k].place.path, r, o, name)
        {
          ReturnsItMeans(root, t, k, r);
        }
        assert StartsCleanup(t, k) <==> t[k].place.returned || exists r: nat :: ReturnsIt(t, k, r);
        if r: nat :| ReturnsIt(t, k, r) {
          var o, name :| ReturnedByName(root, t, t[k].place.path, r, o, name);
          assert BecomesCleanup(root, t, k);
        }
        if r: nat, o: Path, name: string :| r < k && ReturnedByName(root, t, t[k].place.path, r, o, name) {
          assert ReturnsIt(t, k, r);
        }
      }
    }
  }

  lemma {:induction false} EnteredKind(root: Node, e: Event)
    requires Real(root, e)
    ensures e.place.kind.Function? <==> FunctionAt(root, e.place.path)
    ensures e.place.returned == IsReturnedCleanup(root, e.place.path)
  {
  }

  lemma {:induction false} ReturnsItMeans(root: Node, t: Trace, k: nat, r: nat)
    requires (forall e | e in t :: Real(root, e)) && k < |t| && t[k].Enter? && FunctionAt(root, t[k].place.path)
    ensures ReturnsIt(t, k, r) <==> r < k && exists o, name :: ReturnedByName(root, t, t[k].place.path, r, o, name)
  {
    if r < k {
      assert Real(root, t[r]) && Real(root, t[k]);
      ReturnsItHere(root, t, k, r);
    }
  }

  lemma {:induction false} ReturnsItHere(root: Node, t: Trace, k: nat, r: nat)
    requires r < k < |t| && Real(root, t[r]) && Real(root, t[k]) && t[k].Enter? && FunctionAt(root, t[k].place.path)
    ensures ReturnsIt(t, k, r) <==> exists o, name :: ReturnedByName(root, t, t[k].place.path, r, o, name)
  {
    hide ValidPath, FunctionsOutside, BlocksOutside, IsLifecycleCallback, IsReturnedCleanup, DirectlyIn, HookAt;
    var f, q := t[k].place.path, t[r].place.path;
    AtParent(root, q);
    forall o ensures FunctionAround(t[r].place) == Some(o) <==> DirectlyIn(root, q, o) {
      AroundMeansDirectlyIn(root, q, o);
    }
    forall o ensures FunctionAround(t[k].place) == Some(o) <==> DirectlyIn(root, f, o) {
      AroundMeansDirectlyIn(root, f, o);
    }
    if ReturnsIt(t, k, r) {
      var o := FunctionAround(t[k].place).value;
      assert ReturnedByName(root, t, f, r, o, At(root, f).kind.name.value);
    }
  }

  // ---- What is reported ----

  ghost predicate PlainFile(root: Node) {
    forall p | ValidPath(root, p) && At(root, p).kind.Call? && At(root, p).kind.socket.Some? ::
      IsPlainCall(At(root, p).kind.socket.value)
  }

  /**
   The cleanup call at `i` settles the `on` call at `j` for their lifecycle
   callback `o`: it undoes it, and it is made in a cleanup function or by a named
   function whose name `o` then returns.
   */
  ghost predicate Settles(root: Node, t: Trace, i: nat, o: Path, j: nat) {
    i < |t| && j < |t| && t[i].Enter? && Undoes(t, i, j) && BelongsTo(root, t[i].place.path, o) &&
    (InCleanupOf(root, t, t[i].place.path) || exists name, l: nat, r: nat :: HandedOver(root, t, i, o, name, l, r))
  }

  /** The trace of a file, as the lemmas above want it. */
  ghost predicate IsFileTrace(root: Node, t: Trace) {
    (forall e | e in t :: Real(root, e)) && (forall i: nat | i < |t| && t[i].Enter? :: IsEntry(root, t, i)) &&
    (forall e | e in t && e.Enter? :: e.cleaning <==> InCleanup(t, e.place.path))
  }

  lemma {:induction false} FileTraceIs(root: Node)
    ensures IsFileTrace(root, FileTrace(root))
  {
    var start: Trace, t := [], FileTrace(root);
    TraceExtends(root, root, [], start);
    assert t[|start|..] == t;
    NodeAnnotated(root, root, [], start);
    FileCleaning(root);
    forall i: nat | i < |t| && t[i].Enter? ensures IsEntry(root, t, i) {
      assert AnnotatedAt(root, t, i);
    }
  }

  lemma {:induction false} CleanupMeans(root: Node, t: Trace, p: Path)
    requires forall e | e in t :: Real(root, e)
    ensures InCleanup(t, p) <==> InCleanupOf(root, t, p)
  {
    forall k: nat ensures StartsCleanup(t, k) <==> BecomesCleanup(root, t, k) {
      StartsMeansBecomes(root, t, k);
    }
  }

  /** A call handed over by name, as the rule counts it. */
  lemma {:induction false} PickedUpMeansHandedOver(root: Node, t: Trace, o: Path, i: nat, name: string, l: nat, r: nat)
    requires (forall e | e in t :: Real(root, e)) && i < |t| && t[i].Enter? && IsCleanupCall(t[i].place)
    requires OwnerOf(t[i].place).Some? && !t[i].cleaning
    ensures PickedUp(t, o, i, name, l, r) <==> HandedOver(root, t, i, o, name, l, r)
  {
    if i < l < r < |t| {
      hide ValidPath, PlaceOf, DirectlyIn, HookAt, PicksUp, Stores, ReturnsNamed, NamedIn, OwnerOf;
      assert Real(root, t[i]) && Real(root, t[l]) && Real(root, t[r]);
      PicksUpMeansReturns(root, t, r, o, name);
      RealPath(root, t[i]);
      AroundMeansDirectlyIn(root, t[i].place.path, t[l].place.path);
      forall k: nat | k < |t| ensures Stores(t[k], o, name) <==> LeavesNamed(root, t, k, o, name) {
        assert Real(root, t[k]);
        StoresMeansLeaves(root, t[k], o, name);
      }
      assert forall k: nat | k < r :: t[..r][k] == t[k];
    }
  }

  lemma {:induction false} RealPath(root: Node, e: Event)
    requires Real(root, e)
    ensures ValidPath(root, e.place.path) && e.place == PlaceOf(root, e.place.path)
  {
  }

  /** What the rule counts for an `on` call is what settles it. */
  lemma {:induction false} CountsMeansSettles(root: Node, t: Trace, o: Path, i: nat, j: nat)
    requires IsFileTrace(root, t) && PlainFile(root) && j < |t| && t[j].Enter? && IsOnCall(t[j].place)
    ensures CountsAt(t, o, OnCallOf(t[j]), i) <==> Settles(root, t, i, o, j)
  {
    if i < |t| && t[i].Enter? && IsCleanupCall(t[i].place) {
      hide ValidPath, Covers, Unregisters, Undoes, InCleanup, InCleanupOf, PickedUp, HandedOver, PlaceOf, Owner;
      assert IsEntry(root, t, i) && IsEntry(root, t, j) && Real(root, t[i]) && Real(root, t[j]);
      RealPath(root, t[i]);
      PlainAt(root, t[i].place.path);
      RealPath(root, t[j]);
      PlainAt(root, t[j].place.path);
      CoverageMeansUndoes(root, t, i, j);
      OwnerOfPlace(root, t[i].place.path);
      OwnerMeansBelongsTo(root, t[i].place.path, o);
      CleanupMeans(root, t, t[i].place.path);
      if OwnerOf(t[i].place).Some? && !t[i].cleaning {
        forall name, l: nat, r: nat ensures PickedUp(t, o, i, name, l, r) <==> HandedOver(root, t, i, o, name, l, r) {
          PickedUpMeansHandedOver(root, t, o, i, name, l, r);
        }
      }
    }
  }

  lemma {:induction false} PlainAt(root: Node, p: Path)
    requires PlainFile(root) && ValidPath(root, p)
    ensures SocketCallOf(PlaceOf(root, p)).Some? ==> IsPlainCall(SocketCallOf(PlaceOf(root, p)).value)
  {
  }

  /**
   The rule's reports in the file's own terms.  An `on` call is reported as
   outside any effect exactly when no lifecycle callback is around it, and as
   missing its cleanup exactly when it lies in no cleanup function and nothing
   settles it for its lifecycle callback; nothing else is reported, and nothing
   twice.
   */
  lemma {:induction false} ReportedExactly(root: Node, q: Path) returns (j: nat)
    requires ValidPath(root, q) && PlainFile(root)
    ensures j < |FileTrace(root)| && FileTrace(root)[j].Enter? && FileTrace(root)[j].place.path == q
    ensures var t := FileTrace(root);
            var reports := multiset(ReportsOf(t));
            var isOn := At(root, q).kind.Call? && At(root, q).kind.socket.Some? &&
              At(root, q).kind.socket.value.verb.On?;
            reports[Report(q, OutsideEffect)] == (if isOn && forall o :: !BelongsTo(root, q, o) then 1 else 0) &&
            reports[Report(q, MissingCleanup)] ==
            (if isOn && !InCleanupOf(root, t, q) &&
                exists o :: BelongsTo(root, q, o) && forall i: nat :: !Settles(root, t, i, o, j)
             then 1 else 0)
  {
    var t := FileTrace(root);
    var e := ReportedExactlyAsJudged(root, q);
    j :| 0 <= j < |t| && t[j] == e;
    FileTraceIs(root);
    VerdictMeans(root, t, q, j);
  }

  lemma {:induction false} VerdictMeans(root: Node, t: Trace, q: Path, j: nat)
    requires ValidPath(root, q) && PlainFile(root) && t == FileTrace(root) && IsFileTrace(root, t)
    requires j < |t| && t[j].Enter? && t[j].place == PlaceOf(root, q)
    ensures Verdict(t, t[j]) == Some(OutsideEffect) <==> IsOnCall(t[j].place) && forall o :: !BelongsTo(root, q, o)
    ensures Verdict(t, t[j]) == Some(MissingCleanup) <==>
              IsOnCall(t[j].place) && !InCleanupOf(root, t, q) &&
              exists o :: BelongsTo(root, q, o) && forall i: nat :: !Settles(root, t, i, o, j)
  {
    hide ValidPath, FileTrace, InCleanup, InCleanupOf, CountsAt, Settles, Covers, Owner, PlainFile, BelongsTo;
    OwnerOfPlace(root, q);
    forall o ensures OwnerOf(t[j].place) == Some(o) <==> BelongsTo(root, q, o) {
      OwnerMeansBelongsTo(root, q, o);
    }
    CleanupMeans(root, t, q);
    if IsOnCall(t[j].place) && OwnerOf(t[j].place).Some? {
      var o := OwnerOf(t[j].place).value;
      CoveredExactly(root, t, o, OnCallOf(t[j]));
      forall i: nat ensures CountsAt(t, o, OnCallOf(t[j]), i) <==> Settles(root, t, i, o, j) {
        CountsMeansSettles(root, t, o, i, j);
      }
    }
  }

  // ---- The order of events is the order of the file ----

  /** `p` lies to the left of `q`. */
  predicate LeftOf(p: Path, q: Path) {
    exists k | 0 <= k < |p| && k < |q| :: p[..k] == q[..k] && p[k] < q[k]
  }

  /** `x` comes before `y`: a node is entered before and left after all that is in it, left before right. */
  predicate Precedes(x: Event, y: Event) {
    var p, q := x.place.path, y.place.path;
    LeftOf(p, q) || (x.Enter? && p < q) || (y.Leave? && q < p) || (x.Enter? && y.Leave? && p == q)
  }

  ghost predicate InOrder(part: Trace) {
    forall i, j | 0 <= i < j < |part| :: Precedes(part[i], part[j])
  }

  lemma {:induction false} OrderJoins(a: Trace, b: Trace)
    requires InOrder(a) && InOrder(b) && forall x, y | x in a && y in b :: Precedes(x, y)
    ensures InOrder(a + b)
  {
    forall i, j | 0 <= i < j < |a + b| ensures Precedes((a + b)[i], (a + b)[j]) {
      if i < |a| <= j {
        assert (a + b)[i] in a && (a + b)[j] in b;
      }
    }
  }

  lemma {:induction false} SiblingsInOrder(p: Path, x: Path, y: Path, k: nat)
    requires p < x && p < y && x[|p|] < k && p + [k] <= y
    ensures LeftOf(x, y)
  {
    assert y[|p|] == k && x[..|p|] == p == y[..|p|];
  }

  lemma {:induction false} ChildrenInOrder(root: Node, n: Node, p: Path, t: Trace, k: nat)
    requires ValidPath(root, p) && At(root, p) == n && k <= |n.children|
    ensures t <= TraceChildren(root, n, p, t, k) && InOrder(TraceChildren(root, n, p, t, k)[|t|..])
    decreases n, 0, k
  {
    hide ValidPath, At, PlaceOf, Real, LeftOf, TraceNode;
    ChildrenExtend(root, n, p, t, k);
    if k > 0 {
      hide TraceChildren, InOrder;
      var before := TraceChildren(root, n, p, t, k - 1);
      NextChild(root, n, p, t, k);
      ChildrenInOrder(root, n, p, t, k - 1);
      ChildrenExtend(root, n, p, t, k - 1);
      TraceExtends(root, n.children[k - 1], p + [k - 1], before);
      NodeInOrder(root, n.children[k - 1], p + [k - 1], before);
      var after := TraceChildren(root, n, p, t, k);
      assert after[|t|..] == before[|t|..] + after[|before|..];
      forall x, y | x in before[|t|..] && y in after[|before|..] ensures Precedes(x, y) {
        SiblingsInOrder(p, x.place.path, y.place.path, k - 1);
      }
      OrderJoins(before[|t|..], after[|before|..]);
    }
  }

  lemma {:induction false} NodeInOrder(root: Node, n: Node, p: Path, t: Trace)
    requires ValidPath(root, p) && At(root, p) == n
    ensures t <= TraceNode(root, n, p, t) && InOrder(TraceNode(root, n, p, t)[|t|..])
    decreases n, 1
  {
    hide ValidPath, At, Real, LeftOf, TraceChildren;
    var enter, leave := Entry(root, t, p), Leave(PlaceOf(root, p));
    var entered := t + [enter];
    ChildrenInOrder(root, n, p, entered, |n.children|);
    ChildrenExtend(root, n, p, entered, |n.children|);
    EntryIsReal(root, t, p);
    var below := TraceChildren(root, n, p, entered, |n.children|)[|entered|..];
    assert TraceNode(root, n, p, t)[|t|..] == [enter] + below + [leave];
    OrderJoins([enter], below);
    OrderJoins([enter] + below, [leave]);
  }

  /** The rule meets a file's nodes in the order of the text, and leaves each after all that is in it. */
  lemma {:induction false} TraceFollowsFile(root: Node)
    ensures InOrder(FileTrace(root))
  {
    var start: Trace, t := [], FileTrace(root);
    NodeInOrder(root, root, [], start);
    assert t[|start|..] == t;
  }
}
