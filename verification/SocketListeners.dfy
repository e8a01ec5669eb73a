/**
 The socket-listener rule: two stacks driven by the traversal of a file, one of
 function frames and one of `const` string scopes, kept in step with what the
 tree says about every place.
 */
module SocketListeners {
  import opened Sequences
  import opened SocketTrace
  import opened SyntaxTree
  import opened Wrappers

  // ---- The rule itself ----

  /** Whatever lies below a lifecycle call or a `return` in a callback has been marked. */
  ghost predicate Marked(root: Node, p: Path, lifecycle: set<Path>, cleanup: set<Path>) {
    ValidPath(root, p) ==>
      (IsLifecycleCallback(root, p) ==> p in lifecycle) && (IsReturnedCleanup(root, p) ==> p in cleanup)
  }

  ghost predicate MarksAreReal(root: Node, lifecycle: set<Path>, cleanup: set<Path>) {
    (forall q | q in lifecycle :: ValidPath(root, q) && IsLifecycleCallback(root, q)) &&
    forall q | q in cleanup :: ValidPath(root, q) && IsReturnedCleanup(root, q)
  }

  class SocketRule {
    var lifecycleCallbacks: set<Path>
    var cleanupCallbacks: set<Path>
    var constStringScopeStack: seq<map<string, string>>
    var functionStack: seq<Frame>
    var contexts: map<Path, EffectContext>
    var reports: seq<Report>

    constructor ()
      ensures lifecycleCallbacks == {} && cleanupCallbacks == {} && constStringScopeStack == [map[]]
      ensures functionStack == [] && contexts == map[] && reports == []
    {
      lifecycleCallbacks, cleanupCallbacks, constStringScopeStack := {}, {}, [map[]];
      functionStack, contexts, reports := [], map[], [];
    }

    /** The stacks, contexts and reports are what the trace and the tree say they are. */
    ghost predicate InStep(t: Trace, functions: seq<FunctionScope>, blocks: seq<Option<Path>>)
      reads this`constStringScopeStack, this`functionStack, this`contexts, this`reports
    {
      functionStack == Frames(t, functions) && constStringScopeStack == Scopes(t, blocks) &&
      Known(functions, contexts) && ContextsAgree(t, contexts) && reports == ReportsOf(t)
    }

    predicate ContextsExist()
      reads this`functionStack, this`contexts
    {
      forall frame | frame in functionStack && frame.context.Some? :: frame.context.value in contexts
    }

    method EnterFunction(n: Node, p: Path)
      requires n.kind.Function?
      modifies this`functionStack, this`contexts
      ensures functionStack == old(functionStack) +
              [NewFrame(Top(old(functionStack)), p, n.kind.name, p in lifecycleCallbacks, p in cleanupCallbacks)]
      ensures contexts == if p in lifecycleCallbacks then old(contexts)[p := EffectContext([], NO_CLEANUP)]
                          else old(contexts)
    {
      var parent := Top(functionStack);
      var isEffectCallback := p in lifecycleCallbacks;
      var context := if isEffectCallback then Some(p) else if parent.Some? then parent.value.context else None;
      if isEffectCallback {
        contexts := contexts[p := EffectContext([], NO_CLEANUP)];
      }
      var inCleanup := (parent.Some? && parent.value.inCleanup) || p in cleanupCallbacks ||
                       (n.kind.name.Some? && parent.Some? && n.kind.name.value in parent.value.cleanupNames);
      var frame := Frame(context, inCleanup, isEffectCallback, n.kind.name, NO_CLEANUP, {}, map[]);
      functionStack := functionStack + [frame];
    }

    /** Keeps what a named function unregisters, for a later `return` of its name by the frame below. */
    method StoreNamedFunctionCleanup(frame: Frame)
      modifies this`functionStack
      ensures functionStack ==
              if frame.functionName.Some? && old(functionStack) != [] &&
                 Last(old(functionStack)).context == frame.context then
                var parent := Last(old(functionStack));
                SetLast(old(functionStack), parent.(named := parent.named[frame.functionName.value := frame.own]))
              else old(functionStack)
    {
      var parent := Top(functionStack);
      if frame.functionName.None? || parent.None? || parent.value.context != frame.context {
        return;
      }
      var named := parent.value.named[frame.functionName.value := frame.own];
      functionStack := SetLast(functionStack, parent.value.(named := named));
    }

    method ReportMissingCleanups(frame: Frame)
      requires frame.context.Some? ==> frame.context.value in contexts
      modifies this`reports
      ensures reports == old(reports) +
              if frame.isEffectCallback && frame.context.Some? then
                Uncovered(contexts[frame.context.value].onCalls, contexts[frame.context.value].gathered)
              else []
    {
      if !frame.isEffectCallback || frame.context.None? {
        return;
      }
      var context := contexts[frame.context.value];
      for i := 0 to |context.onCalls|
        invariant reports == old(reports) + Uncovered(context.onCalls[..i], context.gathered)
      {
        assert context.onCalls[..i + 1][..i] == context.onCalls[..i];
        if !Covers(context.gathered, context.onCalls[i]) {
          reports := reports + [Report(context.onCalls[i].path, MissingCleanup)];
        }
      }
      assert context.onCalls[..|context.onCalls|] == context.onCalls;
    }

    method NoteLifecycleCallback(n: Node, p: Path)
      requires n.kind.Call?
      modifies this`lifecycleCallbacks
      ensures lifecycleCallbacks == old(lifecycleCallbacks) +
              if n.kind.lifecycle && |n.children| > 1 && n.children[1].kind.Function? then {p + [1]} else {}
    {
      if n.kind.lifecycle && |n.children| > 1 && n.children[1].kind.Function? {
        lifecycleCallbacks := lifecycleCallbacks + {p + [1]};
      }
    }

    /** Searches the scopes from the innermost outwards. */
    method ResolveConst(name: string) returns (value: Option<string>)
      ensures value == ResolveConstString(constStringScopeStack, name)
    {
      var i := |constStringScopeStack|;
      assert constStringScopeStack[..i] == constStringScopeStack;
      while i > 0
        invariant 0 <= i <= |constStringScopeStack|
        invariant ResolveConstString(constStringScopeStack, name) ==
                  ResolveConstString(constStringScopeStack[..i], name)
      {
        assert constStringScopeStack[..i][..i - 1] == constStringScopeStack[..i - 1];
        var scope := constStringScopeStack[i - 1];
        if name in scope && scope[name] != "" {
          return Some(scope[name]);
        }
        i := i - 1;
      }
      assert constStringScopeStack[..0] == [];
      value := None;
    }

    method SocketListenerKey(call: SocketCall) returns (key: Option<string>)
      ensures key == ListenerKey(constStringScopeStack, call)
    {
      if call.verb.RemoveAllListeners? {
        return None;
      }
      var event := None;
      match call.event {
        case Text(text) => event := if text != "" then Some(text) else None;
        case Name(name) => event := ResolveConst(name);
        case NoEvent =>
      }
      key := if event.Some? && call.handler.Some? then
               Some(call.objectName + "::" + event.value + "::" + call.handler.value)
             else None;
    }

    method HandleSocketOn(p: Path, call: SocketCall, key: Option<string>)
      requires ContextsExist()
      modifies this`contexts, this`reports
      ensures var top := Top(functionStack);
              if top.None? || top.value.context.None? then
                contexts == old(contexts) && reports == old(reports) + [Report(p, OutsideEffect)]
              else
                reports == old(reports) && top.value.context.value in old(contexts) &&
                contexts == if top.value.inCleanup then old(contexts)
                            else var c := old(contexts)[top.value.context.value];
                                 old(contexts)[top.value.context.value :=
                                   c.(onCalls := c.onCalls + [OnCall(p, key, call.objectName)])]
    {
      var top := Top(functionStack);
      if top.None? || top.value.context.None? {
        reports := reports + [Report(p, OutsideEffect)];
        return;
      }
      assert top.value in functionStack;
      if !top.value.inCleanup {
        var context := contexts[top.value.context.value];
        var onCalls := context.onCalls + [OnCall(p, key, call.objectName)];
        contexts := contexts[top.value.context.value := context.(onCalls := onCalls)];
      }
    }

    /** A cleanup call counts for the callback inside cleanup, and for its own function elsewhere. */
    method HandleSocketCleanup(call: SocketCall, key: Option<string>)
      requires ContextsExist()
      modifies this`contexts, this`functionStack
      ensures var stack, before := old(functionStack), old(contexts);
              if stack == [] || Last(stack).context.None? then contexts == before && functionStack == stack
              else if Last(stack).inCleanup then
                functionStack == stack && Last(stack).context.value in before &&
                var c := before[Last(stack).context.value];
                contexts ==
                before[Last(stack).context.value := c.(gathered := Union(c.gathered, Unregisters(call, key)))]
              else
                contexts == before &&
                functionStack == SetLast(stack, Last(stack).(own := Union(Last(stack).own, Unregisters(call, key))))
    {
      var top := Top(functionStack);
      if top.None? || top.value.context.None? {
        return;
      }
      assert top.value in functionStack;
      var calls := NO_CLEANUP;
      if call.verb.RemoveAllListeners? {
        calls := CleanupCalls({}, {call.objectName});
      } else if key.Some? {
        calls := CleanupCalls({key.value}, {});
      }
      if top.value.inCleanup {
        var context := contexts[top.value.context.value];
        contexts := contexts[top.value.context.value := context.(gathered := Union(context.gathered, calls))];
      } else {
        functionStack := SetLast(functionStack, top.value.(own := Union(top.value.own, calls)));
      }
    }

    method NoteConstString(n: Node)
      requires n.kind.ConstString? && constStringScopeStack != []
      modifies this`constStringScopeStack
      ensures var scopes := old(constStringScopeStack);
              constStringScopeStack ==
              if n.kind.value != "" then SetLast(scopes, Last(scopes)[n.kind.constName := n.kind.value]) else scopes
    {
      if n.kind.value != "" {
        constStringScopeStack :=
          SetLast(constStringScopeStack, Last(constStringScopeStack)[n.kind.constName := n.kind.value]);
      }
    }

    method NoteReturnedCleanup(n: Node, p: Path)
      requires n.kind.Return? && ContextsExist()
      requires Top(functionStack).Some? && Top(functionStack).value.isEffectCallback ==>
                 Top(functionStack).value.context.Some?
      modifies this`cleanupCallbacks, this`functionStack, this`contexts
      ensures var stack, before := old(functionStack), old(contexts);
              if stack == [] || !Last(stack).isEffectCallback then
                cleanupCallbacks == old(cleanupCallbacks) && functionStack == stack && contexts == before
              else if ReturnsFunction(n) then
                cleanupCallbacks == old(cleanupCallbacks) + {p + [0]} && functionStack == stack && contexts == before
              else
                cleanupCallbacks == old(cleanupCallbacks) &&
                if n.kind.returnedName.None? then functionStack == stack && contexts == before
                else
                  var top, name := Last(stack), n.kind.returnedName.value;
                  functionStack == SetLast(stack, top.(cleanupNames := top.cleanupNames + {name})) &&
                  top.context.value in before &&
                  contexts ==
                  if name in top.named then
                    var c := before[top.context.value];
                    before[top.context.value := c.(gathered := Union(c.gathered, top.named[name]))]
                  else before
    {
      var top := Top(functionStack);
      if top.None? || !top.value.isEffectCallback {
        return;
      }
      assert top.value in functionStack;
      if ReturnsFunction(n) {
        cleanupCallbacks := cleanupCallbacks + {p + [0]};
        return;
      }
      if n.kind.returnedName.None? || top.value.context.None? {
        return;
      }
      var name := n.kind.returnedName.value;
      functionStack := SetLast(functionStack, top.value.(cleanupNames := top.value.cleanupNames + {name}));
      if name in top.value.named {
        var context := contexts[top.value.context.value];
        var gathered := Union(context.gathered, top.value.named[name]);
        contexts := contexts[top.value.context.value := context.(gathered := gathered)];
      }
    }

    // The visitors: whatever is entered or left, the stacks stay in step with the trace.

    method EnterCall(root: Node, n: Node, p: Path, ghost t: Trace)
      requires ValidPath(root, p) && At(root, p) == n && n.kind.Call?
      requires InStep(t, FunctionsOutside(root, p), BlocksOutside(root, p))
      modifies this`lifecycleCallbacks, this`contexts, this`functionStack, this`reports
      ensures InStep(t + [Entry(root, t, p)], FunctionsOutside(root, p), BlocksOutside(root, p))
      ensures lifecycleCallbacks == old(lifecycleCallbacks) +
              if n.kind.lifecycle && |n.children| > 1 && n.children[1].kind.Function? then {p + [1]} else {}
      ensures old(contexts).Keys <= contexts.Keys
    {
      hide ValidPath, IsLifecycleCallback, IsReturnedCleanup, FunctionsOutside, BlocksOutside, Nested, Frames, Scopes,
           ReportsOf, ContextsAgree;
      ghost var e := Entry(root, t, p);
      FunctionsNest(root, p);
      NoteLifecycleCallback(n, p);
      StackFacts(t, e, functionStack, contexts);
      if n.kind.socket.None? {
        QuietStep(t, e, contexts);
        return;
      }
      var call := n.kind.socket.value;
      var key := SocketListenerKey(call);
      if call.verb.On? {
        OnStep(t, e, contexts);
        HandleSocketOn(p, call, key);
      } else {
        CleanupStep(t, e, contexts);
        HandleSocketCleanup(call, key);
      }
    }

    method EnterReturn(root: Node, n: Node, p: Path, ghost t: Trace)
      requires ValidPath(root, p) && At(root, p) == n && n.kind.Return?
      requires InStep(t, FunctionsOutside(root, p), BlocksOutside(root, p))
      modifies this`cleanupCallbacks, this`contexts, this`functionStack
      ensures InStep(t + [Entry(root, t, p)], FunctionsOutside(root, p), BlocksOutside(root, p))
      ensures cleanupCallbacks == old(cleanupCallbacks) +
              if InnermostIsCallback(FunctionsOutside(root, p)) && ReturnsFunction(n) then {p + [0]} else {}
      ensures old(contexts).Keys <= contexts.Keys
    {
      hide ValidPath, IsLifecycleCallback, IsReturnedCleanup, FunctionsOutside, BlocksOutside, Nested, Frames, Scopes,
           ReportsOf, ContextsAgree;
      ghost var e := Entry(root, t, p);
      FunctionsNest(root, p);
      StackFacts(t, e, functionStack, contexts);
      if InnermostIsCallback(e.place.functions) {
        CallbackOwner(e);
      }
      if InnermostIsCallback(e.place.functions) && e.place.handsOut.Some? {
        ReturnStep(t, e, contexts);
      } else {
        QuietStep(t, e, contexts);
      }
      NoteReturnedCleanup(n, p);
    }

    method EnterOther(root: Node, n: Node, p: Path, ghost t: Trace)
      requires ValidPath(root, p) && At(root, p) == n && !n.kind.Call? && !n.kind.Return?
      requires InStep(t, FunctionsOutside(root, p), BlocksOutside(root, p)) && Untouched(root, t, p)
      requires p in lifecycleCallbacks <==> IsLifecycleCallback(root, p)
      requires p in cleanupCallbacks <==> IsReturnedCleanup(root, p)
      modifies this`constStringScopeStack, this`functionStack, this`contexts
      ensures InStep(t + [Entry(root, t, p)], FunctionsAt(root, p), BlocksAt(root, p))
      ensures old(contexts).Keys <= contexts.Keys
    {
      hide ValidPath, IsLifecycleCallback, IsReturnedCleanup, FunctionsOutside, BlocksOutside, Nested, Frames, Scopes,
           ReportsOf, ContextsAgree, Known;
      ghost var e := Entry(root, t, p);
      FunctionsNest(root, p);
      BlocksNest(root, p);
      assert n.kind.Function? || FunctionsAt(root, p) == FunctionsOutside(root, p);
      assert n.kind.Block? || BlocksAt(root, p) == BlocksOutside(root, p);
      if !n.kind.ConstString? || n.kind.value == "" {
        QuietStep(t, e, contexts);
      }
      if n.kind.Function? {
        FunctionStep(root, t, p, contexts);
        EnterFunction(n, p);
      } else if n.kind.Block? {
        BlockStep(root, t, p);
        constStringScopeStack := constStringScopeStack + [map[]];
      } else if n.kind.ConstString? {
        if n.kind.value != "" {
          ConstStep(t, e, contexts);
        }
        NoteConstString(n);
      }
    }

    /** Enters a node; its children find every mark that concerns them. */
    method EnterNode(root: Node, n: Node, p: Path, ghost t: Trace)
      requires ValidPath(root, p) && At(root, p) == n && Untouched(root, t, p)
      requires InStep(t, FunctionsOutside(root, p), BlocksOutside(root, p))
      requires MarksAreReal(root, lifecycleCallbacks, cleanupCallbacks) &&
               Marked(root, p, lifecycleCallbacks, cleanupCallbacks)
      modifies this
      ensures InStep(t + [Entry(root, t, p)], FunctionsAt(root, p), BlocksAt(root, p))
      ensures MarksAreReal(root, lifecycleCallbacks, cleanupCallbacks)
      ensures old(lifecycleCallbacks) <= lifecycleCallbacks && old(cleanupCallbacks) <= cleanupCallbacks
      ensures forall i: nat :: Marked(root, p + [i], lifecycleCallbacks, cleanupCallbacks)
      ensures old(contexts).Keys <= contexts.Keys
    {
      hide ValidPath, IsLifecycleCallback, IsReturnedCleanup, FunctionsOutside, BlocksOutside, Entry, Untouched;
      if n.kind.Call? || n.kind.Return? {
        assert FunctionsAt(root, p) == FunctionsOutside(root, p) && BlocksAt(root, p) == BlocksOutside(root, p);
        if n.kind.Call? {
          EnterCall(root, n, p, t);
        } else {
          EnterReturn(root, n, p, t);
        }
      } else {
        EnterOther(root, n, p, t);
      }
      MarksOfChildren(root, n, p, old(lifecycleCallbacks), old(cleanupCallbacks), lifecycleCallbacks, cleanupCallbacks);
    }

    method ExitFunction(root: Node, n: Node, p: Path, ghost t: Trace)
      requires ValidPath(root, p) && At(root, p) == n && n.kind.Function?
      requires InStep(t, FunctionsAt(root, p), BlocksOutside(root, p))
      modifies this`functionStack, this`reports
      ensures InStep(t + [Leave(PlaceOf(root, p))], FunctionsOutside(root, p), BlocksOutside(root, p))
    {
      hide ValidPath, IsLifecycleCallback, IsReturnedCleanup, FunctionsOutside, BlocksOutside, Frames, Scopes,
           ReportsOf, ContextsAgree, Uncovered;
      LeaveStep(root, t, p, contexts);
      KnownOutside(root, p, contexts);
      StackFacts(t, Leave(PlaceOf(root, p)), functionStack[..|functionStack| - 1], contexts);
      var frame := Last(functionStack);
      functionStack := functionStack[..|functionStack| - 1];
      StoreNamedFunctionCleanup(frame);
      ReportMissingCleanups(frame);
    }

    /** Enters a node, visits its children in order and leaves it. */
    method Visit(root: Node, n: Node, p: Path, ghost t: Trace)
      requires ValidPath(root, p) && At(root, p) == n && Untouched(root, t, p)
      requires InStep(t, FunctionsOutside(root, p), BlocksOutside(root, p))
      requires MarksAreReal(root, lifecycleCallbacks, cleanupCallbacks) &&
               Marked(root, p, lifecycleCallbacks, cleanupCallbacks)
      modifies this
      ensures InStep(TraceNode(root, n, p, t), FunctionsOutside(root, p), BlocksOutside(root, p))
      ensures MarksAreReal(root, lifecycleCallbacks, cleanupCallbacks)
      ensures old(lifecycleCallbacks) <= lifecycleCallbacks && old(cleanupCallbacks) <= cleanupCallbacks
      ensures |functionStack| == |old(functionStack)| && |constStringScopeStack| == |old(constStringScopeStack)|
      decreases n, 1
    {
      hide ValidPath, IsLifecycleCallback, IsReturnedCleanup, FunctionsOutside, BlocksOutside, Entry, Untouched,
           MarksAreReal, Marked, ReportsOf, ContextsAgree;
      EnterNode(root, n, p, t);
      VisitChildren(root, n, p, t);
      ghost var below := TraceChildren(root, n, p, t + [Entry(root, t, p)], |n.children|);
      if n.kind.Function? {
        assert BlocksAt(root, p) == BlocksOutside(root, p);
        ExitFunction(root, n, p, below);
      } else {
        assert FunctionsAt(root, p) == FunctionsOutside(root, p);
        QuietLeave(root, below, p, contexts);
        if n.kind.Block? {
          constStringScopeStack := constStringScopeStack[..|constStringScopeStack| - 1];
        }
      }
    }

    method VisitChildren(root: Node, n: Node, p: Path, ghost t: Trace)
      requires ValidPath(root, p) && At(root, p) == n && Untouched(root, t, p)
      requires InStep(t + [Entry(root, t, p)], FunctionsAt(root, p), BlocksAt(root, p))
      requires MarksAreReal(root, lifecycleCallbacks, cleanupCallbacks)
      requires forall i: nat :: Marked(root, p + [i], lifecycleCallbacks, cleanupCallbacks)
      modifies this
      ensures InStep(TraceChildren(root, n, p, t + [Entry(root, t, p)], |n.children|), FunctionsAt(root, p),
                     BlocksAt(root, p))
      ensures MarksAreReal(root, lifecycleCallbacks, cleanupCallbacks)
      ensures old(lifecycleCallbacks) <= lifecycleCallbacks && old(cleanupCallbacks) <= cleanupCallbacks
      decreases n, 0
    {
      hide ValidPath, IsLifecycleCallback, IsReturnedCleanup, FunctionsAt, BlocksAt, Entry, MarksAreReal, Frames,
           Scopes, ReportsOf, ContextsAgree, Known;
      ghost var entered := t + [Entry(root, t, p)];
      for i := 0 to |n.children|
        invariant InStep(TraceChildren(root, n, p, entered, i), FunctionsAt(root, p), BlocksAt(root, p))
        invariant MarksAreReal(root, lifecycleCallbacks, cleanupCallbacks)
        invariant old(lifecycleCallbacks) <= lifecycleCallbacks && old(cleanupCallbacks) <= cleanupCallbacks
      {
        ValidChild(root, p, i);
        OutsideOfChild(root, p, i);
        EntryIsReal(root, t, p);
        ChildUntouched(root, n, p, t, Entry(root, t, p), i);
        assert Marked(root, p + [i], old(lifecycleCallbacks), old(cleanupCallbacks));
        Visit(root, n.children[i], p + [i], TraceChildren(root, n, p, entered, i));
      }
    }
  }

  /** What the top of a stack in step with the trace says about an event. */
  lemma StackFacts(t: Trace, e: Event, stack: seq<Frame>, contexts: map<Path, EffectContext>)
    requires stack == Frames(t, e.place.functions) && Known(e.place.functions, contexts)
    ensures (stack == [] <==> e.place.functions == [])
    ensures stack != [] ==> Last(stack).context == OwnerOf(e.place)
    ensures stack != [] ==> Last(stack).isEffectCallback == InnermostIsCallback(e.place.functions)
    ensures stack == [] ==> OwnerOf(e.place) == None && !InnermostIsCallback(e.place.functions)
    ensures !e.place.kind.Function? ==> (CleaningAt(t, e.place) <==> stack != [] && Last(stack).inCleanup)
    ensures forall frame | frame in stack && frame.context.Some? :: frame.context.value in contexts
  {
  }

  lemma CallbackOwner(e: Event)
    requires Nested(e.place.functions, e.place.path) && InnermostIsCallback(e.place.functions)
    ensures OwnerOf(e.place) == FunctionAround(e.place) && OwnerOf(e.place).Some?
  {
  }

  /** A block starts without constants. */
  lemma BlockStep(root: Node, t: Trace, p: Path)
    requires ValidPath(root, p) && At(root, p).kind.Block? && Untouched(root, t, p)
    ensures Scopes(t + [Entry(root, t, p)], BlocksAt(root, p)) == Scopes(t, BlocksOutside(root, p)) + [map[]]
  {
    hide ValidPath, BlocksOutside, KeyAt, CleaningAt, IsLifecycleCallback, IsReturnedCleanup;
    var e := Entry(root, t, p);
    var after := t + [e];
    assert after[..|after| - 1] == t && after[|after| - 1] == e;
    NothingKnown(root, t, p);
    ScopesSame(t, e, BlocksOutside(root, p));
    assert BlocksAt(root, p) == BlocksOutside(root, p) + [Some(p)];
    assert Consts(after, Some(p)) == map[];
  }

  lemma OutsideOfChild(root: Node, p: Path, i: nat)
    requires ValidPath(root, p) && ValidPath(root, p + [i])
    ensures FunctionsOutside(root, p + [i]) == FunctionsAt(root, p)
    ensures BlocksOutside(root, p + [i]) == BlocksAt(root, p)
  {
  }

  lemma KnownOutside(root: Node, p: Path, contexts: map<Path, EffectContext>)
    requires ValidPath(root, p) && Known(FunctionsAt(root, p), contexts)
    ensures Known(FunctionsOutside(root, p), contexts)
  {
  }

  /** Leaving anything but a function changes nothing; leaving a block drops its scope. */
  lemma QuietLeave(root: Node, t: Trace, p: Path, contexts: map<Path, EffectContext>)
    requires ValidPath(root, p) && !At(root, p).kind.Function? && ContextsAgree(t, contexts)
    ensures var after := t + [Leave(PlaceOf(root, p))];
            Frames(after, FunctionsOutside(root, p)) == Frames(t, FunctionsOutside(root, p)) &&
            ContextsAgree(after, contexts) && ReportsOf(after) == ReportsOf(t) &&
            Scopes(after, BlocksOutside(root, p)) == Scopes(t, BlocksOutside(root, p))
    ensures At(root, p).kind.Block? ==>
              Scopes(t, BlocksAt(root, p)) == Scopes(t, BlocksOutside(root, p)) + [Consts(t, Some(p))]
    ensures !At(root, p).kind.Block? ==> BlocksAt(root, p) == BlocksOutside(root, p)
  {
    hide ValidPath, Frames, ContextsAgree, ReportsOf, Consts, IsReturnedCleanup;
    FunctionsNest(root, p);
    QuietStep(t, Leave(PlaceOf(root, p)), contexts);
  }

  /** Entering a node marks exactly those of its children that the tree calls for. */
  lemma MarksOfChildren(root: Node, n: Node, p: Path, lifecycle: set<Path>, cleanup: set<Path>,
                        lifecycle': set<Path>, cleanup': set<Path>)
    requires ValidPath(root, p) && At(root, p) == n && MarksAreReal(root, lifecycle, cleanup)
    requires lifecycle' == lifecycle +
             if n.kind.Call? && n.kind.lifecycle && |n.children| > 1 && n.children[1].kind.Function? then {p + [1]}
             else {}
    requires cleanup' == cleanup +
             if n.kind.Return? && InnermostIsCallback(FunctionsOutside(root, p)) && ReturnsFunction(n) then {p + [0]}
             else {}
    ensures MarksAreReal(root, lifecycle', cleanup')
    ensures forall i: nat :: Marked(root, p + [i], lifecycle', cleanup')
  {
    forall i: nat | i < |n.children|
      ensures ValidPath(root, p + [i])
      ensures IsLifecycleCallback(root, p + [i]) <==>
              i == 1 && n.kind.Call? && n.kind.lifecycle && n.children[1].kind.Function?
      ensures IsReturnedCleanup(root, p + [i]) <==>
              i == 0 && n.kind.Return? && InnermostIsCallback(FunctionsOutside(root, p)) && ReturnsFunction(n)
    {
      ValidChild(root, p, i);
      MarksOfChild(root, n, p, i);
    }
    forall i: nat ensures Marked(root, p + [i], lifecycle', cleanup') {
      if ValidPath(root, p + [i]) {
        NoOtherChild(root, p, i);
      }
    }
  }

  lemma NoOtherChild(root: Node, p: Path, i: nat)
    requires ValidPath(root, p) && ValidPath(root, p + [i])
    ensures i < |At(root, p).children|
  {
    if p != [] {
      assert (p + [i])[1..] == p[1..] + [i];
      NoOtherChild(root.children[p[0]], p[1..], i);
    }
  }

  lemma MarksOfChild(root: Node, n: Node, p: Path, i: nat)
    requires ValidPath(root, p) && At(root, p) == n && i < |n.children|
    requires ValidPath(root, p + [i]) && At(root, p + [i]) == n.children[i]
    ensures IsLifecycleCallback(root, p + [i]) <==>
            i == 1 && n.kind.Call? && n.kind.lifecycle && n.children[1].kind.Function?
    ensures IsReturnedCleanup(root, p + [i]) <==>
            i == 0 && n.kind.Return? && InnermostIsCallback(FunctionsOutside(root, p)) && ReturnsFunction(n)
  {
    hide ValidPath, FunctionsOutside;
    var q := p + [i];
    assert q[..|q| - 1] == p && q[|q| - 1] == i;
    OutsideOfChild(root, p, i);
    assert n.kind.Return? ==> FunctionsAt(root, p) == FunctionsOutside(root, p);
  }

  lemma EntryIsReal(root: Node, t: Trace, p: Path)
    requires ValidPath(root, p)
    ensures Entry(root, t, p).Enter? && Real(root, Entry(root, t, p)) && Entry(root, t, p).place.path == p
  {
  }
}
