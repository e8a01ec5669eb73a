/**
 The fixed-point loop that collects every local name for Vitest's `vi` object
 and its module-registry methods.  The loop ends exactly when no name is bound
 to two different methods, and then it has computed the least alias sets,
 whatever the order of the declarations.
 */
module VitestAliases {
  import opened Wrappers

  datatype Expr =
    | Identifier(name: string)
    | Property(target: Expr, property: string)
    | Element(target: Expr, literal: Option<string>)
    | Wrapped(inner: Expr)
    | Other

  /** One element of an object pattern: the local name, if it is one, and the static property it reads. */
  datatype Binding = Binding(local: Option<string>, property: Option<string>)

  /** A variable declaration with an initializer; patterns are object patterns. */
  datatype Declaration = Variable(name: string, init: Expr) | Pattern(bindings: seq<Binding>, init: Expr)

  datatype Import =
    | Namespace(moduleName: string, local: string)
    | Named(moduleName: string, names: seq<(string, string)>)

  datatype File = File(imports: seq<Import>, declarations: seq<Declaration>)

  const MUTATION_METHODS := {"mock", "unmock", "doMock", "doUnmock", "resetModules"}

  datatype Aliases = Aliases(objects: set<string>, methods: map<string, string>, namespaces: set<string>)

  // ---- Imports ----

  function NamedObjects(names: seq<(string, string)>): set<string> {
    if names == [] then {}
    else NamedObjects(names[1..]) + (if names[0].0 == "vi" then {names[0].1} else {})
  }

  function WithImports(imports: seq<Import>, aliases: Aliases): Aliases {
    if imports == [] then aliases
    else
      WithImports(imports[1..],
        if imports[0].moduleName != "vitest" then aliases
        else if imports[0].Namespace? then aliases.(namespaces := aliases.namespaces + {imports[0].local})
        else aliases.(objects := aliases.objects + NamedObjects(imports[0].names)))
  }

  function Initial(file: File): Aliases {
    WithImports(file.imports, Aliases({"vi"}, map[], {}))
  }

  // ---- Recognising expressions ----

  function Unwrap(e: Expr): Expr {
    if e.Wrapped? then Unwrap(e.inner) else e
  }

  predicate IsViExpression(e: Expr, objects: set<string>, namespaces: set<string>) {
    var inner := Unwrap(e);
    (inner.Identifier? && inner.name in objects) ||
    (inner.Property? && inner.property == "vi" && inner.target.Identifier? && inner.target.name in namespaces)
  }

  /** The method a member access of the `vi` object names; the access itself may not be wrapped. */
  function MethodOf(e: Expr, objects: set<string>, namespaces: set<string>): Option<string> {
    match e
    case Property(target, property) =>
      if property in MUTATION_METHODS && IsViExpression(target, objects, namespaces) then Some(property) else None
    case Element(target, literal) =>
      if literal.Some? && literal.value in MUTATION_METHODS && IsViExpression(target, objects, namespaces) then literal
      else None
    case _ => None
  }

  // ---- One pass over the declarations ----

  function AddMethod(aliases: Aliases, name: string, mutator: string): (r: (bool, Aliases)) {
    if name in aliases.methods && aliases.methods[name] == mutator then (false, aliases)
    else (true, aliases.(methods := aliases.methods[name := mutator]))
  }

  function BindAll(bindings: seq<Binding>, aliases: Aliases): (r: (bool, Aliases)) {
    if bindings == [] then (false, aliases)
    else
      var b := bindings[0];
      var (first, next) :=
        if b.local.Some? && b.property.Some? && b.property.value in MUTATION_METHODS then
          AddMethod(aliases, b.local.value, b.property.value)
        else (false, aliases);
      var (rest, last) := BindAll(bindings[1..], next);
      (first || rest, last)
  }

  function Declare(declaration: Declaration, aliases: Aliases): (r: (bool, Aliases)) {
    match declaration
    case Variable(name, init) =>
      if IsViExpression(init, aliases.objects, aliases.namespaces) then
        (name !in aliases.objects, aliases.(objects := aliases.objects + {name}))
      else
        (match MethodOf(init, aliases.objects, aliases.namespaces)
         case None => (false, aliases)
         case Some(mutator) => AddMethod(aliases, name, mutator))
    case Pattern(bindings, init) =>
      if IsViExpression(init, aliases.objects, aliases.namespaces) then BindAll(bindings, aliases) else (false, aliases)
  }

  function Pass(declarations: seq<Declaration>, aliases: Aliases): (r: (bool, Aliases)) {
    if declarations == [] then (false, aliases)
    else
      var (first, next) := Declare(declarations[0], aliases);
      var (rest, last) := Pass(declarations[1..], next);
      (first || rest, last)
  }

  /** The aliases after `n` passes. */
  function Run(file: File, n: nat): Aliases {
    if n == 0 then Initial(file) else Pass(file.declarations, Run(file, n - 1)).1
  }

  ghost predicate Terminates(file: File) {
    exists n: nat :: !Pass(file.declarations, Run(file, n)).0
  }

  // ---- The least alias sets ----

  /** The objects include the imported ones and every variable initialised with one. */
  ghost predicate ObjectsClosed(file: File, objects: set<string>) {
    Initial(file).objects <= objects &&
    forall d | d in file.declarations && d.Variable? && IsViExpression(d.init, objects, Initial(file).namespaces) ::
      d.name in objects
  }

  function Names(declarations: seq<Declaration>): set<string> {
    if declarations == [] then {}
    else
      Names(declarations[1..]) +
      match declarations[0]
      case Variable(name, _) => {name}
      case Pattern(bindings, _) => set b | b in bindings && b.local.Some? :: b.local.value
  }

  function AllNames(file: File): set<string> {
    Initial(file).objects + Names(file.declarations)
  }

  ghost function LeastObjects(file: File): set<string> {
    set name | name in AllNames(file) && forall objects | ObjectsClosed(file, objects) :: name in objects
  }

  /** Some declaration binds `name` to `mutator` when the `vi` objects are `objects`. */
  ghost predicate Binds(d: Declaration, objects: set<string>, namespaces: set<string>, name: string, mutator: string) {
    match d
    case Variable(local, init) => local == name && MethodOf(init, objects, namespaces) == Some(mutator)
    case Pattern(bindings, init) =>
      IsViExpression(init, objects, namespaces) && Binding(Some(name), Some(mutator)) in bindings &&
      mutator in MUTATION_METHODS
  }

  ghost predicate Derivable(file: File, objects: set<string>, name: string, mutator: string) {
    exists d | d in file.declarations :: Binds(d, objects, Initial(file).namespaces, name, mutator)
  }

  /** No name is bound to two different methods. */
  ghost predicate ConflictFree(file: File) {
    forall name, m, m' ::
      Derivable(file, LeastObjects(file), name, m) && Derivable(file, LeastObjects(file), name, m') ==> m == m'
  }

  /** The least sets closed under the alias rules. */
  ghost predicate IsLeast(file: File, aliases: Aliases) {
    aliases.namespaces == Initial(file).namespaces && aliases.objects == LeastObjects(file) &&
    forall name, m :: (name in aliases.methods && aliases.methods[name] == m) <==>
             Derivable(file, aliases.objects, name, m)
  }

  lemma {:induction false} NamesHold(declarations: seq<Declaration>, d: Declaration)
    requires d in declarations
    ensures d.Variable? ==> d.name in Names(declarations)
    ensures d.Pattern? ==> forall b | b in d.bindings && b.local.Some? :: b.local.value in Names(declarations)
  {
    if d != declarations[0] {
      NamesHold(declarations[1..], d);
    }
  }

  /** The intersection of all closed sets is closed. */
  lemma LeastIsClosed(file: File)
    ensures ObjectsClosed(file, LeastObjects(file))
  {
    var least, namespaces := LeastObjects(file), Initial(file).namespaces;
    forall d | d in file.declarations && d.Variable? && IsViExpression(d.init, least, namespaces)
      ensures d.name in least
    {
      NamesHold(file.declarations, d);
      forall objects | ObjectsClosed(file, objects) ensures d.name in objects {
        assert IsViExpression(d.init, objects, namespaces);
      }
    }
  }

  // ---- What a run keeps ----

  /** Nothing is recorded that the least sets do not justify. */
  ghost predicate Justified(file: File, aliases: Aliases) {
    aliases.namespaces == Initial(file).namespaces && aliases.objects <= LeastObjects(file) &&
    forall name | name in aliases.methods :: Derivable(file, LeastObjects(file), name, aliases.methods[name])
  }

  ghost predicate Extends(before: Aliases, after: Aliases) {
    before.objects <= after.objects && before.namespaces == after.namespaces &&
    before.methods.Keys <= after.methods.Keys
  }

  lemma {:induction false} BindAllJustified(file: File, d: Declaration, bindings: seq<Binding>, aliases: Aliases)
    requires d in file.declarations && d.Pattern? && Justified(file, aliases)
    requires forall b | b in bindings :: b in d.bindings
    requires IsViExpression(d.init, LeastObjects(file), Initial(file).namespaces)
    ensures Justified(file, BindAll(bindings, aliases).1) && Extends(aliases, BindAll(bindings, aliases).1)
    ensures BindAll(bindings, aliases).1.objects == aliases.objects
    decreases |bindings|
  {
    if bindings != [] {
      var b := bindings[0];
      var next := aliases;
      if b.local.Some? && b.property.Some? && b.property.value in MUTATION_METHODS {
        assert Binds(d, LeastObjects(file), Initial(file).namespaces, b.local.value, b.property.value);
        next := AddMethod(aliases, b.local.value, b.property.value).1;
      }
      BindAllJustified(file, d, bindings[1..], next);
    }
  }

  lemma DeclareJustified(file: File, d: Declaration, aliases: Aliases)
    requires d in file.declarations && Justified(file, aliases)
    ensures Justified(file, Declare(d, aliases).1) && Extends(aliases, Declare(d, aliases).1)
  {
    LeastIsClosed(file);
    match d
    case Variable(name, init) =>
      if MethodOf(init, aliases.objects, aliases.namespaces).Some? {
        assert Binds(d, LeastObjects(file), Initial(file).namespaces, name,
                     MethodOf(init, aliases.objects, aliases.namespaces).value);
      }
    case Pattern(bindings, init) =>
      if IsViExpression(init, aliases.objects, aliases.namespaces) {
        BindAllJustified(file, d, bindings, aliases);
      }
  }

  lemma {:induction false} PassJustified(file: File, declarations: seq<Declaration>, aliases: Aliases)
    requires Justified(file, aliases) && forall d | d in declarations :: d in file.declarations
    ensures Justified(file, Pass(declarations, aliases).1) && Extends(aliases, Pass(declarations, aliases).1)
    decreases |declarations|
  {
    if declarations != [] {
      DeclareJustified(file, declarations[0], aliases);
      PassJustified(file, declarations[1..], Declare(declarations[0], aliases).1);
    }
  }

  lemma {:induction false} ImportsOnly(imports: seq<Import>, aliases: Aliases)
    ensures WithImports(imports, aliases).methods == aliases.methods
  {
    if imports != [] {
      var next := if imports[0].moduleName != "vitest" then aliases
        else if imports[0].Namespace? then aliases.(namespaces := aliases.namespaces + {imports[0].local})
        else aliases.(objects := aliases.objects + NamedObjects(imports[0].names));
      ImportsOnly(imports[1..], next);
    }
  }

  lemma {:induction false} RunJustified(file: File, n: nat)
    ensures Justified(file, Run(file, n))
  {
    if n == 0 {
      ImportsOnly(file.imports, Aliases({"vi"}, map[], {}));
    } else {
      RunJustified(file, n - 1);
      PassJustified(file, file.declarations, Run(file, n - 1));
    }
  }

  lemma {:induction false} RunExtends(file: File, n: nat)
    ensures Initial(file).objects <= Run(file, n).objects
  {
    if n > 0 {
      RunExtends(file, n - 1);
      RunJustified(file, n - 1);
      PassJustified(file, file.declarations, Run(file, n - 1));
    }
  }

  // ---- An unchanged pass has reached the least sets ----

  lemma {:induction false} UnchangedBindings(bindings: seq<Binding>, aliases: Aliases)
    requires !BindAll(bindings, aliases).0
    ensures BindAll(bindings, aliases).1 == aliases
    ensures forall name, m | Binding(Some(name), Some(m)) in bindings && m in MUTATION_METHODS ::
              name in aliases.methods && aliases.methods[name] == m
    decreases |bindings|
  {
    if bindings != [] {
      UnchangedBindings(bindings[1..], aliases);
    }
  }

  lemma {:induction false} UnchangedPass(declarations: seq<Declaration>, aliases: Aliases)
    requires !Pass(declarations, aliases).0
    ensures Pass(declarations, aliases).1 == aliases
    ensures forall d | d in declarations :: !Declare(d, aliases).0
    decreases |declarations|
  {
    if declarations != [] {
      UnchangedDeclaration(declarations[0], aliases);
      UnchangedPass(declarations[1..], aliases);
    }
  }

  lemma UnchangedDeclaration(d: Declaration, aliases: Aliases)
    requires !Declare(d, aliases).0
    ensures Declare(d, aliases).1 == aliases
    ensures d.Variable? && IsViExpression(d.init, aliases.objects, aliases.namespaces) ==> d.name in aliases.objects
    ensures forall name, m | Binds(d, aliases.objects, aliases.namespaces, name, m) ::
              name in aliases.methods && aliases.methods[name] == m
  {
    match d
    case Variable(name, init) =>
      if IsViExpression(init, aliases.objects, aliases.namespaces) {
        assert aliases.objects + {name} == aliases.objects;
      }
    case Pattern(bindings, init) =>
      if IsViExpression(init, aliases.objects, aliases.namespaces) {
        UnchangedBindings(bindings, aliases);
      }
  }

  /** A pass that changes nothing has computed the least sets, and they are free of conflicts. */
  lemma UnchangedIsLeast(file: File, aliases: Aliases)
    requires Justified(file, aliases) && Initial(file).objects <= aliases.objects
    requires !Pass(file.declarations, aliases).0
    ensures IsLeast(file, aliases) && ConflictFree(file)
  {
    UnchangedPass(file.declarations, aliases);
    forall d | d in file.declarations
      ensures d.Variable? && IsViExpression(d.init, aliases.objects, aliases.namespaces) ==> d.name in aliases.objects
      ensures forall name, m | Binds(d, aliases.objects, aliases.namespaces, name, m) ::
                name in aliases.methods && aliases.methods[name] == m
    {
      UnchangedDeclaration(d, aliases);
    }
    assert ObjectsClosed(file, aliases.objects);
    assert aliases.objects == LeastObjects(file);
  }

  // ---- Progress ----

  /** Names not yet known as objects, and names not yet known as methods. */
  ghost function Missing(file: File, aliases: Aliases): nat {
    |AllNames(file) - aliases.objects| + |AllNames(file) - aliases.methods.Keys|
  }

  lemma Smaller<T>(a: set<T>, b: set<T>)
    requires a <= b
    ensures |a| <= |b| && (a != b ==> |a| < |b|)
  {
    assert b == a + (b - a);
    if a != b {
      var x :| x in b && x !in a;
      assert x in b - a;
    }
  }

  lemma {:induction false} BindingsProgress(file: File, d: Declaration, bindings: seq<Binding>, aliases: Aliases)
    requires ConflictFree(file) && d in file.declarations && d.Pattern? && Justified(file, aliases)
    requires forall b | b in bindings :: b in d.bindings
    requires IsViExpression(d.init, LeastObjects(file), Initial(file).namespaces)
    requires BindAll(bindings, aliases).0
    ensures exists name :: name in BindAll(bindings, aliases).1.methods && name !in aliases.methods
    decreases |bindings|
  {
    var b := bindings[0];
    if b.local.Some? && b.property.Some? && b.property.value in MUTATION_METHODS {
      assert Binds(d, LeastObjects(file), Initial(file).namespaces, b.local.value, b.property.value);
      var (first, next) := AddMethod(aliases, b.local.value, b.property.value);
      assert Justified(file, next);
      BindAllJustified(file, d, bindings[1..], next);
      assert Derivable(file, LeastObjects(file), b.local.value, b.property.value);
      if first {
        assert b.local.value !in aliases.methods;
        assert b.local.value in BindAll(bindings, aliases).1.methods;
      } else {
        BindingsProgress(file, d, bindings[1..], next);
      }
    } else {
      BindingsProgress(file, d, bindings[1..], aliases);
    }
  }

  /** Without conflicts, a declaration that reports a change adds an object or a method name. */
  lemma DeclareProgress(file: File, d: Declaration, aliases: Aliases)
    requires ConflictFree(file) && d in file.declarations && Justified(file, aliases) && Declare(d, aliases).0
    ensures var after := Declare(d, aliases).1;
            (exists name :: name in after.objects && name !in aliases.objects) ||
            (exists name :: name in after.methods && name !in aliases.methods)
  {
    LeastIsClosed(file);
    match d
    case Variable(name, init) =>
      if IsViExpression(init, aliases.objects, aliases.namespaces) {
        assert name in Declare(d, aliases).1.objects;
      } else {
        var m := MethodOf(init, aliases.objects, aliases.namespaces).value;
        assert Binds(d, LeastObjects(file), Initial(file).namespaces, name, m);
        assert Derivable(file, LeastObjects(file), name, m);
        assert name in Declare(d, aliases).1.methods;
      }
    case Pattern(bindings, init) =>
      BindingsProgress(file, d, bindings, aliases);
  }

  lemma {:induction false} PassProgress(file: File, declarations: seq<Declaration>, aliases: Aliases)
    requires ConflictFree(file) && Justified(file, aliases) && Pass(declarations, aliases).0
    requires forall d | d in declarations :: d in file.declarations
    ensures var after := Pass(declarations, aliases).1;
            (exists name :: name in after.objects && name !in aliases.objects) ||
            (exists name :: name in after.methods && name !in aliases.methods)
    decreases |declarations|
  {
    var (first, next) := Declare(declarations[0], aliases);
    DeclareJustified(file, declarations[0], aliases);
    PassJustified(file, declarations[1..], next);
    if first {
      DeclareProgress(file, declarations[0], aliases);
    } else {
      UnchangedDeclaration(declarations[0], aliases);
      PassProgress(file, declarations[1..], next);
    }
  }

  lemma DerivableNames(file: File, name: string, m: string)
    requires Derivable(file, LeastObjects(file), name, m)
    ensures name in AllNames(file)
  {
    var d :| d in file.declarations && Binds(d, LeastObjects(file), Initial(file).namespaces, name, m);
    NamesHold(file.declarations, d);
  }

  /** Without conflicts each changing pass leaves fewer names missing. */
  lemma PassShrinks(file: File, aliases: Aliases)
    requires ConflictFree(file) && Justified(file, aliases) && Pass(file.declarations, aliases).0
    ensures Missing(file, Pass(file.declarations, aliases).1) < Missing(file, aliases)
  {
    var after := Pass(file.declarations, aliases).1;
    PassJustified(file, file.declarations, aliases);
    PassProgress(file, file.declarations, aliases);
    var names := AllNames(file);
    Smaller(names - after.objects, names - aliases.objects);
    Smaller(names - after.methods.Keys, names - aliases.methods.Keys);
    if name :| name in after.objects && name !in aliases.objects {
      assert name in names - aliases.objects;
    } else {
      var name :| name in after.methods && name !in aliases.methods;
      DerivableNames(file, name, after.methods[name]);
      assert name in names - aliases.methods.Keys;
    }
  }

  lemma {:induction false} RunEnds(file: File, n: nat)
    requires ConflictFree(file)
    ensures Terminates(file)
    decreases Missing(file, Run(file, n))
  {
    if Pass(file.declarations, Run(file, n)).0 {
      RunJustified(file, n);
      PassShrinks(file, Run(file, n));
      assert Run(file, n + 1) == Pass(file.declarations, Run(file, n)).1;
      RunEnds(file, n + 1);
    }
  }

  /** The loop ends exactly when no name is bound to two different methods. */
  lemma TerminatesExactlyWithoutConflict(file: File)
    ensures Terminates(file) <==> ConflictFree(file)
  {
    if ConflictFree(file) {
      RunEnds(file, 0);
    }
    if n: nat :| !Pass(file.declarations, Run(file, n)).0 {
      RunJustified(file, n);
      RunExtends(file, n);
      UnchangedIsLeast(file, Run(file, n));
    }
  }

  // ---- The imperative loop ----

  class MutableAliases {
    var objects: set<string>
    var methods: map<string, string>
    var namespaces: set<string>

    constructor (aliases: Aliases)
      ensures Abstract() == aliases
    {
      objects, methods, namespaces := aliases.objects, aliases.methods, aliases.namespaces;
    }

    function Abstract(): Aliases
      reads this
    {
      Aliases(objects, methods, namespaces)
    }

    method AddToSet(name: string) returns (changed: bool)
      modifies this`objects
      ensures changed <==> name !in old(objects)
      ensures objects == old(objects) + {name}
    {
      if name in objects {
        assert objects == objects + {name};
        return false;
      }
      objects := objects + {name};
      return true;
    }

    /** Reports a change whenever the recorded method differs, an overwrite included. */
    method AddToMap(name: string, mutator: string) returns (changed: bool)
      modifies this`methods
      ensures (changed, Abstract()) == AddMethod(old(Abstract()), name, mutator)
    {
      if name in methods && methods[name] == mutator {
        return false;
      }
      methods := methods[name := mutator];
      return true;
    }

    method CollectBindings(bindings: seq<Binding>) returns (changed: bool)
      modifies this`methods
      ensures (changed, Abstract()) == BindAll(bindings, old(Abstract()))
    {
      changed := false;
      assert bindings[0..] == bindings;
      for i := 0 to |bindings|
        invariant (changed || BindAll(bindings[i..], Abstract()).0, BindAll(bindings[i..], Abstract()).1) ==
                  BindAll(bindings, old(Abstract()))
      {
        assert bindings[i..][1..] == bindings[i + 1..];
        var b := bindings[i];
        if b.local.Some? && b.property.Some? && b.property.value in MUTATION_METHODS {
          var added := AddToMap(b.local.value, b.property.value);
          changed := added || changed;
        }
      }
    }

    method CollectDeclaration(d: Declaration) returns (changed: bool)
      modifies this
      ensures (changed, Abstract()) == Declare(d, old(Abstract()))
    {
      changed := false;
      match d
      case Variable(name, init) =>
        if IsViExpression(init, objects, namespaces) {
          changed := AddToSet(name);
        } else {
          var mutator := MethodOf(init, objects, namespaces);
          if mutator.Some? {
            changed := AddToMap(name, mutator.value);
          }
        }
      case Pattern(bindings, init) =>
        if IsViExpression(init, objects, namespaces) {
          changed := CollectBindings(bindings);
        }
    }

    method CollectVariableAliases(declarations: seq<Declaration>) returns (changed: bool)
      modifies this
      ensures (changed, Abstract()) == Pass(declarations, old(Abstract()))
    {
      changed := false;
      assert declarations[0..] == declarations;
      for i := 0 to |declarations|
        invariant (changed || Pass(declarations[i..], Abstract()).0, Pass(declarations[i..], Abstract()).1) ==
                  Pass(declarations, old(Abstract()))
      {
        assert declarations[i..][1..] == declarations[i + 1..];
        var c := CollectDeclaration(declarations[i]);
        changed := c || changed;
      }
    }
  }

  /** Repeats passes until one changes nothing; the premise is exactly what makes that happen. */
  method CollectVitestAliases(file: File) returns (aliases: Aliases)
    requires ConflictFree(file)
    ensures IsLeast(file, aliases)
  {
    var state := new MutableAliases(Initial(file));
    ImportsOnly(file.imports, Aliases({"vi"}, map[], {}));
    ghost var s := Initial(file);
    var changed := true;
    while changed
      invariant state.Abstract() == s && Justified(file, s) && Initial(file).objects <= s.objects
      invariant !changed ==> !Pass(file.declarations, s).0
      decreases Missing(file, s), changed
    {
      PassJustified(file, file.declarations, s);
      changed := state.CollectVariableAliases(file.declarations);
      if changed {
        PassShrinks(file, s);
        s := Pass(file.declarations, s).1;
      } else {
        UnchangedPass(file.declarations, s);
      }
    }
    UnchangedIsLeast(file, s);
    aliases := state.Abstract();
  }

  /** The order of the declarations decides neither whether the loop ends nor what it finds. */
  lemma DeclarationOrderIsIrrelevant(file: File, other: File, aliases: Aliases)
    requires file.imports == other.imports
    requires forall d :: d in file.declarations <==> d in other.declarations
    ensures ConflictFree(file) <==> ConflictFree(other)
    ensures IsLeast(file, aliases) <==> IsLeast(other, aliases)
  {
    assert forall objects :: ObjectsClosed(file, objects) <==> ObjectsClosed(other, objects);
    LeastIsLeast(file, other);
    LeastIsLeast(other, file);
    assert LeastObjects(file) == LeastObjects(other);
    assert forall objects, name, m :: Derivable(file, objects, name, m) <==> Derivable(other, objects, name, m);
  }

  lemma LeastIsLeast(file: File, other: File)
    requires forall objects :: ObjectsClosed(file, objects) <==> ObjectsClosed(other, objects)
    ensures LeastObjects(file) <= LeastObjects(other)
  {
    LeastIsClosed(other);
  }

  /** One name bound to `vi.mock` and then to `vi.unmock`: the loop never ends. */
  lemma RebindingNeverEnds()
    ensures var vi := Identifier("vi");
            !Terminates(File([], [Variable("m", Property(vi, "mock")), Variable("m", Property(vi, "unmock"))]))
  {
    var mock := Variable("m", Property(Identifier("vi"), "mock"));
    var unmock := Variable("m", Property(Identifier("vi"), "unmock"));
    var file := File([], [mock, unmock]);
    var objects := LeastObjects(file);
    LeastIsClosed(file);
    assert "vi" in Initial(file).objects;
    assert mock in file.declarations && Binds(mock, objects, Initial(file).namespaces, "m", "mock");
    assert unmock in file.declarations && Binds(unmock, objects, Initial(file).namespaces, "m", "unmock");
    assert Derivable(file, objects, "m", "mock") && Derivable(file, objects, "m", "unmock");
    TerminatesExactlyWithoutConflict(file);
  }
}
