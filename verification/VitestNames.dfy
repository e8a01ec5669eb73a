/**
 Which local names a file gives to Vitest's `vi` object and to its methods, in
 terms of its imports and declarations alone: the fixed point read as chains of
 aliases.
 */
module VitestNames {
  import opened Trails
  import opened VitestAliases
  import opened Wrappers

  // ---- What the file says ----

  /** Without its parentheses and assertions `e` is `bare`. */
  predicate IsBare(e: Expr, bare: Expr) {
    match e
    case Wrapped(inner) => IsBare(inner, bare)
    case _ => bare == e
  }

  ghost predicate IsNamespace(file: File, name: string) {
    Namespace("vitest", name) in file.imports
  }

  /** The name is `vi` itself or imports it from vitest. */
  ghost predicate ImportsVi(file: File, name: string) {
    name == "vi" || exists names :: Named("vitest", names) in file.imports && ("vi", name) in names
  }

  /** The expression reads `vi` off a namespace import. */
  ghost predicate ReadsVi(file: File, e: Expr) {
    exists namespace :: IsNamespace(file, namespace) && IsBare(e, Property(Identifier(namespace), "vi"))
  }

  /** `next` is declared as an alias of `name`. */
  ghost predicate IsAliasOf(file: File, name: string, next: string) {
    exists init :: Variable(next, init) in file.declarations && IsBare(init, Identifier(name))
  }

  ghost function Aliasing(file: File): Relation<string> {
    (name, next) => IsAliasOf(file, name, next)
  }

  /** The name is imported, or declared as what a namespace import holds. */
  ghost predicate Begins(file: File, name: string) {
    ImportsVi(file, name) || exists init :: Variable(name, init) in file.declarations && ReadsVi(file, init)
  }

  /** The name stands for `vi`: a chain of aliases leads to it. */
  ghost predicate StandsForVi(file: File, name: string) {
    exists first :: Begins(file, first) && Leads(Aliasing(file), first, name)
  }

  ghost predicate IsVi(file: File, e: Expr) {
    ReadsVi(file, e) || exists name :: StandsForVi(file, name) && IsBare(e, Identifier(name))
  }

  predicate IsRegistryMethod(name: string) {
    name == "mock" || name == "unmock" || name == "doMock" || name == "doUnmock" || name == "resetModules"
  }

  /** A declaration binds the name to this method of `vi`: by access, or by destructuring. */
  ghost predicate BindsMethod(file: File, name: string, mutator: string) {
    IsRegistryMethod(mutator) &&
    ((exists target :: IsVi(file, target) &&
        (Variable(name, Property(target, mutator)) in file.declarations ||
         Variable(name, Element(target, Some(mutator))) in file.declarations)) ||
     exists bindings, init :: Pattern(bindings, init) in file.declarations && IsVi(file, init) &&
       Binding(Some(name), Some(mutator)) in bindings)
  }

  // ---- The pass's notions are these ----

  lemma {:induction false} BareMeans(e: Expr, bare: Expr)
    ensures IsBare(e, bare) <==> Unwrap(e) == bare
  {
    if e.Wrapped? {
      BareMeans(e.inner, bare);
    }
  }

  lemma {:induction false} ImportsMean(imports: seq<Import>, aliases: Aliases, name: string)
    ensures name in WithImports(imports, aliases).namespaces <==>
              name in aliases.namespaces || Namespace("vitest", name) in imports
    ensures name in WithImports(imports, aliases).objects <==>
              name in aliases.objects || exists names :: Named("vitest", names) in imports && ("vi", name) in names
  {
    if imports != [] {
      var first := imports[0];
      var next := if first.moduleName != "vitest" then aliases
        else if first.Namespace? then aliases.(namespaces := aliases.namespaces + {first.local})
        else aliases.(objects := aliases.objects + NamedObjects(first.names));
      ImportsMean(imports[1..], next, name);
      assert imports == [first] + imports[1..];
      if first.Named? {
        NamedMeans(first.names, name);
      }
    }
  }

  lemma {:induction false} NamedMeans(names: seq<(string, string)>, name: string)
    ensures name in NamedObjects(names) <==> ("vi", name) in names
  {
    if names != [] {
      NamedMeans(names[1..], name);
      assert names == [names[0]] + names[1..];
    }
  }

  lemma {:induction false} InitialMeans(file: File)
    ensures forall name :: name in Initial(file).objects <==> ImportsVi(file, name)
    ensures forall name :: name in Initial(file).namespaces <==> IsNamespace(file, name)
  {
    forall name
      ensures name in Initial(file).objects <==> ImportsVi(file, name)
      ensures name in Initial(file).namespaces <==> IsNamespace(file, name)
    {
      ImportsMean(file.imports, Aliases({"vi"}, map[], {}), name);
    }
  }

  /** An expression is the `vi` object, given the names that stand for it. */
  lemma {:induction false} ViExpressionMeans(file: File, e: Expr, objects: set<string>)
    ensures IsViExpression(e, objects, Initial(file).namespaces) <==>
              ReadsVi(file, e) || exists name :: name in objects && IsBare(e, Identifier(name))
  {
    InitialMeans(file);
    forall bare ensures IsBare(e, bare) <==> Unwrap(e) == bare {
      BareMeans(e, bare);
    }
    var inner := Unwrap(e);
    if inner.Identifier? {
      assert inner == Identifier(inner.name);
    }
    if inner.Property? && inner.property == "vi" && inner.target.Identifier? &&
      inner.target.name in Initial(file).namespaces {
      assert inner == Property(Identifier(inner.target.name), "vi");
    }
  }

  /** The least closed set of names holds exactly those that stand for `vi`. */
  lemma {:induction false} LeastMeansStandsForVi(file: File)
    ensures forall name :: name in LeastObjects(file) <==> StandsForVi(file, name)
  {
    LeastIsClosed(file);
    forall name | StandsForVi(file, name) ensures name in LeastObjects(file) {
      var first :| Begins(file, first) && Leads(Aliasing(file), first, name);
      InitialMeans(file);
      if init :| Variable(first, init) in file.declarations && ReadsVi(file, init) {
        ViExpressionMeans(file, init, LeastObjects(file));
      }
      var holds := x => x in LeastObjects(file);
      forall a, b | holds(a) && Aliasing(file)(a, b) ensures holds(b) {
        var init :| Variable(b, init) in file.declarations && IsBare(init, Identifier(a));
        ViExpressionMeans(file, init, LeastObjects(file));
      }
      LeadsKeeps(Aliasing(file), first, name, holds);
    }
    var standing := set name | name in AllNames(file) && StandsForVi(file, name);
    StandingIsClosed(file, standing);
    forall name | name in LeastObjects(file) ensures StandsForVi(file, name) {
      assert name in standing;
    }
  }

  lemma {:induction false} StandingIsClosed(file: File, standing: set<string>)
    requires standing == set name | name in AllNames(file) && StandsForVi(file, name)
    ensures ObjectsClosed(file, standing)
  {
    InitialMeans(file);
    forall name | name in Initial(file).objects ensures name in standing {
      assert Begins(file, name);
      LeadsSelf(Aliasing(file), name);
    }
    forall d | d in file.declarations && d.Variable? && IsViExpression(d.init, standing, Initial(file).namespaces)
      ensures d.name in standing
    {
      NamesHold(file.declarations, d);
      ViExpressionMeans(file, d.init, standing);
      assert Variable(d.name, d.init) in file.declarations;
      if ReadsVi(file, d.init) {
        assert Begins(file, d.name);
        LeadsSelf(Aliasing(file), d.name);
      } else {
        var name :| name in standing && IsBare(d.init, Identifier(name));
        var first :| Begins(file, first) && Leads(Aliasing(file), first, name);
        assert Aliasing(file)(name, d.name);
        LeadsOn(Aliasing(file), first, name, d.name);
      }
    }
  }

  lemma {:induction false} ViMeans(file: File, e: Expr)
    ensures IsViExpression(e, LeastObjects(file), Initial(file).namespaces) <==> IsVi(file, e)
  {
    hide StandsForVi, LeastObjects;
    LeastMeansStandsForVi(file);
    ViExpressionMeans(file, e, LeastObjects(file));
  }

  lemma {:induction false} DerivableMeansBinds(file: File, name: string, mutator: string)
    ensures Derivable(file, LeastObjects(file), name, mutator) <==> BindsMethod(file, name, mutator)
  {
    hide LeastObjects, IsViExpression, IsVi;
    forall e ensures IsViExpression(e, LeastObjects(file), Initial(file).namespaces) <==> IsVi(file, e) {
      ViMeans(file, e);
    }
    assert IsRegistryMethod(mutator) <==> mutator in MUTATION_METHODS;
    if Derivable(file, LeastObjects(file), name, mutator) {
      var d :| d in file.declarations && Binds(d, LeastObjects(file), Initial(file).namespaces, name, mutator);
      match d
      case Variable(local, init) =>
        assert Variable(name, init) in file.declarations;
        match init {
          case Property(target, property) => assert init == Property(target, mutator);
          case Element(target, literal) => assert init == Element(target, Some(mutator));
        }
      case Pattern(bindings, init) => assert Pattern(bindings, init) in file.declarations;
    }
  }

  // ---- The loop, in the file's own terms ----

  /** The loop ends exactly when no name is bound to two methods. */
  lemma {:induction false} EndsExactlyWithoutRebinding(file: File)
    ensures Terminates(file) <==>
                forall name, m, m' | BindsMethod(file, name, m) && BindsMethod(file, name, m') :: m == m'
  {
    hide Derivable, BindsMethod, Terminates, LeastObjects;
    TerminatesExactlyWithoutConflict(file);
    forall name, m ensures Derivable(file, LeastObjects(file), name, m) <==> BindsMethod(file, name, m) {
      DerivableMeansBinds(file, name, m);
    }
  }

  /** What the loop ends with is what the file says. */
  lemma {:induction false} AliasesMeanNames(file: File, aliases: Aliases)
    ensures IsLeast(file, aliases) <==>
              (forall name :: name in aliases.namespaces <==> IsNamespace(file, name)) &&
              (forall name :: name in aliases.objects <==> StandsForVi(file, name)) &&
              forall name, m :: (name in aliases.methods && aliases.methods[name] == m) <==> BindsMethod(file, name, m)
  {
    hide Derivable, BindsMethod, StandsForVi, IsNamespace, LeastObjects;
    InitialMeans(file);
    LeastMeansStandsForVi(file);
    forall name, m ensures Derivable(file, LeastObjects(file), name, m) <==> BindsMethod(file, name, m) {
      DerivableMeansBinds(file, name, m);
    }
    if (forall name :: name in aliases.namespaces <==> IsNamespace(file, name)) &&
       forall name :: name in aliases.objects <==> StandsForVi(file, name) {
      assert aliases.namespaces == Initial(file).namespaces && aliases.objects == LeastObjects(file);
    }
  }
}
