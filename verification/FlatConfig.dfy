/**
 What a flat config list means for one path, and the proof that the emitted
 `files` and `ignores` of a family mean what the family tree means.
 */
module FlatConfig {
  import opened Glob
  import opened RestrictedSyntax

  predicate EntryMatches(entry: FileEntry, path: string) {
    match entry
    case One(pattern) => Matches(path, pattern)
    case All(patterns) => forall pattern | pattern in patterns :: Matches(path, pattern)
  }

  predicate SomeEntryMatches(entries: seq<FileEntry>, path: string) {
    exists entry | entry in entries :: EntryMatches(entry, path)
  }

  /** ESLint reads `ignores` in order: a later `!pattern` re-includes an ignored path. */
  predicate Ignored(ignores: seq<string>, path: string) {
    if ignores == [] then false
    else
      var last := ignores[|ignores| - 1];
      var before := Ignored(ignores[..|ignores| - 1], path);
      if IsNegated(last) then before && !Matches(path, last[1..]) else before || Matches(path, last)
  }

  predicate ConfigMatches(config: Config, path: string) {
    SomeEntryMatches(config.files, path) && !Ignored(config.ignores, path)
  }

  /** The resolved rule entry of a path: absent, or a severity with its options. */
  datatype Entry = Absent | Present(severity: nat, options: seq<Selector>)

  /** A severity-only `off` keeps the options inherited so far. */
  function Override(entry: Entry, rule: Rule): Entry {
    match rule
    case Off => Present(0, if entry.Present? then entry.options else [])
    case Report(selectors) => Present(2, selectors)
  }

  /** Later matching configs override earlier ones. */
  function ResolvePath(configs: seq<Config>, path: string): Entry {
    if configs == [] then Absent
    else
      var last := configs[|configs| - 1];
      var before := ResolvePath(configs[..|configs| - 1], path);
      if ConfigMatches(last, path) then Override(before, last.rule) else before
  }

  // ---- The emitted `files` are the conjunction of the file groups ----

  predicate AllMatch(combination: seq<string>, path: string) {
    forall pattern | pattern in combination :: Matches(path, pattern)
  }

  predicate AnyCombination(combinations: seq<seq<string>>, path: string) {
    exists i | 0 <= i < |combinations| :: AllMatch(combinations[i], path)
  }

  lemma {:induction false} AnySplits(a: seq<seq<string>>, b: seq<seq<string>>, path: string)
    ensures AnyCombination(a + b, path) <==> AnyCombination(a, path) || AnyCombination(b, path)
  {
    forall i | 0 <= i < |b| ensures (a + b)[|a| + i] == b[i] {
    }
    forall i | 0 <= i < |a| ensures (a + b)[i] == a[i] {
    }
  }

  lemma SomeSplits(group: seq<string>, path: string)
    requires group != []
    ensures SomeMatches(group, path) <==> Matches(path, group[0]) || SomeMatches(group[1..], path)
  {
  }

  lemma {:induction false} ExtensionsMeaning(combination: seq<string>, group: seq<string>, path: string)
    ensures AnyCombination(Extensions(combination, group), path) <==>
              AllMatch(combination, path) && SomeMatches(group, path)
  {
    if group != [] {
      ExtensionsMeaning(combination, group[1..], path);
      SomeSplits(group, path);
      var first := combination + [group[0]];
      AnySplits([first], Extensions(combination, group[1..]), path);
      assert AnyCombination([first], path) <==> AllMatch([first][0], path);
      assert AllMatch(first, path) <==> AllMatch(combination, path) && Matches(path, group[0]) by {
        assert forall pattern :: pattern in first <==> pattern in combination || pattern == group[0];
      }
    }
  }

  lemma {:induction false} ExtendAllMeaning(combinations: seq<seq<string>>, group: seq<string>, path: string)
    ensures AnyCombination(ExtendAll(combinations, group), path) <==>
            AnyCombination(combinations, path) && SomeMatches(group, path)
  {
    if combinations != [] {
      ExtensionsMeaning(combinations[0], group, path);
      ExtendAllMeaning(combinations[1..], group, path);
      AnySplits(Extensions(combinations[0], group), ExtendAll(combinations[1..], group), path);
      AnySplits([combinations[0]], combinations[1..], path);
      assert combinations == [combinations[0]] + combinations[1..];
      assert AnyCombination([combinations[0]], path) <==> AllMatch([combinations[0]][0], path);
    }
  }

  /** Distributing the groups into combinations keeps the meaning "some pattern of every group". */
  lemma {:induction false} ProductMeaning(groups: seq<seq<string>>, combinations: seq<seq<string>>, path: string)
    ensures AnyCombination(Product(groups, combinations), path) <==>
            AnyCombination(combinations, path) && forall group | group in groups :: SomeMatches(group, path)
  {
    if groups != [] {
      var last := groups[|groups| - 1];
      ExtendAllMeaning(combinations, last, path);
      ProductMeaning(groups[..|groups| - 1], ExtendAll(combinations, last), path);
      assert groups == groups[..|groups| - 1] + [last];
    }
  }

  lemma {:induction false} KeepUnmatchedMeaning(own: string, ancestors: seq<string>)
    ensures AllMatch(KeepUnmatched(own, ancestors), own) <==> AllMatch(ancestors, own)
    ensures forall pattern ::
              pattern in KeepUnmatched(own, ancestors) <==> pattern in ancestors && !Matches(own, pattern)
  {
    if ancestors != [] {
      KeepUnmatchedMeaning(own, ancestors[1..]);
      assert ancestors == [ancestors[0]] + ancestors[1..];
      var kept := KeepUnmatched(own, ancestors[1..]);
      assert forall pattern :: pattern in [ancestors[0]] + kept <==> pattern == ancestors[0] || pattern in kept;
    }
  }

  /** Dropping the ancestor patterns a literal own path satisfies changes no match. */
  lemma DropRedundantMeaning(combination: seq<string>, path: string)
    requires combination != []
    ensures AllMatch(DropRedundant(combination), path) <==> AllMatch(combination, path)
  {
    var own, ancestors := combination[0], combination[1..];
    assert combination == [own] + ancestors;
    if IsLiteralPath(own) {
      LiteralMatchesOnlyItself(path, own);
      var kept := KeepUnmatched(own, ancestors);
      assert own in combination && own in [own] + kept;
      if path == own {
        KeepUnmatchedMeaning(own, ancestors);
        assert forall pattern :: pattern in [own] + kept <==> pattern == own || pattern in kept;
        assert forall pattern :: pattern in combination <==> pattern == own || pattern in ancestors;
      }
    }
  }

  /** A bare pattern, or several of which none but the first holds for a path that the first one is. */
  ghost predicate IsLean(entry: FileEntry) {
    match entry
    case One(_) => true
    case All(patterns) =>
      |patterns| >= 2 &&
      (IsLiteralPath(patterns[0]) ==> forall k | 0 < k < |patterns| :: !Matches(patterns[0], patterns[k]))
  }

  /** No emitted entry holds a pattern that another of its own patterns makes redundant. */
  lemma {:induction false} EmittedEntriesAreLean(groups: seq<seq<string>>)
    requires groups != []
    ensures forall entry | entry in IntersectFileGroups(groups) :: IsLean(entry)
  {
    ProductsAreNonEmpty(groups, [[]]);
    LeanEntries(Product(groups, [[]]));
  }

  lemma {:induction false} LeanEntries(combinations: seq<seq<string>>)
    requires AllNonEmpty(combinations)
    ensures forall entry | entry in EntriesOf(combinations) :: IsLean(entry)
  {
    if combinations != [] {
      LeanEntries(combinations[1..]);
      LeanEntry(combinations[0]);
    }
  }

  lemma {:induction false} LeanEntry(combination: seq<string>)
    requires combination != []
    ensures IsLean(EntryOf(DropRedundant(combination)))
  {
    KeepUnmatchedMeaning(combination[0], combination[1..]);
    var kept := DropRedundant(combination);
    if IsLiteralPath(combination[0]) {
      forall k | 0 < k < |kept| ensures !Matches(kept[0], kept[k]) {
        assert kept[k] in KeepUnmatched(combination[0], combination[1..]);
      }
    }
  }

  lemma {:induction false} EntriesMeaning(combinations: seq<seq<string>>, path: string)
    requires AllNonEmpty(combinations)
    ensures SomeEntryMatches(EntriesOf(combinations), path) <==> AnyCombination(combinations, path)
  {
    if combinations != [] {
      var kept := DropRedundant(combinations[0]);
      DropRedundantMeaning(combinations[0], path);
      EntriesMeaning(combinations[1..], path);
      AnySplits([combinations[0]], combinations[1..], path);
      assert combinations == [combinations[0]] + combinations[1..];
      assert AnyCombination([combinations[0]], path) <==> AllMatch([combinations[0]][0], path);
      assert EntryMatches(EntryOf(kept), path) <==> AllMatch(kept, path) by {
        assert |kept| == 1 ==> kept == [kept[0]];
      }
      var rest := EntriesOf(combinations[1..]);
      assert forall e :: e in [EntryOf(kept)] + rest <==> e == EntryOf(kept) || e in rest;
    }
  }

  /** The emitted `files` list matches exactly the paths every file group matches. */
  lemma IntersectionIsConjunction(groups: seq<seq<string>>, path: string)
    requires groups != []
    ensures SomeEntryMatches(IntersectFileGroups(groups), path) <==>
            forall group | group in groups :: SomeMatches(group, path)
  {
    ProductsAreNonEmpty(groups, [[]]);
    EntriesMeaning(Product(groups, [[]]), path);
    ProductMeaning(groups, [[]], path);
    assert AllMatch([[]][0], path);
  }

  // ---- Positive ignores: the order does not matter ----

  /** Without negated patterns, ignoring is "some pattern matches". */
  lemma {:induction false} PositiveIgnores(ignores: seq<string>, path: string)
    requires forall pattern | pattern in ignores :: !IsNegated(pattern)
    ensures Ignored(ignores, path) <==> SomeMatches(ignores, path)
  {
    if ignores != [] {
      PositiveIgnores(ignores[..|ignores| - 1], path);
      assert ignores == ignores[..|ignores| - 1] + [ignores[|ignores| - 1]];
    }
  }

  /** A family and the config entry emitted for it match the same paths. */
  lemma EmittedEntryMatchesFamily(family: Family, selectors: Registry, order: seq<string>, path: string)
    requires family.fileGroups != []
    requires forall pattern | pattern in family.ignores :: !IsNegated(pattern)
    ensures ConfigMatches(Emit(family, selectors, order), path) <==> FamilyMatches(family, path)
  {
    IntersectionIsConjunction(family.fileGroups, path);
    PositiveIgnores(family.ignores, path);
  }

  /**
   Why negated patterns are refused: whatever family lists a literal path and
   ignores it, but then takes the ignore back, is without that path as a family
   and matches it as the entry emitted for it.
   */
  lemma NegatedIgnoreBreaksTheReading(family: Family, selectors: Registry, order: seq<string>, path: string)
    requires IsLiteralPath(path) && family.fileGroups == [[path]] && family.ignores == [path, "!" + path]
    ensures ConfigMatches(Emit(family, selectors, order), path) && !FamilyMatches(family, path)
  {
    LiteralMatchesOnlyItself(path, path);
    assert SomeMatches([path], path) by {
      assert path in [path];
    }
    IntersectionIsConjunction(family.fileGroups, path);
    assert path in family.ignores;
    assert family.ignores[..1] == [path] && ("!" + path)[1..] == path;
  }
}
