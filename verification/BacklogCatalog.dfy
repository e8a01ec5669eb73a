/**
 The backlog catalog: which pack owns a note, which member of a pack is its
 index, what class of record each note is, and the counts over all of it.
 */
module BacklogCatalog {
  import opened Wrappers
  import opened Sorting
  import opened Text
  import Status = BacklogStatus
  import opened Sequences

  const CANONICAL_INDEX_BASE := "00-index.md"

  // ---- Notes and where they lie ----

  /** A parsed note; `indexNameRank` is `None` for a name that is not index-like. */
  datatype Note = Note(path: string, statusValue: Option<string>, selfDeclaresIndex: bool, indexNameRank: Option<nat>)

  datatype Location = Location(packDir: Option<string>, immediateMember: bool)

  function PathOf(note: Note): string {
    note.path
  }

  function NameOf(name: string): string {
    name
  }

  predicate IsSlash(c: char) {
    c == '/'
  }

  /** What follows the last slash. */
  function BaseName(path: string): string {
    if path == "" || IsSlash(path[|path| - 1]) then "" else BaseName(path[..|path| - 1]) + [path[|path| - 1]]
  }

  function Segments(path: string): seq<string> {
    Pieces(path, IsSlash)
  }

  function LocateInBacklog(path: string, backlogDir: string): Option<Location> {
    var prefix := backlogDir + "/";
    if !(prefix <= path) then None
    else
      var segments := Segments(path[|prefix|..]);
      if |segments| < 2 then Some(Location(None, false))
      else Some(Location(Some(backlogDir + "/" + segments[0]), |segments| == 2))
  }

  function PackDirOf(path: string, backlogDir: string): Option<string> {
    var location := LocateInBacklog(path, backlogDir);
    if location.Some? && location.value.immediateMember then location.value.packDir else None
  }

  lemma {:induction false} SegmentsMeaning(path: string)
    ensures forall k | 0 <= k < |Segments(path)| :: '/' !in Segments(path)[k]
    ensures |Segments(path)| == 1 ==> path == Segments(path)[0]
    ensures |Segments(path)| == 2 ==> path == Segments(path)[0] + "/" + Segments(path)[1]
  {
    if path != "" {
      SegmentsMeaning(path[1..]);
      assert path == [path[0]] + path[1..];
    }
  }

  lemma {:induction false} BaseNameOfJoin(a: string, b: string)
    requires '/' !in b
    ensures BaseName(a + "/" + b) == b
  {
    if b != "" {
      var last := |b| - 1;
      assert b[last] in b && forall c | c in b[..last] :: c in b;
      BaseNameOfJoin(a, b[..last]);
      assert (a + "/" + b)[..|a + "/" + b| - 1] == a + "/" + b[..last];
    } else {
      assert a + "/" + b == a + "/";
    }
  }

  /** An immediate member is its pack directory and its basename, so within a pack the basename identifies it. */
  lemma MemberPath(path: string, backlogDir: string)
    ensures var dir := PackDirOf(path, backlogDir);
            dir.Some? ==> path == dir.value + "/" + BaseName(path)
  {
    var prefix := backlogDir + "/";
    if PackDirOf(path, backlogDir).Some? {
      var rest := path[|prefix|..];
      SegmentsMeaning(rest);
      var dir, base := backlogDir + "/" + Segments(rest)[0], Segments(rest)[1];
      assert path == prefix + rest;
      assert path == dir + "/" + base;
      BaseNameOfJoin(dir, base);
    }
  }

  // ---- The index of a pack ----

  predicate IsIndexCandidate(note: Note) {
    note.indexNameRank.Some? || note.selfDeclaresIndex
  }

  predicate RankBelow(a: Option<nat>, b: Option<nat>) {
    a.Some? && (b.None? || a.value < b.value)
  }

  function BetterCandidate(le: Order<string>, left: Note, right: Note): Note {
    if left.selfDeclaresIndex != right.selfDeclaresIndex then (if left.selfDeclaresIndex then left else right)
    else if left.indexNameRank != right.indexNameRank then
      (if RankBelow(left.indexNameRank, right.indexNameRank) then left else right)
    else if le(BaseName(left.path), BaseName(right.path)) then left
    else right
  }

  /** Self-declared before guessed, then the better name, then the name itself. */
  predicate AsGood(le: Order<string>, a: Note, b: Note) {
    if a.selfDeclaresIndex != b.selfDeclaresIndex then a.selfDeclaresIndex
    else if a.indexNameRank != b.indexNameRank then RankBelow(a.indexNameRank, b.indexNameRank)
    else le(BaseName(a.path), BaseName(b.path))
  }

  ghost predicate IsBest(le: Order<string>, members: seq<Note>, best: Note) {
    best in members && IsIndexCandidate(best) &&
    forall other | other in members && IsIndexCandidate(other) :: AsGood(le, best, other)
  }

  ghost predicate HasBase(members: seq<Note>, base: string) {
    exists member | member in members :: BaseName(member.path) == base
  }

  /** What it means for a pack to have the index base `base`. */
  ghost predicate IsIndexBase(le: Order<string>, members: seq<Note>, base: Option<string>, canonical: bool) {
    (canonical <==> HasBase(members, CANONICAL_INDEX_BASE)) &&
    (canonical ==> base == Some(CANONICAL_INDEX_BASE)) &&
    (!canonical && base.None? ==> forall member | member in members :: !IsIndexCandidate(member)) &&
    (!canonical && base.Some? ==> exists best :: IsBest(le, members, best) && BaseName(best.path) == base.value)
  }

  method ChooseIndexBase(members: seq<Note>, le: Order<string>) returns (base: Option<string>, canonical: bool)
    requires TotalOrder(le)
    ensures IsIndexBase(le, members, base, canonical)
  {
    hide TotalOrder, AsGood, BetterCandidate, BaseName;
    for i := 0 to |members|
      invariant forall k | 0 <= k < i :: BaseName(members[k].path) != CANONICAL_INDEX_BASE
    {
      if BaseName(members[i].path) == CANONICAL_INDEX_BASE {
        assert members[i] in members;
        return Some(CANONICAL_INDEX_BASE), true;
      }
    }
    var best: Option<Note> := None;
    for i := 0 to |members|
      invariant best.None? ==> forall member | member in members[..i] :: !IsIndexCandidate(member)
      invariant best.Some? ==> IsBest(le, members[..i], best.value)
    {
      assert members[..i + 1] == members[..i] + [members[i]];
      if !IsIndexCandidate(members[i]) {
        continue;
      }
      if best.None? {
        FirstCandidate(le, members[..i], members[i]);
        best := Some(members[i]);
      } else {
        BestSoFar(le, members[..i], best.value, members[i]);
        best := Some(BetterCandidate(le, best.value, members[i]));
      }
    }
    assert members[..|members|] == members;
    base, canonical := if best.Some? then Some(BaseName(best.value.path)) else None, false;
  }

  lemma FirstCandidate(le: Order<string>, members: seq<Note>, next: Note)
    requires TotalOrder(le) && IsIndexCandidate(next) && forall member | member in members :: !IsIndexCandidate(member)
    ensures IsBest(le, members + [next], next)
  {
  }

  lemma BestSoFar(le: Order<string>, members: seq<Note>, best: Note, next: Note)
    requires TotalOrder(le) && IsBest(le, members, best) && IsIndexCandidate(next)
    ensures IsBest(le, members + [next], BetterCandidate(le, best, next))
  {
  }

  /** The chosen index depends on which notes are members, not on their order. */
  lemma IndexIgnoresOrder(le: Order<string>, members: seq<Note>, members': seq<Note>, base: Option<string>,
                          canonical: bool, base': Option<string>, canonical': bool)
    requires TotalOrder(le) && (forall note :: note in members <==> note in members')
    requires IsIndexBase(le, members, base, canonical) && IsIndexBase(le, members', base', canonical')
    ensures base == base' && canonical == canonical'
  {
  }

  /** A pack's index is one of its members. */
  lemma IndexIsMember(le: Order<string>, members: seq<Note>, base: Option<string>, canonical: bool)
    requires IsIndexBase(le, members, base, canonical) && base.Some?
    ensures HasBase(members, base.value)
  {
  }

  // ---- Packs ----

  datatype PackShape = PackShape(dir: string, members: seq<Note>, indexBase: Option<string>, indexIsCanonical: bool)

  function DirOf(shape: PackShape): string {
    shape.dir
  }

  function MembersOf(notes: seq<Note>, backlogDir: string, dir: string): (members: seq<Note>)
    ensures forall note :: note in members <==> note in notes && PackDirOf(note.path, backlogDir) == Some(dir)
  {
    if notes == [] then []
    else
      var before, last := MembersOf(notes[..|notes| - 1], backlogDir, dir), notes[|notes| - 1];
      assert notes == notes[..|notes| - 1] + [last];
      if PackDirOf(last.path, backlogDir) == Some(dir) then before + [last] else before
  }

  ghost predicate IsShape(notes: seq<Note>, backlogDir: string, le: Order<string>, shape: PackShape) {
    shape.members != [] && shape.members == MembersOf(notes, backlogDir, shape.dir) &&
    IsIndexBase(le, shape.members, shape.indexBase, shape.indexIsCanonical)
  }

  ghost predicate HasDir(shapes: seq<PackShape>, dir: string) {
    exists shape | shape in shapes :: shape.dir == dir
  }

  /** One shape for every directory with an immediate member, in name order. */
  ghost predicate ArePacks(notes: seq<Note>, backlogDir: string, le: Order<string>, shapes: seq<PackShape>) {
    Sorted(le, DirOf, shapes) && DistinctKeys(DirOf, shapes) &&
    (forall shape | shape in shapes :: IsShape(notes, backlogDir, le, shape)) &&
    forall dir :: MembersOf(notes, backlogDir, dir) != [] ==> HasDir(shapes, dir)
  }

  /** Pack shapes depend on nothing but the notes. */
  lemma PacksAreUnique(notes: seq<Note>, backlogDir: string, le: Order<string>, shapes: seq<PackShape>,
                       shapes': seq<PackShape>)
    requires TotalOrder(le)
    requires ArePacks(notes, backlogDir, le, shapes) && ArePacks(notes, backlogDir, le, shapes')
    ensures shapes == shapes'
  {
    forall shape ensures shape in shapes <==> shape in shapes' {
      if shape in shapes {
        ShapeIsThere(notes, backlogDir, le, shape, shapes');
      }
      if shape in shapes' {
        ShapeIsThere(notes, backlogDir, le, shape, shapes);
      }
    }
    SortedIsUnique(le, DirOf, shapes, shapes');
  }

  lemma ShapeIsThere(notes: seq<Note>, backlogDir: string, le: Order<string>, shape: PackShape, shapes: seq<PackShape>)
    requires TotalOrder(le) && IsShape(notes, backlogDir, le, shape) && ArePacks(notes, backlogDir, le, shapes)
    ensures shape in shapes
  {
  }

  /** The buckets hold, for each directory met so far, its members so far. */
  ghost predicate AreBuckets(notes: seq<Note>, backlogDir: string, byDir: map<string, seq<Note>>) {
    (forall dir | dir in byDir :: byDir[dir] == MembersOf(notes, backlogDir, dir) && byDir[dir] != []) &&
    forall dir :: dir !in byDir ==> MembersOf(notes, backlogDir, dir) == []
  }

  lemma BucketStep(notes: seq<Note>, note: Note, backlogDir: string, byDir: map<string, seq<Note>>)
    requires AreBuckets(notes, backlogDir, byDir)
    ensures var dir := PackDirOf(note.path, backlogDir);
            AreBuckets(notes + [note], backlogDir,
              if dir.None? then byDir
              else byDir[dir.value := (if dir.value in byDir then byDir[dir.value] else []) + [note]])
  {
  }

  lemma NoBuckets(backlogDir: string)
    ensures AreBuckets([], backlogDir, map[])
  {
  }

  lemma BucketMeaning(notes: seq<Note>, backlogDir: string, byDir: map<string, seq<Note>>, dir: string)
    requires AreBuckets(notes, backlogDir, byDir)
    ensures if dir in byDir then byDir[dir] == MembersOf(notes, backlogDir, dir) && byDir[dir] != []
            else MembersOf(notes, backlogDir, dir) == []
  {
  }

  lemma SortedDirs(le: Order<string>, dirs: seq<string>)
    requires TotalOrder(le) && DistinctKeys(NameOf, dirs)
    ensures var sorted := Sort(le, NameOf, dirs);
            Sorted(le, NameOf, sorted) && DistinctKeys(NameOf, sorted) && forall dir :: dir in sorted <==> dir in dirs
  {
    var sorted := Sort(le, NameOf, dirs);
    SortSorts(le, NameOf, dirs);
    SameKeysDistinct(NameOf, dirs, sorted);
    forall dir ensures dir in sorted <==> dir in dirs {
      InMultiset(dir, sorted);
      InMultiset(dir, dirs);
    }
  }

  /** The buckets, and their directories in the order in which they are first met. */
  method GroupByDir(notes: seq<Note>, backlogDir: string) returns (byDir: map<string, seq<Note>>, dirs: seq<string>)
    ensures AreBuckets(notes, backlogDir, byDir)
    ensures DistinctKeys(NameOf, dirs) && forall dir :: dir in dirs <==> dir in byDir
  {
    hide PackDirOf, AreBuckets;
    byDir, dirs := map[], [];
    assert AreBuckets(notes[..0], backlogDir, byDir) by {
      NoBuckets(backlogDir);
      assert notes[..0] == [];
    }
    for i := 0 to |notes|
      invariant AreBuckets(notes[..i], backlogDir, byDir)
      invariant DistinctKeys(NameOf, dirs) && forall dir :: dir in dirs <==> dir in byDir
    {
      BucketStep(notes[..i], notes[i], backlogDir, byDir);
      assert notes[..i + 1] == notes[..i] + [notes[i]];
      var dir := PackDirOf(notes[i].path, backlogDir);
      if dir.None? {
        continue;
      }
      if dir.value !in byDir {
        dirs := dirs + [dir.value];
      }
      byDir := byDir[dir.value := (if dir.value in byDir then byDir[dir.value] else []) + [notes[i]]];
    }
    assert notes[..|notes|] == notes;
  }

  method BuildPackShapes(notes: seq<Note>, backlogDir: string, le: Order<string>) returns (shapes: seq<PackShape>)
    requires TotalOrder(le)
    ensures ArePacks(notes, backlogDir, le, shapes)
  {
    hide TotalOrder, IsIndexBase, PackDirOf, AreBuckets, MembersOf;
    var byDir, dirs := GroupByDir(notes, backlogDir);
    var sorted := Sort(le, NameOf, dirs);
    SortedDirs(le, dirs);
    shapes := [];
    for i := 0 to |sorted|
      invariant |shapes| == i && forall k | 0 <= k < i :: shapes[k].dir == sorted[k]
      invariant forall k | 0 <= k < i :: IsShape(notes, backlogDir, le, shapes[k])
    {
      assert sorted[i] in sorted;
      BucketMeaning(notes, backlogDir, byDir, sorted[i]);
      var members := byDir[sorted[i]];
      var base, canonical := ChooseIndexBase(members, le);
      shapes := shapes + [PackShape(sorted[i], members, base, canonical)];
    }
    forall dir | MembersOf(notes, backlogDir, dir) != [] ensures HasDir(shapes, dir) {
      BucketMeaning(notes, backlogDir, byDir, dir);
      assert dir in sorted;
      var k :| 0 <= k < |sorted| && sorted[k] == dir;
      assert shapes[k].dir == dir;
    }
  }

  // ---- Classification ----

  datatype RecordClass = PackIndex | Leaf | Ledger | StandaloneNote | WorkingArtifact

  datatype State = Actionable | Terminal | Unknown

  datatype ClassifiedNote = ClassifiedNote(path: string, base: string, pack: Option<string>, recordClass: RecordClass,
                                           lifecycle: State, statusValue: Option<string>)

  datatype Counts = Counts(actionable: nat, terminal: nat, unknown: nat)

  const NO_COUNTS := Counts(0, 0, 0)

  datatype PackRollup = PackRollup(name: string, indexPath: Option<string>, indexIsCanonical: bool, counts: Counts,
                                   total: nat, workingArtifacts: nat)

  datatype Catalog = Catalog(notes: seq<ClassifiedNote>, packs: seq<PackRollup>, standalone: seq<ClassifiedNote>,
                             ledgers: seq<ClassifiedNote>, byRecordClass: map<RecordClass, Counts>, totals: Counts)

  /** A note without a status, or with a blank one, declares nothing. */
  function StateOf(statusValue: Option<string>): State {
    if statusValue.None? || AllBlank(statusValue.value) then Unknown
    else if Status.LifecycleOf(statusValue.value).Closed? then Terminal
    else Actionable
  }

  predicate IsDigit(c: char) {
    '0' <= c <= '9'
  }

  function AfterDigits(s: string): string {
    if s != "" && IsDigit(s[0]) then AfterDigits(s[1..]) else s
  }

  predicate IsLineBreak(c: char) {
    c in "\n\r\U{2028}\U{2029}"
  }

  /** Digits, at most one letter, a dash, something, and `.md`. */
  predicate IsLeafBase(base: string) {
    base != "" && IsDigit(base[0]) &&
    var rest := Lower(AfterDigits(base));
    var name := if rest != "" && 'a' <= rest[0] <= 'z' then rest[1..] else rest;
    |name| > 4 && name[0] == '-' && name[|name| - 3..] == ".md" && forall c | c in name :: !IsLineBreak(c)
  }

  function RecordClassOf(base: string, location: Location, indexBaseByPackDir: map<string, string>): RecordClass {
    if location.packDir.None? then StandaloneNote
    else if !location.immediateMember then WorkingArtifact
    else if location.packDir.value in indexBaseByPackDir && indexBaseByPackDir[location.packDir.value] == base then
      PackIndex
    else if IsLeafBase(base) then Leaf
    else Ledger
  }

  function ClassifyNote(note: Note, location: Location, indexBaseByPackDir: map<string, string>): ClassifiedNote {
    var base := BaseName(note.path);
    ClassifiedNote(note.path, base, location.packDir, RecordClassOf(base, location, indexBaseByPackDir),
                   StateOf(note.statusValue), note.statusValue)
  }

  /** The notes below the backlog directory, in order. */
  function Located(files: seq<Note>, backlogDir: string): (located: seq<Note>)
    ensures forall note :: note in located <==> note in files && LocateInBacklog(note.path, backlogDir).Some?
  {
    if files == [] then []
    else
      var before, last := Located(files[..|files| - 1], backlogDir), files[|files| - 1];
      assert files == files[..|files| - 1] + [last];
      if LocateInBacklog(last.path, backlogDir).Some? then before + [last] else before
  }

  function IndexBases(shapes: seq<PackShape>): map<string, string> {
    if shapes == [] then map[]
    else
      var before, last := IndexBases(shapes[..|shapes| - 1]), shapes[|shapes| - 1];
      if last.indexBase.Some? then before[last.dir := last.indexBase.value] else before
  }

  function Classified(notes: seq<Note>, backlogDir: string, indexBaseByPackDir: map<string, string>)
      : (classified: seq<ClassifiedNote>)
    requires forall note | note in notes :: LocateInBacklog(note.path, backlogDir).Some?
    ensures |classified| == |notes|
    ensures forall i | 0 <= i < |notes| ::
              classified[i] == ClassifyNote(notes[i], LocateInBacklog(notes[i].path, backlogDir).value,
                                            indexBaseByPackDir)
  {
    seq(|notes|, i requires 0 <= i < |notes| =>
      assert notes[i] in notes;
      ClassifyNote(notes[i], LocateInBacklog(notes[i].path, backlogDir).value, indexBaseByPackDir))
  }

  // ---- Counting ----

  function CountOne(counts: Counts, state: State): Counts {
    match state
    case Actionable => counts.(actionable := counts.actionable + 1)
    case Terminal => counts.(terminal := counts.terminal + 1)
    case Unknown => counts.(unknown := counts.unknown + 1)
  }

  function Sum(a: Counts, b: Counts): Counts {
    Counts(a.actionable + b.actionable, a.terminal + b.terminal, a.unknown + b.unknown)
  }

  function Total(counts: Counts): nat {
    counts.actionable + counts.terminal + counts.unknown
  }

  function Select(notes: seq<ClassifiedNote>, chosen: ClassifiedNote -> bool): (selected: seq<ClassifiedNote>)
    ensures forall note :: note in selected <==> note in notes && chosen(note)
  {
    if notes == [] then []
    else
      var before, last := Select(notes[..|notes| - 1], chosen), notes[|notes| - 1];
      assert notes == notes[..|notes| - 1] + [last];
      if chosen(last) then before + [last] else before
  }

  function InState(state: State): ClassifiedNote -> bool {
    (note: ClassifiedNote) => note.lifecycle == state
  }

  function InClass(recordClass: RecordClass): ClassifiedNote -> bool {
    (note: ClassifiedNote) => note.recordClass == recordClass
  }

  function StateCount(notes: seq<ClassifiedNote>, state: State): nat {
    |Select(notes, InState(state))|
  }

  /** How many of the notes are in each state. */
  ghost predicate Counted(notes: seq<ClassifiedNote>, counts: Counts) {
    counts == Counts(StateCount(notes, Actionable), StateCount(notes, Terminal), StateCount(notes, Unknown))
  }

  lemma SelectStep(notes: seq<ClassifiedNote>, note: ClassifiedNote, chosen: ClassifiedNote -> bool)
    ensures Select(notes + [note], chosen) == Select(notes, chosen) + if chosen(note) then [note] else []
  {
  }

  lemma CountStep(notes: seq<ClassifiedNote>, note: ClassifiedNote, counts: Counts)
    requires Counted(notes, counts)
    ensures Counted(notes + [note], CountOne(counts, note.lifecycle))
  {
  }

  method CountBy(notes: seq<ClassifiedNote>) returns (counts: Counts)
    ensures Counted(notes, counts)
  {
    counts := NO_COUNTS;
    for i := 0 to |notes|
      invariant Counted(notes[..i], counts)
    {
      CountStep(notes[..i], notes[i], counts);
      assert notes[..i + 1] == notes[..i] + [notes[i]];
      counts := CountOne(counts, notes[i].lifecycle);
    }
    assert notes[..|notes|] == notes;
  }

  function OfClass(notes: seq<ClassifiedNote>, recordClass: RecordClass): seq<ClassifiedNote> {
    Select(notes, InClass(recordClass))
  }

  ghost predicate CountedByClass(notes: seq<ClassifiedNote>, counts: map<RecordClass, Counts>) {
    forall recordClass: RecordClass ::
      recordClass in counts && Counted(OfClass(notes, recordClass), counts[recordClass])
  }

  method CountByRecordClass(notes: seq<ClassifiedNote>) returns (counts: map<RecordClass, Counts>)
    ensures CountedByClass(notes, counts)
  {
    counts := map[PackIndex := NO_COUNTS, Leaf := NO_COUNTS, Ledger := NO_COUNTS, StandaloneNote := NO_COUNTS,
                  WorkingArtifact := NO_COUNTS];
    assert notes[..0] == [];
    assert CountedByClass([], counts) by {
      forall recordClass: RecordClass
        ensures recordClass in counts && Counted(OfClass([], recordClass), counts[recordClass])
      {
        match recordClass case PackIndex => case Leaf => case Ledger => case StandaloneNote => case WorkingArtifact =>
      }
    }
    for i := 0 to |notes|
      invariant CountedByClass(notes[..i], counts)
    {
      var note := notes[i];
      forall recordClass: RecordClass
        ensures OfClass(notes[..i + 1], recordClass) ==
                OfClass(notes[..i], recordClass) + if note.recordClass == recordClass then [note] else []
      {
        assert notes[..i + 1] == notes[..i] + [note];
        SelectStep(notes[..i], note, InClass(recordClass));
      }
      CountStep(OfClass(notes[..i], note.recordClass), note, counts[note.recordClass]);
      counts := counts[note.recordClass := CountOne(counts[note.recordClass], note.lifecycle)];
    }
    assert notes[..|notes|] == notes;
  }

  // ---- The catalog ----

  function InPack(dir: string): ClassifiedNote -> bool {
    (note: ClassifiedNote) => note.pack == Some(dir)
  }

  function IsMember(): ClassifiedNote -> bool {
    (note: ClassifiedNote) => !note.recordClass.WorkingArtifact?
  }

  /** The notes a pack directory owns, at any depth. */
  function OwnedBy(notes: seq<ClassifiedNote>, dir: string): seq<ClassifiedNote> {
    Select(notes, InPack(dir))
  }

  ghost predicate IsRollup(shape: PackShape, backlogDir: string, notes: seq<ClassifiedNote>, rollup: PackRollup) {
    var owned := OwnedBy(notes, shape.dir);
    backlogDir + "/" + rollup.name == shape.dir &&
    rollup.indexPath == (if shape.indexBase.Some? then Some(shape.dir + "/" + shape.indexBase.value) else None) &&
    rollup.indexIsCanonical == shape.indexIsCanonical &&
    Counted(Select(owned, IsMember()), rollup.counts) &&
    rollup.total == |Select(owned, IsMember())| && rollup.total + rollup.workingArtifacts == |owned|
  }

  method FilterBy(notes: seq<ClassifiedNote>, chosen: ClassifiedNote -> bool) returns (selected: seq<ClassifiedNote>)
    ensures selected == Select(notes, chosen)
  {
    selected := [];
    for i := 0 to |notes|
      invariant selected == Select(notes[..i], chosen)
    {
      SelectStep(notes[..i], notes[i], chosen);
      assert notes[..i + 1] == notes[..i] + [notes[i]];
      if chosen(notes[i]) {
        selected := selected + [notes[i]];
      }
    }
    assert notes[..|notes|] == notes;
  }

  lemma {:induction false} SelectShrinks(notes: seq<ClassifiedNote>, chosen: ClassifiedNote -> bool)
    ensures |Select(notes, chosen)| <= |notes|
  {
    if notes != [] {
      SelectShrinks(notes[..|notes| - 1], chosen);
    }
  }

  ghost predicate AreOwned(notes: seq<ClassifiedNote>, byPack: map<string, seq<ClassifiedNote>>) {
    forall dir :: OwnedBy(notes, dir) == if dir in byPack then byPack[dir] else []
  }

  method GroupByPack(notes: seq<ClassifiedNote>) returns (byPack: map<string, seq<ClassifiedNote>>)
    ensures AreOwned(notes, byPack)
  {
    byPack := map[];
    assert notes[..0] == [];
    for i := 0 to |notes|
      invariant AreOwned(notes[..i], byPack)
    {
      var note := notes[i];
      forall dir
        ensures OwnedBy(notes[..i + 1], dir) == OwnedBy(notes[..i], dir) + if note.pack == Some(dir) then [note] else []
      {
        assert notes[..i + 1] == notes[..i] + [note];
        SelectStep(notes[..i], note, InPack(dir));
      }
      if note.pack.None? {
        continue;
      }
      var dir := note.pack.value;
      byPack := byPack[dir := (if dir in byPack then byPack[dir] else []) + [note]];
    }
    assert notes[..|notes|] == notes;
  }

  method RollUpPack(shape: PackShape, backlogDir: string, byPack: map<string, seq<ClassifiedNote>>,
                    ghost notes: seq<ClassifiedNote>)
      returns (rollup: PackRollup)
    requires backlogDir + "/" <= shape.dir && AreOwned(notes, byPack)
    ensures IsRollup(shape, backlogDir, notes, rollup)
  {
    var owned := if shape.dir in byPack then byPack[shape.dir] else [];
    assert owned == OwnedBy(notes, shape.dir);
    var members := FilterBy(owned, IsMember());
    SelectShrinks(owned, IsMember());
    var counts := CountBy(members);
    rollup := PackRollup(shape.dir[|backlogDir + "/"|..],
                         if shape.indexBase.Some? then Some(shape.dir + "/" + shape.indexBase.value) else None,
                         shape.indexIsCanonical, counts, |members|, |owned| - |members|);
  }

  /** A catalog of the files, given the shapes of their packs. */
  ghost predicate IsCatalog(files: seq<Note>, backlogDir: string, le: Order<string>, shapes: seq<PackShape>,
                            catalog: Catalog) {
    var located := Located(Sort(le, PathOf, files), backlogDir);
    ArePacks(located, backlogDir, le, shapes) &&
    catalog.notes == Classified(located, backlogDir, IndexBases(shapes)) &&
    |catalog.packs| == |shapes| &&
    (forall i | 0 <= i < |shapes| :: IsRollup(shapes[i], backlogDir, catalog.notes, catalog.packs[i])) &&
    catalog.standalone == OfClass(catalog.notes, StandaloneNote) &&
    catalog.ledgers == OfClass(catalog.notes, Ledger) &&
    CountedByClass(catalog.notes, catalog.byRecordClass) && Counted(catalog.notes, catalog.totals)
  }

  lemma ShapesLieBelow(notes: seq<Note>, backlogDir: string, le: Order<string>, shape: PackShape)
    requires IsShape(notes, backlogDir, le, shape)
    ensures backlogDir + "/" <= shape.dir
  {
    hide IsIndexBase, Segments;
    var member := shape.members[0];
    assert member in shape.members;
    assert PackDirOf(member.path, backlogDir) == Some(shape.dir);
  }

  method ClassifyBacklogTree(files: seq<Note>, backlogDir: string, le: Order<string>)
      returns (catalog: Catalog)
    requires TotalOrder(le)
    ensures exists shapes :: IsCatalog(files, backlogDir, le, shapes, catalog)
  {
    hide TotalOrder, IsShape, IsRollup, Located, Sort, AreOwned, Counted, CountedByClass;
    var sorted := Sort(le, PathOf, files);
    var located := Located(sorted, backlogDir);
    var packs := BuildPackShapes(located, backlogDir, le);
    var notes := Classified(located, backlogDir, IndexBases(packs));
    var byPack := GroupByPack(notes);
    var rollups: seq<PackRollup> := [];
    for i := 0 to |packs|
      invariant |rollups| == i
      invariant forall k | 0 <= k < i :: IsRollup(packs[k], backlogDir, notes, rollups[k])
    {
      assert packs[i] in packs;
      ShapesLieBelow(located, backlogDir, le, packs[i]);
      var rollup := RollUpPack(packs[i], backlogDir, byPack, notes);
      rollups := rollups + [rollup];
    }
    var standalone := FilterBy(notes, InClass(StandaloneNote));
    var ledgers := FilterBy(notes, InClass(Ledger));
    var byRecordClass := CountByRecordClass(notes);
    var totals := CountBy(notes);
    catalog := Catalog(notes, rollups, standalone, ledgers, byRecordClass, totals);
    assert IsCatalog(files, backlogDir, le, packs, catalog);
  }

  // ---- The catalog does not depend on the order of the files ----

  lemma RollupIsUnique(shape: PackShape, backlogDir: string, notes: seq<ClassifiedNote>, a: PackRollup, b: PackRollup)
    requires IsRollup(shape, backlogDir, notes, a) && IsRollup(shape, backlogDir, notes, b)
    ensures a == b
  {
    assert a.name == (backlogDir + "/" + a.name)[|backlogDir + "/"|..];
    assert b.name == (backlogDir + "/" + b.name)[|backlogDir + "/"|..];
  }

  lemma ClassCountsAreUnique(notes: seq<ClassifiedNote>, a: map<RecordClass, Counts>, b: map<RecordClass, Counts>)
    requires CountedByClass(notes, a) && CountedByClass(notes, b)
    ensures a == b
  {
  }

  lemma CatalogIgnoresFileOrder(files: seq<Note>, files': seq<Note>, backlogDir: string, le: Order<string>,
                                shapes: seq<PackShape>, shapes': seq<PackShape>, catalog: Catalog, catalog': Catalog)
    requires TotalOrder(le) && multiset(files) == multiset(files') && DistinctKeys(PathOf, files)
    requires IsCatalog(files, backlogDir, le, shapes, catalog) && IsCatalog(files', backlogDir, le, shapes', catalog')
    ensures catalog == catalog'
  {
    hide TotalOrder, ArePacks, IsRollup, CountedByClass, Located, Classified;
    SortIgnoresOrder(le, PathOf, files, files');
    PacksAreUnique(Located(Sort(le, PathOf, files), backlogDir), backlogDir, le, shapes, shapes');
    forall i | 0 <= i < |shapes| ensures catalog.packs[i] == catalog'.packs[i] {
      RollupIsUnique(shapes[i], backlogDir, catalog.notes, catalog.packs[i], catalog'.packs[i]);
    }
    ClassCountsAreUnique(catalog.notes, catalog.byRecordClass, catalog'.byRecordClass);
  }

  // ---- Conservation ----

  /** Every note is in exactly one state. */
  lemma {:induction false} StatesAddUp(notes: seq<ClassifiedNote>, counts: Counts)
    requires Counted(notes, counts)
    ensures Total(counts) == |notes|
  {
    if notes != [] {
      var before, last := notes[..|notes| - 1], notes[|notes| - 1];
      assert notes == before + [last];
      SelectStep(before, last, InState(Actionable));
      SelectStep(before, last, InState(Terminal));
      SelectStep(before, last, InState(Unknown));
      StatesAddUp(before,
                  Counts(StateCount(before, Actionable), StateCount(before, Terminal), StateCount(before, Unknown)));
    }
  }

  lemma NoneOfClass(recordClass: RecordClass)
    ensures OfClass([], recordClass) == []
  {
  }

  lemma ClassStep(before: seq<ClassifiedNote>, last: ClassifiedNote, recordClass: RecordClass, state: State)
    ensures StateCount(OfClass(before + [last], recordClass), state) ==
            StateCount(OfClass(before, recordClass), state) +
            if last.recordClass == recordClass && last.lifecycle == state then 1 else 0
  {
  }

  /** Every note of a given state is in exactly one class. */
  lemma {:induction false} ClassesAddUp(notes: seq<ClassifiedNote>, state: State)
    ensures StateCount(notes, state) ==
            StateCount(OfClass(notes, PackIndex), state) + StateCount(OfClass(notes, Leaf), state) +
            StateCount(OfClass(notes, Ledger), state) + StateCount(OfClass(notes, StandaloneNote), state) +
            StateCount(OfClass(notes, WorkingArtifact), state)
  {
    hide OfClass;
    if notes == [] {
      NoneOfClass(PackIndex);
      NoneOfClass(Leaf);
      NoneOfClass(Ledger);
      NoneOfClass(StandaloneNote);
      NoneOfClass(WorkingArtifact);
    } else {
      var before, last := notes[..|notes| - 1], notes[|notes| - 1];
      assert notes == before + [last];
      ClassesAddUp(before, state);
      SelectStep(before, last, InState(state));
      ClassStep(before, last, PackIndex, state);
      ClassStep(before, last, Leaf, state);
      ClassStep(before, last, Ledger, state);
      ClassStep(before, last, StandaloneNote, state);
      ClassStep(before, last, WorkingArtifact, state);
    }
  }

  /** The counts by class sum to the totals, and the totals to the number of notes. */
  lemma CountsAreConserved(notes: seq<ClassifiedNote>, byClass: map<RecordClass, Counts>, totals: Counts)
    requires CountedByClass(notes, byClass) && Counted(notes, totals)
    ensures forall recordClass: RecordClass :: recordClass in byClass
    ensures totals == Sum(byClass[PackIndex], Sum(byClass[Leaf], Sum(byClass[Ledger],
                      Sum(byClass[StandaloneNote], byClass[WorkingArtifact]))))
    ensures Total(totals) == |notes|
  {
    hide OfClass, StateCount;
    StatesAddUp(notes, totals);
    ClassesAddUp(notes, Actionable);
    ClassesAddUp(notes, Terminal);
    ClassesAddUp(notes, Unknown);
    assert Counted(OfClass(notes, PackIndex), byClass[PackIndex]);
    assert Counted(OfClass(notes, Leaf), byClass[Leaf]);
    assert Counted(OfClass(notes, Ledger), byClass[Ledger]);
    assert Counted(OfClass(notes, StandaloneNote), byClass[StandaloneNote]);
    assert Counted(OfClass(notes, WorkingArtifact), byClass[WorkingArtifact]);
  }

  /** A rollup's members and working files are all the notes its directory owns, each member in one state. */
  lemma RollupIsConserved(shape: PackShape, backlogDir: string, notes: seq<ClassifiedNote>, rollup: PackRollup)
    requires IsRollup(shape, backlogDir, notes, rollup)
    ensures Total(rollup.counts) == rollup.total &&
            rollup.total + rollup.workingArtifacts == |OwnedBy(notes, shape.dir)|
  {
    StatesAddUp(Select(OwnedBy(notes, shape.dir), IsMember()), rollup.counts);
  }

  // ---- Every note is in a rollup, or stands alone ----

  function SumOfRollups(packs: seq<PackRollup>): nat {
    if packs == [] then 0
    else SumOfRollups(packs[..|packs| - 1]) + packs[|packs| - 1].total + packs[|packs| - 1].workingArtifacts
  }

  function SumOwned(notes: seq<ClassifiedNote>, shapes: seq<PackShape>): nat {
    if shapes == [] then 0 else SumOwned(notes, shapes[..|shapes| - 1]) + |OwnedBy(notes, shapes[|shapes| - 1].dir)|
  }

  /** The notes whose directory has no shape, because nothing lies directly in it. */
  ghost predicate IsStray(shapes: seq<PackShape>, note: ClassifiedNote) {
    note.pack.Some? && !HasDir(shapes, note.pack.value)
  }

  ghost function Strays(notes: seq<ClassifiedNote>, shapes: seq<PackShape>): (strays: seq<ClassifiedNote>)
    ensures forall note :: note in strays <==> note in notes && IsStray(shapes, note)
  {
    if notes == [] then []
    else
      var before, last := Strays(notes[..|notes| - 1], shapes), notes[|notes| - 1];
      assert notes == notes[..|notes| - 1] + [last];
      if IsStray(shapes, last) then before + [last] else before
  }

  lemma {:induction false} RollupsSum(shapes: seq<PackShape>, backlogDir: string, notes: seq<ClassifiedNote>,
                                      packs: seq<PackRollup>)
    requires |packs| == |shapes| && forall i | 0 <= i < |shapes| :: IsRollup(shapes[i], backlogDir, notes, packs[i])
    ensures SumOfRollups(packs) == SumOwned(notes, shapes)
  {
    if shapes != [] {
      hide OwnedBy, Select;
      RollupsSum(shapes[..|shapes| - 1], backlogDir, notes, packs[..|packs| - 1]);
      assert IsRollup(shapes[|shapes| - 1], backlogDir, notes, packs[|packs| - 1]);
    }
  }

  lemma LastDirIsNew(shapes: seq<PackShape>)
    requires shapes != [] && DistinctKeys(DirOf, shapes)
    ensures !HasDir(shapes[..|shapes| - 1], shapes[|shapes| - 1].dir)
  {
  }

  lemma {:induction false} OwnedStep(notes: seq<ClassifiedNote>, note: ClassifiedNote, shapes: seq<PackShape>)
    requires DistinctKeys(DirOf, shapes)
    ensures SumOwned(notes + [note], shapes) ==
            SumOwned(notes, shapes) + if note.pack.Some? && HasDir(shapes, note.pack.value) then 1 else 0
  {
    if shapes != [] {
      var before, last := shapes[..|shapes| - 1], shapes[|shapes| - 1];
      assert shapes == before + [last];
      OwnedStep(notes, note, before);
      SelectStep(notes, note, InPack(last.dir));
      if note.pack.Some? {
        assert HasDir(shapes, note.pack.value) <==> HasDir(before, note.pack.value) || last.dir == note.pack.value;
        LastDirIsNew(shapes);
      }
    }
  }

  lemma {:induction false} OwnedPlusStrays(notes: seq<ClassifiedNote>, shapes: seq<PackShape>)
    requires DistinctKeys(DirOf, shapes)
    requires forall note | note in notes :: note.recordClass.StandaloneNote? <==> note.pack.None?
    ensures SumOwned(notes, shapes) + |OfClass(notes, StandaloneNote)| + |Strays(notes, shapes)| == |notes|
  {
    if notes == [] {
      NothingOwned(shapes);
    } else {
      var before, last := notes[..|notes| - 1], notes[|notes| - 1];
      assert notes == before + [last] && last in notes;
      OwnedPlusStrays(before, shapes);
      OwnedStep(before, last, shapes);
      SelectStep(before, last, InClass(StandaloneNote));
    }
  }

  lemma {:induction false} NothingOwned(shapes: seq<PackShape>)
    ensures SumOwned([], shapes) == 0
  {
    if shapes != [] {
      NothingOwned(shapes[..|shapes| - 1]);
    }
  }

  /**
   The rollups and the standalone notes account for every note exactly when
   each pack directory that owns a note has an immediate member; notes found
   only deeper down belong to no rollup.
   */
  lemma AllAccountedExactlyWithoutStrays(files: seq<Note>, backlogDir: string, le: Order<string>,
                                         shapes: seq<PackShape>, catalog: Catalog)
    requires TotalOrder(le) && IsCatalog(files, backlogDir, le, shapes, catalog)
    ensures SumOfRollups(catalog.packs) + |catalog.standalone| == |catalog.notes| <==>
            forall note | note in catalog.notes && note.pack.Some? ::
              MembersOf(Located(Sort(le, PathOf, files), backlogDir), backlogDir, note.pack.value) != []
  {
    hide TotalOrder, IsRollup, CountedByClass, Counted, Located, MembersOf, IsIndexBase;
    var located := Located(Sort(le, PathOf, files), backlogDir);
    RollupsSum(shapes, backlogDir, catalog.notes, catalog.packs);
    OwnedPlusStrays(catalog.notes, shapes);
    forall dir ensures HasDir(shapes, dir) <==> MembersOf(located, backlogDir, dir) != [] {
      if HasDir(shapes, dir) {
        var shape :| shape in shapes && shape.dir == dir;
        assert IsShape(located, backlogDir, le, shape);
      }
    }
    var strays := Strays(catalog.notes, shapes);
    if strays != [] {
      assert strays[0] in strays;
      assert strays[0] in catalog.notes && IsStray(shapes, strays[0]);
    } else {
      forall note | note in catalog.notes && note.pack.Some?
        ensures MembersOf(located, backlogDir, note.pack.value) != []
      {
        assert note !in strays;
      }
    }
  }

  lemma {:induction false} OneSegment(name: string)
    requires '/' !in name
    ensures Segments(name) == [name]
  {
    if name != "" {
      assert forall c | c in name[1..] :: c in name;
      OneSegment(name[1..]);
      assert name == [name[0]] + name[1..];
    }
  }

  /** A file two levels below the backlog directory belongs to the first level, as no immediate member. */
  lemma DeeperFile(backlogDir: string, dir: string, sub: string, base: string)
    requires '/' !in dir && '/' !in sub && '/' !in base
    ensures LocateInBacklog(backlogDir + "/" + dir + "/" + sub + "/" + base, backlogDir) ==
            Some(Location(Some(backlogDir + "/" + dir), false))
  {
    var prefix, rest := backlogDir + "/", sub + ['/'] + base;
    var path := backlogDir + "/" + dir + "/" + sub + "/" + base;
    assert path == prefix + (dir + ['/'] + rest);
    assert path[|prefix|..] == dir + ['/'] + rest;
    Status.PiecesAppend(dir, '/', rest, IsSlash);
    Status.PiecesAppend(sub, '/', base, IsSlash);
    OneSegment(dir);
    OneSegment(sub);
    OneSegment(base);
  }

  /** A directory that owns only a deeper file: its note is in no rollup and does not stand alone. */
  lemma LoneWorkingFileIsLost(backlogDir: string, dir: string, sub: string, base: string, note: Note, le: Order<string>,
                              shapes: seq<PackShape>, catalog: Catalog)
    requires '/' !in dir && '/' !in sub && '/' !in base
    requires note.path == backlogDir + "/" + dir + "/" + sub + "/" + base
    requires TotalOrder(le) && IsCatalog([note], backlogDir, le, shapes, catalog)
    ensures |catalog.notes| == 1 && SumOfRollups(catalog.packs) + |catalog.standalone| == 0
  {
    hide TotalOrder, LocateInBacklog, IsCatalog;
    DeeperFile(backlogDir, dir, sub, base);
    LoneStray(note, backlogDir, le, shapes, catalog);
  }

  lemma LoneStray(note: Note, backlogDir: string, le: Order<string>, shapes: seq<PackShape>, catalog: Catalog)
    requires LocateInBacklog(note.path, backlogDir).Some?
    requires var location := LocateInBacklog(note.path, backlogDir).value;
             location.packDir.Some? && !location.immediateMember
    requires TotalOrder(le) && IsCatalog([note], backlogDir, le, shapes, catalog)
    ensures |catalog.notes| == 1 && SumOfRollups(catalog.packs) + |catalog.standalone| == 0
  {
    hide TotalOrder, LocateInBacklog, BaseName, IsLeafBase, IsIndexBase, ArePacks, IsRollup, CountedByClass, Counted,
         IndexBases, Located, Sort;
    LocatedAlone(note, backlogDir, le);
    NoShapes(note, backlogDir, le, shapes);
    assert catalog.packs == [];
    NotStandalone(catalog.notes[0]);
    assert catalog.notes == [catalog.notes[0]];
  }

  lemma LocatedAlone(note: Note, backlogDir: string, le: Order<string>)
    requires LocateInBacklog(note.path, backlogDir).Some?
    ensures Located(Sort(le, PathOf, [note]), backlogDir) == [note]
  {
    hide LocateInBacklog;
    assert [note][1..] == [] && Sort(le, PathOf, [note]) == [note];
    assert [note][..0] == [];
  }

  lemma NotStandalone(note: ClassifiedNote)
    requires !note.recordClass.StandaloneNote?
    ensures OfClass([note], StandaloneNote) == []
  {
    SelectNone([note], InClass(StandaloneNote));
  }

  lemma ShapesHaveMembers(notes: seq<Note>, backlogDir: string, le: Order<string>, shapes: seq<PackShape>)
    requires ArePacks(notes, backlogDir, le, shapes) && shapes != []
    ensures MembersOf(notes, backlogDir, shapes[0].dir) != []
  {
    assert IsShape(notes, backlogDir, le, shapes[0]);
  }

  lemma NoShapes(note: Note, backlogDir: string, le: Order<string>, shapes: seq<PackShape>)
    requires PackDirOf(note.path, backlogDir) == None && ArePacks([note], backlogDir, le, shapes)
    ensures shapes == []
  {
    hide PackDirOf, IsIndexBase, Sorted, DistinctKeys;
    forall dir ensures MembersOf([note], backlogDir, dir) == [] {
      assert [note][..0] == [];
    }
    if shapes != [] {
      ShapesHaveMembers([note], backlogDir, le, shapes);
    }
  }

  // ---- One index note per pack ----

  lemma {:induction false} IndexBasesMeaning(shapes: seq<PackShape>)
    requires DistinctKeys(DirOf, shapes)
    ensures forall shape | shape in shapes ::
              if shape.indexBase.Some? then
                shape.dir in IndexBases(shapes) && IndexBases(shapes)[shape.dir] == shape.indexBase.value
              else shape.dir !in IndexBases(shapes)
    ensures forall dir | dir in IndexBases(shapes) :: HasDir(shapes, dir)
  {
    if shapes != [] {
      var before, last := shapes[..|shapes| - 1], shapes[|shapes| - 1];
      assert shapes == before + [last];
      IndexBasesMeaning(before);
      forall shape | shape in before ensures shape.dir != last.dir {
        var i :| 0 <= i < |before| && before[i] == shape;
        assert DirOf(shapes[i]) != DirOf(shapes[|shapes| - 1]);
      }
      forall dir | dir in IndexBases(shapes) ensures HasDir(shapes, dir) {
        if dir in IndexBases(before) {
          var shape :| shape in before && shape.dir == dir;
          assert shape in shapes;
        }
      }
    }
  }

  function IsIndexOf(dir: string): ClassifiedNote -> bool {
    (note: ClassifiedNote) => note.pack == Some(dir) && note.recordClass.PackIndex?
  }

  lemma {:induction false} SelectNone(notes: seq<ClassifiedNote>, chosen: ClassifiedNote -> bool)
    requires forall j | 0 <= j < |notes| :: !chosen(notes[j])
    ensures Select(notes, chosen) == []
  {
    if notes != [] {
      SelectNone(notes[..|notes| - 1], chosen);
    }
  }

  lemma {:induction false} SelectOne(notes: seq<ClassifiedNote>, chosen: ClassifiedNote -> bool, i: nat)
    requires i < |notes| && chosen(notes[i]) && forall j | 0 <= j < |notes| && j != i :: !chosen(notes[j])
    ensures Select(notes, chosen) == [notes[i]]
  {
    var before, last := notes[..|notes| - 1], notes[|notes| - 1];
    if i < |notes| - 1 {
      SelectOne(before, chosen, i);
    } else {
      SelectNone(before, chosen);
    }
  }

  lemma {:induction false} LocatedStaysDistinct(files: seq<Note>, backlogDir: string)
    requires DistinctKeys(PathOf, files)
    ensures DistinctKeys(PathOf, Located(files, backlogDir))
  {
    if files != [] {
      var before, last := files[..|files| - 1], files[|files| - 1];
      LocatedStaysDistinct(before, backlogDir);
      var located := Located(before, backlogDir);
      forall i | 0 <= i < |located| ensures PathOf(located[i]) != PathOf(last) {
        assert located[i] in located;
        var j :| 0 <= j < |before| && before[j] == located[i];
        assert PathOf(files[j]) != PathOf(files[|files| - 1]);
      }
    }
  }

  /** The one note of a pack that is its index; a pack without an index has none. */
  lemma OneIndexNote(files: seq<Note>, backlogDir: string, le: Order<string>, shapes: seq<PackShape>, catalog: Catalog,
                     shape: PackShape)
    requires TotalOrder(le) && DistinctKeys(PathOf, files)
    requires IsCatalog(files, backlogDir, le, shapes, catalog) && shape in shapes
    ensures |Select(catalog.notes, IsIndexOf(shape.dir))| == if shape.indexBase.Some? then 1 else 0
    ensures shape.indexBase.Some? ==>
              Select(catalog.notes, IsIndexOf(shape.dir))[0].path == shape.dir + "/" + shape.indexBase.value
  {
    hide TotalOrder, Located, IsRollup, CountedByClass, Counted, IsIndexBase, PackDirOf, LocateInBacklog, BaseName;
    var located := Located(Sort(le, PathOf, files), backlogDir);
    var bases := IndexBases(shapes);
    IndexBasesMeaning(shapes);
    forall i | 0 <= i < |located| && IsIndexOf(shape.dir)(catalog.notes[i])
      ensures shape.indexBase.Some? && located[i].path == shape.dir + "/" + shape.indexBase.value
    {
      assert located[i] in located;
      IndexNotePath(located[i], backlogDir, bases);
    }
    if shape.indexBase.None? {
      SelectNone(catalog.notes, IsIndexOf(shape.dir));
    } else {
      var i := IndexNote(located, backlogDir, le, shape, bases);
      SortSorts(le, PathOf, files);
      SameKeysDistinct(PathOf, files, Sort(le, PathOf, files));
      LocatedStaysDistinct(Sort(le, PathOf, files), backlogDir);
      forall j | 0 <= j < |located| && j != i ensures !IsIndexOf(shape.dir)(catalog.notes[j]) {
        assert PathOf(located[j]) != PathOf(located[i]);
      }
      SelectOne(catalog.notes, IsIndexOf(shape.dir), i);
    }
  }

  lemma IndexNotePath(note: Note, backlogDir: string, bases: map<string, string>)
    requires LocateInBacklog(note.path, backlogDir).Some?
    ensures var classified := ClassifyNote(note, LocateInBacklog(note.path, backlogDir).value, bases);
            classified.recordClass.PackIndex? ==>
              classified.pack.Some? && classified.pack.value in bases &&
              note.path == classified.pack.value + "/" + bases[classified.pack.value]
  {
    hide LocateInBacklog, BaseName, IsLeafBase;
    MemberPath(note.path, backlogDir);
  }

  lemma IndexNote(located: seq<Note>, backlogDir: string, le: Order<string>, shape: PackShape,
                  bases: map<string, string>)
      returns (i: nat)
    requires IsShape(located, backlogDir, le, shape) && shape.indexBase.Some?
    requires shape.dir in bases && bases[shape.dir] == shape.indexBase.value
    ensures i < |located| && LocateInBacklog(located[i].path, backlogDir).Some?
    ensures IsIndexOf(shape.dir)(ClassifyNote(located[i], LocateInBacklog(located[i].path, backlogDir).value, bases))
    ensures located[i].path == shape.dir + "/" + shape.indexBase.value
  {
    hide LocateInBacklog, BaseName, IsIndexBase, IsLeafBase, MembersOf;
    IndexIsMember(le, shape.members, shape.indexBase, shape.indexIsCanonical);
    var member :| member in shape.members && BaseName(member.path) == shape.indexBase.value;
    assert member in located && PackDirOf(member.path, backlogDir) == Some(shape.dir);
    i :| 0 <= i < |located| && located[i] == member;
    MemberPath(member.path, backlogDir);
  }
}
