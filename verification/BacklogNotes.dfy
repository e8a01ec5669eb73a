/**
 What the catalog says of each note and of each pack, in terms of the notes'
 own paths and statuses.
 */
module BacklogNotes {
  import opened BacklogCatalog
  import opened Sequences
  import opened Sorting
  import opened Text
  import opened Wrappers
  import StatusWords

  // ---- Where a file lies ----

  predicate IsName(s: string) {
    '/' !in s
  }

  /** Directly in the backlog directory. */
  ghost predicate InRoot(path: string, backlogDir: string) {
    exists base :: IsName(base) && path == backlogDir + "/" + base
  }

  /** A directory directly in the backlog directory. */
  ghost predicate IsPackDir(dir: string, backlogDir: string) {
    exists name :: IsName(name) && dir == backlogDir + "/" + name
  }

  ghost predicate IsUnder(path: string, backlogDir: string, dir: string, rest: string) {
    IsPackDir(dir, backlogDir) && path == dir + "/" + rest
  }

  /** Directly in such a directory. */
  ghost predicate InPackDir(path: string, backlogDir: string, dir: string, base: string) {
    IsUnder(path, backlogDir, dir, base) && IsName(base)
  }

  /** Somewhere below such a directory, but not directly in it. */
  ghost predicate DeepIn(path: string, backlogDir: string, dir: string) {
    exists rest :: IsUnder(path, backlogDir, dir, rest) && !IsName(rest)
  }

  lemma {:induction false} SegmentsSplit(path: string)
    ensures |Segments(path)| >= 1 && IsName(Segments(path)[0]) && Segments(path)[0] <= path
    ensures |Segments(path)| == 1 <==> IsName(path)
    ensures |Segments(path)| >= 2 ==>
              var name := Segments(path)[0];
              |name| < |path| && path[|name|] == '/' && Segments(path[|name| + 1..]) == Segments(path)[1..] &&
              path == name + "/" + path[|name| + 1..]
  {
    if path != "" && path[0] != '/' {
      SegmentsSplit(path[1..]);
      assert path == [path[0]] + path[1..];
      var name := Segments(path[1..])[0];
      assert Segments(path)[0] == [path[0]] + name;
      if |Segments(path)| >= 2 {
        assert path[|name| + 1 + 1..] == path[1..][|name| + 1..];
      }
    } else if path != "" {
      assert Segments(path) == [""] + Segments(path[1..]);
      assert '/' in path;
    }
  }

  /** Joining a name and the rest by a slash is unambiguous. */
  lemma {:induction false} OneSplit(name: string, rest: string, name': string, rest': string)
    requires IsName(name) && IsName(name') && name + "/" + rest == name' + "/" + rest'
    ensures name == name' && rest == rest'
  {
    FirstSlash(name, rest);
    FirstSlash(name', rest');
    assert |name| == |name'|;
  }

  lemma {:induction false} FirstSlash(name: string, rest: string)
    requires IsName(name)
    ensures var whole := name + "/" + rest;
            whole[|name|] == '/' && (forall k | 0 <= k < |name| :: whole[k] != '/') &&
            whole[..|name|] == name && whole[|name| + 1..] == rest
  {
    assert forall k | 0 <= k < |name| :: (name + "/" + rest)[k] == name[k] && name[k] in name;
  }

  /** The three places below the backlog directory. */
  lemma {:induction false} LocationMeans(path: string, backlogDir: string)
    ensures var location := LocateInBacklog(path, backlogDir);
            (location.None? <==> !(backlogDir + "/" <= path)) &&
            (location.Some? ==>
               (location.value.packDir.None? <==> InRoot(path, backlogDir)) &&
               forall dir ::
                 ((location.value == Location(Some(dir), true)) <==>
                   exists base :: InPackDir(path, backlogDir, dir, base)) &&
                 ((location.value == Location(Some(dir), false)) <==> DeepIn(path, backlogDir, dir)))
  {
    var prefix := backlogDir + "/";
    if prefix <= path {
      var rest := path[|prefix|..];
      assert path == prefix + rest;
      RestMeans(rest);
      hide Segments;
      var location := LocateInBacklog(path, backlogDir).value;
      if IsName(rest) {
        assert path == backlogDir + "/" + rest;
      }
      forall base | IsName(base) && path == backlogDir + "/" + base ensures rest == base {
        assert rest == (backlogDir + "/" + base)[|prefix|..];
      }
      forall dir
        ensures location == Location(Some(dir), true) <==> exists base :: InPackDir(path, backlogDir, dir, base)
        ensures location == Location(Some(dir), false) <==> DeepIn(path, backlogDir, dir)
      {
        PackMeans(path, backlogDir, rest, dir);
      }
    }
  }

  lemma {:induction false} RestMeans(rest: string)
    ensures |Segments(rest)| >= 1 && (|Segments(rest)| == 1 <==> IsName(rest))
    ensures |Segments(rest)| >= 2 ==>
              var name := Segments(rest)[0];
              IsName(name) && |name| < |rest| && rest == name + "/" + rest[|name| + 1..] &&
              (|Segments(rest)| == 2 <==> IsName(rest[|name| + 1..]))
  {
    SegmentsSplit(rest);
    if |Segments(rest)| >= 2 {
      SegmentsSplit(rest[|Segments(rest)[0]| + 1..]);
    }
  }

  ghost predicate SplitsAs(rest: string, name: string, tail: string) {
    IsName(name) && rest == name + "/" + tail
  }

  lemma {:induction false} UnderPack(path: string, backlogDir: string, rest: string, dir: string, tail: string)
    requires path == backlogDir + "/" + rest
    ensures IsUnder(path, backlogDir, dir, tail) <==>
              exists name :: dir == backlogDir + "/" + name && SplitsAs(rest, name, tail)
  {
    if IsUnder(path, backlogDir, dir, tail) {
      var name :| IsName(name) && dir == backlogDir + "/" + name;
      assert dir + "/" + tail == backlogDir + "/" + (name + "/" + tail);
      SamePrefix(backlogDir + "/", rest, name + "/" + tail);
      assert SplitsAs(rest, name, tail);
    }
    if name :| dir == backlogDir + "/" + name && SplitsAs(rest, name, tail) {
      assert backlogDir + "/" + rest == dir + "/" + tail;
    }
  }

  lemma {:induction false} SamePrefix(prefix: string, a: string, b: string)
    requires prefix + a == prefix + b
    ensures a == b
  {
    assert a == (prefix + a)[|prefix|..] && b == (prefix + b)[|prefix|..];
  }

  /** A rest with a slash splits in one way. */
  lemma {:induction false} SplitMeans(rest: string, name: string, tail: string)
    ensures SplitsAs(rest, name, tail) <==>
              |Segments(rest)| >= 2 && name == Segments(rest)[0] && rest == name + "/" + tail
  {
    RestMeans(rest);
    if SplitsAs(rest, name, tail) {
      assert rest[|name|] == '/' && rest[|name|] in rest;
      OneSplit(name, tail, Segments(rest)[0], rest[|Segments(rest)[0]| + 1..]);
    }
  }

  lemma {:induction false} PackMeans(path: string, backlogDir: string, rest: string, dir: string)
    requires path == backlogDir + "/" + rest && LocateInBacklog(path, backlogDir).Some?
    ensures var location := LocateInBacklog(path, backlogDir).value;
            (location == Location(Some(dir), true) <==> exists base :: InPackDir(path, backlogDir, dir, base)) &&
            (location == Location(Some(dir), false) <==> DeepIn(path, backlogDir, dir))
  {
    var prefix := backlogDir + "/";
    assert path[|prefix|..] == rest;
    RestMeans(rest);
    hide Segments, SplitsAs, IsUnder;
    forall tail ensures IsUnder(path, backlogDir, dir, tail) <==>
        |Segments(rest)| >= 2 && dir == backlogDir + "/" + Segments(rest)[0] && rest == Segments(rest)[0] + "/" + tail
    {
      UnderPack(path, backlogDir, rest, dir, tail);
      if name :| dir == backlogDir + "/" + name && SplitsAs(rest, name, tail) {
        SplitMeans(rest, name, tail);
      }
      if |Segments(rest)| >= 2 {
        SplitMeans(rest, Segments(rest)[0], tail);
      }
    }
    if |Segments(rest)| >= 2 {
      var name := Segments(rest)[0];
      var tail := rest[|name| + 1..];
      forall other | rest == name + "/" + other ensures other == tail {
        SamePrefix(name + "/", tail, other);
      }
      PackByTail(path, backlogDir, rest, dir, tail);
    }
  }

  lemma {:induction false} PackByTail(path: string, backlogDir: string, rest: string, dir: string, tail: string)
    requires path == backlogDir + "/" + rest && LocateInBacklog(path, backlogDir).Some?
    requires path[|backlogDir + "/"|..] == rest && |Segments(rest)| >= 2
    requires |Segments(rest)| == 2 <==> IsName(tail)
    requires forall other :: IsUnder(path, backlogDir, dir, other) <==>
               (dir == backlogDir + "/" + Segments(rest)[0] && other == tail)
    ensures var location := LocateInBacklog(path, backlogDir).value;
            (location == Location(Some(dir), true) <==> exists base :: InPackDir(path, backlogDir, dir, base)) &&
            (location == Location(Some(dir), false) <==> DeepIn(path, backlogDir, dir))
  {
    hide Segments, IsUnder, IsName;
    var location := LocateInBacklog(path, backlogDir).value;
    assert location == Location(Some(backlogDir + "/" + Segments(rest)[0]), |Segments(rest)| == 2);
    if dir == backlogDir + "/" + Segments(rest)[0] {
      assert IsUnder(path, backlogDir, dir, tail);
      assert InPackDir(path, backlogDir, dir, tail) <==> IsName(tail);
      if DeepIn(path, backlogDir, dir) {
        var other :| IsUnder(path, backlogDir, dir, other) && !IsName(other);
      }
    } else {
      assert location.packDir != Some(dir);
      forall other ensures !IsUnder(path, backlogDir, dir, other) {
      }
    }
  }

  // ---- What a note says of itself ----

  /** Digits, at most one letter, a dash, something, and `.md`, in either case. */
  predicate IsNumberedName(base: string, digits: nat, dash: nat) {
    0 < digits <= dash <= digits + 1 && dash < |base| &&
    (forall k | 0 <= k < digits :: '0' <= base[k] <= '9') && (dash > digits ==> IsLetter(base[digits])) &&
    TailAt(base, dash)
  }

  /** From here on a dash, something on one line, and `.md`. */
  predicate TailAt(base: string, dash: nat) {
    dash + 4 < |base| && base[dash] == '-' && base[|base| - 3] == '.' && base[|base| - 2] in "mM" &&
    base[|base| - 1] in "dD" && forall k | dash < k < |base| :: base[k] !in "\n\r\U{2028}\U{2029}"
  }

  predicate IsLetter(c: char) {
    'a' <= c <= 'z' || 'A' <= c <= 'Z'
  }

  ghost predicate IsLeafName(base: string) {
    exists digits: nat, dash: nat :: IsNumberedName(base, digits, dash)
  }

  lemma {:induction false} DigitsLead(s: string) returns (n: nat)
    ensures n <= |s| && AfterDigits(s) == s[n..] && (forall k | 0 <= k < n :: IsDigit(s[k])) &&
            (n < |s| ==> !IsDigit(s[n]))
  {
    if s != "" && IsDigit(s[0]) {
      var m := DigitsLead(s[1..]);
      n := m + 1;
      assert s[1..][m..] == s[n..];
      forall k | 0 <= k < n ensures IsDigit(s[k]) {
        assert k > 0 ==> s[k] == s[1..][k - 1];
      }
    } else {
      n := 0;
    }
  }

  lemma {:induction false} LeafMeans(base: string)
    ensures IsLeafBase(base) <==> IsLeafName(base)
  {
    var n := DigitsLead(base);
    var rest := base[n..];
    forall digits: nat, dash: nat | IsNumberedName(base, digits, dash) ensures digits == n {
      assert !IsDigit(base[digits]);
    }
    if |rest| > 0 {
      var dash := if IsLetter(rest[0]) then n + 1 else n;
      assert Lower(rest)[0] == LowerChar(rest[0]);
      LeafTail(base, n, dash);
      forall digits: nat, dash': nat | IsNumberedName(base, digits, dash') ensures dash' == dash {
      }
    }
  }

  /** A dash, something, and `.md`. */
  predicate IsTail(name: string) {
    |name| > 4 && name[0] == '-' && name[|name| - 3..] == ".md" && forall c | c in name :: !IsLineBreak(c)
  }

  function NameOfLeaf(rest: string): string
    requires rest != ""
  {
    if 'a' <= rest[0] <= 'z' then rest[1..] else rest
  }

  lemma {:induction false} LeafByTail(base: string)
    requires base != "" && AfterDigits(base) != ""
    ensures IsLeafBase(base) <==> IsDigit(base[0]) && IsTail(NameOfLeaf(Lower(AfterDigits(base))))
  {
    hide AfterDigits, Lower, IsDigit, IsLineBreak;
  }

  lemma {:induction false} LeafTail(base: string, n: nat, dash: nat)
    requires n < |base| && AfterDigits(base) == base[n..] && (forall k | 0 <= k < n :: IsDigit(base[k]))
    requires !IsDigit(base[n]) && dash == if IsLetter(base[n]) then n + 1 else n
    ensures IsLeafBase(base) <==> IsNumberedName(base, n, dash)
  {
    hide AfterDigits, IsTail, IsLeafBase, Lower, TailAt;
    LeafByTail(base);
    var name := NameOfLeaf(Lower(base[n..]));
    LeafLetter(base, n, dash, name);
    TailMeans(base, dash, name);
    if TailAt(base, dash) {
      TailInside(base, dash);
    }
    if n > 0 {
      assert IsDigit(base[0]);
    }
  }

  lemma {:induction false} TailInside(base: string, dash: nat)
    requires TailAt(base, dash)
    ensures dash < |base|
  {
  }

  lemma {:induction false} LeafLetter(base: string, n: nat, dash: nat, name: string)
    requires n < |base| && dash == (if IsLetter(base[n]) then n + 1 else n) && name == NameOfLeaf(Lower(base[n..]))
    ensures |name| == |base| - dash && forall k | 0 <= k < |name| :: name[k] == LowerChar(base[dash + k])
  {
    hide Lower;
    var rest := Lower(base[n..]);
    assert rest[0] == LowerChar(base[n]);
  }

  lemma {:induction false} TailMeans(base: string, dash: nat, name: string)
    requires dash <= |base| && |name| == |base| - dash
    requires forall k | 0 <= k < |name| :: name[k] == LowerChar(base[dash + k])
    ensures IsTail(name) <==> TailAt(base, dash)
  {
    if |name| > 4 {
      assert name[|name| - 3..] == [name[|name| - 3], name[|name| - 2], name[|name| - 1]];
      if name[0] == '-' {
        NoBreaks(base, dash, name);
      }
    }
  }

  lemma {:induction false} NoBreaks(base: string, dash: nat, name: string)
    requires dash < |base| && |name| == |base| - dash && name[0] == '-'
    requires forall k | 0 <= k < |name| :: name[k] == LowerChar(base[dash + k])
    ensures (forall c | c in name :: !IsLineBreak(c)) <==>
            forall k | dash < k < |base| :: base[k] !in "\n\r\U{2028}\U{2029}"
  {
    forall k | dash < k < |base|
      ensures name[k - dash] in name && (IsLineBreak(name[k - dash]) <==> IsLineBreak(base[k]))
    {
    }
  }

  /** No status, a blank one, one that some word closes, or any other. */
  ghost predicate IsState(statusValue: Option<string>, state: State) {
    var declares := statusValue.Some? && exists c | c in statusValue.value :: !IsBlank(c);
    (state.Unknown? <==> !declares) &&
    (state.Terminal? <==>
      declares && exists i: nat, j: nat :: StatusWords.ClosesAt(Lower(statusValue.value), i, j))
  }

  lemma {:induction false} StateMeans(statusValue: Option<string>)
    ensures IsState(statusValue, StateOf(statusValue))
  {
    if statusValue.Some? {
      StatusWords.ClosedExactly(statusValue.value);
    }
  }

  // ---- The index of a directory ----

  /** What follows the last slash. */
  ghost predicate IsBaseOf(path: string, base: string) {
    IsName(base) && (path == base || exists dir :: path == dir + "/" + base)
  }

  lemma {:induction false} BaseMeans(path: string)
    ensures IsBaseOf(path, BaseName(path))
    ensures forall base | IsBaseOf(path, base) :: base == BaseName(path)
  {
    BaseIsSuffix(path);
    forall base | IsBaseOf(path, base) ensures base == BaseName(path) {
      if path == base {
        WholeIsBase(path);
      } else {
        var dir :| path == dir + "/" + base;
        BaseNameOfJoin(dir, base);
      }
    }
  }

  lemma {:induction false} WholeIsBase(path: string)
    requires IsName(path)
    ensures BaseName(path) == path
  {
    if path != "" {
      assert path[|path| - 1] in path && forall c | c in path[..|path| - 1] :: c in path;
      WholeIsBase(path[..|path| - 1]);
    }
  }

  lemma {:induction false} BaseIsSuffix(path: string)
    ensures IsBaseOf(path, BaseName(path))
  {
    if path != "" {
      var front, last := path[..|path| - 1], path[|path| - 1];
      assert path == front + [last];
      if last == '/' {
        assert path == front + "/" + "";
      } else {
        BaseIsSuffix(front);
        var base := BaseName(front);
        assert BaseName(path) == base + [last];
        if front == base {
          assert path == base + [last];
        } else {
          var dir :| front == dir + "/" + base;
          assert path == dir + "/" + (base + [last]);
        }
      }
    }
  }

  /** A file that is, or reads like, an index of the notes around it. */
  predicate ReadsLikeIndex(note: Note) {
    note.selfDeclaresIndex || note.indexNameRank.Some?
  }

  /** Declared before guessed; then the name of lower rank; then the earlier name. */
  predicate ComesBefore(le: Order<string>, a: Note, aBase: string, b: Note, bBase: string) {
    if a.selfDeclaresIndex && !b.selfDeclaresIndex then true
    else if !a.selfDeclaresIndex && b.selfDeclaresIndex then false
    else
      match (a.indexNameRank, b.indexNameRank)
      case (None, None) => le(aBase, bBase)
      case (Some(_), None) => true
      case (None, Some(_)) => false
      case (Some(x), Some(y)) => x < y || (x == y && le(aBase, bBase))
  }

  ghost predicate IsMemberOf(files: seq<Note>, backlogDir: string, dir: string, note: Note, base: string) {
    note in files && InPackDir(note.path, backlogDir, dir, base)
  }

  ghost predicate HasCanonicalIndex(files: seq<Note>, backlogDir: string, dir: string) {
    exists note :: IsMemberOf(files, backlogDir, dir, note, "00-index.md")
  }

  /** The file that goes before all others that read like an index. */
  ghost predicate IsFirstChoice(files: seq<Note>, backlogDir: string, le: Order<string>, dir: string, note: Note,
                                base: string) {
    IsMemberOf(files, backlogDir, dir, note, base) && ReadsLikeIndex(note) &&
    forall other, otherBase | IsMemberOf(files, backlogDir, dir, other, otherBase) && ReadsLikeIndex(other) ::
      ComesBefore(le, note, base, other, otherBase)
  }

  /** The name of the directory's index: the canonical one if there is such a file, else the first choice. */
  ghost predicate NamesIndex(files: seq<Note>, backlogDir: string, le: Order<string>, dir: string, base: string) {
    if HasCanonicalIndex(files, backlogDir, dir) then base == "00-index.md"
    else exists note :: IsFirstChoice(files, backlogDir, le, dir, note, base)
  }

  lemma {:induction false} MemberMeans(note: Note, backlogDir: string, dir: string)
    ensures PackDirOf(note.path, backlogDir) == Some(dir) <==>
              InPackDir(note.path, backlogDir, dir, BaseName(note.path))
    ensures forall base | InPackDir(note.path, backlogDir, dir, base) :: base == BaseName(note.path)
  {
    hide LocateInBacklog, BaseName;
    LocationMeans(note.path, backlogDir);
    forall base | InPackDir(note.path, backlogDir, dir, base) ensures base == BaseName(note.path) {
      BaseNameOfJoin(dir, base);
    }
    if InPackDir(note.path, backlogDir, dir, BaseName(note.path)) {
      InPackIsLocated(note.path, backlogDir, dir, BaseName(note.path));
    }
  }

  lemma {:induction false} InPackIsLocated(path: string, backlogDir: string, dir: string, rest: string)
    requires IsUnder(path, backlogDir, dir, rest)
    ensures backlogDir + "/" <= path && LocateInBacklog(path, backlogDir).Some?
  {
    hide Segments;
    var name :| IsName(name) && dir == backlogDir + "/" + name;
    assert path == backlogDir + "/" + (name + "/" + rest);
  }

  /** The members of the directory among the notes that the catalog lists. */
  ghost predicate ListsFiles(files: seq<Note>, backlogDir: string, located: seq<Note>) {
    forall note :: note in located <==> note in files && backlogDir + "/" <= note.path
  }

  lemma {:induction false} MembersMean(files: seq<Note>, backlogDir: string, located: seq<Note>, dir: string)
    requires ListsFiles(files, backlogDir, located)
    ensures forall note ::
              note in MembersOf(located, backlogDir, dir) <==>
              IsMemberOf(files, backlogDir, dir, note, BaseName(note.path))
    ensures forall note, base | IsMemberOf(files, backlogDir, dir, note, base) :: base == BaseName(note.path)
  {
    hide PackDirOf, BaseName;
    forall note: Note
      ensures PackDirOf(note.path, backlogDir) == Some(dir) <==>
              InPackDir(note.path, backlogDir, dir, BaseName(note.path))
      ensures forall base | InPackDir(note.path, backlogDir, dir, base) :: base == BaseName(note.path)
      ensures InPackDir(note.path, backlogDir, dir, BaseName(note.path)) ==> backlogDir + "/" <= note.path
    {
      MemberMeans(note, backlogDir, dir);
      if InPackDir(note.path, backlogDir, dir, BaseName(note.path)) {
        InPackIsLocated(note.path, backlogDir, dir, BaseName(note.path));
      }
    }
  }

  lemma {:induction false} OrderMeans(le: Order<string>, a: Note, b: Note)
    ensures AsGood(le, a, b) <==> ComesBefore(le, a, BaseName(a.path), b, BaseName(b.path))
    ensures IsIndexCandidate(a) <==> ReadsLikeIndex(a)
  {
    hide BaseName;
  }

  lemma {:induction false} BestMeans(files: seq<Note>, backlogDir: string, le: Order<string>, located: seq<Note>,
                                     dir: string, note: Note)
    requires ListsFiles(files, backlogDir, located)
    ensures IsBest(le, MembersOf(located, backlogDir, dir), note) <==>
            IsFirstChoice(files, backlogDir, le, dir, note, BaseName(note.path))
  {
    hide MembersOf, BaseName, AsGood, ComesBefore, IsIndexCandidate, ReadsLikeIndex, ListsFiles, IsMemberOf;
    var members := MembersOf(located, backlogDir, dir);
    MembersMean(files, backlogDir, located, dir);
    forall a: Note, b: Note
      ensures AsGood(le, a, b) <==> ComesBefore(le, a, BaseName(a.path), b, BaseName(b.path))
      ensures IsIndexCandidate(a) <==> ReadsLikeIndex(a)
    {
      OrderMeans(le, a, b);
    }
  }

  lemma {:induction false} IndexMeans(files: seq<Note>, backlogDir: string, le: Order<string>, located: seq<Note>,
                                      dir: string, base: Option<string>, canonical: bool)
    requires TotalOrder(le) && ListsFiles(files, backlogDir, located)
    requires IsIndexBase(le, MembersOf(located, backlogDir, dir), base, canonical)
    ensures canonical <==> HasCanonicalIndex(files, backlogDir, dir)
    ensures forall name :: base == Some(name) <==> NamesIndex(files, backlogDir, le, dir, name)
  {
    hide TotalOrder, MembersOf, BaseName, ListsFiles, IsMemberOf, IsBest, IsFirstChoice;
    var members := MembersOf(located, backlogDir, dir);
    MembersMean(files, backlogDir, located, dir);
    assert CANONICAL_INDEX_BASE == "00-index.md";
    assert canonical <==> HasCanonicalIndex(files, backlogDir, dir);
    forall name ensures base == Some(name) <==> NamesIndex(files, backlogDir, le, dir, name) {
      if !canonical {
        FirstMeans(files, backlogDir, le, located, dir, base, name);
      }
    }
  }

  lemma {:induction false} FirstMeans(files: seq<Note>, backlogDir: string, le: Order<string>, located: seq<Note>,
                                      dir: string, base: Option<string>, name: string)
    requires TotalOrder(le) && ListsFiles(files, backlogDir, located)
    requires IsIndexBase(le, MembersOf(located, backlogDir, dir), base, false)
    ensures base == Some(name) <==> exists note :: IsFirstChoice(files, backlogDir, le, dir, note, name)
  {
    hide MembersOf, BaseName, ListsFiles;
    var members := MembersOf(located, backlogDir, dir);
    if base == Some(name) {
      var best :| IsBest(le, members, best) && BaseName(best.path) == name;
      BestMeans(files, backlogDir, le, located, dir, best);
    }
    if note :| IsFirstChoice(files, backlogDir, le, dir, note, name) {
      MembersMean(files, backlogDir, located, dir);
      assert name == BaseName(note.path);
      BestMeans(files, backlogDir, le, located, dir, note);
      assert note in members && IsIndexCandidate(note);
      var best :| IsBest(le, members, best) && BaseName(best.path) == base.value;
      BestIsOne(le, members, note, best);
    }
  }

  lemma {:induction false} BestIsOne(le: Order<string>, members: seq<Note>, a: Note, b: Note)
    requires TotalOrder(le) && IsBest(le, members, a) && IsBest(le, members, b)
    ensures BaseName(a.path) == BaseName(b.path)
  {
    hide BaseName;
  }

  // ---- The catalog's notes ----

  /** The class of a file's note, by where the file lies and what it is called. */
  ghost predicate IsClassified(files: seq<Note>, backlogDir: string, le: Order<string>, path: string,
                               note: ClassifiedNote) {
    match note.pack
    case None => InRoot(path, backlogDir) && note.recordClass.StandaloneNote?
    case Some(dir) =>
      if note.recordClass.WorkingArtifact? then DeepIn(path, backlogDir, dir)
      else
        InPackDir(path, backlogDir, dir, note.base) &&
        note.recordClass == (if NamesIndex(files, backlogDir, le, dir, note.base) then PackIndex
                             else if IsLeafName(note.base) then Leaf
                             else Ledger)
  }

  ghost predicate IsEntry(files: seq<Note>, backlogDir: string, le: Order<string>, file: Note, note: ClassifiedNote) {
    file in files && backlogDir + "/" <= file.path && note.path == file.path && IsBaseOf(file.path, note.base) &&
    IsClassified(files, backlogDir, le, file.path, note) &&
    note.statusValue == file.statusValue && IsState(file.statusValue, note.lifecycle)
  }

  function PathOfEntry(note: ClassifiedNote): string {
    note.path
  }

  lemma {:induction false} CatalogListsFiles(files: seq<Note>, backlogDir: string, le: Order<string>)
    requires TotalOrder(le)
    ensures ListsFiles(files, backlogDir, Located(Sort(le, PathOf, files), backlogDir))
  {
    hide TotalOrder, Sort, Located;
    SortSorts(le, PathOf, files);
    SameMembers(Sort(le, PathOf, files), files);
    forall note: Note ensures LocateInBacklog(note.path, backlogDir).Some? <==> backlogDir + "/" <= note.path {
      LocationMeans(note.path, backlogDir);
    }
  }

  ghost predicate HasFile(files: seq<Note>, backlogDir: string, dir: string) {
    exists note, name :: IsMemberOf(files, backlogDir, dir, note, name)
  }

  ghost predicate IsIndexName(files: seq<Note>, backlogDir: string, le: Order<string>, dir: string, base: string) {
    HasFile(files, backlogDir, dir) && NamesIndex(files, backlogDir, le, dir, base)
  }

  /** The index chosen for the directory, if any, is the one that its files name. */
  ghost predicate AreIndexes(files: seq<Note>, backlogDir: string, le: Order<string>, bases: map<string, string>) {
    forall dir, base :: (dir in bases && bases[dir] == base) <==> IsIndexName(files, backlogDir, le, dir, base)
  }

  lemma {:induction false} IndexesMean(files: seq<Note>, backlogDir: string, le: Order<string>, located: seq<Note>,
                                       shapes: seq<PackShape>)
    requires TotalOrder(le) && ListsFiles(files, backlogDir, located) && ArePacks(located, backlogDir, le, shapes)
    ensures AreIndexes(files, backlogDir, le, IndexBases(shapes))
  {
    var bases := IndexBases(shapes);
    hide TotalOrder, ListsFiles, ArePacks, IndexBases, IsIndexName;
    forall dir: string, base: string
      ensures (dir in bases && bases[dir] == base) <==> IsIndexName(files, backlogDir, le, dir, base)
    {
      IndexOfDir(files, backlogDir, le, located, shapes, dir, base);
    }
  }

  lemma {:induction false} IndexOfDir(files: seq<Note>, backlogDir: string, le: Order<string>, located: seq<Note>,
                                      shapes: seq<PackShape>, dir: string, base: string)
    requires TotalOrder(le) && ListsFiles(files, backlogDir, located) && ArePacks(located, backlogDir, le, shapes)
    ensures var bases := IndexBases(shapes);
            (dir in bases && bases[dir] == base) <==> IsIndexName(files, backlogDir, le, dir, base)
  {
    hide TotalOrder, MembersOf, ListsFiles, IsIndexBase, NamesIndex, IndexBases, IsMemberOf, BaseName;
    IndexBasesMeaning(shapes);
    MembersMean(files, backlogDir, located, dir);
    var members := MembersOf(located, backlogDir, dir);
    if HasDir(shapes, dir) {
      var shape :| shape in shapes && shape.dir == dir;
      assert IsShape(located, backlogDir, le, shape);
      assert members[0] in members;
      assert IsMemberOf(files, backlogDir, dir, members[0], BaseName(members[0].path));
      IndexMeans(files, backlogDir, le, located, dir, shape.indexBase, shape.indexIsCanonical);
    } else {
      assert members == [];
      forall note, name ensures !IsMemberOf(files, backlogDir, dir, note, name) {
        assert note !in members;
      }
    }
  }

  lemma {:induction false} EntryMeans(files: seq<Note>, backlogDir: string, le: Order<string>, file: Note,
                                      bases: map<string, string>)
    requires file in files && LocateInBacklog(file.path, backlogDir).Some?
    requires AreIndexes(files, backlogDir, le, bases)
    ensures IsEntry(files, backlogDir, le, file,
                    ClassifyNote(file, LocateInBacklog(file.path, backlogDir).value, bases))
  {
    hide LocateInBacklog, BaseName, IsLeafBase, IsLeafName, StateOf, IsState, NamesIndex, IsBaseOf, InRoot, InPackDir,
         DeepIn, AreIndexes;
    var location, base := LocateInBacklog(file.path, backlogDir).value, BaseName(file.path);
    LocationMeans(file.path, backlogDir);
    BaseMeans(file.path);
    StateMeans(file.statusValue);
    LeafMeans(base);
    if location.packDir.Some? {
      var dir := location.packDir.value;
      MemberMeans(file, backlogDir, dir);
      assert location == Location(Some(dir), location.immediateMember);
      if location.immediateMember {
        assert InPackDir(file.path, backlogDir, dir, base);
        IndexHere(files, backlogDir, le, file, dir, base, bases);
      }
    }
  }

  lemma {:induction false} IndexHere(files: seq<Note>, backlogDir: string, le: Order<string>, file: Note, dir: string,
                                     base: string, bases: map<string, string>)
    requires file in files && InPackDir(file.path, backlogDir, dir, base) && AreIndexes(files, backlogDir, le, bases)
    ensures (dir in bases && bases[dir] == base) <==> NamesIndex(files, backlogDir, le, dir, base)
  {
    hide NamesIndex, InPackDir;
    assert IsMemberOf(files, backlogDir, dir, file, base);
    assert IsIndexName(files, backlogDir, le, dir, base) <==> NamesIndex(files, backlogDir, le, dir, base);
  }

  /**
   The catalog lists the files below the backlog directory and no others, in path
   order, each with its name, its directory, its class and its state.
   */
  lemma {:induction false} ListsEveryNote(files: seq<Note>, backlogDir: string, le: Order<string>,
                                          shapes: seq<PackShape>, catalog: Catalog)
    requires TotalOrder(le) && IsCatalog(files, backlogDir, le, shapes, catalog)
    ensures forall note | note in catalog.notes :: exists file :: IsEntry(files, backlogDir, le, file, note)
    ensures forall file | file in files && backlogDir + "/" <= file.path ::
              exists note :: note in catalog.notes && IsEntry(files, backlogDir, le, file, note)
    ensures Sorted(le, PathOfEntry, catalog.notes)
    ensures DistinctKeys(PathOf, files) ==> DistinctKeys(PathOfEntry, catalog.notes)
  {
    hide TotalOrder, Sort, Located, ArePacks, IsRollup, CountedByClass, Counted, IsEntry, ClassifyNote, LocateInBacklog,
         IndexBases, AreIndexes, Sorted, DistinctKeys;
    var located, bases := Located(Sort(le, PathOf, files), backlogDir), IndexBases(shapes);
    CatalogListsFiles(files, backlogDir, le);
    IndexesMean(files, backlogDir, le, located, shapes);
    EntriesOf(files, backlogDir, le, located, bases);
    InOrder(files, backlogDir, le, bases);
  }

  lemma {:induction false} EntriesOf(files: seq<Note>, backlogDir: string, le: Order<string>, located: seq<Note>,
                                     bases: map<string, string>)
    requires ListsFiles(files, backlogDir, located) && AreIndexes(files, backlogDir, le, bases)
    requires forall note | note in located :: LocateInBacklog(note.path, backlogDir).Some?
    ensures var notes := Classified(located, backlogDir, bases);
            (forall note | note in notes :: exists file :: IsEntry(files, backlogDir, le, file, note)) &&
            (forall file | file in files && backlogDir + "/" <= file.path ::
               exists note :: note in notes && IsEntry(files, backlogDir, le, file, note))
  {
    hide IsEntry, ClassifyNote, LocateInBacklog, AreIndexes;
    var notes := Classified(located, backlogDir, bases);
    forall i | 0 <= i < |located| ensures IsEntry(files, backlogDir, le, located[i], notes[i]) {
      assert located[i] in located;
      EntryMeans(files, backlogDir, le, located[i], bases);
    }
    forall file | file in files && backlogDir + "/" <= file.path
      ensures exists note :: note in notes && IsEntry(files, backlogDir, le, file, note)
    {
      var i :| 0 <= i < |located| && located[i] == file;
      assert notes[i] in notes;
    }
  }

  lemma {:induction false} InOrder(files: seq<Note>, backlogDir: string, le: Order<string>, bases: map<string, string>)
    requires TotalOrder(le)
    ensures var located := Located(Sort(le, PathOf, files), backlogDir);
            var notes := Classified(located, backlogDir, bases);
            Sorted(le, PathOfEntry, notes) && (DistinctKeys(PathOf, files) ==> DistinctKeys(PathOfEntry, notes))
  {
    hide TotalOrder, Sort, Located, LocateInBacklog, ClassifyNote;
    var sorted := Sort(le, PathOf, files);
    KeysOfEntries(Located(sorted, backlogDir), backlogDir, bases);
    SortSorts(le, PathOf, files);
    LocatedStaysSorted(le, sorted, backlogDir);
    if DistinctKeys(PathOf, files) {
      SameKeysDistinct(PathOf, files, sorted);
      LocatedStaysDistinct(sorted, backlogDir);
    }
  }

  lemma {:induction false} KeysOfEntries(located: seq<Note>, backlogDir: string, bases: map<string, string>)
    requires forall note | note in located :: LocateInBacklog(note.path, backlogDir).Some?
    ensures var notes := Classified(located, backlogDir, bases);
            forall i | 0 <= i < |notes| :: PathOfEntry(notes[i]) == PathOf(located[i])
  {
    hide LocateInBacklog, BaseName, RecordClassOf, StateOf;
  }

  lemma {:induction false} LocatedStaysSorted(le: Order<string>, files: seq<Note>, backlogDir: string)
    requires Sorted(le, PathOf, files)
    ensures Sorted(le, PathOf, Located(files, backlogDir))
  {
    if files != [] {
      var before, last := files[..|files| - 1], files[|files| - 1];
      LocatedStaysSorted(le, before, backlogDir);
      var located := Located(before, backlogDir);
      forall i | 0 <= i < |located| ensures le(PathOf(located[i]), PathOf(last)) {
        assert located[i] in located;
        var j :| 0 <= j < |before| && before[j] == located[i];
        assert le(PathOf(files[j]), PathOf(files[|files| - 1]));
      }
    }
  }

  // ---- The catalog's directories and counts ----

  /** The notes of a directory's own files in the given state. */
  ghost function Standing(notes: seq<ClassifiedNote>, dir: string, state: State): set<ClassifiedNote> {
    set note | note in notes && note.pack == Some(dir) && !note.recordClass.WorkingArtifact? && note.lifecycle == state
  }

  ghost function WorkingIn(notes: seq<ClassifiedNote>, dir: string): set<ClassifiedNote> {
    set note | note in notes && note.pack == Some(dir) && note.recordClass.WorkingArtifact?
  }

  ghost function OfKind(notes: seq<ClassifiedNote>, recordClass: RecordClass, state: State): set<ClassifiedNote> {
    set note | note in notes && note.recordClass == recordClass && note.lifecycle == state
  }

  ghost predicate SumsUp(files: seq<Note>, backlogDir: string, le: Order<string>, notes: seq<ClassifiedNote>,
                         rollup: PackRollup) {
    var dir := backlogDir + "/" + rollup.name;
    IsName(rollup.name) && (exists file, base :: IsMemberOf(files, backlogDir, dir, file, base)) &&
    (rollup.indexIsCanonical <==> HasCanonicalIndex(files, backlogDir, dir)) &&
    (forall base :: rollup.indexPath == Some(dir + "/" + base) <==> NamesIndex(files, backlogDir, le, dir, base)) &&
    (rollup.indexPath.Some? ==> exists base :: rollup.indexPath == Some(dir + "/" + base)) &&
    rollup.counts.actionable == |Standing(notes, dir, Actionable)| &&
    rollup.counts.terminal == |Standing(notes, dir, Terminal)| &&
    rollup.counts.unknown == |Standing(notes, dir, Unknown)| &&
    rollup.workingArtifacts == |WorkingIn(notes, dir)|
  }

  lemma {:induction false} LengthIsCount(notes: seq<ClassifiedNote>)
    requires NoRepeats(notes)
    ensures |set note | note in notes| == |notes|
  {
    if notes != [] {
      var before, last := notes[..|notes| - 1], notes[|notes| - 1];
      assert notes == before + [last];
      assert last !in before;
      LengthIsCount(before);
      assert (set note | note in notes) == (set note | note in before) + {last};
    }
  }

  lemma {:induction false} SelectHasNoRepeats(notes: seq<ClassifiedNote>, chosen: ClassifiedNote -> bool)
    requires NoRepeats(notes)
    ensures NoRepeats(Select(notes, chosen))
  {
    if notes != [] {
      var before, last := notes[..|notes| - 1], notes[|notes| - 1];
      assert notes == before + [last];
      assert last !in before;
      SelectHasNoRepeats(before, chosen);
      assert last !in Select(before, chosen);
    }
  }

  lemma {:induction false} SelectCounts(notes: seq<ClassifiedNote>, chosen: ClassifiedNote -> bool,
                                        those: set<ClassifiedNote>)
    requires NoRepeats(notes) && forall note :: note in those <==> note in notes && chosen(note)
    ensures |Select(notes, chosen)| == |those|
  {
    SelectHasNoRepeats(notes, chosen);
    LengthIsCount(Select(notes, chosen));
    assert those == set note | note in Select(notes, chosen);
  }

  lemma {:induction false} DistinctPaths(notes: seq<ClassifiedNote>)
    requires DistinctKeys(PathOfEntry, notes)
    ensures NoRepeats(notes)
  {
    forall i, j | 0 <= i < j < |notes| ensures notes[i] != notes[j] {
      assert PathOfEntry(notes[i]) != PathOfEntry(notes[j]);
    }
  }

  lemma {:induction false} OwnedCounts(notes: seq<ClassifiedNote>, dir: string, state: State)
    requires NoRepeats(notes)
    ensures StateCount(Select(OwnedBy(notes, dir), IsMember()), state) == |Standing(notes, dir, state)|
  {
    hide Select;
    SelectHasNoRepeats(notes, InPack(dir));
    var owned := OwnedBy(notes, dir);
    SelectHasNoRepeats(owned, IsMember());
    SelectCounts(Select(owned, IsMember()), InState(state), Standing(notes, dir, state));
  }

  lemma {:induction false} WorkingCounts(notes: seq<ClassifiedNote>, dir: string)
    requires NoRepeats(notes)
    ensures |OwnedBy(notes, dir)| == |Select(OwnedBy(notes, dir), IsMember())| + |WorkingIn(notes, dir)|
  {
    OwnedParts(notes, dir);
    hide Select, OwnedBy, WorkingIn, NoRepeats;
    var owned := OwnedBy(notes, dir);
    assert NoRepeats(owned) by {
      OwnedHasNoRepeats(notes, dir);
    }
    LengthIsCount(owned);
    SelectHasNoRepeats(owned, IsMember());
    LengthIsCount(Select(owned, IsMember()));
  }

  lemma {:induction false} OwnedHasNoRepeats(notes: seq<ClassifiedNote>, dir: string)
    requires NoRepeats(notes)
    ensures NoRepeats(OwnedBy(notes, dir))
  {
    hide Select, NoRepeats;
    SelectHasNoRepeats(notes, InPack(dir));
  }

  /** What a directory owns is its members and its working files. */
  lemma {:induction false} OwnedParts(notes: seq<ClassifiedNote>, dir: string)
    ensures var owned := OwnedBy(notes, dir);
            var members := set n | n in Select(owned, IsMember());
            (set n | n in owned) == members + WorkingIn(notes, dir) && members !! WorkingIn(notes, dir)
  {
    hide Select;
  }

  lemma {:induction false} RollupCounts(shape: PackShape, backlogDir: string, notes: seq<ClassifiedNote>,
                                        rollup: PackRollup)
    requires IsRollup(shape, backlogDir, notes, rollup) && NoRepeats(notes)
    ensures rollup.counts.actionable == |Standing(notes, shape.dir, Actionable)| &&
            rollup.counts.terminal == |Standing(notes, shape.dir, Terminal)| &&
            rollup.counts.unknown == |Standing(notes, shape.dir, Unknown)| &&
            rollup.workingArtifacts == |WorkingIn(notes, shape.dir)|
  {
    hide OwnedBy, Select, StateCount, Standing, WorkingIn;
    OwnedCounts(notes, shape.dir, Actionable);
    OwnedCounts(notes, shape.dir, Terminal);
    OwnedCounts(notes, shape.dir, Unknown);
    WorkingCounts(notes, shape.dir);
  }

  lemma {:induction false} NameOfDir(path: string, backlogDir: string, dir: string, base: string, name: string)
    requires InPackDir(path, backlogDir, dir, base) && dir == backlogDir + "/" + name
    ensures IsName(name)
  {
    var own :| IsName(own) && dir == backlogDir + "/" + own;
    SamePrefix(backlogDir + "/", own, name);
  }

  lemma {:induction false} RollupSumsUp(files: seq<Note>, backlogDir: string, le: Order<string>, located: seq<Note>,
                                        shape: PackShape, notes: seq<ClassifiedNote>, rollup: PackRollup)
    requires TotalOrder(le) && ListsFiles(files, backlogDir, located) && IsShape(located, backlogDir, le, shape)
    requires IsRollup(shape, backlogDir, notes, rollup) && NoRepeats(notes)
    ensures SumsUp(files, backlogDir, le, notes, rollup)
  {
    hide TotalOrder, MembersOf, ListsFiles, IsIndexBase, NamesIndex, HasCanonicalIndex, InPackDir, BaseName, Counted,
         OwnedBy, Select, Standing, WorkingIn, NoRepeats;
    var dir := shape.dir;
    MembersMean(files, backlogDir, located, dir);
    var member := shape.members[0];
    assert member in shape.members;
    assert IsMemberOf(files, backlogDir, dir, member, BaseName(member.path));
    NameOfDir(member.path, backlogDir, dir, BaseName(member.path), rollup.name);
    IndexMeans(files, backlogDir, le, located, dir, shape.indexBase, shape.indexIsCanonical);
    forall base ensures rollup.indexPath == Some(dir + "/" + base) <==> NamesIndex(files, backlogDir, le, dir, base) {
      if shape.indexBase.Some? && dir + "/" + shape.indexBase.value == dir + "/" + base {
        SamePrefix(dir + "/", shape.indexBase.value, base);
      }
    }
    RollupCounts(shape, backlogDir, notes, rollup);
  }

  function NameOfRollup(rollup: PackRollup): string {
    rollup.name
  }

  /**
   There is one rollup for each directory that holds a file directly, and it names
   the directory's index and counts its notes; the other counts are of the notes
   in each class and of all notes.
   */
  lemma {:induction false} CatalogAddsUp(files: seq<Note>, backlogDir: string, le: Order<string>,
                                         shapes: seq<PackShape>, catalog: Catalog)
    requires TotalOrder(le) && IsCatalog(files, backlogDir, le, shapes, catalog) && DistinctKeys(PathOf, files)
    ensures forall rollup | rollup in catalog.packs :: SumsUp(files, backlogDir, le, catalog.notes, rollup)
    ensures forall dir, file, base | IsMemberOf(files, backlogDir, dir, file, base) ::
              exists rollup :: rollup in catalog.packs && dir == backlogDir + "/" + NameOfRollup(rollup)
    ensures DistinctKeys(NameOfRollup, catalog.packs)
    ensures forall recordClass: RecordClass ::
              recordClass in catalog.byRecordClass &&
              catalog.byRecordClass[recordClass] == Counts(|OfKind(catalog.notes, recordClass, Actionable)|,
                                                           |OfKind(catalog.notes, recordClass, Terminal)|,
                                                           |OfKind(catalog.notes, recordClass, Unknown)|)
  {
    ListsEveryNote(files, backlogDir, le, shapes, catalog);
    DistinctPaths(catalog.notes);
    hide TotalOrder, Sort, Located, IsShape, IsRollup, Counted, IsEntry, LocateInBacklog, MembersOf, IndexBases,
         Classified, Sorted, DistinctKeys, SumsUp, NoRepeats, CountedByClass, OfKind;
    var located := Located(Sort(le, PathOf, files), backlogDir);
    CatalogListsFiles(files, backlogDir, le);
    forall i | 0 <= i < |shapes| ensures SumsUp(files, backlogDir, le, catalog.notes, catalog.packs[i]) {
      assert shapes[i] in shapes;
      RollupSumsUp(files, backlogDir, le, located, shapes[i], catalog.notes, catalog.packs[i]);
    }
    forall dir, file, base | IsMemberOf(files, backlogDir, dir, file, base)
      ensures exists rollup :: rollup in catalog.packs && dir == backlogDir + "/" + NameOfRollup(rollup)
    {
      RollupThere(files, backlogDir, le, located, shapes, catalog, dir, file, base);
    }
    RollupsDiffer(backlogDir, shapes, catalog.notes, catalog.packs);
    forall recordClass: RecordClass
      ensures recordClass in catalog.byRecordClass &&
              catalog.byRecordClass[recordClass] == Counts(|OfKind(catalog.notes, recordClass, Actionable)|,
                                                           |OfKind(catalog.notes, recordClass, Terminal)|,
                                                           |OfKind(catalog.notes, recordClass, Unknown)|)
    {
      ClassCounts(catalog.notes, catalog.byRecordClass, recordClass);
    }
  }

  lemma {:induction false} RollupThere(files: seq<Note>, backlogDir: string, le: Order<string>, located: seq<Note>,
                                       shapes: seq<PackShape>, catalog: Catalog, dir: string, file: Note, base: string)
    requires ListsFiles(files, backlogDir, located) && ArePacks(located, backlogDir, le, shapes)
    requires |catalog.packs| == |shapes|
    requires forall i | 0 <= i < |shapes| :: IsRollup(shapes[i], backlogDir, catalog.notes, catalog.packs[i])
    requires IsMemberOf(files, backlogDir, dir, file, base)
    ensures exists rollup :: rollup in catalog.packs && dir == backlogDir + "/" + NameOfRollup(rollup)
  {
    hide MembersOf, ListsFiles, IsShape, BaseName, InPackDir, Sorted, DistinctKeys, Counted, OwnedBy, Select;
    MembersMean(files, backlogDir, located, dir);
    assert file in MembersOf(located, backlogDir, dir);
    var shape :| shape in shapes && shape.dir == dir;
    var i :| 0 <= i < |shapes| && shapes[i] == shape;
    assert catalog.packs[i] in catalog.packs;
    assert dir == backlogDir + "/" + NameOfRollup(catalog.packs[i]);
  }

  lemma {:induction false} RollupsDiffer(backlogDir: string, shapes: seq<PackShape>, notes: seq<ClassifiedNote>,
                                         rollups: seq<PackRollup>)
    requires DistinctKeys(DirOf, shapes) && |rollups| == |shapes|
    requires forall i | 0 <= i < |shapes| :: IsRollup(shapes[i], backlogDir, notes, rollups[i])
    ensures DistinctKeys(NameOfRollup, rollups)
  {
    hide Counted, OwnedBy, Select;
    forall i, j | 0 <= i < j < |rollups| ensures NameOfRollup(rollups[i]) != NameOfRollup(rollups[j]) {
      assert DirOf(shapes[i]) != DirOf(shapes[j]);
    }
  }

  lemma {:induction false} ClassCounts(notes: seq<ClassifiedNote>, counts: map<RecordClass, Counts>,
                                       recordClass: RecordClass)
    requires CountedByClass(notes, counts) && NoRepeats(notes)
    ensures recordClass in counts
    ensures counts[recordClass] == Counts(|OfKind(notes, recordClass, Actionable)|,
                                          |OfKind(notes, recordClass, Terminal)|, |OfKind(notes, recordClass, Unknown)|)
  {
    hide Select, NoRepeats;
    SelectHasNoRepeats(notes, InClass(recordClass));
    var those := OfClass(notes, recordClass);
    assert Counted(those, counts[recordClass]);
    SelectCounts(those, InState(Actionable), OfKind(notes, recordClass, Actionable));
    SelectCounts(those, InState(Terminal), OfKind(notes, recordClass, Terminal));
    SelectCounts(those, InState(Unknown), OfKind(notes, recordClass, Unknown));
  }
}
