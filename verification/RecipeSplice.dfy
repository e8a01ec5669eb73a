/**
 The generator of conflict-recovery recipes: it extracts each baseline's recipe
 from the merge driver and splices it between that baseline's markers in the
 runbook, leaving everything else alone.
 */
module RecipeSplice {
  import opened Sequences
  import opened Text
  import opened Wrappers

  // ---- Markers and regions ----

  const FENCE_OPEN := "\n```text\n"
  const FENCE_CLOSE := "\n```\n"

  function StartMarker(key: string): string {
    "<!-- " + key + "-baseline-conflict-recipe:start -->"
  }

  function EndMarker(key: string): string {
    "<!-- " + key + "-baseline-conflict-recipe:end -->"
  }

  function Block(key: string, recipe: string): string {
    StartMarker(key) + FENCE_OPEN + recipe + FENCE_CLOSE + EndMarker(key)
  }

  /** A key that cannot be confused with a marker's own punctuation. */
  predicate PlainKey(key: string) {
    forall c | c in key :: c != '<' && c != '>' && c != '\n'
  }

  /** The first occurrence of `part` at or after `from`. */
  function FirstAt(part: string, s: string, from: nat): (i: Option<nat>)
    ensures i.Some? ==>
              from <= i.value && OccursAt(part, s, i.value) &&
              forall k: nat | from <= k < i.value :: !OccursAt(part, s, k)
    ensures i.None? ==> forall k: nat | from <= k :: !OccursAt(part, s, k)
    decreases |s| - from
  {
    if OccursAt(part, s, from) then Some(from)
    else if from >= |s| then None
    else FirstAt(part, s, from + 1)
  }

  lemma FirstIs(part: string, s: string, from: nat, i: nat)
    requires from <= i && OccursAt(part, s, i) && forall k: nat | from <= k < i :: !OccursAt(part, s, k)
    ensures FirstAt(part, s, from) == Some(i)
  {
  }

  datatype Span = Span(from: nat, to: nat)

  /** From the first start marker to the first end marker after it. */
  function Region(doc: string, key: string): (span: Option<Span>)
    ensures span.Some? ==> span.value.from + |StartMarker(key)| + |EndMarker(key)| <= span.value.to <= |doc|
  {
    var start := FirstAt(StartMarker(key), doc, 0);
    if start.None? then None
    else
      var end := FirstAt(EndMarker(key), doc, start.value + |StartMarker(key)|);
      if end.None? then None else Some(Span(start.value, end.value + |EndMarker(key)|))
  }

  function Replace(doc: string, span: Span, text: string): string
    requires span.from <= span.to <= |doc|
  {
    doc[..span.from] + text + doc[span.to..]
  }

  function Splice(doc: string, key: string, recipe: string): Option<string> {
    var span := Region(doc, key);
    if span.None? then None else Some(Replace(doc, span.value, Block(key, recipe)))
  }

  // ---- Where markers can occur ----

  predicate IsMarker(mark: string) {
    |mark| >= 2 && mark[0] == '<' && mark[|mark| - 1] == '>' &&
    (forall i | 0 < i < |mark| :: mark[i] != '<') && (forall i | 0 <= i < |mark| - 1 :: mark[i] != '>') &&
    forall i | 0 <= i < |mark| :: mark[i] != '\n'
  }

  predicate IsBoxed(text: string) {
    |text| >= 2 && text[0] == '<' && text[|text| - 1] == '>'
  }

  lemma MarkersAreMarkers(key: string)
    requires PlainKey(key)
    ensures IsMarker(StartMarker(key)) && IsMarker(EndMarker(key))
  {
    MarkerShape("<!-- ", key, "-baseline-conflict-recipe:start -->");
    MarkerShape("<!-- ", key, "-baseline-conflict-recipe:end -->");
  }

  lemma MarkerShape(head: string, key: string, tail: string)
    requires PlainKey(key) && |head| > 0 && |tail| > 0
    requires head[0] == '<' && (forall i | 0 < i < |head| :: head[i] != '<') &&
             forall i | 0 <= i < |head| :: head[i] != '>' && head[i] != '\n'
    requires tail[|tail| - 1] == '>' && (forall i | 0 <= i < |tail| - 1 :: tail[i] != '>') &&
             forall i | 0 <= i < |tail| :: tail[i] != '<' && tail[i] != '\n'
    ensures IsMarker(head + key + tail)
  {
    var mark := head + key + tail;
    forall i | 0 <= i < |mark|
      ensures mark[i] != '\n' && (i > 0 ==> mark[i] != '<') && (i < |mark| - 1 ==> mark[i] != '>')
    {
      if i < |head| {
        assert mark[i] == head[i];
      } else if i < |head| + |key| {
        assert mark[i] == key[i - |head|] && key[i - |head|] in key;
      } else {
        assert mark[i] == tail[i - |head| - |key|];
      }
    }
  }

  lemma InPrefix(a: string, rest: string, part: string, p: nat)
    requires p + |part| <= |a|
    ensures OccursAt(part, a + rest, p) <==> OccursAt(part, a, p)
  {
  }

  lemma InSuffix(a: string, rest: string, part: string, q: nat)
    ensures OccursAt(part, a + rest, |a| + q) <==> OccursAt(part, rest, q)
  {
  }

  lemma OccursInside(part: string, s: string, p: nat)
    requires OccursAt(part, s, p)
    ensures p + |part| <= |s|
  {
  }

  /** The character of an occurrence. */
  lemma OccurrenceAt(part: string, s: string, p: nat, i: nat)
    requires OccursAt(part, s, p) && i < |part|
    ensures s[p + i] == part[i]
  {
  }

  /** A boxed stretch of text cuts every marker: an occurrence lies before it, inside it or after it. */
  lemma BoxCuts(a: string, box: string, b: string, mark: string, p: nat)
    requires IsBoxed(box) && IsMarker(mark) && OccursAt(mark, a + box + b, p)
    ensures p + |mark| <= |a| || (|a| <= p && p + |mark| <= |a| + |box|) || |a| + |box| <= p
  {
    hide OccursAt;
    var text := a + box + b;
    assert p + |mark| <= |text| by {
      OccursInside(mark, text, p);
    }
    if p < |a| < p + |mark| {
      assert text[|a|] == box[0];
      OccurrenceAt(mark, text, p, |a| - p);
    } else if |a| <= p < |a| + |box| < p + |mark| {
      assert text[|a| + |box| - 1] == box[|box| - 1];
      OccurrenceAt(mark, text, p, |a| + |box| - 1 - p);
    }
  }

  ghost predicate Contains(s: string, part: string) {
    exists i: nat :: OccursAt(part, s, i)
  }

  /** No marker of `key` in the recipe. */
  ghost predicate FreeOf(recipe: string, key: string) {
    !Contains(recipe, StartMarker(key)) && !Contains(recipe, EndMarker(key))
  }

  /** Between fences a marker can only occur within the recipe itself. */
  lemma InFences(recipe: string, tail: string, mark: string, q: nat)
    requires IsMarker(mark) && q < |FENCE_OPEN + recipe + FENCE_CLOSE|
    requires OccursAt(mark, FENCE_OPEN + recipe + FENCE_CLOSE + tail, q)
    ensures Contains(recipe, mark)
  {
    var rest := recipe + (FENCE_CLOSE + tail);
    assert FENCE_OPEN + recipe + FENCE_CLOSE + tail == FENCE_OPEN + rest;
    OccurrenceAt(mark, FENCE_OPEN + rest, q, 0);
    assert |FENCE_OPEN| <= q < |FENCE_OPEN| + |recipe|;
    var r := q - |FENCE_OPEN|;
    InSuffix(FENCE_OPEN, rest, mark, r);
    if r + |mark| > |recipe| {
      assert rest[|recipe|] == '\n';
      OccurrenceAt(mark, rest, r, |recipe| - r);
    }
    InPrefix(recipe, FENCE_CLOSE + tail, mark, r);
  }

  // ---- One key ----

  function Body(recipe: string): string {
    FENCE_OPEN + recipe + FENCE_CLOSE
  }

  lemma BlockIsBoxed(key: string, recipe: string)
    requires PlainKey(key)
    ensures IsBoxed(Block(key, recipe)) && Block(key, recipe) == StartMarker(key) + Body(recipe) + EndMarker(key)
  {
  }

  /** Text before the first start marker holds none. */
  lemma NoneBefore(doc: string, mark: string, i: nat)
    requires i <= |doc| && forall k: nat | k < i :: !OccursAt(mark, doc, k)
    ensures !Contains(doc[..i], mark) || mark == ""
  {
    forall k: nat | OccursAt(mark, doc[..i], k) ensures mark == "" {
      assert doc == doc[..i] + doc[i..];
      InPrefix(doc[..i], doc[i..], mark, k);
    }
  }

  lemma BoxedStart(a: string, key: string, recipe: string, b: string)
    requires PlainKey(key) && !Contains(a, StartMarker(key))
    ensures FirstAt(StartMarker(key), a + Block(key, recipe) + b, 0) == Some(|a|)
  {
    hide StartMarker, EndMarker, Block;
    MarkersAreMarkers(key);
    BlockIsBoxed(key, recipe);
    var block, mark := Block(key, recipe), StartMarker(key);
    var doc := a + block + b;
    assert OccursAt(mark, doc, |a|) by {
      assert doc[|a|..|a| + |mark|] == mark;
    }
    assert doc == a + (block + b);
    forall p: nat | p < |a| ensures !OccursAt(mark, doc, p) {
      if OccursAt(mark, doc, p) {
        BoxCuts(a, block, b, mark, p);
        InPrefix(a, block + b, mark, p);
      }
    }
    FirstIs(mark, doc, 0, |a|);
  }

  /** The first marker from a point on is the one after a stretch that holds none. */
  lemma FirstAfter(head: string, body: string, mark: string, b: string)
    requires forall q: nat | q < |body| :: !OccursAt(mark, body + (mark + b), q)
    ensures FirstAt(mark, head + (body + (mark + b)), |head|) == Some(|head| + |body|)
  {
    var rest := body + (mark + b);
    InSuffix(body, mark + b, mark, 0);
    assert (mark + b)[0..0 + |mark|] == mark;
    InSuffix(head, rest, mark, |body|);
    forall p: nat | |head| <= p < |head| + |body| ensures !OccursAt(mark, head + rest, p) {
      InSuffix(head, rest, mark, p - |head|);
    }
    FirstIs(mark, head + rest, |head|, |head| + |body|);
  }

  lemma BodyHasNone(recipe: string, tail: string, mark: string, q: nat)
    requires IsMarker(mark) && !Contains(recipe, mark) && q < |Body(recipe)|
    ensures !OccursAt(mark, Body(recipe) + tail, q)
  {
    if OccursAt(mark, Body(recipe) + tail, q) {
      InFences(recipe, tail, mark, q);
    }
  }

  lemma BoxedEnd(a: string, key: string, recipe: string, b: string)
    requires PlainKey(key) && !Contains(recipe, EndMarker(key))
    ensures var block := Block(key, recipe);
            FirstAt(EndMarker(key), a + block + b, |a| + |StartMarker(key)|) == Some(|a| + |block| - |EndMarker(key)|)
  {
    hide StartMarker, EndMarker, Block, Body, FirstAt;
    MarkersAreMarkers(key);
    BlockIsBoxed(key, recipe);
    var start, mark := StartMarker(key), EndMarker(key);
    assert a + (start + Body(recipe) + mark) + b == (a + start) + (Body(recipe) + (mark + b));
    forall q: nat | q < |Body(recipe)| ensures !OccursAt(mark, Body(recipe) + (mark + b), q) {
      BodyHasNone(recipe, mark + b, mark, q);
    }
    FirstAfter(a + start, Body(recipe), mark, b);
  }

  /** A block is found again, whole, where it was put. */
  lemma BlockIsFound(a: string, key: string, recipe: string, b: string)
    requires PlainKey(key) && !Contains(a, StartMarker(key)) && !Contains(recipe, EndMarker(key))
    ensures Region(a + Block(key, recipe) + b, key) == Some(Span(|a|, |a| + |Block(key, recipe)|))
  {
    hide StartMarker, EndMarker, Block;
    BoxedStart(a, key, recipe, b);
    BoxedEnd(a, key, recipe, b);
  }

  /** The recipe found between the fences of the key's region. */
  function ReadRecipe(doc: string, key: string): Option<string> {
    var span := Region(doc, key);
    if span.None? then None
    else
      var low := span.value.from + |StartMarker(key) + FENCE_OPEN|;
      var high := span.value.to - |FENCE_CLOSE + EndMarker(key)|;
      if low <= high && doc[span.value.from..span.value.to] == Block(key, doc[low..high]) then Some(doc[low..high])
      else None
  }

  lemma RegionText(doc: string, key: string)
    requires PlainKey(key) && Region(doc, key).Some?
    ensures !Contains(doc[..Region(doc, key).value.from], StartMarker(key))
  {
    MarkersAreMarkers(key);
    NoneBefore(doc, StartMarker(key), Region(doc, key).value.from);
  }

  lemma ReplaceIs(doc: string, span: Span, text: string)
    requires span.from <= span.to <= |doc|
    ensures Replace(doc, span, text) == doc[..span.from] + text + doc[span.to..]
  {
  }

  lemma ReplacedText(doc: string, span: Span, text: string)
    requires span.from <= span.to <= |doc|
    ensures var after := Replace(doc, span, text);
            |after| == span.from + |text| + |doc| - span.to && after[..span.from] == doc[..span.from] &&
            after[span.from + |text|..] == doc[span.to..] &&
            after[span.from..span.from + |text|] == text
  {
  }

  lemma SliceOut(doc: string, from: nat, head: string, recipe: string, tail: string)
    requires from + |head + recipe + tail| <= |doc| && doc[from..from + |head + recipe + tail|] == head + recipe + tail
    ensures doc[from + |head|..from + |head| + |recipe|] == recipe
  {
    var text := head + recipe + tail;
    forall i | 0 <= i < |recipe| ensures doc[from + |head| + i] == recipe[i] {
      assert doc[from + |head| + i] == doc[from..from + |text|][|head| + i];
      assert text[|head| + i] == recipe[i];
    }
  }

  lemma ReadsBlock(doc: string, key: string, span: Span, recipe: string)
    requires Region(doc, key) == Some(span) && doc[span.from..span.to] == Block(key, recipe)
    ensures ReadRecipe(doc, key) == Some(recipe)
  {
    hide StartMarker, EndMarker, Region;
    var head, tail := StartMarker(key) + FENCE_OPEN, FENCE_CLOSE + EndMarker(key);
    assert Block(key, recipe) == head + recipe + tail;
    SliceOut(doc, span.from, head, recipe, tail);
  }

  /** Reading a region back gives the recipe that was put in; all other text is where it was. */
  lemma SpliceReadsBack(doc: string, key: string, recipe: string)
    requires PlainKey(key) && !Contains(recipe, EndMarker(key)) && Region(doc, key).Some?
    ensures Splice(doc, key, recipe).Some?
    ensures var after, span := Splice(doc, key, recipe).value, Region(doc, key).value;
            Region(after, key) == Some(Span(span.from, span.from + |Block(key, recipe)|)) &&
            after[..span.from] == doc[..span.from] && after[span.from + |Block(key, recipe)|..] == doc[span.to..] &&
            after[span.from..span.from + |Block(key, recipe)|] == Block(key, recipe)
    ensures ReadRecipe(Splice(doc, key, recipe).value, key) == Some(recipe)
  {
    hide StartMarker, EndMarker, Region, Contains, Block, ReadRecipe, PlainKey, Replace;
    RegionText(doc, key);
    var span := Region(doc, key).value;
    BlockIsFound(doc[..span.from], key, recipe, doc[span.to..]);
    ReplacedText(doc, span, Block(key, recipe));
    var after := Replace(doc, span, Block(key, recipe));
    assert after == doc[..span.from] + Block(key, recipe) + doc[span.to..] by {
      ReplaceIs(doc, span, Block(key, recipe));
    }
    ReadsBlock(after, key, Span(span.from, span.from + |Block(key, recipe)|), recipe);
  }

  /** The last splice of a key wins. */
  lemma SpliceOverwrites(doc: string, key: string, first: string, second: string)
    requires PlainKey(key) && !Contains(first, EndMarker(key)) && Region(doc, key).Some?
    ensures Splice(doc, key, first).Some? &&
            Splice(Splice(doc, key, first).value, key, second) == Splice(doc, key, second)
  {
    hide StartMarker, EndMarker, Block, ReadRecipe;
    SpliceReadsBack(doc, key, first);
  }

  // ---- Two keys ----

  /** A marker occurs in a marker only as the whole of it. */
  lemma MarkerInMarker(x: string, y: string, p: nat)
    requires IsMarker(x) && IsMarker(y) && OccursAt(x, y, p)
    ensures p == 0 && x == y
  {
  }

  lemma MarkersDiffer(k: string, m: string)
    ensures StartMarker(k) == StartMarker(m) ==> k == m
    ensures StartMarker(m) != EndMarker(k)
  {
    var head, tail := "<!-- ", "-baseline-conflict-recipe:start -->";
    assert StartMarker(k)[|head|..|StartMarker(k)| - |tail|] == k;
    assert StartMarker(m)[|head|..|StartMarker(m)| - |tail|] == m;
    assert StartMarker(m)[|StartMarker(m)| - 5] == 't';
    assert EndMarker(k)[|EndMarker(k)| - 5] == 'd';
  }

  /** No start marker of another key around or between the fences of a block. */
  lemma RestHasNone(recipe: string, mark: string, end: string, q: nat)
    requires IsMarker(mark) && IsMarker(end) && mark != end && !Contains(recipe, mark)
    ensures !OccursAt(mark, Body(recipe) + end, q)
  {
    hide IsMarker, Body, Contains;
    var body := Body(recipe);
    if OccursAt(mark, body + end, q) {
      if q < |body| {
        BodyHasNone(recipe, end, mark, q);
      } else {
        InSuffix(body, end, mark, q - |body|);
        MarkerInMarker(mark, end, q - |body|);
      }
    }
  }

  lemma BlockHasNone(k: string, recipe: string, m: string, p: nat)
    requires PlainKey(k) && PlainKey(m) && k != m && !Contains(recipe, StartMarker(m))
    ensures !OccursAt(StartMarker(m), Block(k, recipe), p)
  {
    hide StartMarker, EndMarker, PlainKey, Body, IsMarker, Contains, Block;
    MarkersAreMarkers(k);
    MarkersAreMarkers(m);
    MarkersDiffer(k, m);
    BlockIsBoxed(k, recipe);
    var mark, start, rest := StartMarker(m), StartMarker(k), Body(recipe) + EndMarker(k);
    if OccursAt(mark, Block(k, recipe), p) {
      MarkerIsBoxed(start);
      assert Block(k, recipe) == start + rest && start + rest == "" + start + rest;
      BoxCuts("", start, rest, mark, p);
      if p < |start| {
        InPrefix(start, rest, mark, p);
        MarkerInMarker(mark, start, p);
      } else {
        InSuffix(start, rest, mark, p - |start|);
        RestHasNone(recipe, mark, EndMarker(k), p - |start|);
      }
    }
  }

  lemma MarkerIsBoxed(mark: string)
    requires IsMarker(mark)
    ensures IsBoxed(mark) && |mark| > 0
  {
  }

  lemma OccursInCommonPrefix(doc: string, after: string, n: nat, part: string, p: nat)
    requires n <= |doc| && n <= |after| && doc[..n] == after[..n] && p + |part| <= n
    ensures OccursAt(part, doc, p) <==> OccursAt(part, after, p)
  {
    assert doc == doc[..n] + doc[n..] && after == after[..n] + after[n..];
    InPrefix(doc[..n], doc[n..], part, p);
    InPrefix(after[..n], after[n..], part, p);
  }

  /** A region is untouched by whatever changes after it. */
  lemma RegionInCommonPrefix(doc: string, after: string, n: nat, key: string)
    requires n <= |doc| && n <= |after| && doc[..n] == after[..n]
    requires Region(doc, key).Some? && Region(doc, key).value.to <= n
    ensures Region(after, key) == Region(doc, key)
  {
    hide StartMarker, EndMarker, FirstAt, OccursAt;
    var start, end := StartMarker(key), EndMarker(key);
    var i := FirstAt(start, doc, 0).value;
    var j := FirstAt(end, doc, i + |start|).value;
    forall p: nat | p <= i ensures OccursAt(start, doc, p) <==> OccursAt(start, after, p) {
      OccursInCommonPrefix(doc, after, n, start, p);
    }
    FirstIs(start, after, 0, i);
    forall p: nat | p <= j ensures OccursAt(end, doc, p) <==> OccursAt(end, after, p) {
      OccursInCommonPrefix(doc, after, n, end, p);
    }
    FirstIs(end, after, i + |start|, j);
  }

  lemma OccursAfter(a: string, box: string, box': string, b: string, part: string, q: nat)
    ensures OccursAt(part, a + box + b, |a + box| + q) <==> OccursAt(part, a + box' + b, |a + box'| + q)
  {
  }

  /** The first marker after a boxed stretch stays the first when the stretch is replaced by one without it. */
  lemma FirstShifts(a: string, box: string, box': string, b: string, mark: string, q: nat)
    requires IsBoxed(box') && IsMarker(mark) && forall p: nat :: !OccursAt(mark, box', p)
    requires FirstAt(mark, a + box + b, 0) == Some(|a + box| + q)
    ensures FirstAt(mark, a + box' + b, 0) == Some(|a + box'| + q)
  {
    hide IsBoxed, IsMarker, FirstAt, OccursAt;
    var doc, after := a + box + b, a + box' + b;
    MarkerIsBoxed(mark);
    OccursAfter(a, box, box', b, mark, q);
    forall p: nat | p < |a + box'| + q ensures !OccursAt(mark, after, p) {
      if OccursAt(mark, after, p) {
        BoxCuts(a, box', b, mark, p);
        if p + |mark| <= |a| {
          assert doc == a + (box + b) && after == a + (box' + b);
          InPrefix(a, box + b, mark, p);
          InPrefix(a, box' + b, mark, p);
        } else if p < |a + box'| {
          assert after == a + (box' + b);
          InSuffix(a, box' + b, mark, p - |a|);
          InPrefix(box', b, mark, p - |a|);
        } else {
          OccursAfter(a, box, box', b, mark, p - |a + box'|);
        }
      }
    }
    FirstIs(mark, after, 0, |a + box'| + q);
  }

  lemma NextShifts(a: string, box: string, box': string, b: string, mark: string, from: nat, q: nat)
    requires from <= q && FirstAt(mark, a + box + b, |a + box| + from) == Some(|a + box| + q)
    ensures FirstAt(mark, a + box' + b, |a + box'| + from) == Some(|a + box'| + q)
  {
    hide FirstAt, OccursAt;
    forall p: nat | |a + box'| + from <= p < |a + box'| + q ensures !OccursAt(mark, a + box' + b, p) {
      OccursAfter(a, box, box', b, mark, p - |a + box'|);
    }
    OccursAfter(a, box, box', b, mark, q);
    FirstIs(mark, a + box' + b, |a + box'| + from, |a + box'| + q);
  }

  /** A region after a spliced one moves with it and keeps its text. */
  lemma RegionShifts(a: string, k: string, box: string, recipe: string, b: string, m: string, low: nat, high: nat)
    requires PlainKey(k) && PlainKey(m) && k != m && !Contains(recipe, StartMarker(m))
    requires Region(a + box + b, m) == Some(Span(|a + box| + low, |a + box| + high))
    ensures var box' := Block(k, recipe);
            Region(a + box' + b, m) == Some(Span(|a + box'| + low, |a + box'| + high))
  {
    hide StartMarker, EndMarker, Block, FirstAt, PlainKey, IsMarker, Contains;
    var box', start, end := Block(k, recipe), StartMarker(m), EndMarker(m);
    MarkersAreMarkers(m);
    BlockIsBoxed(k, recipe);
    forall p: nat ensures !OccursAt(start, box', p) {
      BlockHasNone(k, recipe, m, p);
    }
    FirstShifts(a, box, box', b, start, low);
    NextShifts(a, box, box', b, end, low + |start|, high - |end|);
  }

  // ---- All keys ----

  datatype Entry = Entry(key: string, recipe: string)

  /** Splices one entry after the other; a missing pair of markers ends it. */
  function SpliceAll(doc: string, entries: seq<Entry>): Option<string>
    decreases |entries|
  {
    if entries == [] then Some(doc)
    else
      var after := Splice(doc, entries[0].key, entries[0].recipe);
      if after.None? then None else SpliceAll(after.value, entries[1..])
  }

  predicate Disjoint(x: Span, y: Span) {
    x.to <= y.from || y.to <= x.from
  }

  /** Every key has its region, and no two regions overlap. */
  ghost predicate Marked(doc: string, keys: set<string>) {
    (forall k | k in keys :: Region(doc, k).Some?) &&
    forall k, m | k in keys && m in keys && k != m :: Disjoint(Region(doc, k).value, Region(doc, m).value)
  }

  ghost predicate WellMarked(doc: string, keys: set<string>) {
    (forall k | k in keys :: PlainKey(k)) && Marked(doc, keys)
  }

  /** No recipe holds a marker of any key. */
  ghost predicate CleanRecipe(recipe: string, keys: set<string>) {
    forall k | k in keys :: FreeOf(recipe, k)
  }

  /** Where a region lies after another one was replaced by a text of `length`. */
  function Moved(span: Span, replaced: Span, length: nat): Span
    requires replaced.from <= replaced.to && span.from <= span.to && Disjoint(span, replaced)
  {
    if span.to <= replaced.from then span
    else Span(span.from - replaced.to + replaced.from + length, span.to - replaced.to + replaced.from + length)
  }

  /** Splicing one key moves every other region by the change in length and leaves its text alone. */
  lemma OtherRegionMoves(doc: string, keys: set<string>, k: string, recipe: string, m: string)
    requires WellMarked(doc, keys) && k in keys && m in keys && k != m && CleanRecipe(recipe, keys)
    ensures var after, span := Splice(doc, k, recipe).value, Region(doc, k).value;
            var moved := Moved(Region(doc, m).value, span, |Block(k, recipe)|);
            Region(after, m) == Some(moved) && moved.to <= |after| &&
            after[moved.from..moved.to] == doc[Region(doc, m).value.from..Region(doc, m).value.to]
  {
    hide StartMarker, EndMarker, Block, FirstAt, PlainKey, OccursAt, Region;
    var span, other, block := Region(doc, k).value, Region(doc, m).value, Block(k, recipe);
    assert Disjoint(span, other) && FreeOf(recipe, m);
    RegionInDoc(doc, k);
    RegionInDoc(doc, m);
    var a, box, b := doc[..span.from], doc[span.from..span.to], doc[span.to..];
    assert doc == a + box + b;
    var after := a + block + b;
    if other.to <= span.from {
      assert after[..span.from] == doc[..span.from];
      RegionInCommonPrefix(doc, after, span.from, m);
      assert after[other.from..other.to] == doc[..span.from][other.from..other.to];
    } else {
      RegionShifts(a, k, box, recipe, b, m, other.from - span.to, other.to - span.to);
      assert doc[other.from..other.to] == b[other.from - span.to..other.to - span.to];
    }
  }

  lemma RegionInDoc(doc: string, key: string)
    ensures Region(doc, key).Some? ==> Region(doc, key).value.from < Region(doc, key).value.to <= |doc|
  {
  }

  lemma MovedStayDisjoint(x: Span, y: Span, replaced: Span, length: nat)
    requires x.from <= x.to && y.from <= y.to && replaced.from <= replaced.to
    requires Disjoint(x, y) && Disjoint(x, replaced) && Disjoint(y, replaced)
    ensures Disjoint(Moved(x, replaced, length), Moved(y, replaced, length))
  {
  }

  lemma MovedMisses(x: Span, replaced: Span, length: nat)
    requires x.from <= x.to && replaced.from <= replaced.to && Disjoint(x, replaced)
    ensures Disjoint(Moved(x, replaced, length), Span(replaced.from, replaced.from + length))
    ensures Disjoint(Span(replaced.from, replaced.from + length), Moved(x, replaced, length))
  {
  }

  lemma {:induction false} SpliceKeepsMarked(doc: string, keys: set<string>, k: string, recipe: string)
    requires WellMarked(doc, keys) && k in keys && CleanRecipe(recipe, keys)
    ensures Splice(doc, k, recipe).Some? && WellMarked(Splice(doc, k, recipe).value, keys)
  {
    hide Block, PlainKey, Contains, Region, Disjoint, Moved;
    assert FreeOf(recipe, k);
    SpliceReadsBack(doc, k, recipe);
    var after, span := Splice(doc, k, recipe).value, Region(doc, k).value;
    RegionInDoc(doc, k);
    forall m | m in keys && m != k
      ensures Region(after, m).Some? && Disjoint(Region(after, m).value, Region(after, k).value)
      ensures Disjoint(Region(after, k).value, Region(after, m).value)
    {
      RegionInDoc(doc, m);
      OtherRegionMoves(doc, keys, k, recipe, m);
      assert Disjoint(Region(doc, m).value, span);
      MovedMisses(Region(doc, m).value, span, |Block(k, recipe)|);
    }
    forall x, y | x in keys && y in keys && x != y && x != k && y != k
      ensures Disjoint(Region(after, x).value, Region(after, y).value)
    {
      RegionInDoc(doc, x);
      RegionInDoc(doc, y);
      OtherRegionMoves(doc, keys, k, recipe, x);
      OtherRegionMoves(doc, keys, k, recipe, y);
      MovedStayDisjoint(Region(doc, x).value, Region(doc, y).value, span, |Block(k, recipe)|);
    }
  }

  /** Two replacements of disjoint spans can be done in either order. */
  lemma TwoReplacements(doc: string, first: Span, second: Span, x: string, y: string)
    requires first.from < first.to <= second.from <= second.to <= |doc|
    ensures Moved(second, first, |x|).to <= |Replace(doc, first, x)|
    ensures Replace(Replace(doc, first, x), Moved(second, first, |x|), y) == Replace(Replace(doc, second, y), first, x)
  {
  }

  lemma InOrderCommute(doc: string, k: string, r: string, m: string, s: string, x: Span, y: Span)
    requires Region(doc, k) == Some(x) && Region(doc, m) == Some(y) && x.to <= y.from
    requires x.from < x.to && y.from <= y.to <= |doc|
    requires Region(Splice(doc, k, r).value, m) == Some(Moved(y, x, |Block(k, r)|))
    requires Region(Splice(doc, m, s).value, k) == Some(x)
    ensures Splice(Splice(doc, k, r).value, m, s) == Splice(Splice(doc, m, s).value, k, r)
  {
    hide Region, Splice, Replace, Moved, Block;
    SpliceIs(doc, k, r);
    SpliceIs(doc, m, s);
    SpliceIs(Splice(doc, k, r).value, m, s);
    SpliceIs(Splice(doc, m, s).value, k, r);
    TwoReplacements(doc, x, y, Block(k, r), Block(m, s));
    var afterK, afterM := Splice(doc, k, r).value, Splice(doc, m, s).value;
    assert Splice(afterK, m, s) == Some(Replace(afterK, Moved(y, x, |Block(k, r)|), Block(m, s)));
    assert Splice(afterM, k, r) == Some(Replace(afterM, x, Block(k, r)));
  }

  lemma SplicesCommute(doc: string, keys: set<string>, k: string, r: string, m: string, s: string)
    requires WellMarked(doc, keys) && k in keys && m in keys && k != m && CleanRecipe(r, keys) && CleanRecipe(s, keys)
    ensures Splice(doc, k, r).Some? && Splice(doc, m, s).Some?
    ensures Splice(Splice(doc, k, r).value, m, s) == Splice(Splice(doc, m, s).value, k, r)
  {
    hide Block, PlainKey, Contains, Region, Moved, CleanRecipe, Replace;
    RegionInDoc(doc, k);
    RegionInDoc(doc, m);
    OtherRegionMoves(doc, keys, k, r, m);
    OtherRegionMoves(doc, keys, m, s, k);
    var x, y := Region(doc, k).value, Region(doc, m).value;
    assert Disjoint(x, y);
    StaysBefore(x, y, |Block(m, s)|);
    StaysBefore(y, x, |Block(k, r)|);
    if x.to <= y.from {
      InOrderCommute(doc, k, r, m, s, x, y);
    } else {
      InOrderCommute(doc, m, s, k, r, y, x);
    }
  }

  lemma SpliceIs(doc: string, key: string, recipe: string)
    ensures var span := Region(doc, key);
            span.Some? ==> Splice(doc, key, recipe) == Some(Replace(doc, span.value, Block(key, recipe)))
  {
  }

  lemma StaysBefore(x: Span, y: Span, length: nat)
    requires x.from <= x.to && y.from <= y.to && Disjoint(x, y)
    ensures x.to <= y.from ==> Moved(x, y, length) == x
  {
  }

  // ---- What lies outside the regions ----

  /** A runbook without its regions: its characters, and a hole where each region was. */
  datatype Piece = Char(c: char) | Hole(key: string)

  ghost predicate StartsAt(doc: string, keys: set<string>, k: string, i: nat) {
    k in keys && Region(doc, k).Some? && Region(doc, k).value.from == i
  }

  ghost predicate Covered(doc: string, keys: set<string>, i: nat) {
    exists k | k in keys && Region(doc, k).Some? :: Region(doc, k).value.from <= i < Region(doc, k).value.to
  }

  ghost function PieceAt(doc: string, keys: set<string>, i: nat): seq<Piece>
    requires i < |doc|
  {
    if exists k :: StartsAt(doc, keys, k, i) then
      var k :| StartsAt(doc, keys, k, i);
      [Hole(k)]
    else if Covered(doc, keys, i) then []
    else [Char(doc[i])]
  }

  ghost function OutsideUpTo(doc: string, keys: set<string>, n: nat): seq<Piece>
    requires n <= |doc|
  {
    if n == 0 then [] else OutsideUpTo(doc, keys, n - 1) + PieceAt(doc, keys, n - 1)
  }

  ghost function Outside(doc: string, keys: set<string>): seq<Piece> {
    OutsideUpTo(doc, keys, |doc|)
  }

  /** A region is one hole. */
  lemma {:induction false} RegionIsHole(doc: string, keys: set<string>, k: string, n: nat)
    requires Marked(doc, keys) && k in keys && Region(doc, k).Some?
    requires Region(doc, k).value.from < n <= Region(doc, k).value.to <= |doc|
    ensures OutsideUpTo(doc, keys, n) == OutsideUpTo(doc, keys, Region(doc, k).value.from) + [Hole(k)]
  {
    hide PieceAt, Region, Marked;
    PieceInRegion(doc, keys, k, n - 1);
    if n - 1 > Region(doc, k).value.from {
      RegionIsHole(doc, keys, k, n - 1);
    }
  }

  lemma StartsElsewhere(doc: string, keys: set<string>, k: string, m: string, i: nat)
    requires Marked(doc, keys) && k in keys && m in keys && k != m && Region(doc, k).Some?
    requires Region(doc, k).value.from <= i < Region(doc, k).value.to
    ensures !StartsAt(doc, keys, m, i)
  {
    hide Region;
    RegionInDoc(doc, m);
    assert Disjoint(Region(doc, m).value, Region(doc, k).value);
  }

  lemma PieceInRegion(doc: string, keys: set<string>, k: string, i: nat)
    requires Marked(doc, keys) && k in keys && Region(doc, k).Some?
    requires Region(doc, k).value.from <= i < Region(doc, k).value.to <= |doc|
    ensures PieceAt(doc, keys, i) == if i == Region(doc, k).value.from then [Hole(k)] else []
  {
    hide Region;
    forall m | StartsAt(doc, keys, m, i) ensures m == k {
      if m != k {
        StartsElsewhere(doc, keys, k, m, i);
      }
    }
    if i == Region(doc, k).value.from {
      assert StartsAt(doc, keys, k, i);
    }
  }

  /** Position `i` of `doc` and `j` of `after` lie alike: the same regions start there or cover them. */
  ghost predicate Alike(doc: string, i: nat, after: string, j: nat, keys: set<string>) {
    forall m | m in keys ::
      Region(doc, m).Some? && Region(after, m).Some? &&
      var x, y := Region(doc, m).value, Region(after, m).value;
      (x.from == i <==> y.from == j) && (x.from <= i < x.to <==> y.from <= j < y.to)
  }

  lemma AlikeGivesPiece(doc: string, i: nat, after: string, j: nat, keys: set<string>)
    requires i < |doc| && j < |after| && doc[i] == after[j]
    requires Marked(doc, keys) && Alike(doc, i, after, j, keys)
    ensures PieceAt(doc, keys, i) == PieceAt(after, keys, j)
  {
    hide Region;
    forall m ensures StartsAt(doc, keys, m, i) <==> StartsAt(after, keys, m, j) {
    }
    forall k, m | StartsAt(doc, keys, k, i) && StartsAt(doc, keys, m, i) ensures k == m {
      if m != k {
        RegionInDoc(doc, k);
        StartsElsewhere(doc, keys, k, m, i);
      }
    }
    assert Covered(doc, keys, i) <==> Covered(after, keys, j);
  }

  ghost predicate SamePiece(doc: string, after: string, keys: set<string>, shift: int, i: int) {
    0 <= i < |doc| && 0 <= i + shift < |after| && PieceAt(doc, keys, i) == PieceAt(after, keys, i + shift)
  }

  lemma {:induction false} OutsideGoesOn(doc: string, after: string, keys: set<string>, low: nat, high: nat, shift: int)
    requires low <= high <= |doc| && 0 <= low + shift && high + shift <= |after|
    requires OutsideUpTo(doc, keys, low) == OutsideUpTo(after, keys, low + shift)
    requires forall i | low <= i < high :: SamePiece(doc, after, keys, shift, i)
    ensures OutsideUpTo(doc, keys, high) == OutsideUpTo(after, keys, high + shift)
    decreases high
  {
    hide PieceAt;
    if low < high {
      OutsideGoesOn(doc, after, keys, low, high - 1, shift);
      assert SamePiece(doc, after, keys, shift, high - 1);
    }
  }

  /** Positions beside the spliced region lie as they did, those after it moved by the change in length. */
  lemma StaysAlike(doc: string, keys: set<string>, k: string, recipe: string, i: nat)
    requires WellMarked(doc, keys) && k in keys && CleanRecipe(recipe, keys) && i < |doc| && Region(doc, k).Some?
    requires !(Region(doc, k).value.from <= i < Region(doc, k).value.to)
    ensures var after, span := Splice(doc, k, recipe).value, Region(doc, k).value;
            var j := if i < span.from then i else i - span.to + span.from + |Block(k, recipe)|;
            j < |after| && Alike(doc, i, after, j, keys) && doc[i] == after[j]
  {
    hide Block, PlainKey, Contains, Region, Disjoint, Marked, CleanRecipe, Moved;
    var after, span := Splice(doc, k, recipe).value, Region(doc, k).value;
    var j := if i < span.from then i else i - span.to + span.from + |Block(k, recipe)|;
    SpliceLengths(doc, keys, k, recipe);
    CharacterStays(doc, span, Block(k, recipe), i);
    forall m | m in keys
      ensures Region(doc, m).Some? && Region(after, m).Some?
      ensures var x, y := Region(doc, m).value, Region(after, m).value;
              (x.from == i <==> y.from == j) && (x.from <= i < x.to <==> y.from <= j < y.to)
    {
      MarkedParts(doc, keys, k, m);
      RegionInDoc(doc, m);
      RegionInDoc(doc, k);
      if m != k {
        OtherRegionMoves(doc, keys, k, recipe, m);
        MovesAlong(Region(doc, m).value, span, |Block(k, recipe)|, i, j);
      }
    }
  }

  lemma CharacterStays(doc: string, span: Span, text: string, i: nat)
    requires span.from < span.to <= |doc| && i < |doc| && !(span.from <= i < span.to)
    ensures var after, j := Replace(doc, span, text), if i < span.from then i else i - span.to + span.from + |text|;
            j < |after| && doc[i] == after[j]
  {
  }

  lemma MarkedParts(doc: string, keys: set<string>, k: string, m: string)
    requires Marked(doc, keys) && k in keys && m in keys
    ensures Region(doc, m).Some? && (k != m ==> Disjoint(Region(doc, m).value, Region(doc, k).value))
  {
    hide Region;
  }

  lemma MovesAlong(x: Span, replaced: Span, length: nat, i: nat, j: nat)
    requires x.from < x.to && replaced.from < replaced.to && Disjoint(x, replaced)
    requires i < replaced.from || replaced.to <= i
    requires j == if i < replaced.from then i else i - replaced.to + replaced.from + length
    ensures var y := Moved(x, replaced, length);
            (x.from == i <==> y.from == j) && (x.from <= i < x.to <==> y.from <= j < y.to)
  {
  }

  /** Splicing one key leaves everything outside the regions as it was. */
  lemma SpliceKeepsOutside(doc: string, keys: set<string>, k: string, recipe: string)
    requires WellMarked(doc, keys) && k in keys && CleanRecipe(recipe, keys)
    ensures Splice(doc, k, recipe).Some? && Outside(Splice(doc, k, recipe).value, keys) == Outside(doc, keys)
  {
    hide Block, PlainKey, Contains, Region, Disjoint, Marked, CleanRecipe, Alike, PieceAt;
    SpliceKeepsMarked(doc, keys, k, recipe);
    RegionInDoc(doc, k);
    MarkedParts(doc, keys, k, k);
    SpliceLengths(doc, keys, k, recipe);
    var after, span, length := Splice(doc, k, recipe).value, Region(doc, k).value, |Block(k, recipe)|;
    var shift := span.from + length - span.to;
    forall i | 0 <= i < span.from ensures SamePiece(doc, after, keys, 0, i) {
      StaysAlike(doc, keys, k, recipe, i);
      AlikeGivesPiece(doc, i, after, i, keys);
    }
    OutsideGoesOn(doc, after, keys, 0, span.from, 0);
    RegionIsHole(doc, keys, k, span.to);
    RegionIsHole(after, keys, k, span.from + length);
    forall i | span.to <= i < |doc| ensures SamePiece(doc, after, keys, shift, i) {
      StaysAlike(doc, keys, k, recipe, i);
      AlikeGivesPiece(doc, i, after, i + shift, keys);
    }
    OutsideGoesOn(doc, after, keys, span.to, |doc|, shift);
  }

  lemma SpliceLengths(doc: string, keys: set<string>, k: string, recipe: string)
    requires WellMarked(doc, keys) && k in keys && CleanRecipe(recipe, keys)
    ensures Region(doc, k).Some? && Splice(doc, k, recipe).Some?
    ensures var after, span := Splice(doc, k, recipe).value, Region(doc, k).value;
            |Block(k, recipe)| > 0 && |after| == span.from + |Block(k, recipe)| + |doc| - span.to &&
            Region(after, k) == Some(Span(span.from, span.from + |Block(k, recipe)|))
  {
    hide PlainKey, Contains, Region, Block;
    assert FreeOf(recipe, k);
    MarkedParts(doc, keys, k, k);
    RegionInDoc(doc, k);
    BlockIsBoxed(k, recipe);
    SpliceReadsBack(doc, k, recipe);
    ReplacedText(doc, Region(doc, k).value, Block(k, recipe));
  }

  ghost predicate CleanEntries(entries: seq<Entry>, keys: set<string>) {
    (forall e | e in entries :: e.key in keys && CleanRecipe(e.recipe, keys)) &&
    forall i, j | 0 <= i < j < |entries| :: entries[i].key != entries[j].key
  }

  lemma CleanTail(entries: seq<Entry>, keys: set<string>)
    requires entries != [] && CleanEntries(entries, keys)
    ensures entries[0].key in keys && CleanRecipe(entries[0].recipe, keys) && CleanEntries(entries[1..], keys)
    ensures forall e | e in entries[1..] :: e.key != entries[0].key
  {
  }

  lemma {:induction false} SpliceAllKeepsMarked(doc: string, keys: set<string>, entries: seq<Entry>)
    requires WellMarked(doc, keys) && CleanEntries(entries, keys)
    ensures SpliceAll(doc, entries).Some? && WellMarked(SpliceAll(doc, entries).value, keys)
    decreases |entries|
  {
    hide WellMarked, CleanRecipe, CleanEntries, Splice;
    if entries != [] {
      CleanTail(entries, keys);
      SpliceKeepsMarked(doc, keys, entries[0].key, entries[0].recipe);
      SpliceAllKeepsMarked(Splice(doc, entries[0].key, entries[0].recipe).value, keys, entries[1..]);
    }
  }

  /** A splice of one key can be moved across the splices of all the others. */
  lemma {:induction false} SpliceMovesPast(doc: string, keys: set<string>, k: string, r: string, entries: seq<Entry>)
    requires WellMarked(doc, keys) && k in keys && CleanRecipe(r, keys) && CleanEntries(entries, keys)
    requires forall e | e in entries :: e.key != k
    ensures SpliceAll(doc, entries).Some? && Splice(doc, k, r).Some?
    ensures Splice(SpliceAll(doc, entries).value, k, r) == SpliceAll(Splice(doc, k, r).value, entries)
    decreases |entries|
  {
    hide WellMarked, CleanRecipe, CleanEntries, Splice;
    SpliceKeepsMarked(doc, keys, k, r);
    if entries != [] {
      var first := entries[0];
      CleanTail(entries, keys);
      assert first in entries && forall e | e in entries[1..] :: e in entries;
      SpliceKeepsMarked(doc, keys, first.key, first.recipe);
      SplicesCommute(doc, keys, k, r, first.key, first.recipe);
      SpliceMovesPast(Splice(doc, first.key, first.recipe).value, keys, k, r, entries[1..]);
    }
  }

  /** Splicing all recipes changes nothing outside the regions: the same text around the same holes. */
  lemma {:induction false} NothingOutsideChanges(doc: string, keys: set<string>, entries: seq<Entry>)
    requires WellMarked(doc, keys) && CleanEntries(entries, keys)
    ensures SpliceAll(doc, entries).Some? && Outside(SpliceAll(doc, entries).value, keys) == Outside(doc, keys)
    decreases |entries|
  {
    hide WellMarked, CleanRecipe, CleanEntries, Splice, Outside;
    if entries != [] {
      CleanTail(entries, keys);
      SpliceKeepsMarked(doc, keys, entries[0].key, entries[0].recipe);
      SpliceKeepsOutside(doc, keys, entries[0].key, entries[0].recipe);
      NothingOutsideChanges(Splice(doc, entries[0].key, entries[0].recipe).value, keys, entries[1..]);
    }
  }

  ghost predicate SameKeys(first: seq<Entry>, second: seq<Entry>) {
    |first| == |second| && forall i | 0 <= i < |first| :: first[i].key == second[i].key
  }

  /**
   Splicing all recipes and then others for the same keys is splicing the
   others alone.  With the same recipes twice this is idempotence; with any
   fixed second recipes it says that two results of splicing differ only
   inside the regions.
   */
  lemma {:induction false} LastSpliceWins(doc: string, keys: set<string>, first: seq<Entry>, second: seq<Entry>)
    requires WellMarked(doc, keys) && CleanEntries(first, keys) && CleanEntries(second, keys) && SameKeys(first, second)
    ensures SpliceAll(doc, first).Some? && SpliceAll(SpliceAll(doc, first).value, second) == SpliceAll(doc, second)
    decreases |first|
  {
    hide WellMarked, CleanRecipe, CleanEntries, Splice;
    SpliceAllKeepsMarked(doc, keys, first);
    if first != [] {
      var x, y := first[0], second[0];
      CleanTail(first, keys);
      CleanTail(second, keys);
      SpliceKeepsMarked(doc, keys, x.key, x.recipe);
      SpliceKeepsMarked(doc, keys, y.key, y.recipe);
      var after := Splice(doc, x.key, x.recipe).value;
      SpliceMovesPast(after, keys, y.key, y.recipe, first[1..]);
      OverwritesMarked(doc, keys, x.key, x.recipe, y.recipe);
      LastSpliceWins(Splice(doc, y.key, y.recipe).value, keys, first[1..], second[1..]);
    }
  }

  lemma OverwritesMarked(doc: string, keys: set<string>, k: string, first: string, second: string)
    requires WellMarked(doc, keys) && k in keys && CleanRecipe(first, keys)
    ensures Splice(doc, k, first).Some? && Splice(Splice(doc, k, first).value, k, second) == Splice(doc, k, second)
  {
    hide Region, Contains, Block, PlainKey;
    assert FreeOf(first, k);
    SpliceOverwrites(doc, k, first, second);
  }

  /** Each spliced recipe is read back from the result. */
  lemma {:induction false} AllReadBack(doc: string, keys: set<string>, entries: seq<Entry>, e: Entry)
    requires WellMarked(doc, keys) && CleanEntries(entries, keys) && e in entries
    ensures SpliceAll(doc, entries).Some? && ReadRecipe(SpliceAll(doc, entries).value, e.key) == Some(e.recipe)
    decreases |entries|
  {
    hide WellMarked, CleanRecipe, CleanEntries, Splice, ReadRecipe;
    SpliceAllKeepsMarked(doc, keys, entries);
    var first := entries[0];
    CleanTail(entries, keys);
    SpliceKeepsMarked(doc, keys, first.key, first.recipe);
    var after := Splice(doc, first.key, first.recipe).value;
    if e == first {
      SpliceMovesPast(doc, keys, first.key, first.recipe, entries[1..]);
      SpliceAllKeepsMarked(doc, keys, entries[1..]);
      ReadsBackMarked(SpliceAll(doc, entries[1..]).value, keys, first.key, first.recipe);
    } else {
      AllReadBack(after, keys, entries[1..], e);
    }
  }

  lemma ReadsBackMarked(doc: string, keys: set<string>, k: string, recipe: string)
    requires WellMarked(doc, keys) && k in keys && CleanRecipe(recipe, keys)
    ensures Splice(doc, k, recipe).Some? && ReadRecipe(Splice(doc, k, recipe).value, k) == Some(recipe)
  {
    hide Region, Contains, Block, PlainKey, ReadRecipe;
    assert FreeOf(recipe, k);
    SpliceReadsBack(doc, k, recipe);
  }

  /** A splice fails exactly when its key has no start marker followed by an end marker. */
  lemma {:induction false} MissingMarkersFail(doc: string, key: string, recipe: string)
    ensures Splice(doc, key, recipe).None? <==>
            forall i: nat, j: nat ::
              !(OccursAt(StartMarker(key), doc, i) && i + |StartMarker(key)| <= j && OccursAt(EndMarker(key), doc, j))
  {
  }

  // ---- Extracting a recipe from the driver ----

  const HEREDOC_START := "cat >&2 <<EOF"
  const HEREDOC_END := "EOF"
  const ARM_TERMINATORS := {";;", "esac", "}"}

  datatype Failure =
    | NoArm(key: string)
    | QuotedHeredoc(key: string)
    | NoHeredoc(key: string)
    | MissingMarkers(key: string)

  predicate IsNewline(c: char) {
    c == '\n'
  }

  function Lines(source: string): seq<string> {
    Pieces(source, IsNewline)
  }

  function Join(lines: seq<string>): string {
    if lines == [] then "" else if |lines| == 1 then lines[0] else lines[0] + "\n" + Join(lines[1..])
  }

  predicate OpensFunction(line: string) {
    "print_conflict_recovery()" <= Trim(line)
  }

  function OpensArm(key: string): string -> bool {
    line => Trim(line) == key + ")"
  }

  predicate EndsArm(line: string) {
    Trim(line) in ARM_TERMINATORS
  }

  predicate OpensHeredoc(line: string) {
    Trim(line) == HEREDOC_START
  }

  predicate EndsHeredoc(line: string) {
    line == HEREDOC_END
  }

  /** `<<`, an optional dash, white space and a quote. */
  predicate QuotesAt(s: string, i: nat) {
    OccursAt("<<", s, i) &&
    var rest := s[i + 2..];
    var word := TrimStart(if rest != "" && rest[0] == '-' then rest[1..] else rest);
    word != "" && word[0] in "'\""
  }

  predicate OpensQuoted(line: string) {
    var trimmed := Trim(line);
    "cat" <= trimmed && exists i | 0 <= i < |trimmed| :: QuotesAt(trimmed, i)
  }

  /** The first line at or after `from` that satisfies `p`. */
  function FirstLine(lines: seq<string>, from: nat, p: string -> bool): (i: Option<nat>)
    requires from <= |lines|
    ensures i.Some? ==> from <= i.value < |lines| && p(lines[i.value]) && forall k | from <= k < i.value :: !p(lines[k])
    ensures i.None? ==> forall k | from <= k < |lines| :: !p(lines[k])
    decreases |lines| - from
  {
    if from == |lines| then None else if p(lines[from]) then Some(from) else FirstLine(lines, from + 1, p)
  }

  lemma FirstLineIs(lines: seq<string>, from: nat, p: string -> bool, i: nat)
    requires from <= i < |lines| && p(lines[i]) && forall k | from <= k < i :: !p(lines[k])
    ensures FirstLine(lines, from, p) == Some(i)
  {
  }

  /** The lines of a key's arm: after its label and before the first terminator, inside the recovery function. */
  function Arm(lines: seq<string>, key: string): Option<seq<string>> {
    var opening := FirstLine(lines, 0, OpensFunction);
    if opening.None? then None
    else
      var labelLine := FirstLine(lines, opening.value + 1, OpensArm(key));
      if labelLine.None? then None
      else
        var end := FirstLine(lines, labelLine.value + 1, EndsArm);
        Some(lines[labelLine.value + 1..if end.Some? then end.value else |lines|])
  }

  lemma ArmIs(lines: seq<string>, key: string, opening: nat, at: nat)
    requires FirstLine(lines, 0, OpensFunction) == Some(opening)
    requires opening < |lines| && FirstLine(lines, opening + 1, OpensArm(key)) == Some(at)
    ensures at < |lines|
    ensures var end := FirstLine(lines, at + 1, EndsArm);
            Arm(lines, key) == Some(lines[at + 1..if end.Some? then end.value else |lines|])
  {
    hide OpensFunction, OpensArm, EndsArm, FirstLine;
  }

  /** How far the scan for an arm has come: before the function, inside it, or inside the arm. */
  ghost predicate Scanning(lines: seq<string>, key: string, i: nat, insideFunction: bool, insideArm: bool, opening: nat,
                           at: nat, collected: seq<string>) {
    i <= |lines| &&
    if !insideFunction then !insideArm && collected == [] && forall k | 0 <= k < i :: !OpensFunction(lines[k])
    else
      opening < i && FirstLine(lines, 0, OpensFunction) == Some(opening) &&
      if !insideArm then collected == [] && forall k | opening < k < i :: !OpensArm(key)(lines[k])
      else
        at < i && FirstLine(lines, opening + 1, OpensArm(key)) == Some(at) && collected == lines[at + 1..i] &&
        forall k | at < k < i :: !EndsArm(lines[k])
  }

  lemma ScanOutside(lines: seq<string>, key: string, i: nat, opening: nat, at: nat)
    requires i < |lines| && Scanning(lines, key, i, false, false, opening, at, [])
    ensures if OpensFunction(lines[i]) then Scanning(lines, key, i + 1, true, false, i, at, [])
            else Scanning(lines, key, i + 1, false, false, opening, at, [])
  {
  }

  lemma ScanFunction(lines: seq<string>, key: string, i: nat, opening: nat, at: nat)
    requires i < |lines| && Scanning(lines, key, i, true, false, opening, at, [])
    ensures if OpensArm(key)(lines[i]) then Scanning(lines, key, i + 1, true, true, opening, i, [])
            else Scanning(lines, key, i + 1, true, false, opening, at, [])
  {
    hide OpensFunction, OpensArm, EndsArm;
    if OpensArm(key)(lines[i]) {
      FirstLineIs(lines, opening + 1, OpensArm(key), i);
    }
  }

  lemma ScanArm(lines: seq<string>, key: string, i: nat, opening: nat, at: nat, collected: seq<string>)
    requires i < |lines| && Scanning(lines, key, i, true, true, opening, at, collected)
    ensures if EndsArm(lines[i]) then Arm(lines, key) == Some(collected)
            else Scanning(lines, key, i + 1, true, true, opening, at, collected + [lines[i]])
  {
    hide OpensFunction, OpensArm, EndsArm;
    if EndsArm(lines[i]) {
      FirstLineIs(lines, at + 1, EndsArm, i);
      ArmIs(lines, key, opening, at);
    }
  }

  lemma ScanEnds(lines: seq<string>, key: string, insideFunction: bool, insideArm: bool, opening: nat, at: nat,
                 collected: seq<string>)
    requires Scanning(lines, key, |lines|, insideFunction, insideArm, opening, at, collected)
    ensures Arm(lines, key) == if insideArm then Some(collected) else None
  {
    hide OpensFunction, OpensArm, EndsArm;
    if insideArm {
      ArmIs(lines, key, opening, at);
    }
  }

  method CollectArmLines(lines: seq<string>, key: string) returns (arm: Option<seq<string>>)
    ensures arm == Arm(lines, key)
  {
    hide OpensFunction, EndsArm, FirstLine, Arm, Scanning;
    var insideFunction, insideArm := false, false;
    var collected: seq<string> := [];
    ghost var opening: nat, at: nat := 0, 0;
    ScanStarts(lines, key);
    for i := 0 to |lines|
      invariant insideArm ==> insideFunction
      invariant !insideArm ==> collected == []
      invariant Scanning(lines, key, i, insideFunction, insideArm, opening, at, collected)
    {
      if !insideFunction {
        ScanOutside(lines, key, i, opening, at);
        if OpensFunction(lines[i]) {
          insideFunction, opening := true, i;
        }
        continue;
      }
      if !insideArm {
        ScanFunction(lines, key, i, opening, at);
        if OpensArm(key)(lines[i]) {
          insideArm, at := true, i;
        }
        continue;
      }
      ScanArm(lines, key, i, opening, at, collected);
      if EndsArm(lines[i]) {
        return Some(collected);
      }
      collected := collected + [lines[i]];
    }
    ScanEnds(lines, key, insideFunction, insideArm, opening, at, collected);
    arm := if insideArm then Some(collected) else None;
  }

  lemma ScanStarts(lines: seq<string>, key: string)
    ensures Scanning(lines, key, 0, false, false, 0, 0, [])
  {
  }

  /** The lines between an unquoted opener and the first bare end line; a quoted opener on the way is refused. */
  function Heredoc(arm: seq<string>, key: string): Result<string, Failure> {
    var opener, quoted := FirstLine(arm, 0, OpensHeredoc), FirstLine(arm, 0, OpensQuoted);
    if quoted.Some? && (opener.None? || quoted.value < opener.value) then Err(QuotedHeredoc(key))
    else if opener.None? then Err(NoHeredoc(key))
    else
      var end := FirstLine(arm, opener.value + 1, EndsHeredoc);
      if end.None? then Err(NoHeredoc(key)) else Ok(Join(arm[opener.value + 1..end.value]))
  }

  method HeredocBody(arm: seq<string>, key: string) returns (body: Result<string, Failure>)
    ensures body == Heredoc(arm, key)
  {
    hide Trim, OpensHeredoc, OpensQuoted, EndsHeredoc, Join;
    var insideHeredoc := false;
    var collected: seq<string> := [];
    ghost var opener: nat := 0;
    for i := 0 to |arm|
      invariant !insideHeredoc ==> forall k | 0 <= k < i :: !OpensHeredoc(arm[k]) && !OpensQuoted(arm[k])
      invariant insideHeredoc ==> opener < i && FirstLine(arm, 0, OpensHeredoc) == Some(opener)
      invariant insideHeredoc ==> forall k | 0 <= k < opener :: !OpensQuoted(arm[k])
      invariant insideHeredoc ==> collected == arm[opener + 1..i] && forall k | opener < k < i :: !EndsHeredoc(arm[k])
      invariant !insideHeredoc ==> collected == []
    {
      if insideHeredoc {
        if EndsHeredoc(arm[i]) {
          FirstLineIs(arm, opener + 1, EndsHeredoc, i);
          return Ok(Join(collected));
        }
        SliceGrows(arm, opener + 1, i);
        collected := collected + [arm[i]];
        continue;
      }
      if OpensHeredoc(arm[i]) {
        FirstLineIs(arm, 0, OpensHeredoc, i);
        insideHeredoc, opener := true, i;
        continue;
      }
      if OpensQuoted(arm[i]) {
        FirstLineIs(arm, 0, OpensQuoted, i);
        return Err(QuotedHeredoc(key));
      }
    }
    body := Err(NoHeredoc(key));
  }

  method ExtractDriverRecipe(driverSource: string, key: string) returns (recipe: Result<string, Failure>)
    ensures recipe == DriverRecipe(driverSource, key)
  {
    var arm := CollectArmLines(Lines(driverSource), key);
    if arm.None? {
      return Err(NoArm(key));
    }
    recipe := HeredocBody(arm.value, key);
  }

  function DriverRecipe(driverSource: string, key: string): Result<string, Failure> {
    var arm := Arm(Lines(driverSource), key);
    if arm.None? then Err(NoArm(key)) else Heredoc(arm.value, key)
  }

  // ---- The generator ----

  datatype Baseline = Baseline(key: string, path: string)

  const BASELINES := [
    Baseline("lint-ratchet", "lint-ratchet.baseline.json"),
    Baseline("knip-unused-exports", "sensor-knip-unused-exports.baseline.json"),
    Baseline("near-duplicates", "sensor-near-duplicates.baseline.json"),
    Baseline("max-lines-exceptions", "eslint-config/max-lines-exceptions.baseline.json")
  ]

  /** Every occurrence of `part` replaced, left to right. */
  function ReplaceAll(s: string, part: string, filler: string): string
    requires part != ""
    decreases |s|
  {
    if s == "" then ""
    else if OccursAt(part, s, 0) then filler + ReplaceAll(s[|part|..], part, filler)
    else [s[0]] + ReplaceAll(s[1..], part, filler)
  }

  /** The ratchet's recipe comes from its own renderer, every other from the driver with `$path` filled in. */
  function RecipeOf(driverSource: string, renderRatchet: string -> string, baseline: Baseline)
      : Result<string, Failure>
  {
    if baseline.key == "lint-ratchet" then Ok(renderRatchet(baseline.path))
    else
      var recipe := DriverRecipe(driverSource, baseline.key);
      if recipe.Err? then recipe else Ok(ReplaceAll(recipe.value, "$path", baseline.path))
  }

  function SpliceBaselines(doc: string, driverSource: string, renderRatchet: string -> string,
                           baselines: seq<Baseline>)
      : Result<string, Failure>
    decreases |baselines|
  {
    if baselines == [] then Ok(doc)
    else
      var recipe := RecipeOf(driverSource, renderRatchet, baselines[0]);
      if recipe.Err? then Err(recipe.error)
      else
        var after := Splice(doc, baselines[0].key, recipe.value);
        if after.None? then Err(MissingMarkers(baselines[0].key))
        else SpliceBaselines(after.value, driverSource, renderRatchet, baselines[1..])
  }

  method SpliceRecipeBlocks(currentDoc: string, driverSource: string, renderRatchet: string -> string)
      returns (rendered: Result<string, Failure>)
    ensures rendered == SpliceBaselines(currentDoc, driverSource, renderRatchet, BASELINES)
  {
    var doc := currentDoc;
    for i := 0 to |BASELINES|
      invariant SpliceBaselines(doc, driverSource, renderRatchet, BASELINES[i..]) ==
                SpliceBaselines(currentDoc, driverSource, renderRatchet, BASELINES)
    {
      var baseline := BASELINES[i];
      var recipe: Result<string, Failure>;
      if baseline.key == "lint-ratchet" {
        recipe := Ok(renderRatchet(baseline.path));
      } else {
        recipe := ExtractDriverRecipe(driverSource, baseline.key);
        if recipe.Ok? {
          recipe := Ok(ReplaceAll(recipe.value, "$path", baseline.path));
        }
      }
      assert BASELINES[i..][0] == baseline && BASELINES[i..][1..] == BASELINES[i + 1..];
      if recipe.Err? {
        return recipe;
      }
      var span := Region(doc, baseline.key);
      if span.None? {
        return Err(MissingMarkers(baseline.key));
      }
      doc := Replace(doc, span.value, Block(baseline.key, recipe.value));
    }
    rendered := Ok(doc);
  }

  // ---- Running the generator again ----

  /** The recipes of the baselines, where all can be had. */
  ghost predicate AreRecipes(driverSource: string, renderRatchet: string -> string, baselines: seq<Baseline>,
                             entries: seq<Entry>) {
    |entries| == |baselines| &&
    forall i | 0 <= i < |baselines| ::
      entries[i].key == baselines[i].key && RecipeOf(driverSource, renderRatchet, baselines[i]) == Ok(entries[i].recipe)
  }

  lemma {:induction false} BaselinesAreEntries(doc: string, driverSource: string, renderRatchet: string -> string,
                                               baselines: seq<Baseline>, entries: seq<Entry>)
    requires AreRecipes(driverSource, renderRatchet, baselines, entries) && SpliceAll(doc, entries).Some?
    ensures SpliceBaselines(doc, driverSource, renderRatchet, baselines) == Ok(SpliceAll(doc, entries).value)
    decreases |baselines|
  {
    hide Splice, RecipeOf;
    if baselines != [] {
      BaselinesAreEntries(Splice(doc, entries[0].key, entries[0].recipe).value, driverSource, renderRatchet,
                          baselines[1..], entries[1..]);
    }
  }

  lemma BaselineKeysAreDistinct()
    ensures forall i, j | 0 <= i < j < |BASELINES| :: BASELINES[i].key != BASELINES[j].key
  {
  }

  lemma BaselineKeysArePlain()
    ensures forall key | key in BaselineKeys() :: PlainKey(key)
  {
    hide PlainKey;
    LiteralKeysArePlain();
    forall key | key in BaselineKeys() ensures PlainKey(key) {
      var i :| 0 <= i < |BASELINES| && BASELINES[i].key == key;
    }
  }

  lemma LiteralKeysArePlain()
    ensures PlainKey("lint-ratchet") && PlainKey("knip-unused-exports")
    ensures PlainKey("near-duplicates") && PlainKey("max-lines-exceptions")
  {
  }

  ghost function BaselineKeys(): set<string> {
    set i | 0 <= i < |BASELINES| :: BASELINES[i].key
  }

  /**
   On a runbook whose regions do not overlap, with recipes free of markers, the
   generator succeeds; a second run with the same driver changes nothing; every
   region reads back as its recipe; and whatever recipes are spliced over the
   result, it is as if they had been spliced over the runbook itself.
   */
  lemma GeneratorIsStable(doc: string, driverSource: string, renderRatchet: string -> string, entries: seq<Entry>,
                          others: seq<Entry>)
    requires AreRecipes(driverSource, renderRatchet, BASELINES, entries) && Marked(doc, BaselineKeys())
    requires forall e | e in entries :: CleanRecipe(e.recipe, BaselineKeys())
    requires SameKeys(entries, others) && forall e | e in others :: CleanRecipe(e.recipe, BaselineKeys())
    ensures SpliceBaselines(doc, driverSource, renderRatchet, BASELINES).Ok?
    ensures var rendered := SpliceBaselines(doc, driverSource, renderRatchet, BASELINES).value;
            SpliceBaselines(rendered, driverSource, renderRatchet, BASELINES) == Ok(rendered) &&
            (forall e | e in entries :: ReadRecipe(rendered, e.key) == Some(e.recipe)) &&
            Outside(rendered, BaselineKeys()) == Outside(doc, BaselineKeys()) &&
            SpliceAll(rendered, others) == SpliceAll(doc, others)
  {
    var keys := BaselineKeys();
    assert WellMarked(doc, keys) by {
      BaselineKeysArePlain();
    }
    hide WellMarked, Marked, CleanRecipe, RecipeOf, Splice, ReadRecipe, Outside;
    EntriesAreClean(entries, keys);
    EntriesAreClean(others, keys);
    SpliceAllKeepsMarked(doc, keys, entries);
    BaselinesAreEntries(doc, driverSource, renderRatchet, BASELINES, entries);
    var rendered := SpliceAll(doc, entries).value;
    LastSpliceWins(doc, keys, entries, entries);
    BaselinesAreEntries(rendered, driverSource, renderRatchet, BASELINES, entries);
    LastSpliceWins(doc, keys, entries, others);
    NothingOutsideChanges(doc, keys, entries);
    forall e | e in entries ensures ReadRecipe(rendered, e.key) == Some(e.recipe) {
      AllReadBack(doc, keys, entries, e);
    }
  }

  lemma EntriesAreClean(entries: seq<Entry>, keys: set<string>)
    requires keys == BaselineKeys() && |entries| == |BASELINES|
    requires forall i | 0 <= i < |BASELINES| :: entries[i].key == BASELINES[i].key
    requires forall e | e in entries :: CleanRecipe(e.recipe, keys)
    ensures CleanEntries(entries, keys)
  {
    hide CleanRecipe;
    BaselineKeysAreDistinct();
    forall e | e in entries ensures e.key in keys {
      var i :| 0 <= i < |entries| && entries[i] == e;
    }
  }
}
