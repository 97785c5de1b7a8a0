/**
  The context line of a word suggestion: every word is paired with the
  smallest line box that contains the word's centre, and the suggestion list
  shows that line's text (clipped) under the word.
 */
module WordContext {
  import opened Normalizer
  import opened Corpus
  import opened Options
  import opened Snippet

  /** The centre of `word` lies in `line`, bounds included. Doubling both
      sides keeps `x + w / 2` in the integers. */
  predicate ContainsCentre(word: BBox, line: BBox)
  {
    && 2 * line.x <= 2 * word.x + word.w <= 2 * (line.x + line.w)
    && 2 * line.y <= 2 * word.y + word.h <= 2 * (line.y + line.h)
  }

  function Area(b: BBox): int
  {
    b.w * b.h
  }

  /** Line k is the one the word is paired with: it contains the word's
      centre, no containing line is smaller, and every containing line
      before it is strictly larger (the first one wins a tie). */
  predicate IsBest(word: BBox, lines: seq<Entry>, k: nat)
  {
    && k < |lines|
    && ContainsCentre(word, lines[k].bbox)
    && (forall j | 0 <= j < |lines| && ContainsCentre(word, lines[j].bbox) :: Area(lines[k].bbox) <= Area(lines[j].bbox))
    && (forall j | 0 <= j < k && ContainsCentre(word, lines[j].bbox) :: Area(lines[k].bbox) < Area(lines[j].bbox))
  }

  /** The line a scan over `lines` selects for a word: a line replaces the
      current choice only when it is strictly smaller. The result is the
      best line, and there is none exactly when no line contains the
      word's centre. */
  function BestLine(word: BBox, lines: seq<Entry>): (r: Option<nat>)
    ensures r.None? <==> forall j | 0 <= j < |lines| :: !ContainsCentre(word, lines[j].bbox)
    ensures r.Some? ==> IsBest(word, lines, r.value)
    decreases |lines|
  {
    if |lines| == 0 then None
    else
      var n := |lines| - 1;
      var p := BestLine(word, lines[..n]);
      assert forall j | 0 <= j < n :: lines[..n][j] == lines[j];
      if ContainsCentre(word, lines[n].bbox) && (p.None? || Area(lines[n].bbox) < Area(lines[p.value].bbox)) then
        Some(n)
      else p
  }

  /** The paired line is unique. */
  lemma BestIsUnique(word: BBox, lines: seq<Entry>, k: nat, k': nat)
    requires IsBest(word, lines, k) && IsBest(word, lines, k')
    ensures k == k'
  {
  }

  /** The map the explorer builds, entry by entry: a word with a containing
      line maps its id to that line's text (a later word with the same id
      overwrites), a word without one adds nothing, other entries are
      skipped. Every key is the id of some word. */
  function ContextMap(entries: seq<Entry>, lines: seq<Entry>): (m: map<string, string>)
    ensures forall id <- m :: exists e <- entries :: e.kind == Word && e.id == id
    decreases |entries|
  {
    if |entries| == 0 then map[]
    else
      var n := |entries| - 1;
      var m := ContextMap(entries[..n], lines);
      assert forall e <- entries[..n] :: e in entries;
      var e := entries[n];
      if e.kind != Word then m
      else match BestLine(e.bbox, lines) {
        case None => m
        case Some(k) => m[e.id := lines[k].text]
      }
  }

  /** `wordContextMap`: for each word entry, the line the scan selects is
      recorded under the word's id. */
  method WordContextMap(entries: seq<Entry>) returns (m: map<string, string>)
    ensures m == ContextMap(entries, OfKind(entries, Line))
  {
    var lines := OfKind(entries, Line);
    m := map[];
    var i := 0;
    while i < |entries|
      invariant 0 <= i <= |entries|
      invariant m == ContextMap(entries[..i], lines)
    {
      var entry := entries[i];
      assert entries[..i + 1][..i] == entries[..i];
      if entry.kind == Word {
        var selectedLine := SelectLine(entry.bbox, lines);
        if selectedLine.Some? {
          m := m[entry.id := selectedLine.value.text];
        }
      }
      i := i + 1;
    }
    assert entries[..i] == entries;
  }

  /** The inner scan of `wordContextMap` with `selectedLine` and
      `selectedArea` (None standing for the initial
      `Number.POSITIVE_INFINITY`). */
  method SelectLine(word: BBox, lines: seq<Entry>) returns (selectedLine: Option<Entry>)
    ensures selectedLine.None? <==> BestLine(word, lines).None?
    ensures selectedLine.Some? ==> selectedLine.value == lines[BestLine(word, lines).value]
  {
    selectedLine := None;
    var selectedArea: Option<int> := None;
    var j := 0;
    while j < |lines|
      invariant 0 <= j <= |lines|
      invariant BestLine(word, lines[..j]).None? ==> selectedLine.None? && selectedArea.None?
      invariant BestLine(word, lines[..j]).Some? ==>
        var k := BestLine(word, lines[..j]).value;
        k < j && selectedLine == Some(lines[k]) && selectedArea == Some(Area(lines[k].bbox))
    {
      var line := lines[j];
      assert lines[..j + 1][..j] == lines[..j];
      if ContainsCentre(word, line.bbox) {
        var area := Area(line.bbox);
        if selectedArea.None? || area < selectedArea.value {
          selectedArea := Some(area);
          selectedLine := Some(line);
        }
      }
      j := j + 1;
    }
    assert lines[..j] == lines;
  }

  /** What the map says about a word whose id no other word shares: it holds
      the word exactly when a best line exists, and maps it to that line's
      text. */
  lemma {:induction false} ContextMapOfWord(entries: seq<Entry>, lines: seq<Entry>, i: nat)
    requires i < |entries| && entries[i].kind == Word
    requires forall j | 0 <= j < |entries| && j != i && entries[j].kind == Word :: entries[j].id != entries[i].id
    ensures entries[i].id in ContextMap(entries, lines) <==> BestLine(entries[i].bbox, lines).Some?
    ensures entries[i].id in ContextMap(entries, lines) ==>
      ContextMap(entries, lines)[entries[i].id] == lines[BestLine(entries[i].bbox, lines).value].text
    decreases |entries|
  {
    var n := |entries| - 1;
    var w := entries[i];
    var prefix := entries[..n];
    var before := ContextMap(prefix, lines);
    var last := entries[n];
    var best := BestLine(last.bbox, lines);
    assert ContextMap(entries, lines) ==
      if last.kind != Word || best.None? then before else before[last.id := lines[best.value].text];
    if i == n {
      forall e <- prefix | e.kind == Word
        ensures e.id != w.id
      {
        var j :| 0 <= j < n && prefix[j] == e;
        assert entries[j] == e;
      }
      assert w.id !in before;
    } else {
      assert prefix[i] == w;
      assert forall j | 0 <= j < n :: prefix[j] == entries[j];
      ContextMapOfWord(prefix, lines, i);
      assert last.kind == Word ==> last.id != w.id;
    }
  }

  /** The text a suggestion's context is cut from: the paired line's text
      for a word that has one, the entry's own text otherwise. */
  function ContextSource(m: map<string, string>, e: Entry): string
  {
    if e.kind == Word && e.id in m then m[e.id] else e.text
  }

  /** `getSuggestionContext`: the context source clipped to 78 characters
      around the normalised query's first token. */
  function SuggestionContext(u: Unicode, m: map<string, string>, e: Entry, normalizedQuery: string): (r: string)
    ensures |r| <= DefaultMaxLength + 6
  {
    ClipContext(u, ContextSource(m, e), normalizedQuery, DefaultMaxLength)
  }

  /** The context source of an entry: a line entry's own text; for a word
      whose id no other word shares, the text of the smallest line containing
      its centre (the first one on a tie), or its own text when no line
      contains it. */
  lemma ContextSourceOfEntry(entries: seq<Entry>, i: nat)
    requires i < |entries|
    requires forall j | 0 <= j < |entries| && j != i && entries[j].kind == Word :: entries[j].id != entries[i].id
    ensures var lines := OfKind(entries, Line);
      var e := entries[i];
      var src := ContextSource(ContextMap(entries, lines), e);
      && (e.kind == Line ==> src == e.text)
      && (e.kind == Word && (forall j | 0 <= j < |lines| :: !ContainsCentre(e.bbox, lines[j].bbox)) ==> src == e.text)
      && (forall k: nat | e.kind == Word && IsBest(e.bbox, lines, k) :: src == lines[k].text)
  {
    if entries[i].kind == Word {
      var lines := OfKind(entries, Line);
      ContextMapOfWord(entries, lines, i);
      var best := BestLine(entries[i].bbox, lines);
      forall k: nat | IsBest(entries[i].bbox, lines, k)
        ensures best == Some(k)
      {
        BestIsUnique(entries[i].bbox, lines, k, best.value);
      }
    }
  }
}
