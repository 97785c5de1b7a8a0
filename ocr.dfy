/**
  `groupLines` of the OCR ingestion script: Tesseract's word rows grouped
  into text lines, each line emitted as a line entry with the union of its
  word boxes and the mean confidence, followed by entries for its words.
  The numeric columns arrive already converted by `Number()`.
 */
module Ocr {
  import opened JsString
  import opened Normalizer
  import opened Corpus

  /** One TSV row as `groupLines` reads it: `level`, `conf` and the pixel
      columns as numbers, `text` and the four key columns as written (an
      absent column being ""). */
  datatype WordRow = WordRow(
    level: int,
    text: string,
    conf: real,
    pageNum: string,
    blockNum: string,
    parNum: string,
    lineNum: string,
    left: int,
    top: int,
    width: int,
    height: int,
    wordNum: int)

  /** The object pushed into a group. */
  datatype LineWord = LineWord(text: string, conf: real, left: int, top: int, width: int, height: int, wordNum: int)

  /** Rows that survive the filter: word level (5), some text after
      trimming, confidence at least 20. */
  predicate Kept(r: WordRow)
  {
    r.level == 5 && Trim(r.text) != "" && !(r.conf < 20.0)
  }

  /** `[page_num, block_num, par_num, line_num].join(":")`. */
  function KeyOf(r: WordRow): string
  {
    Join([r.pageNum, r.blockNum, r.parNum, r.lineNum], ":")
  }

  function WordOf(r: WordRow): LineWord
  {
    LineWord(Trim(r.text), r.conf, r.left, r.top, r.width, r.height, r.wordNum)
  }

  /** The `Map` of groups: its keys in insertion order, and the words under
      each key. */
  datatype Groups = Groups(order: seq<string>, words: map<string, seq<LineWord>>)

  ghost predicate WellFormed(gs: Groups)
  {
    && (forall i, j | 0 <= i < j < |gs.order| :: gs.order[i] != gs.order[j])
    && (forall k :: k in gs.words <==> k in gs.order)
  }

  /** `if (!groups.has(key)) groups.set(key, []); groups.get(key).push(w)`. */
  function Add(gs: Groups, key: string, w: LineWord): Groups
  {
    if key in gs.words then gs.(words := gs.words[key := gs.words[key] + [w]])
    else Groups(gs.order + [key], gs.words[key := [w]])
  }

  /** A kept row's key and word. */
  datatype Tagged = Tagged(key: string, word: LineWord)

  /** The kept rows, in input order, with their keys. */
  function Tag(rows: seq<WordRow>): (ts: seq<Tagged>)
    decreases |rows|
  {
    if |rows| == 0 then []
    else
      var n := |rows| - 1;
      Tag(rows[..n]) + (if Kept(rows[n]) then [Tagged(KeyOf(rows[n]), WordOf(rows[n]))] else [])
  }

  /** The kept rows are exactly the rows the filter lets through. */
  lemma {:induction false} TagIsFilter(rows: seq<WordRow>)
    ensures forall t <- Tag(rows) :: exists r <- rows :: Kept(r) && t == Tagged(KeyOf(r), WordOf(r))
    ensures forall r <- rows :: Kept(r) ==> Tagged(KeyOf(r), WordOf(r)) in Tag(rows)
    decreases |rows|
  {
    if |rows| > 0 {
      var n := |rows| - 1;
      TagIsFilter(rows[..n]);
      assert forall r <- rows[..n] :: r in rows;
      assert forall r <- rows :: r in rows[..n] || r == rows[n];
    }
  }

  /** Grouping the tagged words, one `push` at a time. */
  function GroupTagged(ts: seq<Tagged>): Groups
    decreases |ts|
  {
    if |ts| == 0 then Groups([], map[])
    else
      var n := |ts| - 1;
      Add(GroupTagged(ts[..n]), ts[n].key, ts[n].word)
  }

  /** Each key is listed once in the key order, and the listed keys are
      exactly the keys of the map. */
  lemma {:induction false} GroupTaggedWellFormed(ts: seq<Tagged>)
    ensures WellFormed(GroupTagged(ts))
    decreases |ts|
  {
    if |ts| > 0 {
      GroupTaggedWellFormed(ts[..|ts| - 1]);
    }
  }

  /** The groups after the first loop of `groupLines`. */
  function Grouped(rows: seq<WordRow>): (gs: Groups)
    ensures WellFormed(gs)
  {
    GroupTaggedWellFormed(Tag(rows));
    GroupTagged(Tag(rows))
  }

  /** The first loop of `groupLines`. */
  method GroupRows(wordRows: seq<WordRow>) returns (groups: Groups)
    ensures groups == Grouped(wordRows)
  {
    groups := Groups([], map[]);
    var i := 0;
    while i < |wordRows|
      invariant i <= |wordRows|
      invariant groups == GroupTagged(Tag(wordRows[..i]))
    {
      var row := wordRows[i];
      ghost var ts := Tag(wordRows[..i]);
      TagStep(wordRows, i);
      var text := Trim(row.text);
      if row.level != 5 || text == "" || row.conf < 20.0 {
        assert !Kept(row) && Tag(wordRows[..i + 1]) == ts + [];
        assert ts + [] == ts;
        i := i + 1;
        continue;
      }
      var key := KeyOf(row);
      assert Kept(row) && Tag(wordRows[..i + 1]) == ts + [Tagged(key, WordOf(row))];
      GroupTaggedSnoc(ts, Tagged(key, WordOf(row)));
      groups := Push(groups, key, WordOf(row));
      i := i + 1;
    }
    assert wordRows[..i] == wordRows;
  }

  /** Tagging one more row adds its tag when the row is kept. */
  lemma TagStep(rows: seq<WordRow>, i: nat)
    requires i < |rows|
    ensures Tag(rows[..i + 1])
      == Tag(rows[..i]) + (if Kept(rows[i]) then [Tagged(KeyOf(rows[i]), WordOf(rows[i]))] else [])
  {
    assert rows[..i + 1][..i] == rows[..i];
  }

  /** Grouping one more tagged word pushes it. */
  lemma GroupTaggedSnoc(ts: seq<Tagged>, t: Tagged)
    ensures GroupTagged(ts + [t]) == Add(GroupTagged(ts), t.key, t.word)
  {
    assert (ts + [t])[..|ts|] == ts;
  }

  /** `if (!groups.has(key)) groups.set(key, []); groups.get(key).push(w)`,
      on the map and its key order. */
  method Push(groups: Groups, key: string, w: LineWord) returns (groups': Groups)
    ensures groups' == Add(groups, key, w)
  {
    var g := groups;
    if key !in g.words {
      g := Groups(g.order + [key], g.words[key := []]);
      assert g.words[key] + [w] == [w];
    }
    groups' := g.(words := g.words[key := g.words[key] + [w]]);
  }

  /** The words tagged with a given key, in order. */
  function WordsWithKey(ts: seq<Tagged>, key: string): seq<LineWord>
    decreases |ts|
  {
    if |ts| == 0 then []
    else
      var n := |ts| - 1;
      WordsWithKey(ts[..n], key) + (if ts[n].key == key then [ts[n].word] else [])
  }

  /** The position of the first word tagged with a given key. */
  function FirstTagged(ts: seq<Tagged>, key: string): (i: nat)
    requires exists j | 0 <= j < |ts| :: ts[j].key == key
    ensures i < |ts| && ts[i].key == key
    ensures forall j | 0 <= j < i :: ts[j].key != key
    decreases |ts|
  {
    if ts[0].key == key then 0
    else
      assert exists j | 0 <= j < |ts[1..]| :: ts[1..][j].key == key by {
        var j :| 0 <= j < |ts| && ts[j].key == key;
        assert ts[1..][j - 1] == ts[j];
      }
      1 + FirstTagged(ts[1..], key)
  }

  /** Rows sharing a key land in one group, holding exactly the kept rows
      with that key in input order; there is a group for every key of a
      kept row and for no other. */
  lemma {:induction false} GroupContents(ts: seq<Tagged>, key: string)
    ensures key in GroupTagged(ts).words <==> exists j | 0 <= j < |ts| :: ts[j].key == key
    ensures key in GroupTagged(ts).words ==> GroupTagged(ts).words[key] == WordsWithKey(ts, key)
    ensures key !in GroupTagged(ts).words ==> WordsWithKey(ts, key) == []
    decreases |ts|
  {
    if |ts| > 0 {
      var n := |ts| - 1;
      var before, t := GroupTagged(ts[..n]), ts[n];
      GroupContents(ts[..n], key);
      AddLookup(before, t.key, t.word, key);
      assert (exists j | 0 <= j < |ts| :: ts[j].key == key)
        <==> (exists j | 0 <= j < n :: ts[..n][j].key == key) || t.key == key
      by {
        assert forall j | 0 <= j < n :: ts[..n][j] == ts[j];
      }
    }
  }

  /** After a push, a key has a group when it had one or was pushed to, and
      the group gains the pushed word exactly when its key is the pushed one. */
  lemma AddLookup(gs: Groups, k: string, w: LineWord, key: string)
    ensures key in Add(gs, k, w).words <==> key in gs.words || key == k
    ensures key in Add(gs, k, w).words ==>
      Add(gs, k, w).words[key] == (if key in gs.words then gs.words[key] else []) + (if key == k then [w] else [])
  {
  }

  lemma FirstTaggedOfPrefix(ts: seq<Tagged>, n: nat, key: string)
    requires n <= |ts|
    requires exists j | 0 <= j < n :: ts[j].key == key
    ensures exists j | 0 <= j < |ts[..n]| :: ts[..n][j].key == key
    ensures FirstTagged(ts, key) == FirstTagged(ts[..n], key)
  {
    var j :| 0 <= j < n && ts[j].key == key;
    assert ts[..n][j] == ts[j];
    var f := FirstTagged(ts[..n], key);
    assert ts[..n][f] == ts[f];
  }

  /** Groups come in the order their keys first appear among the kept
      rows. */
  lemma {:induction false} GroupsInFirstSeenOrder(ts: seq<Tagged>, a: nat, b: nat)
    requires a < b < |GroupTagged(ts).order|
    ensures var order := GroupTagged(ts).order;
      && (exists j | 0 <= j < |ts| :: ts[j].key == order[a])
      && (exists j | 0 <= j < |ts| :: ts[j].key == order[b])
      && FirstTagged(ts, order[a]) < FirstTagged(ts, order[b])
    decreases |ts|
  {
    var n := |ts| - 1;
    var before := GroupTagged(ts[..n]);
    assert GroupTagged(ts).order == before.order + (if ts[n].key in before.words then [] else [ts[n].key]);
    OldKeyStep(ts, a);
    if b < |before.order| {
      OldKeyStep(ts, b);
      GroupsInFirstSeenOrder(ts[..n], a, b);
    } else {
      NewKeyStep(ts);
      assert GroupTagged(ts).order[b] == ts[n].key;
      assert 0 <= n < |ts| && ts[n].key == GroupTagged(ts).order[b];
    }
  }

  /** A key already grouped before the last word keeps its place, and its
      first word comes before the last one. */
  lemma OldKeyStep(ts: seq<Tagged>, i: nat)
    requires |ts| > 0 && i < |GroupTagged(ts[..|ts| - 1]).order|
    ensures var n := |ts| - 1;
      var order := GroupTagged(ts).order;
      var key := GroupTagged(ts[..n]).order[i];
      && i < |order| && order[i] == key
      && (exists j | 0 <= j < n :: ts[j].key == key)
      && (exists j | 0 <= j < |ts| :: ts[j].key == key)
      && (exists j | 0 <= j < |ts[..n]| :: ts[..n][j].key == key)
      && FirstTagged(ts, key) == FirstTagged(ts[..n], key) < n
  {
    var n := |ts| - 1;
    var before := GroupTagged(ts[..n]);
    var key := before.order[i];
    assert GroupTagged(ts).order == before.order + (if ts[n].key in before.words then [] else [ts[n].key]);
    GroupTaggedWellFormed(ts[..n]);
    assert key in before.words;
    GroupContents(ts[..n], key);
    var j :| 0 <= j < n && ts[..n][j].key == key;
    assert ts[j] == ts[..n][j];
    FirstTaggedOfPrefix(ts, n, key);
  }

  /** A key first seen in the last word is appended to the key order, and
      its first word is that last one. */
  lemma NewKeyStep(ts: seq<Tagged>)
    requires |ts| > 0 && |GroupTagged(ts).order| > |GroupTagged(ts[..|ts| - 1]).order|
    ensures var n := |ts| - 1;
      var order := GroupTagged(ts).order;
      && order[|GroupTagged(ts[..n]).order|] == ts[n].key
      && FirstTagged(ts, ts[n].key) == n
  {
    var n := |ts| - 1;
    var before, t := GroupTagged(ts[..n]), ts[n];
    assert t.key !in before.words;
    GroupContents(ts[..n], t.key);
    forall j | 0 <= j < n
      ensures ts[j].key != t.key
    {
      assert ts[..n][j] == ts[j];
    }
  }

  // Within a group: `words.sort((a, b) => a.wordNum - b.wordNum)`, a stable
  // sort, taken one insertion at a time.

  predicate SortedByWordNum(ws: seq<LineWord>)
  {
    forall i, j | 0 <= i < j < |ws| :: ws[i].wordNum <= ws[j].wordNum
  }

  /** The words with a given number, in order. */
  function WithWordNum(ws: seq<LineWord>, v: int): seq<LineWord>
  {
    if |ws| == 0 then []
    else (if ws[0].wordNum == v then [ws[0]] else []) + WithWordNum(ws[1..], v)
  }

  lemma {:induction false} WithWordNumAppend(a: seq<LineWord>, b: seq<LineWord>, v: int)
    ensures WithWordNum(a + b, v) == WithWordNum(a, v) + WithWordNum(b, v)
    decreases |a|
  {
    if |a| > 0 {
      assert (a + b)[1..] == a[1..] + b;
      WithWordNumAppend(a[1..], b, v);
    } else {
      assert a + b == b;
    }
  }

  /** `w` placed after every word whose number is not larger. */
  function InsertByWordNum(sorted: seq<LineWord>, w: LineWord): (r: seq<LineWord>)
    decreases |sorted|
  {
    if |sorted| == 0 then [w]
    else if sorted[0].wordNum <= w.wordNum then [sorted[0]] + InsertByWordNum(sorted[1..], w)
    else [w] + sorted
  }

  lemma {:induction false} InsertByWordNumCounts(sorted: seq<LineWord>, w: LineWord)
    ensures multiset(InsertByWordNum(sorted, w)) == multiset(sorted) + multiset{w}
    decreases |sorted|
  {
    if |sorted| > 0 && sorted[0].wordNum <= w.wordNum {
      InsertByWordNumCounts(sorted[1..], w);
      assert sorted == [sorted[0]] + sorted[1..];
    }
  }

  lemma {:induction false} InsertByWordNumSorted(sorted: seq<LineWord>, w: LineWord)
    requires SortedByWordNum(sorted)
    ensures SortedByWordNum(InsertByWordNum(sorted, w))
    decreases |sorted|
  {
    if |sorted| > 0 && sorted[0].wordNum <= w.wordNum {
      var rest := InsertByWordNum(sorted[1..], w);
      InsertByWordNumSorted(sorted[1..], w);
      InsertByWordNumAbove(sorted[1..], w, sorted[0].wordNum);
      SortedCons(sorted[0], rest);
    } else if |sorted| > 0 {
      SortedCons(w, sorted);
    }
  }

  /** Inserting keeps every number at or above a bound both sides meet. */
  lemma {:induction false} InsertByWordNumAbove(sorted: seq<LineWord>, w: LineWord, lo: int)
    requires forall i | 0 <= i < |sorted| :: lo <= sorted[i].wordNum
    requires lo <= w.wordNum
    ensures forall i | 0 <= i < |InsertByWordNum(sorted, w)| :: lo <= InsertByWordNum(sorted, w)[i].wordNum
    decreases |sorted|
  {
    if |sorted| > 0 && sorted[0].wordNum <= w.wordNum {
      InsertByWordNumAbove(sorted[1..], w, lo);
    }
  }

  /** A sorted list stays sorted under a head no larger than its words. */
  lemma SortedCons(x: LineWord, rest: seq<LineWord>)
    requires SortedByWordNum(rest)
    requires forall i | 0 <= i < |rest| :: x.wordNum <= rest[i].wordNum
    ensures SortedByWordNum([x] + rest)
  {
    var r := [x] + rest;
    forall i, j | 0 <= i < j < |r|
      ensures r[i].wordNum <= r[j].wordNum
    {
      assert r[j] == rest[j - 1];
      if i > 0 {
        assert r[i] == rest[i - 1];
      }
    }
  }

  /** WithWordNum takes one step over the head. */
  lemma WithWordNumCons(x: LineWord, rest: seq<LineWord>, v: int)
    ensures WithWordNum([x] + rest, v) == (if x.wordNum == v then [x] else []) + WithWordNum(rest, v)
  {
    assert ([x] + rest)[1..] == rest;
  }

  lemma {:induction false} InsertByWordNumStable(sorted: seq<LineWord>, w: LineWord, v: int)
    requires SortedByWordNum(sorted)
    ensures WithWordNum(InsertByWordNum(sorted, w), v) == WithWordNum(sorted, v) + (if w.wordNum == v then [w] else [])
    decreases |sorted|
  {
    var tail: seq<LineWord> := if w.wordNum == v then [w] else [];
    if |sorted| == 0 {
      WithWordNumCons(w, [], v);
    } else if sorted[0].wordNum <= w.wordNum {
      var head: seq<LineWord> := if sorted[0].wordNum == v then [sorted[0]] else [];
      InsertByWordNumStable(sorted[1..], w, v);
      WithWordNumCons(sorted[0], InsertByWordNum(sorted[1..], w), v);
      WithWordNumCons(sorted[0], sorted[1..], v);
      HeadTail(sorted);
      AppendAssoc(head, WithWordNum(sorted[1..], v), tail);
    } else {
      WithWordNumCons(w, sorted, v);
      if w.wordNum == v {
        NoneAbove(sorted, v);
      }
    }
  }

  lemma InConcat<T>(x: T, a: seq<T>, b: seq<T>)
    ensures x in a + b <==> x in a || x in b
  {
  }

  lemma HeadTail<T>(s: seq<T>)
    requires |s| > 0
    ensures s == [s[0]] + s[1..]
  {
  }

  lemma AppendAssoc<T>(a: seq<T>, b: seq<T>, c: seq<T>)
    ensures a + (b + c) == (a + b) + c
  {
  }

  /** In a sorted list starting above v, no word has number v. */
  lemma {:induction false} NoneAbove(sorted: seq<LineWord>, v: int)
    requires SortedByWordNum(sorted) && |sorted| > 0 && sorted[0].wordNum > v
    ensures WithWordNum(sorted, v) == []
    decreases |sorted|
  {
    if |sorted| > 1 {
      NoneAbove(sorted[1..], v);
    }
  }

  /** The library sort. */
  function SortByWordNum(ws: seq<LineWord>): seq<LineWord>
    decreases |ws|
  {
    if |ws| == 0 then [] else InsertByWordNum(SortByWordNum(ws[..|ws| - 1]), ws[|ws| - 1])
  }

  /** The words within a group end up ordered by word number, none lost or
      added, and words with the same number keep their input order. */
  lemma SortByWordNumSpec(ws: seq<LineWord>, v: int)
    ensures SortedByWordNum(SortByWordNum(ws))
    ensures multiset(SortByWordNum(ws)) == multiset(ws)
    ensures WithWordNum(SortByWordNum(ws), v) == WithWordNum(ws, v)
  {
    SortByWordNumSorted(ws);
    SortByWordNumCounts(ws);
    SortByWordNumStable(ws, v);
  }

  lemma {:induction false} SortByWordNumSorted(ws: seq<LineWord>)
    ensures SortedByWordNum(SortByWordNum(ws))
    decreases |ws|
  {
    if |ws| > 0 {
      var n := |ws| - 1;
      SortByWordNumSorted(ws[..n]);
      InsertByWordNumSorted(SortByWordNum(ws[..n]), ws[n]);
    }
  }

  lemma {:induction false} SortByWordNumCounts(ws: seq<LineWord>)
    ensures multiset(SortByWordNum(ws)) == multiset(ws)
    decreases |ws|
  {
    if |ws| > 0 {
      var n := |ws| - 1;
      SortByWordNumCounts(ws[..n]);
      InsertByWordNumCounts(SortByWordNum(ws[..n]), ws[n]);
      assert ws == ws[..n] + [ws[n]];
    }
  }

  lemma {:induction false} SortByWordNumStable(ws: seq<LineWord>, v: int)
    ensures WithWordNum(SortByWordNum(ws), v) == WithWordNum(ws, v)
    decreases |ws|
  {
    if |ws| > 0 {
      var n := |ws| - 1;
      SortByWordNumStable(ws[..n], v);
      SortByWordNumSorted(ws[..n]);
      InsertByWordNumStable(SortByWordNum(ws[..n]), ws[n], v);
      assert ws == ws[..n] + [ws[n]];
      WithWordNumAppend(ws[..n], [ws[n]], v);
    }
  }

  // After sorting, a group becomes a line entry and entries for its words.

  function Texts(words: seq<LineWord>): (r: seq<string>)
    ensures |r| == |words|
    ensures forall i | 0 <= i < |words| :: r[i] == words[i].text
  {
    seq(|words|, i requires 0 <= i < |words| => words[i].text)
  }

  /** `words.map((w) => w.text).join(" ").trim()`. */
  function LineText(words: seq<LineWord>): string
  {
    Trim(Join(Texts(words), " "))
  }

  /** The running extremes of the word boxes. */
  datatype Extent = Extent(minX: int, minY: int, maxX: int, maxY: int)

  /** The extremes over a nonempty run of words: the starting infinities of
      the source are replaced by the first word's own extremes, which the
      first `Math.min`/`Math.max` would produce. */
  function Bounds(words: seq<LineWord>): Extent
    requires |words| > 0
    decreases |words|
  {
    var w := words[|words| - 1];
    if |words| == 1 then Extent(w.left, w.top, w.left + w.width, w.top + w.height)
    else
      var e := Bounds(words[..|words| - 1]);
      Extent(Min(e.minX, w.left), Min(e.minY, w.top), Max(e.maxX, w.left + w.width), Max(e.maxY, w.top + w.height))
  }

  /** The box spanned by the extremes, as `[x, y, width, height]`. */
  function BoxOf(e: Extent): BBox
  {
    BBox(e.minX, e.minY, e.maxX - e.minX, e.maxY - e.minY)
  }

  function WordBox(w: LineWord): BBox
  {
    BBox(w.left, w.top, w.width, w.height)
  }

  /** `b` covers `inner`. */
  predicate Covers(b: BBox, inner: BBox)
  {
    && b.x <= inner.x && inner.x + inner.w <= b.x + b.w
    && b.y <= inner.y && inner.y + inner.h <= b.y + b.h
  }

  /** The line box is the smallest box covering every word box: it covers
      each of them and each of its four edges touches one of them. */
  lemma LineBoxIsUnion(words: seq<LineWord>)
    requires |words| > 0
    ensures forall w <- words :: Covers(BoxOf(Bounds(words)), WordBox(w))
    ensures var e := Bounds(words);
      && (exists w <- words :: w.left == e.minX)
      && (exists w <- words :: w.top == e.minY)
      && (exists w <- words :: w.left + w.width == e.maxX)
      && (exists w <- words :: w.top + w.height == e.maxY)
  {
    LineBoxCovers(words);
    LineBoxTouches(words);
  }

  lemma {:induction false} LineBoxCovers(words: seq<LineWord>)
    requires |words| > 0
    ensures forall w <- words :: Covers(BoxOf(Bounds(words)), WordBox(w))
    decreases |words|
  {
    if |words| > 1 {
      var n := |words| - 1;
      LineBoxCovers(words[..n]);
      forall w | w in words
        ensures Covers(BoxOf(Bounds(words)), WordBox(w))
      {
        var i :| 0 <= i < |words| && words[i] == w;
        if i < n {
          assert words[..n][i] == w;
        }
      }
    }
  }

  lemma {:induction false} LineBoxTouches(words: seq<LineWord>)
    requires |words| > 0
    ensures var e := Bounds(words);
      && (exists w <- words :: w.left == e.minX)
      && (exists w <- words :: w.top == e.minY)
      && (exists w <- words :: w.left + w.width == e.maxX)
      && (exists w <- words :: w.top + w.height == e.maxY)
    decreases |words|
  {
    if |words| > 1 {
      var n := |words| - 1;
      LineBoxTouches(words[..n]);
      assert forall w <- words[..n] :: w in words;
      assert words[n] in words;
    } else {
      assert words[0] in words;
    }
  }

  /** Words of nonnegative size give a line box of nonnegative size. */
  lemma LineBoxSize(words: seq<LineWord>)
    requires |words| > 0
    requires forall w <- words :: w.width >= 0 && w.height >= 0
    ensures BoxOf(Bounds(words)).w >= 0 && BoxOf(Bounds(words)).h >= 0
  {
    LineBoxIsUnion(words);
    assert words[0] in words;
    assert Covers(BoxOf(Bounds(words)), WordBox(words[0]));
  }

  /** `confSum`, the running sum of the word confidences. */
  function ConfSum(words: seq<LineWord>): real
    decreases |words|
  {
    if |words| == 0 then 0.0 else ConfSum(words[..|words| - 1]) + words[|words| - 1].conf
  }

  /** `Math.min(1, Math.max(0, x))`. */
  function Clamp01(x: real): (r: real)
    ensures 0.0 <= r <= 1.0
    ensures 0.0 <= x <= 1.0 ==> r == x
    ensures x < 0.0 ==> r == 0.0
    ensures x > 1.0 ==> r == 1.0
  {
    if x > 0.0 then (if x < 1.0 then x else 1.0) else 0.0
  }

  /** The confidence of a line: the mean word confidence on a 0..1 scale. */
  function LineConf(words: seq<LineWord>): real
    requires |words| > 0
  {
    Clamp01(ConfSum(words) / |words| as real / 100.0)
  }

  lemma {:induction false} ConfSumAtLeast(words: seq<LineWord>, floor: real)
    requires forall w <- words :: w.conf >= floor
    ensures ConfSum(words) >= floor * |words| as real
    decreases |words|
  {
    if |words| > 0 {
      var n := |words| - 1;
      assert forall w <- words[..n] :: w in words;
      ConfSumAtLeast(words[..n], floor);
      assert words[n] in words;
      MulSucc(floor, n);
    }
  }

  lemma MulSucc(f: real, n: nat)
    ensures f * (n + 1) as real == f * n as real + f
  {
  }

  /** Since only words of confidence 20 or more are kept, every line's
      confidence is at least 0.2. */
  lemma LineConfFloor(words: seq<LineWord>)
    requires |words| > 0
    requires forall w <- words :: w.conf >= 20.0
    ensures 0.2 <= LineConf(words) <= 1.0
  {
    ConfSumAtLeast(words, 20.0);
    var n := |words| as real;
    assert ConfSum(words) / n >= 20.0;
  }

  /** `` `word-${key}-${word.wordNum}` ``. */
  function WordId(key: string, wordNum: int): string
  {
    "word-" + key + "-" + IntToString(wordNum)
  }

  /** `` `line-${key}` ``. */
  function LineId(key: string): string
  {
    "line-" + key
  }

  /** The entry for one word of a line whose text is `context`. */
  function WordEntry(key: string, context: string, wordNorm: string, w: LineWord): Entry
  {
    Entry(WordId(key, w.wordNum), w.text, wordNorm, context, WordBox(w), Clamp01(w.conf / 100.0), Word)
  }

  /** The word entries of a line: one per word whose normal form has at
      least two characters, in word order. */
  function WordEntries(normalizeText: string -> string, key: string, context: string, words: seq<LineWord>): seq<Entry>
    decreases |words|
  {
    if |words| == 0 then []
    else
      var n := |words| - 1;
      var wordNorm := normalizeText(words[n].text);
      WordEntries(normalizeText, key, context, words[..n]) + (if |wordNorm| >= 2 then [WordEntry(key, context, wordNorm, words[n])] else [])
  }

  /** A line with text has words. */
  lemma NonemptyText(words: seq<LineWord>)
    requires LineText(words) != ""
    ensures |words| > 0
  {
  }

  /** What one group contributes: nothing when its text or the text's normal
      form is empty, otherwise its line entry and its word entries. */
  function Emit(normalizeText: string -> string, key: string, group: seq<LineWord>): (r: (seq<Entry>, seq<Entry>))
  {
    var words := SortByWordNum(group);
    var text := LineText(words);
    if text == "" then ([], [])
    else
      var norm := normalizeText(text);
      if norm == "" then ([], [])
      else
        NonemptyText(words);
        ([Entry(LineId(key), text, norm, text, BoxOf(Bounds(words)), LineConf(words), Line)],
         WordEntries(normalizeText, key, text, words))
  }

  /** What each group contributes, in the map's key order. */
  function Results(normalizeText: string -> string, gs: Groups): (rs: seq<(seq<Entry>, seq<Entry>)>)
    requires WellFormed(gs)
    ensures |rs| == |gs.order|
    ensures forall i | 0 <= i < |rs| :: rs[i] == Emit(normalizeText, gs.order[i], gs.words[gs.order[i]])
  {
    seq(|gs.order|, i requires 0 <= i < |gs.order| => Emit(normalizeText, gs.order[i], gs.words[gs.order[i]]))
  }

  /** The line entries of all contributions, and their word entries. */
  function Flatten(rs: seq<(seq<Entry>, seq<Entry>)>): (o: (seq<Entry>, seq<Entry>))
    decreases |rs|
  {
    if |rs| == 0 then ([], [])
    else
      var o := Flatten(rs[..|rs| - 1]);
      var r := rs[|rs| - 1];
      (o.0 + r.0, o.1 + r.1)
  }

  lemma FlattenStep(rs: seq<(seq<Entry>, seq<Entry>)>, k: nat)
    requires k < |rs|
    ensures Flatten(rs[..k + 1]) == (Flatten(rs[..k]).0 + rs[k].0, Flatten(rs[..k]).1 + rs[k].1)
  {
    assert rs[..k + 1][..k] == rs[..k];
  }

  /** The result of `groupLines`: every line entry, then every word entry. */
  function GroupLinesSpec(normalizeText: string -> string, rows: seq<WordRow>): seq<Entry>
  {
    var o := Flatten(Results(normalizeText, Grouped(rows)));
    o.0 + o.1
  }

  /** `groupLines`. */
  method GroupLines(normalizeText: string -> string, wordRows: seq<WordRow>) returns (entries: seq<Entry>)
    ensures entries == GroupLinesSpec(normalizeText, wordRows)
  {
    var groups := GroupRows(wordRows);
    ghost var rs := Results(normalizeText, groups);
    var lineEntries: seq<Entry> := [];
    var wordEntries: seq<Entry> := [];
    for k := 0 to |groups.order|
      invariant (lineEntries, wordEntries) == Flatten(rs[..k])
    {
      var key := groups.order[k];
      var line, newWords := EmitGroup(normalizeText, key, groups.words[key]);
      FlattenStep(rs, k);
      lineEntries := lineEntries + line;
      wordEntries := wordEntries + newWords;
    }
    assert rs[..|rs|] == rs;
    entries := lineEntries + wordEntries;
  }

  /** One pass of the outer loop of `groupLines`: sort the group, drop it
      when its text or normal form is empty, scan its words. */
  method EmitGroup(normalizeText: string -> string, key: string, group: seq<LineWord>)
    returns (line: seq<Entry>, wordEntries: seq<Entry>)
    ensures (line, wordEntries) == Emit(normalizeText, key, group)
  {
    var words := SortByWordNum(group);
    var text := LineText(words);
    if text == "" {
      return [], [];
    }
    var norm := normalizeText(text);
    if norm == "" {
      return [], [];
    }
    NonemptyText(words);
    var extent, confSum;
    extent, confSum, wordEntries := ScanWords(normalizeText, key, text, words);
    var conf := Clamp01(confSum / |words| as real / 100.0);
    assert conf == LineConf(words);
    line := [Entry(LineId(key), text, norm, text, BoxOf(extent), conf, Line)];
  }

  /** The inner loop of `groupLines` over a group's sorted words: the
      extremes, the confidence sum, and the word entries pushed. */
  method ScanWords(normalizeText: string -> string, key: string, text: string, words: seq<LineWord>)
    returns (extent: Extent, confSum: real, entries: seq<Entry>)
    requires |words| > 0
    ensures extent == Bounds(words)
    ensures confSum == ConfSum(words)
    ensures entries == WordEntries(normalizeText, key, text, words)
  {
    var first := words[0];
    var minX, minY := first.left, first.top;
    var maxX, maxY := first.left + first.width, first.top + first.height;
    confSum := 0.0;
    entries := [];
    for i := 0 to |words|
      invariant i > 0 ==> Extent(minX, minY, maxX, maxY) == Bounds(words[..i])
      invariant i == 0 ==> Extent(minX, minY, maxX, maxY) == Bounds(words[..1])
      invariant confSum == ConfSum(words[..i])
      invariant entries == WordEntries(normalizeText, key, text, words[..i])
    {
      var word := words[i];
      assert words[..i + 1][..i] == words[..i];
      minX := Min(minX, word.left);
      minY := Min(minY, word.top);
      maxX := Max(maxX, word.left + word.width);
      maxY := Max(maxY, word.top + word.height);
      confSum := confSum + word.conf;
      var wordNorm := normalizeText(word.text);
      if |wordNorm| >= 2 {
        entries := entries + [WordEntry(key, text, wordNorm, word)];
      }
    }
    assert words[..|words|] == words;
    extent := Extent(minX, minY, maxX, maxY);
  }

  /** Word entries, both ways: each comes from one of the words, carries the
      line's text as its context and a normal form of two characters or
      more; and every word whose normal form has two characters or more
      gets one. */
  lemma WordEntriesShape(normalizeText: string -> string, key: string, context: string, words: seq<LineWord>)
    ensures forall e <- WordEntries(normalizeText, key, context, words) ::
      && e.kind == Word && e.context == context
      && e.norm == normalizeText(e.text) && |e.norm| >= 2
      && 0.0 <= e.conf <= 1.0
      && exists w <- words :: e == WordEntry(key, context, normalizeText(w.text), w)
    ensures forall w <- words :: |normalizeText(w.text)| >= 2 ==>
      WordEntry(key, context, normalizeText(w.text), w) in WordEntries(normalizeText, key, context, words)
  {
    WordEntriesSound(normalizeText, key, context, words);
    WordEntriesComplete(normalizeText, key, context, words);
  }

  lemma {:induction false} WordEntriesSound(normalizeText: string -> string, key: string, context: string, words: seq<LineWord>)
    ensures forall e <- WordEntries(normalizeText, key, context, words) ::
      && e.kind == Word && e.context == context
      && e.norm == normalizeText(e.text) && |e.norm| >= 2
      && 0.0 <= e.conf <= 1.0
      && exists w <- words :: e == WordEntry(key, context, normalizeText(w.text), w)
    decreases |words|
  {
    if |words| > 0 {
      var n := |words| - 1;
      WordEntriesSound(normalizeText, key, context, words[..n]);
      assert forall w <- words[..n] :: w in words;
      assert words[n] in words;
    }
  }

  lemma WordEntriesComplete(normalizeText: string -> string, key: string, context: string, words: seq<LineWord>)
    ensures forall w <- words :: |normalizeText(w.text)| >= 2 ==>
      WordEntry(key, context, normalizeText(w.text), w) in WordEntries(normalizeText, key, context, words)
  {
    forall w | w in words && |normalizeText(w.text)| >= 2
      ensures WordEntry(key, context, normalizeText(w.text), w) in WordEntries(normalizeText, key, context, words)
    {
      var i :| 0 <= i < |words| && words[i] == w;
      WordEntryAt(normalizeText, key, context, words, i);
    }
  }

  /** The word at position i, when its normal form is long enough, has its
      entry among the line's word entries. */
  lemma {:induction false} WordEntryAt(normalizeText: string -> string, key: string, context: string, words: seq<LineWord>, i: nat)
    requires i < |words| && |normalizeText(words[i].text)| >= 2
    ensures WordEntry(key, context, normalizeText(words[i].text), words[i]) in WordEntries(normalizeText, key, context, words)
    decreases |words|
  {
    var n := |words| - 1;
    var prev := WordEntries(normalizeText, key, context, words[..n]);
    var last := normalizeText(words[n].text);
    var tail := if |last| >= 2 then [WordEntry(key, context, last, words[n])] else [];
    var e := WordEntry(key, context, normalizeText(words[i].text), words[i]);
    assert WordEntries(normalizeText, key, context, words) == prev + tail;
    if i < n {
      assert words[..n][i] == words[i];
      WordEntryAt(normalizeText, key, context, words[..n], i);
      InConcat(e, prev, tail);
    } else {
      assert tail == [e];
      InConcat(e, prev, tail);
    }
  }

  /** A group yields a line entry exactly when its text and the text's normal
      form are nonempty; the line entry's box covers the box of each of its
      word entries, whose context is the line's text; no group yields words
      without a line. */
  lemma EmitShape(normalizeText: string -> string, key: string, group: seq<LineWord>)
    ensures var e := Emit(normalizeText, key, group);
      var text := LineText(SortByWordNum(group));
      && (|e.0| == 1 <==> text != "" && normalizeText(text) != "")
      && (|e.0| != 1 ==> e.0 == [] && e.1 == [])
      && (|e.0| == 1 ==>
            && e.0[0].id == LineId(key) && e.0[0].kind == Line
            && e.0[0].text == text && e.0[0].context == text && e.0[0].norm == normalizeText(text)
            && forall w <- e.1 :: w.context == text && Covers(e.0[0].bbox, w.bbox))
  {
    var words := SortByWordNum(group);
    var text := LineText(words);
    if text != "" && normalizeText(text) != "" {
      NonemptyText(words);
      var e := Emit(normalizeText, key, group);
      WordEntriesShape(normalizeText, key, text, words);
      LineBoxIsUnion(words);
      forall w <- e.1
        ensures Covers(e.0[0].bbox, w.bbox)
      {
        var x :| x in words && w == WordEntry(key, text, normalizeText(x.text), x);
        assert Covers(BoxOf(Bounds(words)), WordBox(x));
      }
    }
  }

  lemma LineIdInjective(a: string, b: string)
    requires LineId(a) == LineId(b)
    ensures a == b
  {
    assert a == LineId(a)[5..] && b == LineId(b)[5..];
  }

  /** A word entry and a line entry built from the same group key. */
  ghost predicate SameLine(word: Entry, line: Entry)
  {
    exists key, n :: line.id == LineId(key) && word.id == WordId(key, n)
  }

  /** The shape of one group's contribution: at most one line entry,
      named after the group's key, and word entries that each belong to
      that line and carry its text as their context. */
  ghost predicate Contribution(r: (seq<Entry>, seq<Entry>), key: string)
  {
    && |r.0| <= 1
    && (forall l <- r.0 :: l.kind == Line && l.id == LineId(key))
    && (forall w <- r.1 :: w.kind == Word && exists l <- r.0 :: l.text == w.context && SameLine(w, l))
  }

  lemma EmitContribution(normalizeText: string -> string, key: string, group: seq<LineWord>)
    ensures Contribution(Emit(normalizeText, key, group), key)
  {
    var e := Emit(normalizeText, key, group);
    EmitShape(normalizeText, key, group);
    if |e.0| == 1 {
      var words := SortByWordNum(group);
      var text := LineText(words);
      WordEntriesShape(normalizeText, key, text, words);
      forall w <- e.1
        ensures w.kind == Word && exists l <- e.0 :: l.text == w.context && SameLine(w, l)
      {
        var x :| x in words && w == WordEntry(key, text, normalizeText(x.text), x);
        assert w.id == WordId(key, x.wordNum);
        assert e.0[0] in e.0;
      }
    }
  }

  /** Contributions of groups with the given keys. */
  ghost predicate Contributions(rs: seq<(seq<Entry>, seq<Entry>)>, keys: seq<string>)
  {
    |rs| == |keys| && forall i | 0 <= i < |rs| :: Contribution(rs[i], keys[i])
  }

  /** Every entry is a line entry named after one of the first m keys. */
  predicate LinesOf(lines: seq<Entry>, keys: seq<string>, m: nat)
  {
    forall l <- lines :: l.kind == Line && exists j | 0 <= j < m && j < |keys| :: l.id == LineId(keys[j])
  }

  lemma {:induction false} FlattenLines(rs: seq<(seq<Entry>, seq<Entry>)>, keys: seq<string>)
    requires Contributions(rs, keys)
    ensures LinesOf(Flatten(rs).0, keys, |rs|)
    decreases |rs|
  {
    if |rs| > 0 {
      var n := |rs| - 1;
      assert Contributions(rs[..n], keys[..n]);
      FlattenLines(rs[..n], keys[..n]);
      assert Contribution(rs[n], keys[n]);
      forall l <- Flatten(rs[..n]).0 + rs[n].0
        ensures l.kind == Line && exists j | 0 <= j < n + 1 && j < |keys| :: l.id == LineId(keys[j])
      {
        if l in Flatten(rs[..n]).0 {
          var j :| 0 <= j < n && j < |keys[..n]| && l.id == LineId(keys[..n][j]);
          assert keys[..n][j] == keys[j];
        } else {
          assert l.id == LineId(keys[n]);
        }
      }
    }
  }

  predicate DistinctIds(lines: seq<Entry>)
  {
    forall i, j | 0 <= i < j < |lines| :: lines[i].id != lines[j].id
  }

  /** Appending the line of a group not met before keeps the ids
      distinct. */
  lemma AppendLine(prev: seq<Entry>, next: seq<Entry>, keys: seq<string>, m: nat)
    requires m < |keys| && forall i, j | 0 <= i < j < |keys| :: keys[i] != keys[j]
    requires DistinctIds(prev) && |next| <= 1
    requires LinesOf(prev, keys, m)
    requires forall l <- next :: l.id == LineId(keys[m])
    ensures DistinctIds(prev + next)
  {
    var lines := prev + next;
    forall i, j | 0 <= i < j < |lines|
      ensures lines[i].id != lines[j].id
    {
      assert lines[i] == prev[i] && prev[i] in prev;
      if j >= |prev| {
        assert lines[j] == next[0] && next[0] in next;
        var n :| 0 <= n < m && n < |keys| && prev[i].id == LineId(keys[n]);
        if prev[i].id == next[0].id {
          LineIdInjective(keys[n], keys[m]);
        }
      } else {
        assert lines[j] == prev[j];
      }
    }
  }

  /** Groups with distinct keys yield line entries with distinct ids. */
  lemma {:induction false} FlattenDistinct(rs: seq<(seq<Entry>, seq<Entry>)>, keys: seq<string>)
    requires Contributions(rs, keys)
    requires forall i, j | 0 <= i < j < |keys| :: keys[i] != keys[j]
    ensures DistinctIds(Flatten(rs).0)
    decreases |rs|
  {
    if |rs| > 0 {
      var n := |rs| - 1;
      assert Contributions(rs[..n], keys[..n]);
      FlattenDistinct(rs[..n], keys[..n]);
      FlattenLines(rs[..n], keys[..n]);
      assert Contribution(rs[n], keys[n]);
      var prev := Flatten(rs[..n]).0;
      forall l <- prev
        ensures l.kind == Line && exists j | 0 <= j < n && j < |keys| :: l.id == LineId(keys[j])
      {
        var j :| 0 <= j < n && j < |keys[..n]| && l.id == LineId(keys[..n][j]);
        assert keys[..n][j] == keys[j];
      }
      AppendLine(prev, rs[n].0, keys, n);
    }
  }

  /** Every word entry belongs to a line entry that precedes it in the
      output, whose text is its context. */
  ghost predicate WordsHaveLines(o: (seq<Entry>, seq<Entry>))
  {
    forall w <- o.1 :: w.kind == Word && exists l <- o.0 :: l.text == w.context && SameLine(w, l)
  }

  lemma {:induction false} FlattenWords(rs: seq<(seq<Entry>, seq<Entry>)>, keys: seq<string>)
    requires Contributions(rs, keys)
    ensures WordsHaveLines(Flatten(rs))
    decreases |rs|
  {
    if |rs| > 0 {
      var n := |rs| - 1;
      assert Contributions(rs[..n], keys[..n]);
      FlattenWords(rs[..n], keys[..n]);
      assert Contribution(rs[n], keys[n]);
      var prev := Flatten(rs[..n]);
      var lines := prev.0 + rs[n].0;
      forall w <- prev.1 + rs[n].1
        ensures w.kind == Word && exists l <- lines :: l.text == w.context && SameLine(w, l)
      {
        if w in prev.1 {
          var l :| l in prev.0 && l.text == w.context && SameLine(w, l);
          assert l in lines;
        } else {
          var l :| l in rs[n].0 && l.text == w.context && SameLine(w, l);
          assert l in lines;
        }
      }
    }
  }

  lemma ResultsContributions(normalizeText: string -> string, gs: Groups)
    requires WellFormed(gs)
    ensures Contributions(Results(normalizeText, gs), gs.order)
  {
    var rs := Results(normalizeText, gs);
    forall i | 0 <= i < |rs|
      ensures Contribution(rs[i], gs.order[i])
    {
      EmitContribution(normalizeText, gs.order[i], gs.words[gs.order[i]]);
    }
  }

  /** What `groupLines` returns: line entries with distinct ids, one per
      group whose text survives, then word entries, each belonging to one of
      those lines and carrying its text as context. Filtering the result by
      kind, as the script's main function does, gives back the two halves
      unchanged. */
  lemma GroupLinesShape(normalizeText: string -> string, rows: seq<WordRow>)
    ensures var gs := Grouped(rows);
      var o := Flatten(Results(normalizeText, gs));
      var out := GroupLinesSpec(normalizeText, rows);
      && out == o.0 + o.1
      && LinesOf(o.0, gs.order, |gs.order|)
      && DistinctIds(o.0)
      && WordsHaveLines(o)
      && OfKind(out, Line) == o.0
      && OfKind(out, Word) == o.1
  {
    var gs := Grouped(rows);
    var rs := Results(normalizeText, gs);
    var o := Flatten(rs);
    ResultsContributions(normalizeText, gs);
    FlattenLines(rs, gs.order);
    FlattenDistinct(rs, gs.order);
    FlattenWords(rs, gs.order);
    OfKindAppend(o.0, o.1, Line);
    OfKindAppend(o.0, o.1, Word);
    OfKindUniform(o.0, Line);
    OfKindUniform(o.1, Word);
  }

  /** Every word with a given key was tagged with it. */
  lemma {:induction false} WordsWithKeyTagged(ts: seq<Tagged>, key: string)
    ensures forall w <- WordsWithKey(ts, key) :: Tagged(key, w) in ts
    decreases |ts|
  {
    if |ts| > 0 {
      var n := |ts| - 1;
      WordsWithKeyTagged(ts[..n], key);
      assert forall t <- ts[..n] :: t in ts;
      assert ts[n] in ts;
    }
  }

  /** Every word of a group is a kept row with the group's key, and every
      kept row is among the words of the group for its key. */
  lemma GroupsHoldKeptRows(rows: seq<WordRow>, key: string)
    ensures key in Grouped(rows).words ==>
      forall w <- Grouped(rows).words[key] :: exists r <- rows :: Kept(r) && KeyOf(r) == key && w == WordOf(r)
    ensures forall r <- rows | Kept(r) && KeyOf(r) == key ::
      key in Grouped(rows).words && WordOf(r) in Grouped(rows).words[key]
  {
    var ts := Tag(rows);
    GroupContents(ts, key);
    WordsWithKeyTagged(ts, key);
    TagIsFilter(rows);
    forall r <- rows | Kept(r) && KeyOf(r) == key
      ensures key in Grouped(rows).words && WordOf(r) in Grouped(rows).words[key]
    {
      var t := Tagged(KeyOf(r), WordOf(r));
      assert t in ts;
      var j :| 0 <= j < |ts| && ts[j] == t;
      assert ts[j].key == key;
      TaggedInWordsWithKey(ts, j);
    }
  }

  lemma {:induction false} TaggedInWordsWithKey(ts: seq<Tagged>, j: nat)
    requires j < |ts|
    ensures ts[j].word in WordsWithKey(ts, ts[j].key)
    decreases |ts|
  {
    var n := |ts| - 1;
    if j < n {
      TaggedInWordsWithKey(ts[..n], j);
    }
  }

  /** A line made of words of confidence 20 or more has a confidence
      between 0.2 and 1. */
  lemma EmitConfidence(normalizeText: string -> string, key: string, group: seq<LineWord>)
    requires forall w <- group :: w.conf >= 20.0
    ensures forall l <- Emit(normalizeText, key, group).0 :: 0.2 <= l.conf <= 1.0
  {
    var words := SortByWordNum(group);
    var text := LineText(words);
    if text != "" && normalizeText(text) != "" {
      NonemptyText(words);
      SortByWordNumSpec(group, 0);
      forall w <- words
        ensures w.conf >= 20.0
      {
        assert w in multiset(words);
      }
      LineConfFloor(words);
    }
  }

  lemma {:induction false} FlattenLinesAll(rs: seq<(seq<Entry>, seq<Entry>)>, p: Entry -> bool)
    requires forall i | 0 <= i < |rs| :: forall l <- rs[i].0 :: p(l)
    ensures forall l <- Flatten(rs).0 :: p(l)
    decreases |rs|
  {
    if |rs| > 0 {
      var n := |rs| - 1;
      FlattenLinesAll(rs[..n], p);
      assert forall l <- Flatten(rs).0 :: l in Flatten(rs[..n]).0 || l in rs[n].0;
    }
  }

  /** Every line entry `groupLines` emits has a confidence between 0.2 and
      1: its words all passed the filter's floor of 20. */
  lemma LineConfidence(normalizeText: string -> string, rows: seq<WordRow>)
    ensures forall l <- Flatten(Results(normalizeText, Grouped(rows))).0 :: 0.2 <= l.conf <= 1.0
  {
    var gs := Grouped(rows);
    var rs := Results(normalizeText, gs);
    var p := (l: Entry) => 0.2 <= l.conf <= 1.0;
    forall i | 0 <= i < |rs|
      ensures forall l <- rs[i].0 :: p(l)
    {
      var key := gs.order[i];
      GroupsHoldKeptRows(rows, key);
      forall w <- gs.words[key]
        ensures w.conf >= 20.0
      {
        var r :| r in rows && Kept(r) && KeyOf(r) == key && w == WordOf(r);
      }
      EmitConfidence(normalizeText, key, gs.words[key]);
    }
    FlattenLinesAll(rs, p);
  }
}
