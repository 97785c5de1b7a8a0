/**
  The end of the OCR ingestion script: hand-written overrides loaded from a
  JSON file, placed before the generated entries, and the combined list
  split by kind into the lines file and the words file.
 */
module Ingest {
  import opened JsString
  import opened Options
  import opened Corpus
  import opened Ocr

  /** A parsed JSON value. */
  datatype Json =
    | JNull
    | JBool(b: bool)
    | JNumber(n: real)
    | JString(s: string)
    | JArray(items: seq<Json>)
    | JObject(fields: map<string, Json>)

  /** `item[key]`: a field of an object; nothing for an absent field or a
      value that is not an object. */
  function Get(item: Json, key: string): (r: Option<Json>)
    ensures r.Some? <==> item.JObject? && key in item.fields
  {
    if item.JObject? && key in item.fields then Some(item.fields[key]) else None
  }

  /** `a ?? b`: the field unless it is absent or null. */
  function OrElse(field: Option<Json>, default: Json): (r: Json)
    ensures field.Some? && field.value != JNull ==> r == field.value
    ensures field.None? || field.value == JNull ==> r == default
  {
    if field.Some? && field.value != JNull then field.value else default
  }

  /** An entry of the output files. Overrides may give any JSON value as
      id, normal form or box coordinates, so these stay JSON. */
  datatype OutEntry = OutEntry(
    id: Json,
    text: string,
    norm: Json,
    context: string,
    bbox: seq<Json>,
    conf: real,
    kind: Kind)

  /** The filter of `loadOverrides`: an object whose `text` is a string and
      whose `bbox` is an array. Other values, `null` and the falsy ones
      included, have no such fields. */
  predicate IsOverride(item: Json)
  {
    && Get(item, "text").Some? && Get(item, "text").value.JString?
    && Get(item, "bbox").Some? && Get(item, "bbox").value.JArray?
  }

  /** The items that pass the filter, in order. */
  function Overrides(items: seq<Json>): (r: seq<Json>)
    ensures |r| <= |items|
    ensures forall x <- r :: IsOverride(x)
    ensures forall x <- items :: IsOverride(x) ==> x in r
    ensures forall x <- r :: x in items
    decreases |items|
  {
    if |items| == 0 then []
    else
      var n := |items| - 1;
      Overrides(items[..n]) + (if IsOverride(items[n]) then [items[n]] else [])
  }

  /** `` `override-${index}` ``. */
  function DefaultId(index: nat): string
  {
    "override-" + NatToString(index)
  }

  /** The entry made from the override at `index` among those kept. */
  function FromOverride(normalizeText: string -> string, item: Json, index: nat): (e: OutEntry)
    requires IsOverride(item)
  {
    var text := Get(item, "text").value.s;
    var context := Get(item, "context");
    var conf := Get(item, "conf");
    OutEntry(
      OrElse(Get(item, "id"), JString(DefaultId(index))),
      text,
      OrElse(Get(item, "norm"), JString(normalizeText(text))),
      if context.Some? && context.value.JString? then context.value.s else text,
      Get(item, "bbox").value.items,
      if conf.Some? && conf.value.JNumber? then conf.value.n else 1.0,
      if Get(item, "kind") == Some(JString("word")) then Word else Line)
  }

  /** `loadOverrides`, given the parsed file, `None` standing for a file that
      does not exist. A missing file and a value that is not an array give
      no overrides; otherwise every kept item becomes one entry, in order. */
  function LoadOverrides(normalizeText: string -> string, file: Option<Json>): (r: seq<OutEntry>)
    ensures file.None? || !file.value.JArray? ==> r == []
    ensures file.Some? && file.value.JArray? ==>
      var kept := Overrides(file.value.items);
      && |r| == |kept|
      && forall i | 0 <= i < |r| :: r[i] == FromOverride(normalizeText, kept[i], i)
  {
    if file.None? || !file.value.JArray? then []
    else
      var kept := Overrides(file.value.items);
      seq(|kept|, i requires 0 <= i < |kept| => FromOverride(normalizeText, kept[i], i))
  }

  /** An override's fields as the loader fills them in: its text is kept;
      a missing or null id becomes `override-<index>`, a missing or null
      normal form the normal form of the text; a context that is not a
      string becomes the text; a confidence that is not a number becomes 1;
      only the kind "word" makes a word. */
  lemma FromOverrideDefaults(normalizeText: string -> string, item: Json, index: nat)
    requires IsOverride(item)
    ensures var e := FromOverride(normalizeText, item, index);
      && JString(e.text) == Get(item, "text").value
      && (Get(item, "id").None? || Get(item, "id") == Some(JNull) <==> e.id == JString(DefaultId(index)) && Get(item, "id") != Some(JString(DefaultId(index))))
      && (Get(item, "norm").None? || Get(item, "norm") == Some(JNull) ==> e.norm == JString(normalizeText(e.text)))
      && (!(Get(item, "context").Some? && Get(item, "context").value.JString?) ==> e.context == e.text)
      && (e.kind == Word <==> Get(item, "kind") == Some(JString("word")))
      && (!(Get(item, "conf").Some? && Get(item, "conf").value.JNumber?) ==> e.conf == 1.0)
  {
  }

  /** Overrides that give no id get distinct default ids. */
  lemma DefaultIdsDistinct(normalizeText: string -> string, file: Option<Json>, i: nat, j: nat)
    requires var r := LoadOverrides(normalizeText, file); i < j < |r|
    requires file.Some? && file.value.JArray?
    requires var kept := Overrides(file.value.items);
      OrElse(Get(kept[i], "id"), JNull) == JNull && OrElse(Get(kept[j], "id"), JNull) == JNull
    ensures LoadOverrides(normalizeText, file)[i].id != LoadOverrides(normalizeText, file)[j].id
  {
    if DefaultId(i) == DefaultId(j) {
      assert NatToString(i) == DefaultId(i)[9..];
      assert NatToString(j) == DefaultId(j)[9..];
      NatToStringInjective(i, j);
    }
  }

  /** A generated entry as written to the output files. */
  function ToOut(e: Entry): (o: OutEntry)
    ensures o.id == JString(e.id) && o.text == e.text && o.kind == e.kind
  {
    OutEntry(JString(e.id), e.text, JString(e.norm), e.context,
      [JNumber(e.bbox.x as real), JNumber(e.bbox.y as real), JNumber(e.bbox.w as real), JNumber(e.bbox.h as real)],
      e.conf, e.kind)
  }

  function ToOuts(es: seq<Entry>): (r: seq<OutEntry>)
    ensures |r| == |es|
    ensures forall i | 0 <= i < |es| :: r[i] == ToOut(es[i])
  {
    seq(|es|, i requires 0 <= i < |es| => ToOut(es[i]))
  }

  /** `entries.filter((entry) => entry.kind === kind)` on output entries. */
  function OutOfKind(es: seq<OutEntry>, k: Kind): (r: seq<OutEntry>)
    decreases |es|
  {
    if |es| == 0 then []
    else (if es[0].kind == k then [es[0]] else []) + OutOfKind(es[1..], k)
  }

  /** The three files the script writes. */
  datatype Index = Index(entries: seq<OutEntry>, lines: seq<OutEntry>, words: seq<OutEntry>)

  /** The data flow of the script's main function, from the converted TSV
      rows and the parsed overrides file: overrides first, then the
      generated entries, then the split by kind. */
  function BuildIndex(normalizeText: string -> string, rows: seq<WordRow>, overridesFile: Option<Json>): Index
  {
    var generated := GroupLinesSpec(normalizeText, rows);
    var entries := LoadOverrides(normalizeText, overridesFile) + ToOuts(generated);
    Index(entries, OutOfKind(entries, Line), OutOfKind(entries, Word))
  }

  lemma {:induction false} OutOfKindAppend(a: seq<OutEntry>, b: seq<OutEntry>, k: Kind)
    ensures OutOfKind(a + b, k) == OutOfKind(a, k) + OutOfKind(b, k)
    decreases |a|
  {
    if |a| > 0 {
      assert (a + b)[1..] == a[1..] + b;
      OutOfKindAppend(a[1..], b, k);
    } else {
      assert a + b == b;
    }
  }

  lemma ToOutsAppend(a: seq<Entry>, b: seq<Entry>)
    ensures ToOuts(a + b) == ToOuts(a) + ToOuts(b)
  {
  }

  /** Converting and then filtering is filtering and then converting. */
  lemma {:induction false} OutOfKindToOuts(es: seq<Entry>, k: Kind)
    ensures OutOfKind(ToOuts(es), k) == ToOuts(OfKind(es, k))
    decreases |es|
  {
    if |es| > 0 {
      var first := if es[0].kind == k then [es[0]] else [];
      var outs := ToOuts(es);
      OutOfKindToOuts(es[1..], k);
      assert outs[1..] == ToOuts(es[1..]);
      assert outs[0] == ToOut(es[0]) && outs[0].kind == es[0].kind;
      assert OutOfKind(outs, k) == (if outs[0].kind == k then [outs[0]] else []) + OutOfKind(outs[1..], k);
      assert ToOuts(first) == (if outs[0].kind == k then [outs[0]] else []);
      assert OfKind(es, k) == first + OfKind(es[1..], k);
      ToOutsAppend(first, OfKind(es[1..], k));
    }
  }

  /** Every entry has one of the two kinds, so the two filtered lists
      together hold each entry exactly once. */
  lemma {:induction false} OutOfKindSplits(es: seq<OutEntry>)
    ensures multiset(OutOfKind(es, Line)) + multiset(OutOfKind(es, Word)) == multiset(es)
    decreases |es|
  {
    if |es| > 0 {
      var e, rest := es[0], es[1..];
      assert es == [e] + rest;
      var line, word := OutOfKind(rest, Line), OutOfKind(rest, Word);
      OutOfKindSplits(rest);
      ConsSplits(e, line, word, rest);
      if e.kind == Line {
        assert OutOfKind(es, Line) == [e] + line;
        assert OutOfKind(es, Word) == word by {
          assert OutOfKind(es, Word) == [] + word;
        }
      } else {
        assert OutOfKind(es, Line) == line by {
          assert OutOfKind(es, Line) == [] + line;
        }
        assert OutOfKind(es, Word) == [e] + word;
      }
    }
  }

  /** Adding an element in front of a sequence split in two adds it to
      either part. */
  lemma ConsSplits<T>(e: T, a: seq<T>, b: seq<T>, rest: seq<T>)
    requires multiset(a) + multiset(b) == multiset(rest)
    ensures multiset([e] + a) + multiset(b) == multiset([e] + rest)
    ensures multiset(a) + multiset([e] + b) == multiset([e] + rest)
  {
    assert multiset([e] + a) == multiset{e} + multiset(a);
    assert multiset([e] + b) == multiset{e} + multiset(b);
    assert multiset([e] + rest) == multiset{e} + multiset(rest);
  }

  /** The files the script writes: the lines file holds the overrides of
      kind line and then the generated lines; the words file likewise with
      words; between them they hold every entry of the main file once. */
  lemma BuildIndexSplit(normalizeText: string -> string, rows: seq<WordRow>, overridesFile: Option<Json>)
    ensures var index := BuildIndex(normalizeText, rows, overridesFile);
      var overrides := LoadOverrides(normalizeText, overridesFile);
      var generated := GroupLinesSpec(normalizeText, rows);
      && index.entries == overrides + ToOuts(generated)
      && index.lines == OutOfKind(overrides, Line) + ToOuts(OfKind(generated, Line))
      && index.words == OutOfKind(overrides, Word) + ToOuts(OfKind(generated, Word))
      && multiset(index.lines) + multiset(index.words) == multiset(index.entries)
  {
    var overrides := LoadOverrides(normalizeText, overridesFile);
    var generated := GroupLinesSpec(normalizeText, rows);
    var entries := overrides + ToOuts(generated);
    OutOfKindAppend(overrides, ToOuts(generated), Line);
    OutOfKindAppend(overrides, ToOuts(generated), Word);
    OutOfKindToOuts(generated, Line);
    OutOfKindToOuts(generated, Word);
    OutOfKindSplits(entries);
  }

  /** With `groupLines`' own shape: the lines file ends with every generated
      line entry and the words file with every generated word entry, each in
      the order `groupLines` produced them. */
  lemma BuildIndexGenerated(normalizeText: string -> string, rows: seq<WordRow>, overridesFile: Option<Json>)
    ensures var index := BuildIndex(normalizeText, rows, overridesFile);
      var overrides := LoadOverrides(normalizeText, overridesFile);
      var o := Flatten(Results(normalizeText, Grouped(rows)));
      && index.lines == OutOfKind(overrides, Line) + ToOuts(o.0)
      && index.words == OutOfKind(overrides, Word) + ToOuts(o.1)
  {
    BuildIndexSplit(normalizeText, rows, overridesFile);
    GroupLinesShape(normalizeText, rows);
  }
}
