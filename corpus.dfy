/**
  The OCR corpus as the viewer and the search worker read it from
  `entries.json`, and the fuzzy index (Fuse.js) as an abstract ranking.
 */
module Corpus {
  datatype Kind = Line | Word

  /** `[x, y, width, height]` in source-image pixels. */
  datatype BBox = BBox(x: int, y: int, w: int, h: int)

  /** One OCR fragment: a text line or a single word. */
  datatype Entry = Entry(
    id: string,
    text: string,
    norm: string,
    context: string,
    bbox: BBox,
    conf: real,
    kind: Kind)

  /** Fuse.js left abstract: for the documents an index was built over and a
      query, the positions of the matching documents, best match first. */
  datatype Ranker = Ranker(rank: (seq<Entry>, string) -> seq<nat>)

  /** The documents at the given positions, in order; a position past the end
      names no document. */
  function Pick(docs: seq<Entry>, positions: seq<nat>): (res: seq<Entry>)
    ensures |res| <= |positions|
    ensures forall e <- res :: e in docs
  {
    if |positions| == 0 then []
    else
      var first := if positions[0] < |docs| then [docs[positions[0]]] else [];
      first + Pick(docs, positions[1..])
  }

  /** `fuse.search(q)` over an index built from `docs`: the matching
      documents, best first, each one drawn from `docs`. */
  function Search(r: Ranker, docs: seq<Entry>, q: string): (res: seq<Entry>)
    ensures forall e <- res :: e in docs
  {
    Pick(docs, r.rank(docs, q))
  }

  /** `s.slice(0, limit)`. */
  function Take<T>(s: seq<T>, limit: nat): (r: seq<T>)
    ensures |r| == if limit < |s| then limit else |s|
    ensures r == s[..|r|]
  {
    if limit < |s| then s[..limit] else s
  }

  /** `entries.filter((entry) => entry.kind === kind)`. */
  function OfKind(es: seq<Entry>, k: Kind): (r: seq<Entry>)
    ensures |r| <= |es|
    ensures forall e <- r :: e in es && e.kind == k
    ensures forall e <- es :: e.kind == k ==> e in r
  {
    if |es| == 0 then []
    else (if es[0].kind == k then [es[0]] else []) + OfKind(es[1..], k)
  }

  /** `results.map((item) => item.id)`. */
  function Ids(es: seq<Entry>): (r: seq<string>)
    ensures |r| == |es|
    ensures forall i | 0 <= i < |es| :: r[i] == es[i].id
  {
    seq(|es|, i requires 0 <= i < |es| => es[i].id)
  }

  /** Filtering distributes over concatenation. */
  lemma {:induction false} OfKindAppend(a: seq<Entry>, b: seq<Entry>, k: Kind)
    ensures OfKind(a + b, k) == OfKind(a, k) + OfKind(b, k)
    decreases |a|
  {
    if |a| > 0 {
      assert (a + b)[1..] == a[1..] + b;
      OfKindAppend(a[1..], b, k);
    } else {
      assert a + b == b;
    }
  }

  /** Filtering keeps a sequence of one kind whole and removes it entirely
      for the other kind. */
  lemma {:induction false} OfKindUniform(es: seq<Entry>, k: Kind)
    requires forall e <- es :: e.kind == k
    ensures OfKind(es, k) == es
    ensures forall k' | k' != k :: OfKind(es, k') == []
    decreases |es|
  {
    if |es| > 0 {
      OfKindUniform(es[1..], k);
    }
  }
}
