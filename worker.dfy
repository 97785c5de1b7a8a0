/**
  The search worker: a module-level corpus and Fuse index that an `init`
  message replaces, and a `query` message answered with the ids of the
  index's hits for the normalised query, tagged with the request's id.
 */
module Worker {
  import opened Normalizer
  import opened Corpus

  /** The messages the worker receives. `Other` stands for any message
      whose `type` is neither `init` nor `query`. */
  datatype Message =
    | Init(entries: seq<Entry>)
    | Query(requestId: int, query: string, limit: nat)
    | Other(tag: string)

  /** `{ requestId, ids }`, posted back to the page. */
  datatype Reply = Reply(requestId: int, ids: seq<string>)

  /** The worker's state: `entries`, whether `fuse` has been built, and the
      replies posted so far. */
  datatype WorkerState = WorkerState(entries: seq<Entry>, indexed: bool, posted: seq<Reply>)

  /** The state a freshly loaded worker starts in. */
  const Start: WorkerState := WorkerState([], false, [])

  /** `fuse.search(normalized, { limit }).map((item) => item.item.id)`:
      the ids of the first `limit` hits, best first. */
  function HitIds(r: Ranker, entries: seq<Entry>, normalized: string, limit: nat): (ids: seq<string>)
    ensures |ids| <= limit
    ensures forall id <- ids :: id in Ids(entries)
  {
    var hits := Take(Search(r, entries, normalized), limit);
    assert forall e <- hits :: e in entries;
    IdsOfMembers(hits, entries);
    Ids(hits)
  }

  /** The ids of entries drawn from a corpus are ids of that corpus. */
  lemma IdsOfMembers(es: seq<Entry>, corpus: seq<Entry>)
    requires forall e <- es :: e in corpus
    ensures forall id <- Ids(es) :: id in Ids(corpus)
  {
    forall id <- Ids(es)
      ensures id in Ids(corpus)
    {
      var i :| 0 <= i < |es| && Ids(es)[i] == id;
      assert es[i] in es;
      var j :| 0 <= j < |corpus| && corpus[j] == es[i];
      assert Ids(corpus)[j] == id;
    }
  }

  /** The answer to a query: no ids without an index or without a
      normalised query, the hits' ids otherwise. */
  function Answer(normalize: string -> string, r: Ranker, s: WorkerState, requestId: int, query: string, limit: nat): (reply: Reply)
    ensures reply.requestId == requestId
    ensures !s.indexed || normalize(query) == "" ==> reply.ids == []
    ensures s.indexed && normalize(query) != "" ==> reply.ids == HitIds(r, s.entries, normalize(query), limit)
  {
    var normalized := normalize(query);
    if normalized == "" || !s.indexed then Reply(requestId, [])
    else Reply(requestId, HitIds(r, s.entries, normalized, limit))
  }

  /** `self.onmessage` on one message: `init` rebuilds the index and posts
      nothing, `query` posts exactly one reply, anything else is ignored. */
  function Handle(normalize: string -> string, r: Ranker, s: WorkerState, m: Message): (s': WorkerState)
    ensures m.Init? ==> s' == WorkerState(m.entries, true, s.posted)
    ensures m.Query? ==>
      && s'.entries == s.entries && s'.indexed == s.indexed
      && s'.posted == s.posted + [Answer(normalize, r, s, m.requestId, m.query, m.limit)]
    ensures m.Other? ==> s' == s
  {
    match m
    case Init(next) => WorkerState(next, true, s.posted)
    case Query(id, q, limit) => s.(posted := s.posted + [Answer(normalize, r, s, id, q, limit)])
    case Other(_) => s
  }

  /** The worker over a sequence of messages, in arrival order. */
  function Run(normalize: string -> string, r: Ranker, s: WorkerState, ms: seq<Message>): WorkerState
    decreases |ms|
  {
    if |ms| == 0 then s else Run(normalize, r, Handle(normalize, r, s, ms[0]), ms[1..])
  }

  /** The request ids of the query messages, in order. */
  function QueryIds(ms: seq<Message>): seq<int>
  {
    if |ms| == 0 then []
    else (if ms[0].Query? then [ms[0].requestId] else []) + QueryIds(ms[1..])
  }

  function ReplyIds(rs: seq<Reply>): seq<int>
  {
    if |rs| == 0 then [] else [rs[0].requestId] + ReplyIds(rs[1..])
  }

  lemma {:induction false} ReplyIdsAppend(a: seq<Reply>, b: seq<Reply>)
    ensures ReplyIds(a + b) == ReplyIds(a) + ReplyIds(b)
    decreases |a|
  {
    if |a| > 0 {
      assert (a + b)[1..] == a[1..] + b;
      ReplyIdsAppend(a[1..], b);
    } else {
      assert a + b == b;
    }
  }

  /** Every query gets exactly one reply, replies come in the order of the
      queries and each carries its query's request id; nothing else posts. */
  lemma {:induction false} OneReplyPerQuery(normalize: string -> string, r: Ranker, s: WorkerState, ms: seq<Message>)
    ensures var t := Run(normalize, r, s, ms);
      ReplyIds(t.posted) == ReplyIds(s.posted) + QueryIds(ms)
    decreases |ms|
  {
    if |ms| > 0 {
      var s1 := Handle(normalize, r, s, ms[0]);
      OneReplyPerQuery(normalize, r, s1, ms[1..]);
      if ms[0].Query? {
        ReplyIdsAppend(s.posted, [Answer(normalize, r, s, ms[0].requestId, ms[0].query, ms[0].limit)]);
      }
    }
  }

  /** The posted replies only ever grow. */
  lemma {:induction false} PostedOnlyGrows(normalize: string -> string, r: Ranker, s: WorkerState, ms: seq<Message>)
    ensures var t := Run(normalize, r, s, ms);
      |s.posted| <= |t.posted| && t.posted[..|s.posted|] == s.posted
    decreases |ms|
  {
    if |ms| > 0 {
      var s1 := Handle(normalize, r, s, ms[0]);
      PostedOnlyGrows(normalize, r, s1, ms[1..]);
      assert s1.posted[..|s.posted|] == s.posted;
    }
  }

  /** Messages that are not `init`. */
  predicate NoInit(ms: seq<Message>)
  {
    forall m <- ms :: !m.Init?
  }

  /** Until the first `init`, every reply the worker posts is empty. */
  lemma {:induction false} EmptyBeforeInit(normalize: string -> string, r: Ranker, ms: seq<Message>)
    requires NoInit(ms)
    ensures var t := Run(normalize, r, Start, ms);
      !t.indexed && forall reply <- t.posted :: reply.ids == []
  {
    NoIndexMeansEmptyReplies(normalize, r, Start, ms);
  }

  lemma {:induction false} NoIndexMeansEmptyReplies(normalize: string -> string, r: Ranker, s: WorkerState, ms: seq<Message>)
    requires NoInit(ms) && !s.indexed
    requires forall reply <- s.posted :: reply.ids == []
    ensures var t := Run(normalize, r, s, ms);
      !t.indexed && forall reply <- t.posted :: reply.ids == []
    decreases |ms|
  {
    if |ms| > 0 {
      assert ms[0] in ms;
      NoIndexMeansEmptyReplies(normalize, r, Handle(normalize, r, s, ms[0]), ms[1..]);
    }
  }

  /** Queries and other messages leave the corpus and the index alone. */
  lemma {:induction false} CorpusKept(normalize: string -> string, r: Ranker, s: WorkerState, ms: seq<Message>)
    requires NoInit(ms)
    ensures Run(normalize, r, s, ms).entries == s.entries
    ensures Run(normalize, r, s, ms).indexed == s.indexed
    decreases |ms|
  {
    if |ms| > 0 {
      assert ms[0] in ms;
      CorpusKept(normalize, r, Handle(normalize, r, s, ms[0]), ms[1..]);
    }
  }

  /** The last `init` decides the corpus: whatever came before it, the
      worker afterwards searches exactly the entries it carried. */
  lemma LastInitWins(normalize: string -> string, r: Ranker, s: WorkerState, ms: seq<Message>, next: seq<Entry>)
    requires NoInit(ms)
    ensures var t := Run(normalize, r, Handle(normalize, r, s, Init(next)), ms);
      t.entries == next && t.indexed
  {
    CorpusKept(normalize, r, Handle(normalize, r, s, Init(next)), ms);
  }

  /** Every id a reply carries names an entry of the corpus the worker held
      when the query arrived. */
  lemma ReplyIdsFromCorpus(normalize: string -> string, r: Ranker, s: WorkerState, requestId: int, query: string, limit: nat)
    ensures forall id <- Answer(normalize, r, s, requestId, query, limit).ids :: id in Ids(s.entries)
    ensures |Answer(normalize, r, s, requestId, query, limit).ids| <= limit
  {
  }

  /** The worker as it runs: module-level `entries` and `fuse`, and the
      replies it has posted. */
  class SearchWorker {
    const normalizeQuery: string -> string
    const ranker: Ranker
    var entries: seq<Entry>
    /** `fuse !== null`. */
    var indexed: bool
    /** The messages passed to `self.postMessage`, oldest first. */
    var posted: seq<Reply>

    function State(): WorkerState
      reads this
    {
      WorkerState(entries, indexed, posted)
    }

    /** The worker script loads: no entries, no index, nothing posted. */
    constructor(u: Unicode, ranker: Ranker)
      ensures normalizeQuery == QueryNormalizer(u) && this.ranker == ranker
      ensures State() == Start
    {
      normalizeQuery := QueryNormalizer(u);
      this.ranker := ranker;
      entries := [];
      indexed := false;
      posted := [];
    }

    /** `buildIndex`: the corpus and the index are replaced together. */
    method BuildIndex(nextEntries: seq<Entry>)
      modifies this
      ensures State() == WorkerState(nextEntries, true, old(posted))
    {
      entries := nextEntries;
      indexed := true;
    }

    /** `self.onmessage`. */
    method OnMessage(message: Message)
      modifies this
      ensures State() == Handle(normalizeQuery, ranker, old(State()), message)
    {
      if message.Init? {
        BuildIndex(message.entries);
        return;
      }
      if !message.Query? {
        return;
      }
      var normalized := normalizeQuery(message.query);
      if normalized == "" || !indexed {
        posted := posted + [Reply(message.requestId, [])];
        return;
      }
      var ids := HitIds(ranker, entries, normalized, message.limit);
      posted := posted + [Reply(message.requestId, ids)];
    }
  }
}
