/**
 * `ElasticSearchInputFormat.ElasticSearchRecordReader`: reads one split's
 * window of hits. The first `next` call with records still owed sends one
 * search for `(query, from, size)`; later calls walk its hits, one per call,
 * until `size` records are read or the hits run out. The reader never sends
 * a second search.
 *
 * The Elasticsearch client is the parameter `search`: the hits the cluster
 * answers a request with. The reader logs the requests it sends, so that
 * what it asks for can be stated.
 */
module EsReader {
  import opened Outcome
  import opened EsPlanning

  /** One search hit: its id becomes the key, its source text the value. */
  datatype Hit = Hit(id: string, source: string)

  /** A search request: query string, `setFrom`, `setSize`. */
  datatype SearchRequest = SearchRequest(query: string, from: int, size: int)

  /**
   * The reader's fields: the split's window, `recordsRead`, the hits the
   * iterator has not yet returned (`None` while `hitsItr` is null), and the
   * requests sent so far.
   */
  datatype Reader = Reader(
    query: string,
    from: int,
    recsToRead: int,
    recordsRead: int,
    page: Option<seq<Hit>>,
    requests: seq<SearchRequest>)

  /** What one `next(key, value)` call returns, and the key and value texts it leaves behind. */
  datatype Step = Step(more: bool, reader: Reader, key: string, value: string)

  /** `initialize`: take the split's window and start with no records read and no iterator. */
  function Initialize(split: EsSplit): Reader
  {
    Reader(split.query, split.from, split.size, 0, None, [])
  }

  /** `fetchNextHits`' request: the reader's whole window. */
  function WindowRequest(r: Reader): SearchRequest
  {
    SearchRequest(r.query, r.from, r.recsToRead)
  }

  /** `next(key, value)`, following its branches on `hitsItr` and `recordsRead < recsToRead`. */
  function Next(r: Reader, search: SearchRequest -> seq<Hit>, key: string, value: string): (s: Step)
    ensures s.reader.query == r.query && s.reader.from == r.from && s.reader.recsToRead == r.recsToRead
    ensures s.more ==> r.recordsRead < r.recsToRead && s.reader.recordsRead == r.recordsRead + 1
    ensures !s.more ==> s.reader.recordsRead == r.recordsRead && s.key == key && s.value == value
    ensures s.reader.requests ==
      if r.page.None? && r.recordsRead < r.recsToRead then r.requests + [WindowRequest(r)] else r.requests
    ensures s.more ==>
      var hits := if r.page.Some? then r.page.value else search(WindowRequest(r));
      && |hits| > 0
      && s.key == hits[0].id && s.value == hits[0].source
      && s.reader.page == Some(hits[1..])
  {
    match r.page
    case Some(hits) =>
      if r.recordsRead < r.recsToRead then
        if |hits| > 0 then
          Step(true, r.(page := Some(hits[1..]), recordsRead := r.recordsRead + 1), hits[0].id, hits[0].source)
        else Step(false, r, key, value)
      else Step(false, r.(page := None), key, value)
    case None =>
      if r.recordsRead < r.recsToRead then
        var request := WindowRequest(r);
        var hits := search(request);
        var sent := r.(requests := r.requests + [request]);
        if |hits| > 0 then
          Step(true, sent.(page := Some(hits[1..]), recordsRead := r.recordsRead + 1), hits[0].id, hits[0].source)
        else Step(false, sent.(page := Some(hits)), key, value)
      else Step(false, r, key, value)
  }

  /** `getPos`: always 0. */
  function GetPos(r: Reader): int
  {
    0
  }

  /** The records still owed: what a successful `next` brings closer to 0. */
  function Owed(r: Reader): nat
  {
    if r.recordsRead < r.recsToRead then r.recsToRead - r.recordsRead else 0
  }

  /** The (key, value) pairs `next` yields until it first returns false. */
  function Drain(r: Reader, search: SearchRequest -> seq<Hit>, key: string, value: string): seq<(string, string)>
    decreases Owed(r)
  {
    var s := Next(r, search, key, value);
    if !s.more then [] else [(s.key, s.value)] + Drain(s.reader, search, s.key, s.value)
  }

  /** `calls + 1` successive `next` calls, each given the texts the previous one left. */
  function Iterate(r: Reader, search: SearchRequest -> seq<Hit>, key: string, value: string, calls: nat): Step
    decreases calls
  {
    var s := Next(r, search, key, value);
    if calls == 0 then s else Iterate(s.reader, search, s.key, s.value, calls - 1)
  }

  /**
   * The states `next` can reach from `initialize`: before the search no
   * record is read; after it the one request sent is the window, the
   * iterator holds the answer's hits past those read, and the iterator is
   * dropped only once every owed record is read.
   */
  ghost predicate Reachable(r: Reader, search: SearchRequest -> seq<Hit>)
  {
    if r.requests == [] then
      r.page.None? && r.recordsRead == 0
    else
      var hits := search(WindowRequest(r));
      && r.requests == [WindowRequest(r)]
      && 0 <= r.recordsRead <= |hits|
      && r.recordsRead <= r.recsToRead
      && (r.page.Some? ==> r.page.value == hits[r.recordsRead..])
      && (r.page.None? ==> r.recordsRead == r.recsToRead)
  }

  /** The pairs a list of hits reads as. */
  function Pairs(hits: seq<Hit>): (out: seq<(string, string)>)
    ensures |out| == |hits|
  {
    seq(|hits|, i requires 0 <= i < |hits| => (hits[i].id, hits[i].source))
  }

  // ---------------------------------------------------------------------
  // Lemmas
  // ---------------------------------------------------------------------

  /**
   * A freshly initialised reader is reachable, owes the split's size (none
   * when it is not positive), and the one request it may send is the
   * split's own window.
   */
  lemma InitializeReachable(split: EsSplit, search: SearchRequest -> seq<Hit>)
    ensures Reachable(Initialize(split), search)
    ensures Owed(Initialize(split)) == if split.size > 0 then split.size else 0
    ensures WindowRequest(Initialize(split)) == SearchRequest(split.query, split.from, split.size)
  {
  }

  /** `next` keeps the reader reachable: in particular it never sends a second request. */
  lemma NextReachable(r: Reader, search: SearchRequest -> seq<Hit>, key: string, value: string)
    requires Reachable(r, search)
    ensures Reachable(Next(r, search, key, value).reader, search)
    ensures |Next(r, search, key, value).reader.requests| <= 1
  {
    var s := Next(r, search, key, value);
    if r.page.Some? && r.recordsRead < r.recsToRead && |r.page.value| > 0 {
      var hits := search(WindowRequest(r));
      assert r.page.value[1..] == hits[r.recordsRead + 1..];
    }
  }

  /**
   * From a reachable state, `next` yields exactly the hits of the window's
   * answer from `recordsRead` on, stopping after `recsToRead` records or at
   * the end of the answer, whichever comes first.
   */
  lemma {:induction false} DrainReachable(r: Reader, search: SearchRequest -> seq<Hit>, key: string, value: string)
    requires Reachable(r, search)
    ensures var hits := search(WindowRequest(r));
      var end := if r.recordsRead < r.recsToRead then Min(r.recsToRead, |hits|) else r.recordsRead;
      && r.recordsRead <= end <= |hits|
      && Drain(r, search, key, value) == Pairs(hits[r.recordsRead..end])
    decreases Owed(r)
  {
    var hits := search(WindowRequest(r));
    var s := Next(r, search, key, value);
    NextReachable(r, search, key, value);
    NextTakesAnswerHit(r, search, key, value);
    if s.more {
      DrainReachable(s.reader, search, s.key, s.value);
      var end := Min(r.recsToRead, |hits|);
      var window := hits[r.recordsRead..end];
      PairsCons(window);
      assert window[0] == Hit(s.key, s.value);
      assert window[1..] == hits[r.recordsRead + 1..end];
    }
  }

  lemma PairsCons(hits: seq<Hit>)
    requires |hits| > 0
    ensures Pairs(hits) == [(hits[0].id, hits[0].source)] + Pairs(hits[1..])
  {
  }

  /**
   * From a reachable state, a successful `next` returns the answer's hit at
   * `recordsRead`, and a failing one while records are owed means the answer is used up.
   */
  lemma NextTakesAnswerHit(r: Reader, search: SearchRequest -> seq<Hit>, key: string, value: string)
    requires Reachable(r, search)
    ensures var hits := search(WindowRequest(r));
      var s := Next(r, search, key, value);
      && WindowRequest(s.reader) == WindowRequest(r)
      && (s.more ==> 0 <= r.recordsRead < |hits| && hits[r.recordsRead] == Hit(s.key, s.value))
      && (!s.more && r.recordsRead < r.recsToRead ==> r.recordsRead == |hits|)
  {
  }

  /**
   * A freshly initialised reader yields the first `min(size, |answer|)` hits
   * of the answer to its window's search, in order, each as (id, source);
   * nothing at all when the size is not positive.
   */
  lemma DrainSplit(split: EsSplit, search: SearchRequest -> seq<Hit>, key: string, value: string)
    ensures var hits := search(SearchRequest(split.query, split.from, split.size));
      var out := Drain(Initialize(split), search, key, value);
      && |out| == (if split.size <= 0 then 0 else Min(split.size, |hits|))
      && forall i | 0 <= i < |out| :: out[i] == (hits[i].id, hits[i].source)
  {
    InitializeReachable(split, search);
    DrainReachable(Initialize(split), search, key, value);
  }

  /** The first `next` call sends the window's search exactly when the split's size is positive. */
  lemma FirstCallRequest(split: EsSplit, search: SearchRequest -> seq<Hit>, key: string, value: string)
    ensures var sent := Next(Initialize(split), search, key, value).reader.requests;
      && (split.size > 0 ==> sent == [SearchRequest(split.query, split.from, split.size)])
      && (split.size <= 0 ==> sent == [])
  {
  }

  /**
   * Any number of `next` calls keeps the reader reachable and its window
   * fixed, and sends no request other than the window's. A reader that owes
   * no records and has sent nothing never sends anything and reads nothing.
   */
  lemma {:induction false} IterateReachable(r: Reader, search: SearchRequest -> seq<Hit>, key: string, value: string, calls: nat)
    requires Reachable(r, search)
    ensures var after := Iterate(r, search, key, value, calls).reader;
      && Reachable(after, search)
      && WindowRequest(after) == WindowRequest(r)
      && (after.requests == [] || after.requests == [WindowRequest(r)])
      && (r.recsToRead <= 0 && r.requests == [] ==> after.requests == [] && after.recordsRead == 0)
    decreases calls
  {
    var s := Next(r, search, key, value);
    NextReachable(r, search, key, value);
    if calls > 0 {
      IterateReachable(s.reader, search, s.key, s.value, calls - 1);
    }
  }

  /**
   * Over a reader's lifetime `recordsRead` starts at 0 and never exceeds a
   * positive split size; at most the split's own `(query, from, size)` is
   * requested, and a split of size 0 or less requests nothing.
   */
  lemma SplitLifetime(split: EsSplit, search: SearchRequest -> seq<Hit>, key: string, value: string, calls: nat)
    ensures var after := Iterate(Initialize(split), search, key, value, calls).reader;
      && 0 <= after.recordsRead
      && (after.recordsRead == 0 || after.recordsRead <= split.size)
      && (after.requests == [] || after.requests == [SearchRequest(split.query, split.from, split.size)])
      && (split.size <= 0 ==> after.requests == [])
  {
    InitializeReachable(split, search);
    IterateReachable(Initialize(split), search, key, value, calls);
  }

  /**
   * Once `next` has returned false from a reachable state, the state it
   * leaves is final: every later call returns false and changes nothing.
   */
  lemma FalseIsFinal(r: Reader, search: SearchRequest -> seq<Hit>, key: string, value: string, key2: string, value2: string)
    requires Reachable(r, search)
    requires !Next(r, search, key, value).more
    ensures var after := Next(r, search, key, value).reader;
      Next(after, search, key2, value2) == Step(false, after, key2, value2)
  {
  }

  /** After the first false, any number of further calls return false with the reader and texts unchanged. */
  lemma {:induction false} ExhaustedStaysExhausted(r: Reader, search: SearchRequest -> seq<Hit>, key: string, value: string, calls: nat)
    requires Next(r, search, key, value) == Step(false, r, key, value)
    ensures Iterate(r, search, key, value, calls) == Step(false, r, key, value)
    decreases calls
  {
    if calls > 0 {
      ExhaustedStaysExhausted(r, search, key, value, calls - 1);
    }
  }

  /** After `next` first returns false from a reachable state, every later call returns false and changes nothing. */
  lemma FalseForever(r: Reader, search: SearchRequest -> seq<Hit>, key: string, value: string, calls: nat)
    requires Reachable(r, search)
    requires !Next(r, search, key, value).more
    ensures var after := Next(r, search, key, value).reader;
      Iterate(after, search, key, value, calls) == Step(false, after, key, value)
  {
    var after := Next(r, search, key, value).reader;
    FalseIsFinal(r, search, key, value, key, value);
    ExhaustedStaysExhausted(after, search, key, value, calls);
  }

  function Min(a: int, b: int): int
  {
    if a < b then a else b
  }
}
