/** What holds over whole runs of searches, with articles published and answers evicted in between. */
module SearchRuns {
  import opened Common
  import opened CertTable
  import opened Text
  import opened Articles
  import opened SearchCache

  /** Every search sees the table as it is then. */
  datatype Event =
    | Ask(rows: Rows, site: Site, query: string, limit: nat, c: Conditions)
    | LateWrite(rows: Rows, site: Site, query: string, limit: nat, hits: seq<Hit>, now: int)  // a search missed earlier
    | Evict(key: Key)

  /** An answer written to the cache. */
  datatype Write = Write(key: Key, now: int, answer: seq<Found>)

  function WriteOf(maker: Maker, entries: Entries, e: Event): Option<Write> {
    match e
    case Ask(rows, site, query, limit, c) =>
      var made := FreshFor(maker, entries, rows, site, query, limit, c);
      if made.None? || !c.canWrite then None
      else Some(Write(KeyOf(site, Trim(query, IsSpace), limit), c.now, made.value))
    case LateWrite(rows, site, query, limit, hits, now) =>
      Some(Write(KeyOf(site, query, limit), now, FreshAnswer(maker, rows, site.source, query, limit, hits)))
    case Evict(key) => None
  }

  function Apply(maker: Maker, entries: Entries, e: Event): Entries {
    match e
    case Ask(rows, site, query, limit, c) => EntriesAfter(maker, entries, rows, site, query, limit, c)
    case LateWrite(rows, site, query, limit, hits, now) =>
      WriteEntry(entries, KeyOf(site, query, limit), now,
                 ToCache(FreshAnswer(maker, rows, site.source, query, limit, hits)))
    case Evict(key) => entries - {key}
  }

  ghost predicate StepAt(maker: Maker, states: seq<Entries>, events: seq<Event>, i: nat)
    requires i < |events| < |states|
  {
    states[i + 1] == Apply(maker, states[i], events[i]) && (!events[i].Evict? ==> Keyed(events[i].rows))
  }

  ghost predicate IsRun(maker: Maker, states: seq<Entries>, events: seq<Event>) {
    && |states| == |events| + 1 && states[0] == map[]
    && forall i :: 0 <= i < |events| ==> StepAt(maker, states, events, i)
  }

  // Answers on their own.

  ghost predicate DistinctIds(cached: seq<CachedResult>) {
    forall i, j :: 0 <= i < j < |cached| ==> cached[i].id != cached[j].id
  }

  ghost predicate DistinctArticles(answer: seq<Found>) {
    forall i, j :: 0 <= i < j < |answer| ==> answer[i].article.id != answer[j].article.id
  }

  /** No article twice, no more than were asked for, and nothing that's not readable on the site. */
  ghost predicate IsSound(answer: seq<Found>, rows: Rows, source: int, limit: nat) {
    && DistinctArticles(answer) && |answer| <= limit
    && forall i :: 0 <= i < |answer| ==> answer[i].article in rows && IsReadable(rows, source, answer[i].article)
  }

  ghost predicate AreDistinctReadable(articles: seq<Article>, rows: Rows, source: int) {
    && (forall i, j :: 0 <= i < j < |articles| ==> articles[i].uuid != articles[j].uuid)
    && forall i :: 0 <= i < |articles| ==> articles[i] in rows && IsReadable(rows, source, articles[i])
  }

  lemma {:induction false} ReadableAreDistinct(rows: Rows, source: int, keys: seq<string>)
    requires NoDuplicates(keys)
    ensures AreDistinctReadable(Readable(rows, source, keys), rows, source)
    ensures forall i :: 0 <= i < |Readable(rows, source, keys)| ==> Readable(rows, source, keys)[i].uuid in keys
  {
    if keys != [] {
      var init, last := keys[..|keys| - 1], keys[|keys| - 1];
      assert keys == init + [last] && last !in init;
      ReadableAreDistinct(rows, source, init);
    }
  }

  lemma FreshIsSound(maker: Maker, rows: Rows, source: int, query: string, limit: nat, hits: seq<Hit>)
    requires Keyed(rows)
    ensures IsSound(FreshAnswer(maker, rows, source, query, limit, hits), rows, source, limit)
  {
    ReadableAreDistinct(rows, source, ItemKeys(hits));
    var articles := Take(Readable(rows, source, ItemKeys(hits)), limit);
    forall i, j | 0 <= i < j < |articles| ensures articles[i].id != articles[j].id {
      assert articles[i].uuid != articles[j].uuid;
    }
  }

  // Fresh answers are the best.

  /** Where each key's first hit is, which is its best. */
  ghost predicate AreFirstHits(at: seq<nat>, keys: seq<string>, hits: seq<Hit>) {
    && |at| == |keys|
    && (forall i, j :: 0 <= i < j < |at| ==> at[i] < at[j])
    && (forall i :: 0 <= i < |at| ==> at[i] < |hits| && hits[at[i]].itemKey == keys[i])
    && forall i, k :: 0 <= i < |at| && 0 <= k < at[i] ==> hits[k].itemKey != keys[i]
  }

  lemma NewFirstHit(at: seq<nat>, keys: seq<string>, hits: seq<Hit>, h: Hit)
    requires AreFirstHits(at, keys, hits) && forall k :: 0 <= k < |hits| ==> hits[k].itemKey != h.itemKey
    ensures AreFirstHits(at + [|hits|], keys + [h.itemKey], hits + [h])
  {
  }

  /** Keys are in the order of their first hits. */
  lemma {:induction false} KeysAreFirstHits(hits: seq<Hit>) returns (at: seq<nat>)
    ensures AreFirstHits(at, ItemKeys(hits), hits)
    decreases |hits|
  {
    if hits == [] {
      at := [];
    } else {
      var init, h := hits[..|hits| - 1], hits[|hits| - 1];
      assert hits == init + [h];
      at := KeysAreFirstHits(init);
      if h.itemKey !in ItemKeys(init) {
        forall k | 0 <= k < |init| ensures init[k].itemKey != h.itemKey {
          assert init[k] in init;
        }
        NewFirstHit(at, ItemKeys(init), init, h);
        at := at + [|init|];
      }
    }
  }

  /** And the snippet of an article's chunks is its first hit's. */
  lemma {:induction false} ChunkIsFirst(maker: Maker, query: string, hits: seq<Hit>, at: nat)
    requires at < |hits| && forall k :: 0 <= k < at ==> hits[k].itemKey != hits[at].itemKey
    ensures ChunkSnippet(maker, query, hits, hits[at].itemKey) == maker.ofChunk(query, hits[at].text)
    decreases |hits|
  {
    var init := hits[..|hits| - 1];
    if at < |init| {
      ChunkIsFirst(maker, query, init, at);
      assert init[at] in init;
    }
  }

  /** The articles, by the keys they're found by: in order, and only those that aren't readable or are past the limit
      are left out. */
  ghost predicate AreBest(articles: seq<Article>, at: seq<nat>, keys: seq<string>, rows: Rows, source: int,
                          limit: nat)
  {
    && |at| == |articles| <= limit
    && (forall i, j :: 0 <= i < j < |at| ==> at[i] < at[j])
    && (forall i :: 0 <= i < |at| ==> at[i] < |keys| && articles[i].uuid == keys[at[i]])
    && forall k :: 0 <= k < |keys| && k !in at && ReadableByUuid(rows, rows, source, keys[k]).Some? ==>
         |articles| == limit && forall i :: 0 <= i < |at| ==> at[i] < k
  }

  /** The articles, by the keys they're found by: in order, and all of those that are readable. */
  ghost predicate AreFound(articles: seq<Article>, at: seq<nat>, keys: seq<string>, rows: Rows, source: int) {
    && |at| == |articles|
    && (forall i, j :: 0 <= i < j < |at| ==> at[i] < at[j])
    && (forall i :: 0 <= i < |at| ==> at[i] < |keys| && articles[i].uuid == keys[at[i]])
    && forall k :: 0 <= k < |keys| && ReadableByUuid(rows, rows, source, keys[k]).Some? ==> k in at
  }

  lemma FoundMore(articles: seq<Article>, at: seq<nat>, keys: seq<string>, rows: Rows, source: int, key: string)
    requires AreFound(articles, at, keys, rows, source)
    ensures var found := ReadableByUuid(rows, rows, source, key);
            if found.Some? then AreFound(articles + [found.value], at + [|keys|], keys + [key], rows, source)
            else AreFound(articles, at, keys + [key], rows, source)
  {
    var at' := at + [|keys|];
    assert at'[|at|] == |keys|;
    assert forall k :: k in at ==> k in at';
  }

  lemma {:induction false} ReadableInOrder(rows: Rows, source: int, keys: seq<string>) returns (at: seq<nat>)
    ensures AreFound(Readable(rows, source, keys), at, keys, rows, source)
    decreases |keys|
  {
    if keys == [] {
      at := [];
    } else {
      var init, last := keys[..|keys| - 1], keys[|keys| - 1];
      assert keys == init + [last];
      at := ReadableInOrder(rows, source, init);
      FoundMore(Readable(rows, source, init), at, init, rows, source, last);
      at := if ReadableByUuid(rows, rows, source, last).Some? then at + [|init|] else at;
    }
  }

  lemma TakenAreFirst(all: seq<nat>, n: nat, i: nat)
    requires n <= |all| && i < |all| && forall j, k :: 0 <= j < k < |all| ==> all[j] < all[k]
    ensures all[i] in all[..n] || (n <= i && forall j :: 0 <= j < n ==> all[j] < all[i])
  {
    if i < n {
      assert all[..n][i] == all[i];
    }
  }

  /** A fresh answer is of the best readable articles, best first, up to the limit. */
  lemma FreshIsBest(maker: Maker, rows: Rows, source: int, query: string, limit: nat, hits: seq<Hit>)
    returns (articles: seq<Article>, at: seq<nat>)
    ensures AreBest(articles, at, ItemKeys(hits), rows, source, limit)
    ensures var answer := FreshAnswer(maker, rows, source, query, limit, hits);
            |answer| == |articles| && forall i :: 0 <= i < |answer| ==> answer[i].article == articles[i]
  {
    var readable := Readable(rows, source, ItemKeys(hits));
    articles := Take(readable, limit);
    var all := ReadableInOrder(rows, source, ItemKeys(hits));
    at := all[..|articles|];
    forall k | 0 <= k < |ItemKeys(hits)| && k !in at && ReadableByUuid(rows, rows, source, ItemKeys(hits)[k]).Some?
      ensures |articles| == limit && forall i :: 0 <= i < |at| ==> at[i] < k
    {
      var i :| 0 <= i < |all| && all[i] == k;
      TakenAreFirst(all, |at|, i);
    }
  }

  /** The snippet is of the first hit of the article's chunks or, if that makes none, of the article itself. */
  predicate ShowsHit(maker: Maker, query: string, hits: seq<Hit>, found: Found, k: nat) {
    && k < |hits| && hits[k].itemKey == found.article.uuid
    && (forall j :: 0 <= j < k ==> hits[j].itemKey != found.article.uuid)
    && var chunk := maker.ofChunk(query, hits[k].text);
       found.snippet == if chunk == "" then maker.ofBody(query, found.article.body) else chunk
  }

  lemma {:induction false} FirstHitOf(hits: seq<Hit>, uuid: string) returns (k: nat)
    requires exists h :: h in hits && h.itemKey == uuid
    ensures k < |hits| && hits[k].itemKey == uuid && forall j :: 0 <= j < k ==> hits[j].itemKey != uuid
  {
    if hits[0].itemKey == uuid {
      k := 0;
    } else {
      assert hits == [hits[0]] + hits[1..];
      k := FirstHitOf(hits[1..], uuid);
      k := k + 1;
    }
  }

  ghost predicate ShowsItsHit(maker: Maker, query: string, hits: seq<Hit>, found: Found) {
    exists k: nat :: ShowsHit(maker, query, hits, found, k)
  }

  ghost predicate AllShowHits(maker: Maker, query: string, hits: seq<Hit>, answer: seq<Found>) {
    forall i :: 0 <= i < |answer| ==> ShowsItsHit(maker, query, hits, answer[i])
  }

  /** Each result of a fresh answer shows where mailroom found it. */
  lemma FreshShowHits(maker: Maker, rows: Rows, source: int, query: string, limit: nat, hits: seq<Hit>)
    ensures AllShowHits(maker, query, hits, FreshAnswer(maker, rows, source, query, limit, hits))
  {
    var answer := FreshAnswer(maker, rows, source, query, limit, hits);
    ReadableAreDistinct(rows, source, ItemKeys(hits));
    forall i | 0 <= i < |answer| ensures ShowsItsHit(maker, query, hits, answer[i]) {
      var k := FirstHitOf(hits, answer[i].article.uuid);
      ChunkIsFirst(maker, query, hits, k);
      assert ShowsHit(maker, query, hits, answer[i], k);
    }
  }

  // Cached answers.

  /** What an answer from the cache is of the answer that was cached: `at` says where each result was, in order, and
      leaves out only what isn't readable any more. */
  ghost predicate IsFiltered(answer: seq<Found>, at: seq<nat>, cached: seq<CachedResult>, rows: Rows, source: int) {
    && |at| == |answer|
    && (forall i, j :: 0 <= i < j < |at| ==> at[i] < at[j])
    && (forall i :: 0 <= i < |at| ==>
          && at[i] < |cached| && answer[i].article in rows && IsReadable(rows, source, answer[i].article)
          && answer[i].article.id == cached[at[i]].id && answer[i].snippet == cached[at[i]].snippet)
    && (forall k :: 0 <= k < |cached| && k !in at ==>
          forall a :: a in rows && IsReadable(rows, source, a) ==> a.id != cached[k].id)
  }

  lemma FilteredAdds(answer: seq<Found>, at: seq<nat>, cached: seq<CachedResult>, rows: Rows, source: int,
                     c: CachedResult, a: Article)
    requires IsFiltered(answer, at, cached, rows, source) && a in rows && IsReadable(rows, source, a) && a.id == c.id
    ensures IsFiltered(answer + [Found(a, c.snippet)], at + [|cached|], cached + [c], rows, source)
  {
    var at', cached' := at + [|cached|], cached + [c];
    assert at'[|at|] in at';
    forall k | 0 <= k < |cached'| && k !in at' ensures k < |cached| && k !in at {
      assert k in at ==> k in at';
    }
  }

  lemma FilteredDrops(answer: seq<Found>, at: seq<nat>, cached: seq<CachedResult>, rows: Rows, source: int,
                      c: CachedResult)
    requires IsFiltered(answer, at, cached, rows, source)
    requires forall a :: a in rows && IsReadable(rows, source, a) ==> a.id != c.id
    ensures IsFiltered(answer, at, cached + [c], rows, source)
  {
  }

  lemma {:induction false} FromCacheIsFiltered(rows: Rows, source: int, cached: seq<CachedResult>)
    returns (at: seq<nat>)
    ensures IsFiltered(FromCache(rows, source, cached), at, cached, rows, source)
    decreases |cached|
  {
    if cached == [] {
      at := [];
    } else {
      var init, c := cached[..|cached| - 1], cached[|cached| - 1];
      var before := FromCacheIsFiltered(rows, source, init);
      assert cached == init + [c];
      var found := ReadableById(rows, rows, source, c.id);
      if found.Some? {
        FilteredAdds(FromCache(rows, source, init), before, init, rows, source, c, found.value);
        at := before + [|init|];
      } else {
        FilteredDrops(FromCache(rows, source, init), before, init, rows, source, c);
        at := before;
      }
    }
  }

  lemma FilteredIsSound(answer: seq<Found>, at: seq<nat>, cached: seq<CachedResult>, rows: Rows, source: int,
                        limit: nat)
    requires IsFiltered(answer, at, cached, rows, source) && DistinctIds(cached) && |cached| <= limit
    ensures IsSound(answer, rows, source, limit)
  {
    IncreasingFits(at, |cached|);
  }

  lemma {:induction false} IncreasingFits(at: seq<nat>, bound: nat)
    requires (forall i, j :: 0 <= i < j < |at| ==> at[i] < at[j]) && forall i :: 0 <= i < |at| ==> at[i] < bound
    ensures |at| <= bound
  {
    if at != [] {
      var init := at[..|at| - 1];
      IncreasingFits(init, at[|at| - 1]);
    }
  }

  // What the cache holds.

  /** Every entry's answer is within the limit of the question it's for, without duplicates. */
  ghost predicate IsWithinLimit(key: Key, cached: seq<CachedResult>) {
    DistinctIds(cached) && forall site, q, limit :: key == KeyOf(site, q, limit) ==> |cached| <= limit
  }

  lemma CachedIsWithinLimit(answer: seq<Found>, rows: Rows, source: int, site: Site, q: string, limit: nat)
    requires IsSound(answer, rows, source, limit)
    ensures IsWithinLimit(KeyOf(site, q, limit), ToCache(answer))
  {
    forall s, r, n | KeyOf(site, q, limit) == KeyOf(s, r, n) ensures |ToCache(answer)| <= n {
      KeysAreApart(site, q, limit, s, r, n);
    }
  }

  /** What each event of a run writes, if anything. */
  function Writes(maker: Maker, states: seq<Entries>, events: seq<Event>): seq<Option<Write>>
    requires |states| == |events| + 1
  {
    seq(|events|, i requires 0 <= i < |events| => WriteOf(maker, states[i], events[i]))
  }

  predicate IsTo(w: Option<Write>, key: Key) {
    w.Some? && w.value.key == key
  }

  /** The last write under a key before an event. */
  ghost predicate IsLastWrite(writes: seq<Option<Write>>, i: nat, key: Key, j: nat, w: Write)
    requires i <= |writes|
  {
    && j < i && writes[j] == Some(w) && w.key == key
    && forall k :: j < k < i ==> !IsTo(writes[k], key)
  }

  lemma ApplyIsWrite(maker: Maker, entries: Entries, e: Event)
    ensures var w, after := WriteOf(maker, entries, e), Apply(maker, entries, e);
            after == if e.Evict? then entries - {e.key}
                     else if w.Some? then WriteEntry(entries, w.value.key, w.value.now, ToCache(w.value.answer))
                     else entries
  {
  }

  predicate IsEntryOf(entry: Entry, w: Write) {
    entry.results == ToCache(w.answer) && entry.expires == w.now + CACHE_TTL
  }

  /** A step either writes an entry or leaves it, if it leaves it there. */
  predicate IsEntryStep(before: Entries, after: Entries, w: Option<Write>, key: Key) {
    key in after ==>
      if IsTo(w, key) then IsEntryOf(after[key], w.value) else key in before && after[key] == before[key]
  }

  lemma StepWrites(maker: Maker, states: seq<Entries>, events: seq<Event>, i: nat, key: Key)
    requires IsRun(maker, states, events) && i < |events|
    ensures IsEntryStep(states[i], states[i + 1], Writes(maker, states, events)[i], key)
  {
    assert StepAt(maker, states, events, i);
    ApplyIsWrite(maker, states[i], events[i]);
  }

  lemma {:induction false} LastWriteOf(states: seq<Entries>, writes: seq<Option<Write>>, i: nat, key: Key)
    returns (j: nat, w: Write)
    requires |states| == |writes| + 1 && states[0] == map[]
    requires forall k :: 0 <= k < |writes| ==> IsEntryStep(states[k], states[k + 1], writes[k], key)
    requires i <= |writes| && key in states[i]
    ensures IsLastWrite(writes, i, key, j, w) && IsEntryOf(states[i][key], w)
    decreases i
  {
    assert IsEntryStep(states[i - 1], states[i - 1 + 1], writes[i - 1], key);
    if IsTo(writes[i - 1], key) {
      j, w := i - 1, writes[i - 1].value;
    } else {
      j, w := LastWriteOf(states, writes, i - 1, key);
    }
  }

  /** What's in the cache is the last answer written under its key. */
  lemma EntryIsLastWrite(maker: Maker, states: seq<Entries>, events: seq<Event>, i: nat, key: Key)
    returns (j: nat, w: Write)
    requires IsRun(maker, states, events) && i <= |events| && key in states[i]
    ensures IsLastWrite(Writes(maker, states, events), i, key, j, w) && IsEntryOf(states[i][key], w)
  {
    forall k | 0 <= k < |events| ensures IsEntryStep(states[k], states[k + 1], Writes(maker, states, events)[k], key) {
      StepWrites(maker, states, events, k, key);
    }
    j, w := LastWriteOf(states, Writes(maker, states, events), i, key);
  }

  /** A write's answer is a fresh one, of the table as it was then. */
  lemma WrittenIsWithinLimit(maker: Maker, entries: Entries, e: Event)
    requires !e.Evict? && Keyed(e.rows) && WriteOf(maker, entries, e).Some?
    ensures var w := WriteOf(maker, entries, e).value; IsWithinLimit(w.key, ToCache(w.answer))
  {
    var hits := if e.Ask? then HitsFor(e.site, e.c).value else e.hits;
    var q := if e.Ask? then Trim(e.query, IsSpace) else e.query;
    FreshIsSound(maker, e.rows, e.site.source, q, e.limit, hits);
    CachedIsWithinLimit(FreshAnswer(maker, e.rows, e.site.source, q, e.limit, hits), e.rows, e.site.source, e.site, q,
                        e.limit);
  }

  lemma EntryIsWithinLimit(maker: Maker, states: seq<Entries>, events: seq<Event>, i: nat, key: Key)
    requires IsRun(maker, states, events) && i <= |events| && key in states[i]
    ensures IsWithinLimit(key, states[i][key].results)
  {
    var j, w := EntryIsLastWrite(maker, states, events, i, key);
    assert StepAt(maker, states, events, j);
    WrittenIsWithinLimit(maker, states[j], events[j]);
  }

  // Over every run.

  predicate IsHit(entries: Entries, e: Event) {
    && e.Ask? && e.c.canRead && Trim(e.query, IsSpace) != ""
    && ReadEntry(entries, KeyOf(e.site, Trim(e.query, IsSpace), e.limit), e.c.now).Some?
  }

  function AnswerOf(maker: Maker, entries: Entries, e: Event): seq<Found>
    requires e.Ask?
  {
    Answer(maker, entries, e.rows, e.site, e.query, e.limit, e.c)
  }

  /** A hit is the last answer given to the same question, within the cache's time, filtered to what's readable now: in
      the same order and with the same snippets. */
  lemma HitIsLastAnswerFiltered(maker: Maker, states: seq<Entries>, events: seq<Event>, i: nat)
    returns (j: nat, w: Write, at: seq<nat>)
    requires IsRun(maker, states, events) && i < |events| && IsHit(states[i], events[i])
    ensures var e := events[i];
            && IsLastWrite(Writes(maker, states, events), i, KeyOf(e.site, Trim(e.query, IsSpace), e.limit), j, w)
            && e.c.now < w.now + CACHE_TTL
            && IsFiltered(AnswerOf(maker, states[i], e), at, ToCache(w.answer), e.rows, e.site.source)
  {
    var e := events[i];
    j, w := EntryIsLastWrite(maker, states, events, i, KeyOf(e.site, Trim(e.query, IsSpace), e.limit));
    at := FromCacheIsFiltered(e.rows, e.site.source, ToCache(w.answer));
  }

  /** And that was the same site's question, but for case, with the same limit. */
  lemma LastAnswerWasToSameQuestion(maker: Maker, entries: Entries, e: Event, site: Site, query: string, limit: nat)
    requires !e.Evict?
    ensures IsTo(WriteOf(maker, entries, e), KeyOf(site, query, limit)) ==>
              e.site.id == site.id && e.limit == limit
                && Lower(if e.Ask? then Trim(e.query, IsSpace) else e.query) == Lower(query)
  {
    KeysAreApart(e.site, if e.Ask? then Trim(e.query, IsSpace) else e.query, e.limit, site, query, limit);
  }

  predicate IsFailed(site: Site, c: Conditions) {
    c.mailroomConfigured && site.isIndexed && c.mailroom.None?
  }

  lemma FreshForIs(maker: Maker, entries: Entries, rows: Rows, site: Site, query: string, limit: nat, c: Conditions)
    ensures FreshFor(maker, entries, rows, site, query, limit, c) ==
            if Trim(query, IsSpace) == "" || IsHit(entries, Ask(rows, site, query, limit, c)) || IsFailed(site, c)
              then None
            else Some(Answer(maker, entries, rows, site, query, limit, c))
  {
  }

  lemma WrittenFor(entries: Entries, key: Key, c: Conditions, made: Option<seq<Found>>, after: Entries)
    requires after == Written(entries, c, key, made)
    ensures made.Some? && c.canWrite ==> after == entries[key := Entry(ToCache(made.value), c.now + 5 * 60 * SECOND)]
    ensures made.None? || !c.canWrite ==> after == entries
  {
  }

  /** A search writes its answer, for five minutes, when it's made afresh and the cache can be written; and otherwise
      leaves everything as it was. */
  lemma WrittenIffFresh(maker: Maker, entries: Entries, rows: Rows, site: Site, query: string, limit: nat,
                        c: Conditions)
    ensures var q, after := Trim(query, IsSpace), EntriesAfter(maker, entries, rows, site, query, limit, c);
            if q == "" || IsHit(entries, Ask(rows, site, query, limit, c)) || IsFailed(site, c) || !c.canWrite then
              after == entries
            else
              var answer := Answer(maker, entries, rows, site, query, limit, c);
              after == entries[KeyOf(site, q, limit) := Entry(ToCache(answer), c.now + 5 * 60 * SECOND)]
  {
    FreshForIs(maker, entries, rows, site, query, limit, c);
    WrittenFor(entries, KeyOf(site, Trim(query, IsSpace), limit), c,
               FreshFor(maker, entries, rows, site, query, limit, c),
               EntriesAfter(maker, entries, rows, site, query, limit, c));
  }

  /** Every answer, cached or fresh, is without duplicates, within the limit and readable on the site as it's given. */
  lemma AnswersAreSound(maker: Maker, states: seq<Entries>, events: seq<Event>, i: nat)
    requires IsRun(maker, states, events) && i < |events| && events[i].Ask?
    ensures var e := events[i]; IsSound(AnswerOf(maker, states[i], e), e.rows, e.site.source, e.limit)
  {
    var e := events[i];
    assert StepAt(maker, states, events, i);
    var q := Trim(e.query, IsSpace);
    var key := KeyOf(e.site, q, e.limit);
    if IsHit(states[i], e) {
      EntryIsWithinLimit(maker, states, events, i, key);
      var cached := states[i][key].results;
      var at := FromCacheIsFiltered(e.rows, e.site.source, cached);
      FilteredIsSound(FromCache(e.rows, e.site.source, cached), at, cached, e.rows, e.site.source, e.limit);
    } else if HitsFor(e.site, e.c).Some? {
      FreshIsSound(maker, e.rows, e.site.source, q, e.limit, HitsFor(e.site, e.c).value);
    }
  }

  lemma NoHits(maker: Maker, rows: Rows, source: int, query: string, limit: nat)
    ensures FreshAnswer(maker, rows, source, query, limit, []) == []
  {
    assert ItemKeys([]) == [];
  }

  /** What's asked of mailroom's hits when nothing is cached: an answer to all of them, each shown with its own. With no
      question, no mailroom, no index or a failed call there's no answer. */
  lemma MissIsAnswered(maker: Maker, entries: Entries, rows: Rows, site: Site, query: string, limit: nat, c: Conditions)
    requires !IsHit(entries, Ask(rows, site, query, limit, c))
    ensures var q, answer := Trim(query, IsSpace), Answer(maker, entries, rows, site, query, limit, c);
            if q == "" || !c.mailroomConfigured || !site.isIndexed || c.mailroom.None? then answer == []
            else answer == FreshAnswer(maker, rows, site.source, q, limit, c.mailroom.value)
                 && AllShowHits(maker, q, c.mailroom.value, answer)
  {
    var q := Trim(query, IsSpace);
    NoHits(maker, rows, site.source, q, limit);
    if c.mailroom.Some? {
      FreshShowHits(maker, rows, site.source, q, limit, c.mailroom.value);
    }
  }

  // One search after another.

  ghost predicate AreReadable(answer: seq<Found>, rows: Rows, source: int) {
    forall i :: 0 <= i < |answer| ==> answer[i].article in rows && IsReadable(rows, source, answer[i].article)
  }

  lemma {:induction false} CachedComesBack(rows: Rows, source: int, answer: seq<Found>)
    requires Keyed(rows) && AreReadable(answer, rows, source)
    ensures FromCache(rows, source, ToCache(answer)) == answer
    decreases |answer|
  {
    if answer != [] {
      var init, last := answer[..|answer| - 1], answer[|answer| - 1];
      CachedComesBack(rows, source, init);
      FoundById(rows, source, last.article);
      LastCached(answer);
      LastFromCache(rows, source, ToCache(answer), init, last);
    }
  }

  lemma LastFromCache(rows: Rows, source: int, cached: seq<CachedResult>, before: seq<Found>, last: Found)
    requires cached != [] && FromCache(rows, source, cached[..|cached| - 1]) == before
    requires cached[|cached| - 1] == CachedResult(last.article.id, last.snippet)
    requires ReadableById(rows, rows, source, last.article.id) == Some(last.article)
    ensures FromCache(rows, source, cached) == before + [last]
  {
  }

  lemma FoundById(rows: Rows, source: int, a: Article)
    requires Keyed(rows) && a in rows && IsReadable(rows, source, a)
    ensures ReadableById(rows, rows, source, a.id) == Some(a)
  {
  }

  lemma LastCached(answer: seq<Found>)
    requires answer != []
    ensures var cached, last := ToCache(answer), answer[|answer| - 1];
            && cached[..|answer| - 1] == ToCache(answer[..|answer| - 1])
            && cached[|answer| - 1] == CachedResult(last.article.id, last.snippet)
  {
  }

  /** Asked again in time with nothing published or unpublished in between, the answer is the same, whatever mailroom
      would say now. */
  lemma AskedAgain(maker: Maker, entries: Entries, rows: Rows, site: Site, query: string, limit: nat, c: Conditions,
                   d: Conditions)
    requires Keyed(rows) && c.canWrite && d.canRead && d.now < c.now + CACHE_TTL && HitsFor(site, c).Some?
    requires !IsHit(entries, Ask(rows, site, query, limit, c))
    ensures Answer(maker, EntriesAfter(maker, entries, rows, site, query, limit, c), rows, site, query, limit, d)
         == Answer(maker, entries, rows, site, query, limit, c)
  {
    var q := Trim(query, IsSpace);
    var hits := HitsFor(site, c).value;
    FreshIsSound(maker, rows, site.source, q, limit, hits);
    CachedComesBack(rows, site.source, FreshAnswer(maker, rows, site.source, q, limit, hits));
  }

  /** A failed call to mailroom isn't remembered: the question asked again as soon as it works has its fresh answer. */
  lemma FailureNotRemembered(maker: Maker, entries: Entries, rows: Rows, site: Site, query: string, limit: nat,
                             c: Conditions, d: Conditions)
    requires Trim(query, IsSpace) != "" && HitsFor(site, c).None? && HitsFor(site, d).Some?
    requires ReadEntry(entries, KeyOf(site, Trim(query, IsSpace), limit), d.now).None?
    requires !IsHit(entries, Ask(rows, site, query, limit, c))
    ensures EntriesAfter(maker, entries, rows, site, query, limit, c) == entries
    ensures Answer(maker, EntriesAfter(maker, entries, rows, site, query, limit, c), rows, site, query, limit, d)
         == FreshAnswer(maker, rows, site.source, Trim(query, IsSpace), limit, HitsFor(site, d).value)
  {
  }
}
