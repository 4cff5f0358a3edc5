/** Answering a search, from what mailroom finds or from an answer kept for five minutes. */
module SearchCache {
  import opened Common
  import opened Text
  import opened CertTable
  import opened Articles

  datatype Found = Found(article: Article, snippet: string)

  /** A result as it's kept: its article by id, so that it's looked up anew each time. */
  datatype CachedResult = CachedResult(id: int, snippet: string)

  /** A chunk of an article that matches, by the article's uuid. */
  datatype Hit = Hit(itemKey: string, text: string)

  datatype Site = Site(id: int, source: int, isIndexed: bool)

  /** How snippets are made for a query, of a matching chunk or of an article's own body. */
  datatype Maker = Maker(ofChunk: (string, string) -> string, ofBody: (string, string) -> string)

  /** What mailroom's search comes back with, if it does. */
  type Mailroom = Option<seq<Hit>>

  // Keys.

  /** Keys are by site and a digest of the question, which is taken to be as good as the question itself. */
  datatype Key = Key(site: int, question: string)

  function Question(query: string, limit: nat): string {
    Lower(query) + "|" + Decimal(limit)
  }

  function KeyOf(site: Site, query: string, limit: nat): Key {
    Key(site.id, Question(query, limit))
  }

  lemma BarIsLast(a: string, m: string)
    requires '|' !in m
    ensures var s := a + "|" + m; s[|a|] == '|' && forall i :: |a| < i < |s| ==> s[i] != '|'
  {
    forall i | |a| < i < |a| + 1 + |m| ensures (a + "|" + m)[i] != '|' {
      assert m[i - |a| - 1] in m;
    }
  }

  lemma SplitAtBar(a: string, m: string, b: string, n: string)
    requires '|' !in m && '|' !in n && a + "|" + m == b + "|" + n
    ensures a == b && m == n
  {
    BarIsLast(a, m);
    BarIsLast(b, n);
    var s := a + "|" + m;
    assert |a| == |b|;
    assert a == s[..|a|] && b == s[..|b|] && m == s[|a| + 1..] && n == s[|b| + 1..];
  }

  /** Only the same site's same question, whatever its case, with the same limit has the same key. */
  lemma KeysAreApart(s: Site, q: string, m: nat, t: Site, r: string, n: nat)
    ensures KeyOf(s, q, m) == KeyOf(t, r, n) <==> s.id == t.id && Lower(q) == Lower(r) && m == n
  {
    if KeyOf(s, q, m) == KeyOf(t, r, n) {
      DecimalHasNoBar(m);
      DecimalHasNoBar(n);
      SplitAtBar(Lower(q), Decimal(m), Lower(r), Decimal(n));
      DecimalInjective(m, n);
    }
  }

  lemma DecimalHasNoBar(n: nat)
    ensures '|' !in Decimal(n)
  {
  }

  // Loading what's readable.

  /** The readable article with the uuid, among rows of all. */
  function ReadableByUuid(all: Rows, rows: Rows, source: int, uuid: string): (r: Option<Article>)
    ensures r.Some? ==> r.value in rows && IsReadable(all, source, r.value) && r.value.uuid == uuid
    ensures r.None? ==> forall a :: a in rows && IsReadable(all, source, a) ==> a.uuid != uuid
  {
    if rows == [] then None
    else
      var a, before := rows[|rows| - 1], ReadableByUuid(all, rows[..|rows| - 1], source, uuid);
      assert rows == rows[..|rows| - 1] + [a];
      if IsReadable(all, source, a) && a.uuid == uuid then Some(a) else before
  }

  function ReadableById(all: Rows, rows: Rows, source: int, id: int): (r: Option<Article>)
    ensures r.Some? ==> r.value in rows && IsReadable(all, source, r.value) && r.value.id == id
    ensures r.None? ==> forall a :: a in rows && IsReadable(all, source, a) ==> a.id != id
  {
    if rows == [] then None
    else
      var a, before := rows[|rows| - 1], ReadableById(all, rows[..|rows| - 1], source, id);
      assert rows == rows[..|rows| - 1] + [a];
      if IsReadable(all, source, a) && a.id == id then Some(a) else before
  }

  method LoadReadableByUuid(rows: Rows, source: int, uuids: seq<string>) returns (byUuid: map<string, Article>)
    ensures forall u :: u in byUuid <==> u in uuids && ReadableByUuid(rows, rows, source, u).Some?
    ensures forall u :: u in byUuid ==> ReadableByUuid(rows, rows, source, u) == Some(byUuid[u])
  {
    byUuid := map[];
    for i := 0 to |rows|
      invariant forall u :: u in byUuid <==> u in uuids && ReadableByUuid(rows, rows[..i], source, u).Some?
      invariant forall u :: u in byUuid ==> ReadableByUuid(rows, rows[..i], source, u) == Some(byUuid[u])
    {
      assert rows[..i + 1][..i] == rows[..i];
      if IsReadable(rows, source, rows[i]) && rows[i].uuid in uuids {
        byUuid := byUuid[rows[i].uuid := rows[i]];
      }
    }
    assert rows[..|rows|] == rows;
  }

  method LoadReadableById(rows: Rows, source: int, ids: seq<int>) returns (byId: map<int, Article>)
    ensures forall id :: id in byId <==> id in ids && ReadableById(rows, rows, source, id).Some?
    ensures forall id :: id in byId ==> ReadableById(rows, rows, source, id) == Some(byId[id])
  {
    byId := map[];
    for i := 0 to |rows|
      invariant forall id :: id in byId <==> id in ids && ReadableById(rows, rows[..i], source, id).Some?
      invariant forall id :: id in byId ==> ReadableById(rows, rows[..i], source, id) == Some(byId[id])
    {
      assert rows[..i + 1][..i] == rows[..i];
      if IsReadable(rows, source, rows[i]) && rows[i].id in ids {
        byId := byId[rows[i].id := rows[i]];
      }
    }
    assert rows[..|rows|] == rows;
  }

  // Answers.

  /** The uuids of hits, each where it first appears. */
  function ItemKeys(hits: seq<Hit>): (keys: seq<string>)
    ensures NoDuplicates(keys) && forall k :: k in keys <==> exists h :: h in hits && h.itemKey == k
  {
    if hits == [] then []
    else
      var h, before := hits[|hits| - 1], ItemKeys(hits[..|hits| - 1]);
      assert hits == hits[..|hits| - 1] + [h];
      if h.itemKey in before then before else before + [h.itemKey]
  }

  /** The snippet of the best chunk of an article, or empty. */
  function ChunkSnippet(maker: Maker, query: string, hits: seq<Hit>, uuid: string): string {
    if hits == [] then ""
    else
      var h, init := hits[|hits| - 1], hits[..|hits| - 1];
      if uuid in ItemKeys(init) || h.itemKey != uuid then ChunkSnippet(maker, query, init, uuid)
      else maker.ofChunk(query, h.text)
  }

  /** Keys and snippets as they are once the hits have been gone through. */
  ghost predicate AreDeduped(maker: Maker, query: string, hits: seq<Hit>, keys: seq<string>,
                             snippets: map<string, string>)
  {
    && keys == ItemKeys(hits)
    && (forall k :: k in snippets <==> k in keys)
    && forall k :: ChunkSnippet(maker, query, hits, k) == if k in snippets then snippets[k] else ""
  }

  lemma KeysOnce(before: seq<Hit>, h: Hit, hits: seq<Hit>)
    requires hits == before + [h]
    ensures ItemKeys(hits) == if h.itemKey in ItemKeys(before) then ItemKeys(before) else ItemKeys(before) + [h.itemKey]
  {
    assert hits[..|hits| - 1] == before;
  }

  lemma ChunkOnce(maker: Maker, query: string, before: seq<Hit>, h: Hit, hits: seq<Hit>, k: string)
    requires hits == before + [h]
    ensures ChunkSnippet(maker, query, hits, k)
         == if k == h.itemKey && k !in ItemKeys(before) then maker.ofChunk(query, h.text)
           else ChunkSnippet(maker, query, before, k)
  {
    assert hits[..|hits| - 1] == before;
  }

  lemma DedupedOnce(maker: Maker, query: string, before: seq<Hit>, h: Hit, hits: seq<Hit>, keys: seq<string>,
                    snippets: map<string, string>)
    requires hits == before + [h] && AreDeduped(maker, query, before, keys, snippets)
    ensures if h.itemKey in snippets then AreDeduped(maker, query, hits, keys, snippets)
            else AreDeduped(maker, query, hits, keys + [h.itemKey], snippets[h.itemKey := maker.ofChunk(query, h.text)])
  {
    KeysOnce(before, h, hits);
    forall k {
      ChunkOnce(maker, query, before, h, hits, k);
    }
  }

  /** The readable articles with the uuids, in the same order. */
  function Readable(rows: Rows, source: int, keys: seq<string>): seq<Article> {
    if keys == [] then []
    else
      var before := Readable(rows, source, keys[..|keys| - 1]);
      var found := ReadableByUuid(rows, rows, source, keys[|keys| - 1]);
      if found.Some? then before + [found.value] else before
  }

  function Take<T>(s: seq<T>, limit: nat): seq<T> {
    if |s| > limit then s[..limit] else s
  }

  function SnippetOf(maker: Maker, query: string, hits: seq<Hit>, a: Article): string {
    var snippet := ChunkSnippet(maker, query, hits, a.uuid);
    if snippet == "" then maker.ofBody(query, a.body) else snippet
  }

  function WithSnippets(maker: Maker, query: string, hits: seq<Hit>, articles: seq<Article>): seq<Found> {
    seq(|articles|, i requires 0 <= i < |articles| => Found(articles[i], SnippetOf(maker, query, hits, articles[i])))
  }

  /** A fresh answer. */
  function FreshAnswer(maker: Maker, rows: Rows, source: int, query: string, limit: nat, hits: seq<Hit>): seq<Found> {
    WithSnippets(maker, query, hits, Take(Readable(rows, source, ItemKeys(hits)), limit))
  }

  function ToCache(results: seq<Found>): seq<CachedResult> {
    seq(|results|, i requires 0 <= i < |results| => CachedResult(results[i].article.id, results[i].snippet))
  }

  /** A cached answer less what isn't readable any more. */
  function FromCache(rows: Rows, source: int, cached: seq<CachedResult>): seq<Found> {
    if cached == [] then []
    else
      var c, before := cached[|cached| - 1], FromCache(rows, source, cached[..|cached| - 1]);
      var found := ReadableById(rows, rows, source, c.id);
      if found.Some? then before + [Found(found.value, c.snippet)] else before
  }

  // The cache.

  const CACHE_TTL := 300 * SECOND

  datatype Entry = Entry(results: seq<CachedResult>, expires: int)

  type Entries = map<Key, Entry>

  function ReadEntry(entries: Entries, key: Key, now: int): Option<seq<CachedResult>> {
    if key in entries && now < entries[key].expires then Some(entries[key].results) else None
  }

  function WriteEntry(entries: Entries, key: Key, now: int, results: seq<CachedResult>): Entries {
    entries[key := Entry(results, now + CACHE_TTL)]
  }

  /** What a search finds, other than its answer, on its way: whether the cache can be read and written when. */
  datatype Conditions = Conditions(now: int, canRead: bool, canWrite: bool, mailroomConfigured: bool,
                                   mailroom: Mailroom)

  /** The hits there are to answer with, if the search gets that far. */
  function HitsFor(site: Site, c: Conditions): Mailroom {
    if c.mailroomConfigured && site.isIndexed then c.mailroom else Some([])
  }

  /** The answer that's made afresh of a question under a key, if one is. */
  function MadeAfresh(maker: Maker, entries: Entries, rows: Rows, site: Site, q: string, limit: nat, c: Conditions,
                      key: Key)
    : Option<seq<Found>>
  {
    if q == "" || (c.canRead && ReadEntry(entries, key, c.now).Some?) || HitsFor(site, c).None? then None
    else Some(FreshAnswer(maker, rows, site.source, q, limit, HitsFor(site, c).value))
  }

  function AnswerUnder(maker: Maker, entries: Entries, rows: Rows, site: Site, q: string, limit: nat, c: Conditions,
                       key: Key): seq<Found>
  {
    var cached := if c.canRead then ReadEntry(entries, key, c.now) else None;
    if q == "" then []
    else if cached.Some? then FromCache(rows, site.source, cached.value)
    else if HitsFor(site, c).None? then []
    else FreshAnswer(maker, rows, site.source, q, limit, HitsFor(site, c).value)
  }

  function Written(entries: Entries, c: Conditions, key: Key, made: Option<seq<Found>>): Entries {
    if made.None? || !c.canWrite then entries else WriteEntry(entries, key, c.now, ToCache(made.value))
  }

  function Answer(maker: Maker, entries: Entries, rows: Rows, site: Site, query: string, limit: nat,
                  c: Conditions): seq<Found>
  {
    var q := Trim(query, IsSpace);
    AnswerUnder(maker, entries, rows, site, q, limit, c, KeyOf(site, q, limit))
  }

  function FreshFor(maker: Maker, entries: Entries, rows: Rows, site: Site, query: string, limit: nat,
                    c: Conditions): Option<seq<Found>>
  {
    var q := Trim(query, IsSpace);
    MadeAfresh(maker, entries, rows, site, q, limit, c, KeyOf(site, q, limit))
  }

  function EntriesAfter(maker: Maker, entries: Entries, rows: Rows, site: Site, query: string, limit: nat,
                        c: Conditions): Entries
  {
    var made := FreshFor(maker, entries, rows, site, query, limit, c);
    Written(entries, c, KeyOf(site, Trim(query, IsSpace), limit), made)
  }

  class SearchCache {
    var entries: Entries

    method ReadCache(key: Key, now: int, canRead: bool) returns (cached: Option<seq<CachedResult>>)
      ensures cached == if canRead then ReadEntry(entries, key, now) else None
    {
      cached := if canRead && key in entries && now < entries[key].expires then Some(entries[key].results) else None;
    }

    method WriteCache(key: Key, now: int, canWrite: bool, results: seq<CachedResult>)
      modifies this
      ensures entries == if canWrite then WriteEntry(old(entries), key, now, results) else old(entries)
    {
      if canWrite {
        entries := entries[key := Entry(results, now + CACHE_TTL)];
      }
    }

    /** The uuids of hits, and the snippet of each one's best chunk. */
    method Dedupe(maker: Maker, query: string, hits: seq<Hit>)
      returns (keys: seq<string>, snippets: map<string, string>)
      ensures AreDeduped(maker, query, hits, keys, snippets)
    {
      keys, snippets := [], map[];
      for i := 0 to |hits|
        invariant AreDeduped(maker, query, hits[..i], keys, snippets)
      {
        DedupedOnce(maker, query, hits[..i], hits[i], hits[..i + 1], keys, snippets);
        var h := hits[i];
        if h.itemKey !in snippets {
          keys := keys + [h.itemKey];
          snippets := snippets[h.itemKey := maker.ofChunk(query, h.text)];
        }
      }
      assert hits[..|hits|] == hits;
    }

    method Search(maker: Maker, rows: Rows, site: Site, query: string, limit: nat, c: Conditions)
      returns (results: seq<Found>)
      modifies this
      ensures results == Answer(maker, old(entries), rows, site, query, limit, c)
      ensures entries == EntriesAfter(maker, old(entries), rows, site, query, limit, c)
    {
      var q := Trim(query, IsSpace);
      results := SearchUnder(maker, rows, site, q, limit, c, KeyOf(site, q, limit));
    }

    /** The rest of Search, once the query is trimmed. */
    method SearchUnder(maker: Maker, rows: Rows, site: Site, q: string, limit: nat, c: Conditions, key: Key)
      returns (results: seq<Found>)
      modifies this
      ensures results == AnswerUnder(maker, old(entries), rows, site, q, limit, c, key)
      ensures entries == Written(old(entries), c, key, MadeAfresh(maker, old(entries), rows, site, q, limit, c, key))
    {
      if q == "" {
        return [];
      }
      var cached := ReadCache(key, c.now, c.canRead);
      if cached.Some? {
        results := Reload(rows, site.source, cached.value);
        return;
      }
      results := Ask(maker, rows, site, q, limit, c, key);
    }

    /** The part of Search that asks mailroom, and caches the answer unless that fails. */
    method Ask(maker: Maker, rows: Rows, site: Site, q: string, limit: nat, c: Conditions, key: Key)
      returns (results: seq<Found>)
      modifies this
      ensures HitsFor(site, c).None? ==> results == [] && entries == old(entries)
      ensures HitsFor(site, c).Some? ==>
                && results == FreshAnswer(maker, rows, site.source, q, limit, HitsFor(site, c).value)
                && entries == if c.canWrite then WriteEntry(old(entries), key, c.now, ToCache(results))
                  else old(entries)
    {
      var hits := [];
      if c.mailroomConfigured && site.isIndexed {
        if c.mailroom.None? {
          return [];
        }
        hits := c.mailroom.value;
      }
      results := Fill(maker, rows, site.source, q, limit, hits);
      WriteCache(key, c.now, c.canWrite, ToCache(results));
    }

    /** What's cached, loaded. */
    method Reload(rows: Rows, source: int, cached: seq<CachedResult>) returns (results: seq<Found>)
      ensures results == FromCache(rows, source, cached)
    {
      var ids := seq(|cached|, i requires 0 <= i < |cached| => cached[i].id);
      var byId := LoadReadableById(rows, source, ids);
      results := [];
      for i := 0 to |cached|
        invariant results == FromCache(rows, source, cached[..i])
      {
        assert cached[..i + 1][..i] == cached[..i];
        assert ids[i] in ids;
        if cached[i].id in byId {
          results := results + [Found(byId[cached[i].id], cached[i].snippet)];
        }
      }
      assert cached[..|cached|] == cached;
    }

    /** The readable articles with the keys, in their order. */
    method LoadInOrder(rows: Rows, source: int, keys: seq<string>) returns (ordered: seq<Article>)
      ensures ordered == Readable(rows, source, keys)
    {
      var byUuid := LoadReadableByUuid(rows, source, keys);
      ordered := [];
      for i := 0 to |keys|
        invariant ordered == Readable(rows, source, keys[..i])
      {
        assert keys[..i + 1][..i] == keys[..i];
        assert keys[i] in keys;
        if keys[i] in byUuid {
          ordered := ordered + [byUuid[keys[i]]];
        }
      }
      assert keys[..|keys|] == keys;
    }

    /** The hits, deduped, loaded and cut to the limit. */
    method Fill(maker: Maker, rows: Rows, source: int, query: string, limit: nat, hits: seq<Hit>)
      returns (results: seq<Found>)
      ensures results == FreshAnswer(maker, rows, source, query, limit, hits)
    {
      var keys, snippets := Dedupe(maker, query, hits);
      var ordered := LoadInOrder(rows, source, keys);
      if |ordered| > limit {
        ordered := ordered[..limit];
      }
      results := Show(maker, query, hits, snippets, ordered);
    }

    /** Articles as results, each with the snippet of its best chunk or, failing that, of its body. */
    method Show(maker: Maker, query: string, ghost hits: seq<Hit>, snippets: map<string, string>, ordered: seq<Article>)
      returns (results: seq<Found>)
      requires forall k :: ChunkSnippet(maker, query, hits, k) == if k in snippets then snippets[k] else ""
      ensures results == WithSnippets(maker, query, hits, ordered)
    {
      results := [];
      for i := 0 to |ordered|
        invariant |results| == i
        invariant forall j :: 0 <= j < i ==> results[j] == Found(ordered[j], SnippetOf(maker, query, hits, ordered[j]))
      {
        var a := ordered[i];
        var snippet := if a.uuid in snippets then snippets[a.uuid] else "";
        if snippet == "" {
          snippet := maker.ofBody(query, a.body);
        }
        results := results + [Found(a, snippet)];
      }
    }
  }
}
