/** The sitemap: the home page, every section and every article, each with when it last changed; and how its entries,
    the targets of links and the pages that are served go together. */
module Sitemap {
  import opened Common
  import opened Paths
  import opened Articles
  import opened Routing
  import opened AddressSpace

  /** An entry, by its address on the site's host. */
  datatype Entry = Entry(loc: string, modified: Option<int>)

  /** The zero time, at the start of year 1: what a map without the key gives. */
  const ZERO_TIME := -62_135_596_800_000_000_000

  /** The rows selected from the table, in some order. */
  ghost predicate IsSelection(selected: Rows, rows: Rows, wanted: Article -> bool) {
    NoDuplicates(selected) && forall a :: a in selected <==> a in rows && wanted(a)
  }

  ghost predicate AreSections(sections: Rows, rows: Rows, source: int) {
    IsSelection(sections, rows, a => IsListedSection(rows, source, a))
  }

  ghost predicate AreArticles(articles: Rows, rows: Rows, source: int) {
    IsSelection(articles, rows, a => IsListedArticle(rows, source, a))
  }

  /** The latest of a time and the articles with the parent. */
  function Latest(start: int, articles: Rows, parent: int): int {
    if articles == [] then start
    else
      var a, before := articles[|articles| - 1], Latest(start, articles[..|articles| - 1], parent);
      if a.parent == Some(parent) then Max(before, a.modified) else before
  }

  function SectionEntry(articles: Rows, s: Article): Entry {
    Entry(SectionAddress("", s.slug), Some(Latest(s.modified, articles, s.id)))
  }

  function ArticleEntry(rows: Rows, a: Article): Entry
    requires ParentOf(rows, a).Some?
  {
    Entry(ArticleAddress("", ParentOf(rows, a).value.slug, a.slug), Some(a.modified))
  }

  /** What's been worked out for a section: its own time, if it's listed, and those of its articles. */
  ghost predicate IsFolded(modified: map<int, int>, sections: Rows, articles: Rows) {
    forall s :: s in sections ==> s.id in modified && modified[s.id] == Latest(s.modified, articles, s.id)
  }

  method SectionModified(sections: Rows, articles: Rows) returns (modified: map<int, int>)
    requires forall s, t :: s in sections && t in sections && s.id == t.id ==> s == t
    requires forall a :: a in articles ==> a.parent.Some?
    ensures IsFolded(modified, sections, articles)
  {
    modified := map[];
    var i := 0;
    while i < |sections|
      invariant 0 <= i <= |sections|
      invariant forall j :: 0 <= j < i ==>
                  sections[j].id in modified && modified[sections[j].id] == sections[j].modified
    {
      modified := modified[sections[i].id := sections[i].modified];
      i := i + 1;
    }
    i := 0;
    while i < |articles|
      invariant 0 <= i <= |articles| && IsFolded(modified, sections, articles[..i])
    {
      assert articles[..i + 1][..i] == articles[..i];
      var parent := articles[i].parent.value;
      var known := if parent in modified then modified[parent] else ZERO_TIME;
      if articles[i].modified > known {
        modified := modified[parent := articles[i].modified];
      }
      i := i + 1;
    }
    assert articles[..i] == articles;
  }

  /** The home page's entry, then the sections', then the articles'. */
  ghost predicate IsSitemap(urls: seq<Entry>, rows: Rows, sections: Rows, articles: Rows) {
    && |urls| == 1 + |sections| + |articles| && urls[0] == Entry("/", None)
    && (forall i :: 0 <= i < |sections| ==> urls[1 + i] == SectionEntry(articles, sections[i]))
    && (forall i :: 0 <= i < |articles| ==>
          ParentOf(rows, articles[i]).Some? && urls[1 + |sections| + i] == ArticleEntry(rows, articles[i]))
  }

  method HandleSitemap(rows: Rows, source: int, sections: Rows, articles: Rows) returns (urls: seq<Entry>)
    requires Keyed(rows) && AreSections(sections, rows, source) && AreArticles(articles, rows, source)
    ensures IsSitemap(urls, rows, sections, articles)
  {
    var modified := SectionModified(sections, articles);
    urls := [Entry("/", None)];
    var i := 0;
    while i < |sections|
      invariant 0 <= i <= |sections| && |urls| == 1 + i && urls[0] == Entry("/", None)
      invariant forall j :: 0 <= j < i ==> urls[1 + j] == SectionEntry(articles, sections[j])
    {
      assert sections[i] in sections;
      urls := urls + [Entry(SectionAddress("", sections[i].slug), Some(modified[sections[i].id]))];
      i := i + 1;
    }
    i := 0;
    while i < |articles|
      invariant 0 <= i <= |articles| && |urls| == 1 + |sections| + i && urls[0] == Entry("/", None)
      invariant forall j :: 0 <= j < |sections| ==> urls[1 + j] == SectionEntry(articles, sections[j])
      invariant forall j :: 0 <= j < i ==>
                  ParentOf(rows, articles[j]).Some? && urls[1 + |sections| + j] == ArticleEntry(rows, articles[j])
    {
      assert articles[i] in articles;
      urls := urls + [Entry(ArticleAddress("", ParentOf(rows, articles[i]).value.slug, articles[i].slug),
                            Some(articles[i].modified))];
      i := i + 1;
    }
  }

  /** Spelled out: published articles in published sections rather than under other articles, and sections with
      something published in them. */
  lemma ListedAre(rows: Rows, source: int, sections: Rows, articles: Rows, a: Article)
    requires Keyed(rows) && AreSections(sections, rows, source) && AreArticles(articles, rows, source) && a in rows
    ensures a in articles <==> IsReadable(rows, source, a)
                               && exists p :: p in rows && a.parent == Some(p.id) && p.parent.None?
    ensures a in sections <==> IsSection(source, a)
                               && exists c :: c in rows && c.parent == Some(a.id) && c.isActive && c.isPublished
  {
    if a.parent.Some? {
      var p := Find(rows, a.parent.value);
      forall q | q in rows && a.parent == Some(q.id) ensures p == Some(q) {
        ParentIsRow(rows, a, q);
      }
    }
  }

  // When a section last changed.

  predicate IsChange(rows: Rows, source: int, s: Article, time: int) {
    time == s.modified || exists a :: a in rows && IsArticleIn(rows, source, s.id, a) && a.modified == time
  }

  /** The latest of the changes to a section and the readable articles in it. */
  ghost predicate IsLastChange(rows: Rows, source: int, s: Article, time: int) {
    IsChange(rows, source, s, time) && forall t :: IsChange(rows, source, s, t) ==> t <= time
  }

  lemma {:induction false} LatestIsMax(start: int, articles: Rows, parent: int)
    ensures var m := Latest(start, articles, parent);
            && start <= m
            && (forall a :: a in articles && a.parent == Some(parent) ==> a.modified <= m)
            && (m == start || exists a :: a in articles && a.parent == Some(parent) && a.modified == m)
  {
    if articles != [] {
      var init, last := articles[..|articles| - 1], articles[|articles| - 1];
      assert articles == init + [last];
      LatestIsMax(start, init, parent);
    }
  }

  /** The sitemap's time for a section is the latest of the changes to its page, whatever order the articles come in. */
  lemma SectionTimeIsLastChange(rows: Rows, source: int, sections: Rows, articles: Rows, s: Article)
    requires Keyed(rows) && AreSections(sections, rows, source) && AreArticles(articles, rows, source) && s in sections
    ensures IsLastChange(rows, source, s, SectionEntry(articles, s).modified.value)
  {
    LatestIsMax(s.modified, articles, s.id);
    forall a ensures a in articles && a.parent == Some(s.id) <==> a in rows && IsArticleIn(rows, source, s.id, a) {
      ParentIsRow(rows, a, s);
    }
  }

  /** Every entry but the home page's has its page's time: the last change to a section, and an article's own. */
  lemma EntryHasTime(rows: Rows, source: int, sections: Rows, articles: Rows, urls: seq<Entry>, i: nat)
    requires Keyed(rows) && AreSections(sections, rows, source) && AreArticles(articles, rows, source)
    requires IsSitemap(urls, rows, sections, articles) && 1 <= i < |urls|
    ensures urls[i].modified.Some?
    ensures var time := urls[i].modified.value;
            if i < 1 + |sections| then IsLastChange(rows, source, sections[i - 1], time)
            else time == articles[i - 1 - |sections|].modified
  {
    if i < 1 + |sections| {
      assert urls[1 + (i - 1)] == SectionEntry(articles, sections[i - 1]) && sections[i - 1] in sections;
      SectionTimeIsLastChange(rows, source, sections, articles, sections[i - 1]);
    } else {
      var j := i - 1 - |sections|;
      assert urls[1 + |sections| + j] == ArticleEntry(rows, articles[j]);
    }
  }

  // Where the entries are.

  /** A live article is of the same source as the section it's in. */
  ghost predicate OneSource(rows: Rows) {
    forall a :: a in rows && IsLive(a) && ParentOf(rows, a).Some? ==> ParentOf(rows, a).value.source == a.source
  }

  /** A section listed for having something published in it has a page, if what's in it is of its own source. */
  lemma ListedSectionHasArticle(rows: Rows, source: int, s: Article) returns (a: Article)
    requires Keyed(rows) && OneSource(rows) && s in rows && IsListedSection(rows, source, s)
    ensures a in rows && IsArticleIn(rows, source, s.id, a) && ParentOf(rows, a) == Some(s)
  {
    a :| a in rows && a.parent == Some(s.id) && IsLive(a);
    ParentIsRow(rows, a, s);
  }

  /** As far as the code goes, it's not listing that gives a section a page, but a readable article in it. */
  lemma ListedSectionServedIff(ctx: Context, rows: Rows, s: Article)
    requires Keyed(rows) && UniqueSlugs(rows, ctx.source) && s in rows && IsSection(ctx.source, s)
    requires IsSlug(s.slug) && s.slug != "search" && s.slug != "static"
    ensures IsPageOf(AnswerTo(ctx, rows, SectionAddress("", s.slug)), s.uuid) <==> HasArticles(rows, ctx.source, s.id)
  {
    SectionAnswered(ctx, rows, s.slug, SectionAddress("", s.slug));
    SectionPagedIff(ctx, rows, s, NotFoundAnswer(ctx, rows, SectionAddress("", s.slug)));
  }

  /** A section whose only published article is of another source. */
  function OtherSources(source: int, other: int, slug: string, child: string): Rows {
    [Article(1, "s", source, None, slug, "", 0, true, true), Article(2, "o", other, Some(1), child, "", 0, true, true)]
  }

  /** Such a section is listed, and so in the sitemap, and has no page. */
  lemma ListedSectionLacksPage(ctx: Context, other: int, slug: string, child: string)
    requires other != ctx.source && IsSlug(slug) && slug != "search" && slug != "static"
    ensures var rows := OtherSources(ctx.source, other, slug, child);
            && Keyed(rows) && UniqueSlugs(rows, ctx.source) && IsListedSection(rows, ctx.source, rows[0])
            && !IsPageOf(AnswerTo(ctx, rows, SectionAddress("", slug)), rows[0].uuid)
  {
    var rows := OtherSources(ctx.source, other, slug, child);
    assert rows[1] in rows && HasLiveChild(rows, 1);
    ListedSectionServedIff(ctx, rows, rows[0]);
  }

  lemma SectionPagedIff(ctx: Context, rows: Rows, s: Article, notFound: Answer)
    requires UniqueSlugs(rows, ctx.source) && s in rows && IsSection(ctx.source, s)
    requires !notFound.SectionPage? && !notFound.ArticlePage?
    ensures IsPageOf(SectionAnswer(ctx, rows, s.slug, notFound), s.uuid) <==> HasArticles(rows, ctx.source, s.id)
  {
    SectionFound(rows, ctx.source, s);
    var articles := LoadArticles(rows, rows, ctx.source, s.id);
    assert HasArticles(rows, ctx.source, s.id) ==> articles != [];
    assert articles != [] ==> articles[0] in articles;
  }

  /** The uuid an entry is for: every one but the home page's is of a section or an article. */
  function UuidOf(sections: Rows, articles: Rows, i: nat): string
    requires 1 <= i < 1 + |sections| + |articles|
  {
    if i < 1 + |sections| then sections[i - 1].uuid else articles[i - 1 - |sections|].uuid
  }

  /** Each entry but the home page's is where a link to its section or article leads. */
  lemma EntryIsTarget(rows: Rows, source: int, sections: Rows, articles: Rows, urls: seq<Entry>, i: nat)
    requires WellFormed(rows, source) && OneSource(rows)
    requires AreSections(sections, rows, source) && AreArticles(articles, rows, source)
    requires IsSitemap(urls, rows, sections, articles) && 1 <= i < |urls|
    ensures var targets, uuid := TargetsOf(rows, rows, source, ""), UuidOf(sections, articles, i);
            uuid in targets && targets[uuid] == urls[i].loc
  {
    if i < 1 + |sections| {
      var s := sections[i - 1];
      assert s in sections && urls[1 + (i - 1)] == SectionEntry(articles, s);
      SectionIsTarget(rows, source, s);
    } else {
      var a := articles[i - 1 - |sections|];
      assert a in articles && urls[1 + |sections| + (i - 1 - |sections|)] == ArticleEntry(rows, a);
      ArticleIsTarget(rows, source, a);
    }
  }

  lemma SectionIsTarget(rows: Rows, source: int, s: Article)
    requires WellFormed(rows, source) && OneSource(rows) && s in rows && IsListedSection(rows, source, s)
    ensures var targets := TargetsOf(rows, rows, source, "");
            s.uuid in targets && targets[s.uuid] == SectionAddress("", s.slug)
  {
    var a := ListedSectionHasArticle(rows, source, s);
    TargetsAreExact(rows, rows, source, "", a, s.uuid, SectionAddress("", s.slug));
  }

  lemma ArticleIsTarget(rows: Rows, source: int, a: Article)
    requires WellFormed(rows, source) && a in rows && IsReadable(rows, source, a)
    ensures var targets := TargetsOf(rows, rows, source, "");
            a.uuid in targets && targets[a.uuid] == ArticleAddress("", ParentOf(rows, a).value.slug, a.slug)
  {
    TargetsAreExact(rows, rows, source, "", a, a.uuid, ArticleAddress("", ParentOf(rows, a).value.slug, a.slug));
  }

  lemma EntryFor(rows: Rows, source: int, sections: Rows, articles: Rows, a: Article, uuid: string) returns (i: nat)
    requires TwoLevel(rows, source) && a in rows && IsReadable(rows, source, a)
    requires uuid == a.uuid || uuid == ParentOf(rows, a).value.uuid
    requires AreSections(sections, rows, source) && AreArticles(articles, rows, source)
    ensures 1 <= i < 1 + |sections| + |articles| && UuidOf(sections, articles, i) == uuid
  {
    if uuid == a.uuid {
      assert a in articles;
      var j :| 0 <= j < |articles| && articles[j] == a;
      i := 1 + |sections| + j;
    } else {
      var p := ParentOf(rows, a).value;
      assert IsListedSection(rows, source, p) && p in sections;
      var j :| 0 <= j < |sections| && sections[j] == p;
      i := 1 + j;
    }
  }

  /** And everything a link can lead to has an entry. */
  lemma TargetHasEntry(rows: Rows, source: int, sections: Rows, articles: Rows, urls: seq<Entry>, uuid: string)
    returns (i: nat)
    requires WellFormed(rows, source) && OneSource(rows)
    requires AreSections(sections, rows, source) && AreArticles(articles, rows, source)
    requires IsSitemap(urls, rows, sections, articles) && uuid in TargetsOf(rows, rows, source, "")
    ensures 1 <= i < |urls| && UuidOf(sections, articles, i) == uuid
            && urls[i].loc == TargetsOf(rows, rows, source, "")[uuid]
  {
    var a := TargetsAreYielded(rows, rows, source, "", uuid);
    i := EntryFor(rows, source, sections, articles, a, uuid);
    EntryIsTarget(rows, source, sections, articles, urls, i);
  }

  /** So every listed article has an entry where a link to it leads, with its own time... */
  lemma ArticleHasEntry(rows: Rows, source: int, sections: Rows, articles: Rows, urls: seq<Entry>, a: Article)
    returns (i: nat)
    requires WellFormed(rows, source) && OneSource(rows)
    requires AreSections(sections, rows, source) && AreArticles(articles, rows, source)
    requires IsSitemap(urls, rows, sections, articles) && a in articles
    ensures a.uuid in TargetsOf(rows, rows, source, "")
    ensures i < |urls| && urls[i] == Entry(TargetsOf(rows, rows, source, "")[a.uuid], Some(a.modified))
  {
    var j :| 0 <= j < |articles| && articles[j] == a;
    i := 1 + |sections| + j;
    EntryIsTarget(rows, source, sections, articles, urls, i);
    EntryHasTime(rows, source, sections, articles, urls, i);
  }

  /** ...and every listed section, with its last change. */
  lemma SectionHasEntry(rows: Rows, source: int, sections: Rows, articles: Rows, urls: seq<Entry>, s: Article)
    returns (i: nat, time: int)
    requires WellFormed(rows, source) && OneSource(rows)
    requires AreSections(sections, rows, source) && AreArticles(articles, rows, source)
    requires IsSitemap(urls, rows, sections, articles) && s in sections
    ensures s.uuid in TargetsOf(rows, rows, source, "")
    ensures i < |urls| && urls[i] == Entry(TargetsOf(rows, rows, source, "")[s.uuid], Some(time))
    ensures IsLastChange(rows, source, s, time)
  {
    var j :| 0 <= j < |sections| && sections[j] == s;
    i := 1 + j;
    EntryIsTarget(rows, source, sections, articles, urls, i);
    EntryHasTime(rows, source, sections, articles, urls, i);
    time := urls[i].modified.value;
  }

  lemma UuidsDiffer(rows: Rows, source: int, sections: Rows, articles: Rows, i: nat, j: nat)
    requires Keyed(rows) && AreSections(sections, rows, source) && AreArticles(articles, rows, source)
    requires 1 <= i < j < 1 + |sections| + |articles|
    ensures UuidOf(sections, articles, i) != UuidOf(sections, articles, j)
  {
    assert i < 1 + |sections| ==> sections[i - 1] in sections;
    assert j < 1 + |sections| ==> sections[j - 1] in sections;
    assert i >= 1 + |sections| ==> articles[i - 1 - |sections|] in articles;
    assert j >= 1 + |sections| ==> articles[j - 1 - |sections|] in articles;
  }

  /** A crawler asking the site for an entry's address gets the page it's for. */
  lemma EntryIsServed(ctx: Context, rows: Rows, sections: Rows, articles: Rows, urls: seq<Entry>, i: nat)
    requires WellFormed(rows, ctx.source) && OneSource(rows) && IsPublic(ctx)
    requires AreSections(sections, rows, ctx.source) && AreArticles(articles, rows, ctx.source)
    requires IsSitemap(urls, rows, sections, articles) && 1 <= i < |urls|
    ensures IsPageOf(AnswerTo(ctx, rows, urls[i].loc), UuidOf(sections, articles, i))
  {
    EntryIsTarget(rows, ctx.source, sections, articles, urls, i);
    var path := TargetsAreServed(ctx, rows, UuidOf(sections, articles, i));
    assert urls[i].loc == "" + path == path;
  }

  /** No address has two entries: each serves a different page. */
  lemma EntriesAreDistinct(ctx: Context, rows: Rows, sections: Rows, articles: Rows, urls: seq<Entry>, i: nat, j: nat)
    requires WellFormed(rows, ctx.source) && OneSource(rows) && IsPublic(ctx)
    requires AreSections(sections, rows, ctx.source) && AreArticles(articles, rows, ctx.source)
    requires IsSitemap(urls, rows, sections, articles) && i < j < |urls|
    ensures urls[i].loc != urls[j].loc
  {
    EntryIsServed(ctx, rows, sections, articles, urls, j);
    if i == 0 {
      HomeIsServed(ctx, rows);
    } else {
      EntryIsServed(ctx, rows, sections, articles, urls, i);
      UuidsDiffer(rows, ctx.source, sections, articles, i, j);
      OnePageEach(AnswerTo(ctx, rows, urls[i].loc), UuidOf(sections, articles, i), UuidOf(sections, articles, j));
    }
  }

  lemma OnePageEach(answer: Answer, a: string, b: string)
    requires IsPageOf(answer, a) && a != b
    ensures !IsPageOf(answer, b)
  {
  }
}
