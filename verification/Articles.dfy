/** The table of articles, and what's selected of it. */
module Articles {
  import opened Common

  /** A row: a section, if it has no parent, or an article. Modified times are in nanoseconds. */
  datatype Article = Article(id: int, uuid: string, source: int, parent: Option<int>, slug: string, body: string,
                             modified: int, isActive: bool, isPublished: bool)

  /** The rows of the table, in whatever order a query meets them. */
  type Rows = seq<Article>

  /** Ids and uuids are unique. */
  ghost predicate Keyed(rows: Rows) {
    && (forall a, b :: a in rows && b in rows && a.id == b.id ==> a == b)
    && (forall a, b :: a in rows && b in rows && a.uuid == b.uuid ==> a == b)
    && NoDuplicates(rows)
  }

  function Find(rows: Rows, id: int): (r: Option<Article>)
    ensures r.Some? ==> r.value in rows && r.value.id == id
    ensures r.None? ==> forall a :: a in rows ==> a.id != id
  {
    if rows == [] then None else if rows[0].id == id then Some(rows[0]) else Find(rows[1..], id)
  }

  function ParentOf(rows: Rows, a: Article): (r: Option<Article>)
    ensures r.Some? ==> r.value in rows && a.parent == Some(r.value.id)
  {
    if a.parent.Some? then Find(rows, a.parent.value) else None
  }

  lemma ParentIsRow(rows: Rows, a: Article, p: Article)
    requires Keyed(rows) && p in rows
    ensures ParentOf(rows, a) == Some(p) <==> a.parent == Some(p.id)
  {
  }

  predicate IsLive(a: Article) {
    a.isActive && a.isPublished
  }

  /** A published article of the source in a published section. */
  predicate IsReadable(rows: Rows, source: int, a: Article) {
    a.source == source && IsLive(a) && ParentOf(rows, a).Some? && IsLive(ParentOf(rows, a).value)
  }

  /** Spelled out: nothing unpublished or deleted, and nothing in a section that is. */
  lemma ReadableIff(rows: Rows, source: int, a: Article)
    requires Keyed(rows) && a in rows
    ensures IsReadable(rows, source, a) <==>
            && a.source == source && a.isActive && a.isPublished
            && exists p :: p in rows && a.parent == Some(p.id) && p.isActive && p.isPublished
  {
    if p :| p in rows && a.parent == Some(p.id) && p.isActive && p.isPublished {
      ParentIsRow(rows, a, p);
    }
  }

  predicate IsSection(source: int, a: Article) {
    a.source == source && a.parent.None? && IsLive(a)
  }

  predicate HasLiveChild(rows: Rows, id: int) {
    exists c :: c in rows && c.parent == Some(id) && IsLive(c)
  }

  /** What LoadSections selects: sections with something published in them. */
  predicate IsListedSection(rows: Rows, source: int, a: Article) {
    IsSection(source, a) && HasLiveChild(rows, a.id)
  }

  /** What LoadReadable selects: readable articles, less those under another article. */
  predicate IsListedArticle(rows: Rows, source: int, a: Article) {
    IsReadable(rows, source, a) && ParentOf(rows, a).value.parent.None?
  }

  /** LoadSection: the first section met with the slug. */
  function LoadSection(rows: Rows, source: int, slug: string): (r: Option<Article>)
    ensures r.Some? ==> r.value in rows && IsSection(source, r.value) && r.value.slug == slug
    ensures r.None? ==> forall a :: a in rows && IsSection(source, a) ==> a.slug != slug
  {
    if rows == [] then None
    else if IsSection(source, rows[0]) && rows[0].slug == slug then Some(rows[0])
    else LoadSection(rows[1..], source, slug)
  }

  predicate IsArticleIn(rows: Rows, source: int, section: int, a: Article) {
    IsReadable(rows, source, a) && a.parent == Some(section)
  }

  /** LoadArticle: the first readable article met in the section with the slug, of rows selected from all. */
  function LoadArticle(all: Rows, rows: Rows, source: int, section: int, slug: string): (r: Option<Article>)
    ensures r.Some? ==> r.value in rows && IsArticleIn(all, source, section, r.value) && r.value.slug == slug
    ensures r.None? ==> forall a :: a in rows && IsArticleIn(all, source, section, a) ==> a.slug != slug
  {
    if rows == [] then None
    else if IsArticleIn(all, source, section, rows[0]) && rows[0].slug == slug then Some(rows[0])
    else LoadArticle(all, rows[1..], source, section, slug)
  }

  predicate HasArticles(rows: Rows, source: int, section: int) {
    exists a :: a in rows && IsArticleIn(rows, source, section, a)
  }

  // Link targets.

  function SectionAddress(prefix: string, slug: string): string {
    prefix + "/" + slug + "/"
  }

  function ArticleAddress(prefix: string, sectionSlug: string, slug: string): string {
    prefix + "/" + sectionSlug + "/" + slug + "/"
  }

  type Targets = map<string, string>

  /** The targets after the given rows have been met, of rows selected from all. */
  function TargetsOf(all: Rows, rows: Rows, source: int, prefix: string): Targets {
    if rows == [] then map[]
    else
      var a, before := rows[|rows| - 1], TargetsOf(all, rows[..|rows| - 1], source, prefix);
      if !IsReadable(all, source, a) then before
      else
        var p := ParentOf(all, a).value;
        before[p.uuid := SectionAddress(prefix, p.slug)][a.uuid := ArticleAddress(prefix, p.slug, a.slug)]
  }

  method LoadLinkTargets(rows: Rows, source: int, prefix: string) returns (targets: Targets)
    ensures targets == TargetsOf(rows, rows, source, prefix)
  {
    targets := map[];
    var i := 0;
    while i < |rows|
      invariant 0 <= i <= |rows| && targets == TargetsOf(rows, rows[..i], source, prefix)
    {
      assert rows[..i + 1][..i] == rows[..i];
      if IsReadable(rows, source, rows[i]) {
        var p := ParentOf(rows, rows[i]).value;
        targets := targets[p.uuid := SectionAddress(prefix, p.slug)];
        targets := targets[rows[i].uuid := ArticleAddress(prefix, p.slug, rows[i].slug)];
      }
      i := i + 1;
    }
    assert rows[..i] == rows;
  }

  /** A readable article makes this the target of this uuid, as its own or as its section's. */
  predicate Yields(rows: Rows, source: int, prefix: string, a: Article, uuid: string, address: string) {
    IsReadable(rows, source, a) &&
    var p := ParentOf(rows, a).value;
    || (uuid == a.uuid && address == ArticleAddress(prefix, p.slug, a.slug))
    || (uuid == p.uuid && address == SectionAddress(prefix, p.slug))
  }

  /** A row that makes a target for the uuid, its own or its parent's. */
  predicate Makes(rows: Rows, source: int, a: Article, uuid: string) {
    IsReadable(rows, source, a) && (uuid == a.uuid || uuid == ParentOf(rows, a).value.uuid)
  }

  function Made(rows: Rows, source: int, prefix: string, a: Article, uuid: string): string
    requires Makes(rows, source, a, uuid)
  {
    var p := ParentOf(rows, a).value;
    if uuid == a.uuid then ArticleAddress(prefix, p.slug, a.slug) else SectionAddress(prefix, p.slug)
  }

  /** Each uuid has the target that the last row met to make one for it makes. */
  lemma {:induction false} TargetIsLastMade(all: Rows, rows: Rows, source: int, prefix: string, uuid: string)
    returns (i: nat)
    requires uuid in TargetsOf(all, rows, source, prefix)
    ensures i < |rows| && Makes(all, source, rows[i], uuid)
    ensures forall j :: i < j < |rows| ==> !Makes(all, source, rows[j], uuid)
    ensures TargetsOf(all, rows, source, prefix)[uuid] == Made(all, source, prefix, rows[i], uuid)
  {
    var init, b := rows[..|rows| - 1], rows[|rows| - 1];
    if Makes(all, source, b, uuid) {
      i := |rows| - 1;
    } else {
      i := TargetIsLastMade(all, init, source, prefix, uuid);
      forall j | i < j < |rows| ensures !Makes(all, source, rows[j], uuid) {
        assert j < |init| ==> init[j] == rows[j];
      }
    }
  }

  lemma {:induction false} MadeIsTarget(all: Rows, rows: Rows, source: int, prefix: string, a: Article, uuid: string)
    requires a in rows && Makes(all, source, a, uuid)
    ensures uuid in TargetsOf(all, rows, source, prefix)
  {
    var init, b := rows[..|rows| - 1], rows[|rows| - 1];
    assert rows == init + [b];
    if a in init {
      MadeIsTarget(all, init, source, prefix, a, uuid);
    }
  }

  /** So every target is one that a readable article makes. */
  lemma TargetsAreYielded(all: Rows, rows: Rows, source: int, prefix: string, uuid: string) returns (a: Article)
    requires uuid in TargetsOf(all, rows, source, prefix)
    ensures a in rows && Yields(all, source, prefix, a, uuid, TargetsOf(all, rows, source, prefix)[uuid])
  {
    var i := TargetIsLastMade(all, rows, source, prefix, uuid);
    a := rows[i];
  }

  /** In a table where no readable article is under another article: two levels. */
  ghost predicate TwoLevel(rows: Rows, source: int) {
    forall a :: a in rows && IsReadable(rows, source, a) ==>
      ParentOf(rows, a).value.parent.None? && ParentOf(rows, a).value.source == source
  }

  /** There, what two readable articles make targets of doesn't clash. */
  lemma YieldsAgree(rows: Rows, source: int, prefix: string, a: Article, b: Article, uuid: string, x: string, y: string)
    requires Keyed(rows) && TwoLevel(rows, source) && a in rows && b in rows
    requires Yields(rows, source, prefix, a, uuid, x) && Yields(rows, source, prefix, b, uuid, y)
    ensures x == y
  {
  }

  /** There, each uuid of a readable article or its section leads to its page's address, in any order of rows. */
  lemma TargetsAreExact(all: Rows, rows: Rows, source: int, prefix: string, a: Article, uuid: string, address: string)
    requires Keyed(all) && TwoLevel(all, source) && forall b :: b in rows ==> b in all
    requires a in rows && Yields(all, source, prefix, a, uuid, address)
    ensures uuid in TargetsOf(all, rows, source, prefix) && TargetsOf(all, rows, source, prefix)[uuid] == address
  {
    MadeIsTarget(all, rows, source, prefix, a, uuid);
    var c := TargetsAreYielded(all, rows, source, prefix, uuid);
    YieldsAgree(all, source, prefix, a, c, uuid, address, TargetsOf(all, rows, source, prefix)[uuid]);
  }
}
