/** A site's addresses agree: where its links and redirects lead is where its pages are. */
module AddressSpace {
  import opened Common
  import opened Paths
  import opened Articles
  import opened Redirects
  import opened Routing

  // Addresses and routes.

  lemma SlugHasNoSlash(slug: string)
    requires IsSlug(slug)
    ensures NoSlash(slug) && slug != "" && slug != "." && slug != ".."
  {
    assert IsSlugChar(slug[0]);
    forall i | 0 <= i < |slug| ensures slug[i] != '/' {
      assert IsSlugChar(slug[i]);
    }
  }

  lemma SectionPath(slug: string)
    requires NoSlash(slug)
    ensures Join(["", slug, ""]) == SectionAddress("", slug)
    ensures Split(SectionAddress("", slug)) == ["", slug, ""]
  {
    assert ["", slug, ""][1..] == [slug, ""] && [slug, ""][1..] == [""];
    assert Join([slug, ""]) == slug + "/" + "" == slug + "/";
    assert "" + "/" + (slug + "/") == SectionAddress("", slug);
    SplitJoin(["", slug, ""]);
  }

  lemma ArticlePath(section: string, slug: string)
    requires NoSlash(section) && NoSlash(slug)
    ensures Join(["", section, slug, ""]) == ArticleAddress("", section, slug)
    ensures Split(ArticleAddress("", section, slug)) == ["", section, slug, ""]
  {
    var p := ["", section, slug, ""];
    assert p[1..] == [section, slug, ""] && [section, slug, ""][1..] == [slug, ""] && [slug, ""][1..] == [""];
    assert Join([slug, ""]) == slug + "/" + "" == slug + "/";
    assert Join([section, slug, ""]) == section + "/" + (slug + "/");
    assert "" + "/" + (section + "/" + (slug + "/")) == ArticleAddress("", section, slug);
    SplitJoin(p);
  }

  lemma SearchPath()
    ensures Split("/search/") == ["", "search", ""]
  {
    SectionPath("search");
    assert SectionAddress("", "search") == "/search/";
  }

  lemma StaticPath(path: string)
    requires Split(path) != [] && |Split(path)| > 1 && STATIC <= path
    ensures Split(path)[1] == "static"
  {
    var dir := "/static";
    assert dir + "/" == STATIC;
    assert Under(dir, path);
    UnderIsProperPrefix(dir, path);
    assert dir == "" + "/" + "static";
    SplitConcat("", "static");
    SplitSegment("static");
  }

  /** A path with a slash at its end that's none of the fixed ones. */
  lemma IsPageRoute(path: string, p: Path)
    requires Split(path) == p && |p| > 2 && p[1] != "static" && (|p| == 3 ==> p[1] != "search")
    requires path != "" && path[|path| - 1] == '/'
    ensures RouteOf(path) == PageRoute(p) && !LacksSlash(path)
  {
    NotStatic(path, p);
    NotFixed(path, p);
    EndsInSlash(path);
  }

  lemma NotStatic(path: string, p: Path)
    requires Split(path) == p && |p| > 2 && p[1] != "static"
    ensures !(STATIC <= path)
  {
    if STATIC <= path {
      StaticPath(path);
    }
  }

  lemma NotFixed(path: string, p: Path)
    requires Split(path) == p && |p| > 2 && (|p| == 3 ==> p[1] != "search")
    ensures path != "/" && path != "/search/"
  {
    SearchPath();
    SplitSlash();
  }

  lemma EndsInSlash(path: string)
    requires path != "" && path[|path| - 1] == '/'
    ensures !IsRootFile(path)
  {
  }

  lemma SplitSlash()
    ensures Split("/") == ["", ""]
  {
    assert Split("/") == Grow('/', Split(""));
  }

  lemma SectionLocation(slug: string)
    requires IsSlug(slug)
    ensures Location(SectionAddress("", slug)) == SectionAddress("", slug)
  {
    SlugHasNoSlash(slug);
    SectionPath(slug);
    assert ["", slug, ""][..2] == ["", slug] && ["", slug][..1] == [""] && [""][..0] == [];
    assert Resolved(["", slug]) == [slug];
    assert [""] + [slug] + [""] == ["", slug, ""];
  }

  lemma SectionRouted(slug: string)
    requires IsSlug(slug) && slug != "search" && slug != "static"
    ensures var path := SectionAddress("", slug); RouteOf(path) == SectionRoute(slug) && !LacksSlash(path)
  {
    var path := SectionAddress("", slug);
    SlugHasNoSlash(slug);
    SectionPath(slug);
    assert path[|path| - 1] == '/';
    IsPageRoute(path, ["", slug, ""]);
  }

  lemma ArticleLocation(section: string, slug: string)
    requires IsSlug(section) && IsSlug(slug)
    ensures Location(ArticleAddress("", section, slug)) == ArticleAddress("", section, slug)
  {
    SlugHasNoSlash(section);
    SlugHasNoSlash(slug);
    ArticlePath(section, slug);
    var p := ["", section, slug, ""];
    assert p[..3] == ["", section, slug] && p[..3][..2] == ["", section] && p[..3][..2][..1] == [""] && [""][..0] == [];
    assert Resolved(["", section]) == [section];
    assert Resolved(["", section, slug]) == [section, slug];
    assert [""] + [section, slug] + [""] == p;
  }

  lemma ArticleRouted(section: string, slug: string)
    requires IsSlug(section) && IsSlug(slug) && section != "static"
    ensures var path := ArticleAddress("", section, slug);
            RouteOf(path) == ArticleRoute(section, slug) && !LacksSlash(path)
  {
    var path := ArticleAddress("", section, slug);
    SlugHasNoSlash(section);
    SlugHasNoSlash(slug);
    ArticlePath(section, slug);
    assert path[|path| - 1] == '/';
    IsPageRoute(path, ["", section, slug, ""]);
  }

  // Well-formed tables.

  /** Two levels of the site's source, with slugs that are unique where they're looked up, fit the routes and aren't
      the site's own names. */
  ghost predicate WellFormed(rows: Rows, source: int) {
    && Keyed(rows) && TwoLevel(rows, source) && UniqueSlugs(rows, source) && FitSlugs(rows, source)
  }

  ghost predicate UniqueSlugs(rows: Rows, source: int) {
    && (forall s, t :: (s in rows && t in rows && IsSection(source, s) && IsSection(source, t)
                        && s.slug == t.slug) ==> s == t)
    && (forall a, b :: (a in rows && b in rows && IsReadable(rows, source, a) && IsReadable(rows, source, b)
                        && a.parent == b.parent && a.slug == b.slug) ==> a == b)
  }

  ghost predicate FitSlugs(rows: Rows, source: int) {
    forall a :: a in rows && IsReadable(rows, source, a) ==>
      && IsSlug(a.slug) && IsSlug(ParentOf(rows, a).value.slug)
      && ParentOf(rows, a).value.slug != "search" && ParentOf(rows, a).value.slug != "static"
  }

  lemma SectionFound(rows: Rows, source: int, s: Article)
    requires UniqueSlugs(rows, source) && s in rows && IsSection(source, s)
    ensures LoadSection(rows, source, s.slug) == Some(s)
  {
  }

  lemma ArticleFound(rows: Rows, source: int, section: int, a: Article)
    requires UniqueSlugs(rows, source) && a in rows && IsArticleIn(rows, source, section, a)
    ensures LoadArticle(rows, rows, source, section, a.slug) == Some(a)
  {
  }

  // Pages.

  /** The answer is the page of the article or section with the uuid. */
  predicate IsPageOf(answer: Answer, uuid: string) {
    (answer.ArticlePage? && answer.article.uuid == uuid) || (answer.SectionPage? && answer.section.uuid == uuid)
  }

  lemma RouteAnswered(ctx: Context, rows: Rows, path: string, route: Route)
    requires !LacksSlash(path) && RouteOf(path) == route
    ensures AnswerTo(ctx, rows, path) == RouteAnswer(ctx, rows, route, NotFoundAnswer(ctx, rows, path))
  {
  }

  lemma ArticleAnswered(ctx: Context, rows: Rows, section: string, slug: string, path: string)
    requires IsSlug(section) && IsSlug(slug) && section != "static" && path == ArticleAddress("", section, slug)
    ensures AnswerTo(ctx, rows, path) == ArticleAnswer(ctx, rows, section, slug, NotFoundAnswer(ctx, rows, path))
  {
    ArticleRouted(section, slug);
    RouteAnswered(ctx, rows, path, ArticleRoute(section, slug));
    OnRoute(ctx, rows, section, slug, NotFoundAnswer(ctx, rows, path));
  }

  lemma SectionAnswered(ctx: Context, rows: Rows, slug: string, path: string)
    requires IsSlug(slug) && slug != "search" && slug != "static" && path == SectionAddress("", slug)
    ensures AnswerTo(ctx, rows, path) == SectionAnswer(ctx, rows, slug, NotFoundAnswer(ctx, rows, path))
  {
    SectionRouted(slug);
    RouteAnswered(ctx, rows, path, SectionRoute(slug));
    OnRoute(ctx, rows, slug, "", NotFoundAnswer(ctx, rows, path));
  }

  lemma ArticleIsPaged(ctx: Context, rows: Rows, p: Article, a: Article, notFound: Answer)
    requires UniqueSlugs(rows, ctx.source) && p in rows && IsSection(ctx.source, p)
    requires a in rows && IsArticleIn(rows, ctx.source, p.id, a)
    ensures IsPageOf(ArticleAnswer(ctx, rows, p.slug, a.slug, notFound), a.uuid)
    ensures IsPageOf(SectionAnswer(ctx, rows, p.slug, notFound), p.uuid)
  {
    SectionFound(rows, ctx.source, p);
    ArticleFound(rows, ctx.source, p.id, a);
    assert a in LoadArticles(rows, rows, ctx.source, p.id);
  }

  /** What an article makes a target of is served with the page of the uuid, less any prefix. */
  lemma YieldedIsServed(ctx: Context, rows: Rows, a: Article, uuid: string, path: string)
    requires WellFormed(rows, ctx.source) && a in rows && Yields(rows, ctx.source, "", a, uuid, path)
    ensures IsPageOf(AnswerTo(ctx, rows, path), uuid)
    ensures Location(path) == path
  {
    var p := ParentOf(rows, a).value;
    ArticleIsPaged(ctx, rows, p, a, NotFoundAnswer(ctx, rows, path));
    if uuid == a.uuid && path == ArticleAddress("", p.slug, a.slug) {
      ArticleLocation(p.slug, a.slug);
      ArticleAnswered(ctx, rows, p.slug, a.slug, path);
    } else {
      SectionLocation(p.slug);
      SectionAnswered(ctx, rows, p.slug, path);
    }
  }

  lemma Prefixed(prefix: string, section: string, slug: string)
    ensures prefix + ArticleAddress("", section, slug) == ArticleAddress(prefix, section, slug)
    ensures prefix + SectionAddress("", section) == SectionAddress(prefix, section)
  {
  }

  /** What an article makes a target of with a prefix, it does without. */
  lemma YieldsUnprefixed(rows: Rows, source: int, prefix: string, a: Article, uuid: string, address: string)
    returns (path: string)
    requires Yields(rows, source, prefix, a, uuid, address)
    ensures Yields(rows, source, "", a, uuid, path) && address == prefix + path
  {
    var p := ParentOf(rows, a).value;
    Prefixed(prefix, p.slug, a.slug);
    path := if uuid == a.uuid && address == ArticleAddress(prefix, p.slug, a.slug)
            then ArticleAddress("", p.slug, a.slug) else SectionAddress("", p.slug);
  }

  /** Every link target is the address of that very page, on the site or under a preview's prefix. */
  lemma TargetsAreServed(ctx: Context, rows: Rows, uuid: string) returns (path: string)
    requires WellFormed(rows, ctx.source) && uuid in TargetsOf(rows, rows, ctx.source, ctx.prefix)
    ensures TargetsOf(rows, rows, ctx.source, ctx.prefix)[uuid] == ctx.prefix + path
    ensures IsPageOf(AnswerTo(ctx, rows, path), uuid) && Location(path) == path
  {
    var address := TargetsOf(rows, rows, ctx.source, ctx.prefix)[uuid];
    var a := TargetsAreYielded(rows, rows, ctx.source, ctx.prefix, uuid);
    path := YieldsUnprefixed(rows, ctx.source, ctx.prefix, a, uuid, address);
    YieldedIsServed(ctx, rows, a, uuid, path);
  }

  lemma PageIsOf(ctx: Context, rows: Rows, section: string, slug: string, notFound: Answer, a: Article)
    requires Keyed(rows) && a in rows && !notFound.ArticlePage? && !notFound.SectionPage?
    ensures var s := LoadSection(rows, ctx.source, section);
            IsPageOf(ArticleAnswer(ctx, rows, section, slug, notFound), a.uuid)
            <==> s.Some? && LoadArticle(rows, rows, ctx.source, s.value.id, slug) == Some(a)
  {
  }

  /** Whatever the table, an article's address serves its own page exactly when its parent is a section of the site. */
  lemma ServedIffInSection(ctx: Context, rows: Rows, a: Article)
    requires Keyed(rows) && UniqueSlugs(rows, ctx.source) && a in rows && IsReadable(rows, ctx.source, a)
    requires IsSlug(a.slug) && IsSlug(ParentOf(rows, a).value.slug) && ParentOf(rows, a).value.slug != "static"
    ensures var p := ParentOf(rows, a).value;
            IsPageOf(AnswerTo(ctx, rows, ArticleAddress("", p.slug, a.slug)), a.uuid)
            <==> p.parent.None? && p.source == ctx.source
  {
    var p := ParentOf(rows, a).value;
    ArticleAnswered(ctx, rows, p.slug, a.slug, ArticleAddress("", p.slug, a.slug));
    PageIsOf(ctx, rows, p.slug, a.slug, NotFoundAnswer(ctx, rows, ArticleAddress("", p.slug, a.slug)), a);
    if IsSection(ctx.source, p) {
      SectionFound(rows, ctx.source, p);
      ArticleFound(rows, ctx.source, p.id, a);
    }
  }

  /** Whatever the table, a target is the address of its page exactly when the last row that made one for it is in a
      section of the site. */
  lemma TargetServedIff(ctx: Context, rows: Rows, uuid: string) returns (i: nat, path: string)
    requires Keyed(rows) && UniqueSlugs(rows, ctx.source) && FitSlugs(rows, ctx.source)
    requires uuid in TargetsOf(rows, rows, ctx.source, ctx.prefix)
    ensures i < |rows| && Makes(rows, ctx.source, rows[i], uuid)
    ensures forall j :: i < j < |rows| ==> !Makes(rows, ctx.source, rows[j], uuid)
    ensures TargetsOf(rows, rows, ctx.source, ctx.prefix)[uuid] == ctx.prefix + path
    ensures IsPageOf(AnswerTo(ctx, rows, path), uuid) <==> IsSection(ctx.source, ParentOf(rows, rows[i]).value)
  {
    i := TargetIsLastMade(rows, rows, ctx.source, ctx.prefix, uuid);
    var a, p := rows[i], ParentOf(rows, rows[i]).value;
    Prefixed(ctx.prefix, p.slug, a.slug);
    path := Made(rows, ctx.source, "", a, uuid);
    if uuid == a.uuid {
      ServedIffInSection(ctx, rows, a);
    } else {
      SectionServedIff(ctx, rows, a, path);
    }
  }

  lemma SectionServedIff(ctx: Context, rows: Rows, a: Article, path: string)
    requires Keyed(rows) && UniqueSlugs(rows, ctx.source) && FitSlugs(rows, ctx.source)
    requires a in rows && IsReadable(rows, ctx.source, a) && path == SectionAddress("", ParentOf(rows, a).value.slug)
    ensures var p := ParentOf(rows, a).value; IsPageOf(AnswerTo(ctx, rows, path), p.uuid) <==> IsSection(ctx.source, p)
  {
    var p := ParentOf(rows, a).value;
    SectionAnswered(ctx, rows, p.slug, path);
    if IsSection(ctx.source, p) {
      ArticleIsPaged(ctx, rows, p, a, NotFoundAnswer(ctx, rows, path));
    }
  }

  lemma RoutedArticle(path: string, section: string, slug: string)
    requires RouteOf(path) == ArticleRoute(section, slug)
    ensures path == ArticleAddress("", section, slug)
  {
    SlugHasNoSlash(section);
    SlugHasNoSlash(slug);
    ArticlePath(section, slug);
    assert Split(path) == ["", section, slug, ""];
    JoinSplit(path);
  }

  lemma OnlyArticleRoute(ctx: Context, rows: Rows, route: Route, notFound: Answer)
    requires !route.ArticleRoute? && !notFound.ArticlePage?
    ensures !RouteAnswer(ctx, rows, route, notFound).ArticlePage?
  {
    if route.SectionRoute? {
      SectionIsPaged(ctx, rows, route.section, notFound);
      OnRoute(ctx, rows, route.section, "", notFound);
    }
  }

  lemma ShownTargets(ctx: Context, rows: Rows, section: string, slug: string, notFound: Answer)
    requires ArticleAnswer(ctx, rows, section, slug, notFound).ArticlePage? && !notFound.ArticlePage?
    ensures ArticleAnswer(ctx, rows, section, slug, notFound).targets == TargetsOf(rows, rows, ctx.source, ctx.prefix)
  {
  }

  lemma RouteGivesArticle(ctx: Context, rows: Rows, route: Route, notFound: Answer)
    requires route.ArticleRoute? && RouteAnswer(ctx, rows, route, notFound).ArticlePage? && !notFound.ArticlePage?
    ensures IsArticleWith(ctx, rows, route.section, route.article, RouteAnswer(ctx, rows, route, notFound))
    ensures RouteAnswer(ctx, rows, route, notFound).targets == TargetsOf(rows, rows, ctx.source, ctx.prefix)
  {
    OnRoute(ctx, rows, route.section, route.article, notFound);
    ShownTargets(ctx, rows, route.section, route.article, notFound);
    ArticleIsShown(ctx, rows, route.section, route.article, notFound);
  }

  lemma NotFoundIsNoPage(ctx: Context, rows: Rows, path: string)
    ensures NotFoundAnswer(ctx, rows, path).NotFound? || NotFoundAnswer(ctx, rows, path).MovedPermanently?
  {
  }

  /** An article's page is answered only at its own address, with everything its page shows. */
  lemma ArticlePageIs(ctx: Context, rows: Rows, path: string)
    requires AnswerTo(ctx, rows, path).ArticlePage?
    ensures var answer := AnswerTo(ctx, rows, path);
            && path == ArticleAddress("", answer.section.slug, answer.article.slug)
            && IsArticleWith(ctx, rows, answer.section.slug, answer.article.slug, answer)
            && answer.targets == TargetsOf(rows, rows, ctx.source, ctx.prefix)
  {
    RouteAnswered(ctx, rows, path, RouteOf(path));
    NotFoundIsNoPage(ctx, rows, path);
    if !RouteOf(path).ArticleRoute? {
      OnlyArticleRoute(ctx, rows, RouteOf(path), NotFoundAnswer(ctx, rows, path));
    } else {
      RouteGivesArticle(ctx, rows, RouteOf(path), NotFoundAnswer(ctx, rows, path));
      RoutedArticle(path, RouteOf(path).section, RouteOf(path).article);
    }
  }

  /** And in a well-formed table each target on it leads to that very page. */
  lemma PageTargetsAreServed(ctx: Context, rows: Rows, page: string, uuid: string) returns (path: string)
    requires WellFormed(rows, ctx.source) && AnswerTo(ctx, rows, page).ArticlePage?
    requires uuid in AnswerTo(ctx, rows, page).targets
    ensures AnswerTo(ctx, rows, page).targets[uuid] == ctx.prefix + path
    ensures IsPageOf(AnswerTo(ctx, rows, path), uuid) && Location(path) == path
  {
    ArticlePageIs(ctx, rows, page);
    path := TargetsAreServed(ctx, rows, uuid);
  }

  /** Every link target leads to its very page. */
  ghost predicate LinksLeadToPages(ctx: Context, rows: Rows) {
    var targets := TargetsOf(rows, rows, ctx.source, ctx.prefix);
    forall uuid, path :: uuid in targets && targets[uuid] == ctx.prefix + path ==>
      IsPageOf(AnswerTo(ctx, rows, path), uuid)
  }

  /** An article under another article, or in another source's section, has a target that isn't its page's address. */
  lemma ThirdLevelIsLost(ctx: Context, rows: Rows, a: Article) returns (path: string)
    requires Keyed(rows) && UniqueSlugs(rows, ctx.source) && FitSlugs(rows, ctx.source)
    requires a in rows && IsReadable(rows, ctx.source, a) && !IsSection(ctx.source, ParentOf(rows, a).value)
    ensures a.uuid in TargetsOf(rows, rows, ctx.source, ctx.prefix)
    ensures TargetsOf(rows, rows, ctx.source, ctx.prefix)[a.uuid] == ctx.prefix + path
    ensures !IsPageOf(AnswerTo(ctx, rows, path), a.uuid)
  {
    MadeIsTarget(rows, rows, ctx.source, ctx.prefix, a, a.uuid);
    var i, last := TargetServedIff(ctx, rows, a.uuid);
    path := last;
  }

  lemma TargetLeadsToPage(ctx: Context, rows: Rows, uuid: string, path: string)
    requires WellFormed(rows, ctx.source) && uuid in TargetsOf(rows, rows, ctx.source, ctx.prefix)
    requires TargetsOf(rows, rows, ctx.source, ctx.prefix)[uuid] == ctx.prefix + path
    ensures IsPageOf(AnswerTo(ctx, rows, path), uuid)
  {
    var served := TargetsAreServed(ctx, rows, uuid);
    assert path == (ctx.prefix + path)[|ctx.prefix|..] == (ctx.prefix + served)[|ctx.prefix|..] == served;
  }

  /** And all of them do exactly when the table has two levels. */
  lemma LinksLeadToPagesIff(ctx: Context, rows: Rows)
    requires Keyed(rows) && UniqueSlugs(rows, ctx.source) && FitSlugs(rows, ctx.source)
    ensures LinksLeadToPages(ctx, rows) <==> TwoLevel(rows, ctx.source)
  {
    if TwoLevel(rows, ctx.source) {
      forall uuid, path | uuid in TargetsOf(rows, rows, ctx.source, ctx.prefix)
                          && TargetsOf(rows, rows, ctx.source, ctx.prefix)[uuid] == ctx.prefix + path
        ensures IsPageOf(AnswerTo(ctx, rows, path), uuid)
      {
        TargetLeadsToPage(ctx, rows, uuid, path);
      }
    } else {
      var a :| a in rows && IsReadable(rows, ctx.source, a) && !IsSection(ctx.source, ParentOf(rows, a).value);
      var path := ThirdLevelIsLost(ctx, rows, a);
    }
  }

  /** A site's own pages and files are at these addresses, but its files not in a preview. */
  lemma FixedAnswers(ctx: Context, rows: Rows, path: string)
    requires path in {"/", "/search/", "/robots.txt", "/sitemap.xml"} || STATIC <= path
    ensures AnswerTo(ctx, rows, path) ==
            if path == "/" then HomePage
            else if path == "/search/" then SearchPage
            else if STATIC <= path then StaticFile
            else if ctx.isPreview then NotFoundAnswer(ctx, rows, path)
            else if path == "/robots.txt" then RobotsFile
            else SitemapFile
  {
    FixedRoutes(path);
    RouteAnswered(ctx, rows, path, RouteOf(path));
    FixedRouteAnswers(ctx, rows, RouteOf(path), NotFoundAnswer(ctx, rows, path));
  }

  lemma FixedRoutes(path: string)
    requires path in {"/", "/search/", "/robots.txt", "/sitemap.xml"} || STATIC <= path
    ensures !LacksSlash(path)
    ensures RouteOf(path) == if path == "/" then HomeRoute
                             else if path == "/search/" then SearchRoute
                             else if STATIC <= path then StaticRoute
                             else if path == "/robots.txt" then RobotsRoute
                             else SitemapRoute
  {
    assert "/search/"[2] == 'e' && "/robots.txt"[1] == 'r' && "/sitemap.xml"[2] == 'i' && STATIC[2] == 't';
  }

  lemma FixedRouteAnswers(ctx: Context, rows: Rows, route: Route, notFound: Answer)
    requires !route.SectionRoute? && !route.ArticleRoute? && !route.NoRoute?
    ensures RouteAnswer(ctx, rows, route, notFound) ==
            if route.HomeRoute? then HomePage
            else if route.SearchRoute? then SearchPage
            else if route.StaticRoute? then StaticFile
            else if ctx.isPreview then notFound
            else if route.RobotsRoute? then RobotsFile
            else SitemapFile
  {
  }

  // Redirects.

  /** A character of a path written without percent-encoding, as section 3.3 of RFC 3986 has them. */
  predicate IsPathChar(c: char) {
    '0' <= c <= '9' || 'A' <= c <= 'Z' || 'a' <= c <= 'z' || c in "-._~!$&'()*+,;=:@/"
  }

  /** An absolute path that can't be taken for the address of another host. */
  predicate IsPlain(path: string) {
    path != "" && path[0] == '/' && !("//" <= path) && forall i :: 0 <= i < |path| ==> IsPathChar(path[i])
  }

  predicate IsPublic(ctx: Context) {
    ctx.prefix == "" && !ctx.isPreview
  }

  /** The answer a client gets by following up to so many redirects. */
  function Follow(answers: string -> Answer, path: string, hops: nat): Answer
    decreases hops
  {
    var answer := answers(path);
    if hops == 0 || !answer.MovedPermanently? then answer else Follow(answers, answer.location, hops - 1)
  }

  function Answers(ctx: Context, rows: Rows): string -> Answer {
    path => AnswerTo(ctx, rows, path)
  }

  /** The home page, or the page of an article or a section. */
  predicate IsPage(answer: Answer) {
    answer.HomePage? || answer.ArticlePage? || answer.SectionPage?
  }

  lemma HomeIsServed(ctx: Context, rows: Rows)
    ensures AnswerTo(ctx, rows, "/") == HomePage && Location("/") == "/"
  {
    assert Split("/") == Grow('/', Split("")) == ["", ""];
    assert ["", ""][..1] == [""] && [""][..0] == [];
  }

  function OldAddress(ctx: Context, rows: Rows, path: string): string {
    Redirected(ctx.redirects, path, TargetsOf(rows, rows, ctx.source, ctx.prefix), ctx.prefix + "/")
  }

  /** Where an old address leads is home or the target of some page. */
  lemma OldAddressLeads(ctx: Context, rows: Rows, path: string) returns (uuid: string)
    requires IsPublic(ctx) && OldAddress(ctx, rows, path) != "" && OldAddress(ctx, rows, path) != "/"
    ensures uuid in TargetsOf(rows, rows, ctx.source, "")
    ensures TargetsOf(rows, rows, ctx.source, "")[uuid] == OldAddress(ctx, rows, path)
  {
    var targets := TargetsOf(rows, rows, ctx.source, ctx.prefix);
    assert ctx.prefix + "/" == "/";
    LeadsHomeOrToPage(ctx.redirects, NormalizePath(path), targets, ctx.prefix + "/");
    uuid :| uuid in targets && targets[uuid] == OldAddress(ctx, rows, path);
  }

  /** On the site itself a target's address is where the page is. */
  lemma PublicTargetServed(ctx: Context, rows: Rows, uuid: string)
    requires WellFormed(rows, ctx.source) && IsPublic(ctx) && uuid in TargetsOf(rows, rows, ctx.source, "")
    ensures var address := TargetsOf(rows, rows, ctx.source, "")[uuid];
            IsPageOf(AnswerTo(ctx, rows, address), uuid) && Location(address) == address
  {
    var path := TargetsAreServed(ctx, rows, uuid);
    assert "" + path == path;
  }

  /** Every address a redirect from an old one leads to is served with a page. */
  lemma RedirectsAreServed(ctx: Context, rows: Rows, path: string)
    requires WellFormed(rows, ctx.source) && IsPublic(ctx) && OldAddress(ctx, rows, path) != ""
    ensures var address := OldAddress(ctx, rows, path);
            Location(address) == address && IsPage(AnswerTo(ctx, rows, address))
  {
    if OldAddress(ctx, rows, path) == "/" {
      HomeIsServed(ctx, rows);
    } else {
      var uuid := OldAddressLeads(ctx, rows, path);
      PublicTargetServed(ctx, rows, uuid);
    }
  }

  /** A route redirects only as what isn't found does. */
  lemma MovedIsNotFound(ctx: Context, rows: Rows, route: Route, notFound: Answer)
    requires RouteAnswer(ctx, rows, route, notFound).MovedPermanently?
    ensures RouteAnswer(ctx, rows, route, notFound) == notFound
  {
  }

  /** So past the missing slash the only redirects are those of old addresses. */
  lemma MovedIsOldAddress(ctx: Context, rows: Rows, path: string)
    requires !LacksSlash(path) && AnswerTo(ctx, rows, path).MovedPermanently?
    ensures OldAddress(ctx, rows, path) != ""
    ensures AnswerTo(ctx, rows, path) == MovedPermanently(Location(OldAddress(ctx, rows, path)))
  {
    RouteAnswered(ctx, rows, path, RouteOf(path));
    MovedIsNotFound(ctx, rows, RouteOf(path), NotFoundAnswer(ctx, rows, path));
  }

  lemma FollowDone(answers: string -> Answer, path: string, hops: nat)
    requires !answers(path).MovedPermanently?
    ensures Follow(answers, path, hops) == answers(path)
  {
  }

  lemma FollowOn(answers: string -> Answer, path: string, to: string, hops: nat)
    requires answers(path) == MovedPermanently(to) && hops > 0
    ensures Follow(answers, path, hops) == Follow(answers, to, hops - 1)
  {
  }

  /** And a request that isn't missing a slash is redirected once at most, to a page. */
  lemma OneRedirectWithSlash(ctx: Context, rows: Rows, path: string)
    requires WellFormed(rows, ctx.source) && IsPublic(ctx) && !LacksSlash(path)
    ensures !Follow(Answers(ctx, rows), path, 1).MovedPermanently?
    ensures AnswerTo(ctx, rows, path).MovedPermanently? ==> IsPage(Follow(Answers(ctx, rows), path, 1))
  {
    if AnswerTo(ctx, rows, path).MovedPermanently? {
      MovedIsOldAddress(ctx, rows, path);
      RedirectsAreServed(ctx, rows, path);
      var address := OldAddress(ctx, rows, path);
      FollowOn(Answers(ctx, rows), path, address, 1);
      FollowDone(Answers(ctx, rows), address, 0);
    } else {
      FollowDone(Answers(ctx, rows), path, 1);
    }
  }

  lemma {:induction false} ResolvedSegments(p: seq<string>)
    requires forall i :: 0 <= i < |p| ==> NoSlash(p[i])
    ensures forall i :: 0 <= i < |Resolved(p)| ==> NoSlash(Resolved(p)[i]) && Resolved(p)[i] != ""
  {
    if p != [] {
      ResolvedSegments(p[..|p| - 1]);
    }
  }

  lemma {:induction false} SplitSegments(s: string)
    ensures forall i :: 0 <= i < |Split(s)| ==> NoSlash(Split(s)[i])
  {
    if s != "" {
      SplitSegments(s[1..]);
    }
  }

  /** The redirect to an address with a slash has a slash. */
  lemma LocationHasSlash(path: string)
    ensures !LacksSlash(Location(path + "/"))
  {
    var target := path + "/";
    assert target == path + "/" + "";
    SplitConcat(path, "");
    SplitSegments(target);
    var segments := Resolved(Split(target));
    if segments != [] {
      JoinConcat([""] + segments, [""]);
      assert Location(target) == Join([""] + segments) + "/" + "";
    }
  }

  lemma SlashAdded(ctx: Context, rows: Rows, path: string)
    requires LacksSlash(path)
    ensures AnswerTo(ctx, rows, path) == MovedPermanently(Location(path + "/"))
  {
  }

  /** Whatever a public site is asked for, it answers by the second redirect. */
  lemma AtMostTwoRedirects(ctx: Context, rows: Rows, path: string)
    requires WellFormed(rows, ctx.source) && IsPublic(ctx) && IsPlain(path)
    ensures !Follow(Answers(ctx, rows), path, 2).MovedPermanently?
  {
    if LacksSlash(path) {
      SlashAdded(ctx, rows, path);
      LocationHasSlash(path);
      OneRedirectWithSlash(ctx, rows, Location(path + "/"));
      FollowOn(Answers(ctx, rows), path, Location(path + "/"), 2);
    } else {
      OneRedirectWithSlash(ctx, rows, path);
      FollowMore(Answers(ctx, rows), path);
    }
  }

  lemma FollowMore(answers: string -> Answer, path: string)
    requires !Follow(answers, path, 1).MovedPermanently?
    ensures Follow(answers, path, 2) == Follow(answers, path, 1)
  {
    var answer := answers(path);
    if answer.MovedPermanently? {
      FollowDone(answers, answer.location, 0);
      FollowDone(answers, answer.location, 1);
    }
  }

  // Where readers end up.

  predicate IsSlugPath(path: string) {
    forall i :: 0 <= i < |path| ==> path[i] == '/' || IsSlugChar(path[i])
  }

  lemma RootFileHasDot(path: string)
    requires IsRootFile(path)
    ensures !IsSlugPath(path)
  {
    assert path[if path == "/robots.txt" then 7 else 8] == '.';
  }

  lemma UnslashedLacksSlash(path: string, section: string, last: string)
    requires section != "static" && IsSlug(last) && IsSlugPath(path)
    requires |Split(path)| > 1 && Split(path)[1] == section
    requires path != "" && path[|path| - 1] == last[|last| - 1]
    ensures LacksSlash(path)
  {
    assert IsSlugChar(last[|last| - 1]);
    if STATIC <= path {
      StaticPath(path);
    }
    if IsRootFile(path) {
      RootFileHasDot(path);
    }
  }

  lemma UnslashedSplit(section: string, slug: string)
    requires IsSlug(section) && IsSlug(slug)
    ensures Split("/" + section) == ["", section] && Split("/" + section + "/" + slug) == ["", section, slug]
    ensures IsSlugPath("/" + section) && IsSlugPath("/" + section + "/" + slug)
  {
    SlugHasNoSlash(section);
    SlugHasNoSlash(slug);
    SplitSegment(section);
    SplitSegment(slug);
    SplitConcat("", section);
    SplitConcat("/" + section, slug);
    assert "" + "/" + section == "/" + section;
  }

  lemma AddressLacksSlash(rows: Rows, source: int, a: Article, uuid: string, path: string)
    requires WellFormed(rows, source) && a in rows && Yields(rows, source, "", a, uuid, path + "/")
    ensures LacksSlash(path)
  {
    var p, full := ParentOf(rows, a).value, path + "/";
    assert path == full[..|full| - 1];
    UnslashedSplit(p.slug, a.slug);
    if full == ArticleAddress("", p.slug, a.slug) {
      assert path == "/" + p.slug + "/" + a.slug;
      UnslashedLacksSlash(path, p.slug, a.slug);
    } else {
      assert path == "/" + p.slug;
      UnslashedLacksSlash(path, p.slug, p.slug);
    }
  }

  /** A page's address without its slash leads straight to the page. */
  lemma UnslashedReachesPage(ctx: Context, rows: Rows, uuid: string, path: string)
    requires WellFormed(rows, ctx.source) && IsPublic(ctx)
    requires uuid in TargetsOf(rows, rows, ctx.source, "") && path + "/" == TargetsOf(rows, rows, ctx.source, "")[uuid]
    ensures IsPageOf(Follow(Answers(ctx, rows), path, 1), uuid)
  {
    var full := path + "/";
    var a := TargetsAreYielded(rows, rows, ctx.source, "", uuid);
    AddressLacksSlash(rows, ctx.source, a, uuid, path);
    PublicTargetServed(ctx, rows, uuid);
    SlashAdded(ctx, rows, path);
    FollowOn(Answers(ctx, rows), path, full, 1);
    FollowDone(Answers(ctx, rows), full, 0);
  }

  /** An old address that's mapped to a page, and isn't a page itself, leads to it: to the page it's mapped to. */
  lemma MappedReachesPage(ctx: Context, rows: Rows, path: string)
    requires WellFormed(rows, ctx.source) && IsPublic(ctx) && !LacksSlash(path) && NoPageOn(ctx, rows, RouteOf(path))
    ensures var uuid := Mapped(ctx.redirects, NormalizePath(path));
            uuid != HOME && uuid in TargetsOf(rows, rows, ctx.source, "") ==>
              IsPageOf(Follow(Answers(ctx, rows), path, 1), uuid)
  {
    var uuid := Mapped(ctx.redirects, NormalizePath(path));
    if uuid != HOME && uuid in TargetsOf(rows, rows, ctx.source, "") {
      MappedIsFollowed(ctx, rows, path, uuid);
    }
  }

  lemma MappedIsFollowed(ctx: Context, rows: Rows, path: string, uuid: string)
    requires WellFormed(rows, ctx.source) && IsPublic(ctx) && !LacksSlash(path) && NoPageOn(ctx, rows, RouteOf(path))
    requires uuid == Mapped(ctx.redirects, NormalizePath(path)) && uuid != HOME
    requires uuid in TargetsOf(rows, rows, ctx.source, "")
    ensures IsPageOf(Follow(Answers(ctx, rows), path, 1), uuid)
  {
    var targets := TargetsOf(rows, rows, ctx.source, "");
    PublicTargetServed(ctx, rows, uuid);
    NoPageIsSentOn(ctx, rows, path);
    FollowOn(Answers(ctx, rows), path, targets[uuid], 1);
    FollowDone(Answers(ctx, rows), targets[uuid], 0);
  }

  lemma NoPageIsSentOn(ctx: Context, rows: Rows, path: string)
    requires !LacksSlash(path) && NoPageOn(ctx, rows, RouteOf(path))
    ensures IsSentOn(ctx, rows, path, AnswerTo(ctx, rows, path))
  {
    RouteAnswered(ctx, rows, path, RouteOf(path));
    NoPageIsNotFound(ctx, rows, RouteOf(path), NotFoundAnswer(ctx, rows, path));
    NotFoundIsSentOn(ctx, rows, path);
  }

  /** An address without a page is not found exactly when it isn't mapped home or to a page there is, nor above a mapped
      one. */
  lemma UnmappedIsNotFound(ctx: Context, rows: Rows, path: string)
    requires !LacksSlash(path) && NoPageOn(ctx, rows, RouteOf(path))
    ensures var address := NormalizePath(path);
            var uuid := Mapped(ctx.redirects, address);
            AnswerTo(ctx, rows, path) == NotFound
            <==> (uuid != HOME && uuid !in TargetsOf(rows, rows, ctx.source, ctx.prefix)
                  && (address == "/" || !HasBelow(ctx.redirects, address)))
  {
    NoPageIsSentOn(ctx, rows, path);
  }

  // Redirects stay on the site.

  predicate ArePathChars(s: string) {
    forall i :: 0 <= i < |s| ==> IsPathChar(s[i])
  }

  lemma {:induction false} SplitChars(s: string)
    requires ArePathChars(s)
    ensures forall i :: 0 <= i < |Split(s)| ==> ArePathChars(Split(s)[i])
  {
    if s != "" {
      SplitChars(s[1..]);
    }
  }

  lemma {:induction false} ResolvedChars(p: seq<string>)
    requires forall i :: 0 <= i < |p| ==> ArePathChars(p[i])
    ensures forall i :: 0 <= i < |Resolved(p)| ==> ArePathChars(Resolved(p)[i])
  {
    if p != [] {
      ResolvedChars(p[..|p| - 1]);
    }
  }

  lemma {:induction false} JoinChars(p: Path)
    requires p != [] && forall i :: 0 <= i < |p| ==> ArePathChars(p[i])
    ensures ArePathChars(Join(p))
  {
    if |p| > 1 {
      JoinChars(p[1..]);
    }
  }

  lemma JoinStarts(p: Path)
    requires p != [] && p[0] != ""
    ensures Join(p) != "" && Join(p)[0] == p[0][0]
  {
  }

  /** A rooted path of segments that aren't empty, but perhaps the last, is plain. */
  lemma JoinIsPlain(p: Path)
    requires |p| >= 2 && p[0] == "" && p[1] != "" && forall i :: 0 <= i < |p| ==> ArePathChars(p[i]) && NoSlash(p[i])
    ensures IsPlain(Join(p))
  {
    JoinChars(p);
    JoinStarts(p[1..]);
    RootedIsPlain(Join(p), Join(p[1..]));
  }

  lemma RootedIsPlain(path: string, rest: string)
    requires path == "" + "/" + rest && rest != "" && rest[0] != '/' && ArePathChars(path)
    ensures IsPlain(path)
  {
    assert path[1] == rest[0];
  }

  lemma LocationIsPlain(target: string)
    requires ArePathChars(target)
    ensures IsPlain(Location(target))
  {
    var p := Split(target);
    SplitChars(target);
    SplitSegments(target);
    ResolvedChars(p);
    ResolvedSegments(p);
    if Resolved(p) != [] {
      JoinIsPlain([""] + Resolved(p) + if p[|p| - 1] == "" then [""] else []);
    }
  }

  lemma SlugIsPlain(slug: string)
    requires IsSlug(slug)
    ensures ArePathChars(slug)
  {
    forall i | 0 <= i < |slug| ensures IsPathChar(slug[i]) {
      assert IsSlugChar(slug[i]);
    }
  }

  lemma AddressesArePlain(section: string, slug: string)
    requires IsSlug(section) && IsSlug(slug)
    ensures IsPlain(SectionAddress("", section)) && IsPlain(ArticleAddress("", section, slug))
  {
    SlugIsPlain(section);
    SlugIsPlain(slug);
    SlugHasNoSlash(section);
    SlugHasNoSlash(slug);
    SectionPath(section);
    ArticlePath(section, slug);
    JoinIsPlain(["", section, ""]);
    JoinIsPlain(["", section, slug, ""]);
  }

  lemma YieldedIsPlain(rows: Rows, source: int, a: Article, uuid: string, path: string)
    requires WellFormed(rows, source) && a in rows && Yields(rows, source, "", a, uuid, path)
    ensures IsPlain(path)
  {
    AddressesArePlain(ParentOf(rows, a).value.slug, a.slug);
  }

  /** Every redirect of a plain path is to a plain path: one a client asks the same site for, as it stands. */
  lemma RedirectsStayPlain(ctx: Context, rows: Rows, path: string)
    requires WellFormed(rows, ctx.source) && IsPublic(ctx) && IsPlain(path)
    ensures var answer := AnswerTo(ctx, rows, path); answer.MovedPermanently? ==> IsPlain(answer.location)
  {
    if LacksSlash(path) {
      assert ArePathChars(path + "/");
      LocationIsPlain(path + "/");
    } else if AnswerTo(ctx, rows, path).MovedPermanently? {
      MovedIsOldAddress(ctx, rows, path);
      RedirectsAreServed(ctx, rows, path);
      OldAddressIsPlain(ctx, rows, path);
    }
  }

  lemma OldAddressIsPlain(ctx: Context, rows: Rows, path: string)
    requires WellFormed(rows, ctx.source) && IsPublic(ctx) && OldAddress(ctx, rows, path) != ""
    ensures IsPlain(OldAddress(ctx, rows, path))
  {
    if OldAddress(ctx, rows, path) != "/" {
      var uuid := OldAddressLeads(ctx, rows, path);
      var a := TargetsAreYielded(rows, rows, ctx.source, "", uuid);
      YieldedIsPlain(rows, ctx.source, a, uuid, TargetsOf(rows, rows, ctx.source, "")[uuid]);
    }
  }

  /** There's no page on the route: no such section or nothing readable in it, or no such article in the section. */
  predicate NoPageOn(ctx: Context, rows: Rows, route: Route) {
    match route
    case NoRoute => true
    case SectionRoute(slug) => HasNoSection(ctx, rows, slug)
    case ArticleRoute(slug, article) => HasNoArticle(ctx, rows, slug, article)
    case _ => false
  }

  lemma NoPageIsNotFound(ctx: Context, rows: Rows, route: Route, notFound: Answer)
    requires NoPageOn(ctx, rows, route)
    ensures RouteAnswer(ctx, rows, route, notFound) == notFound
  {
    if route.SectionRoute? {
      SectionIsPaged(ctx, rows, route.section, notFound);
    } else if route.ArticleRoute? {
      ArticleIsShown(ctx, rows, route.section, route.article, notFound);
    }
  }

  lemma MappedHome(ctx: Context, rows: Rows, path: string)
    requires IsPublic(ctx) && Mapped(ctx.redirects, NormalizePath(path)) == HOME
    ensures NotFoundAnswer(ctx, rows, path) == MovedPermanently("/")
  {
    assert ctx.prefix + "/" == "/";
    HomeIsServed(ctx, rows);
  }

  /** And two redirects can be what it takes: of any address without a slash where no page is, mapped home. */
  lemma TwoRedirectsHappen(ctx: Context, rows: Rows, path: string)
    requires IsPublic(ctx) && LacksSlash(path) && Mapped(ctx.redirects, NormalizePath(path + "/")) == HOME
    requires Location(path + "/") == path + "/" && NoPageOn(ctx, rows, RouteOf(path + "/"))
    ensures Follow(Answers(ctx, rows), path, 1) == MovedPermanently("/")
  {
    var slashed := path + "/";
    assert !LacksSlash(slashed);
    NoPageIsNotFound(ctx, rows, RouteOf(slashed), NotFoundAnswer(ctx, rows, slashed));
    MappedHome(ctx, rows, slashed);
    FollowOn(Answers(ctx, rows), path, slashed, 1);
  }

  // With a third level, redirects can go round forever.

  lemma {:induction false} RoundForever(answers: string -> Answer, path: string, hops: nat)
    requires answers(path) == MovedPermanently(path)
    ensures Follow(answers, path, hops) == MovedPermanently(path)
  {
    if hops > 0 {
      RoundForever(answers, path, hops - 1);
    }
  }

  /** A section, an article in it and an article under that, all published. */
  function ThreeLevels(source: int, top: string, mid: string, leaf: string): Rows {
    [Article(1, "t", source, None, top, "", 0, true, true),
     Article(2, "m", source, Some(1), mid, "", 0, true, true),
     Article(3, "l", source, Some(2), leaf, "", 0, true, true)]
  }

  lemma ThirdLevelTarget(source: int, top: string, mid: string, leaf: string)
    ensures var rows := ThreeLevels(source, top, mid, leaf);
            var targets := TargetsOf(rows, rows, source, "");
            "l" in targets && targets["l"] == ArticleAddress("", mid, leaf)
  {
    var rows := ThreeLevels(source, top, mid, leaf);
    assert Find(rows[1..], 2) == Some(rows[1]) && Find(rows, 2) == Some(rows[1]);
    assert IsReadable(rows, source, rows[2]);
  }

  lemma ThirdLevelNotFound(ctx: Context, top: string, mid: string, leaf: string, notFound: Answer)
    requires mid != top
    ensures ArticleAnswer(ctx, ThreeLevels(ctx.source, top, mid, leaf), mid, leaf, notFound) == notFound
  {
    NotInSections(ctx.source, top, mid, leaf);
  }

  /** The article in the middle, though in a section, has the target its child makes for it if that's met after it. */
  lemma MiddleTarget(source: int, top: string, mid: string, leaf: string)
    ensures var rows := ThreeLevels(source, top, mid, leaf);
            var targets := TargetsOf(rows, rows, source, "");
            "m" in targets && targets["m"] == SectionAddress("", mid)
  {
    var rows := ThreeLevels(source, top, mid, leaf);
    assert Find(rows[1..], 2) == Some(rows[1]) && Find(rows, 2) == Some(rows[1]);
    assert IsReadable(rows, source, rows[2]);
  }

  /** And its page's address if its own row is met last. */
  lemma MiddleTargetLast(source: int, top: string, mid: string, leaf: string)
    ensures var rows := ThreeLevels(source, top, mid, leaf);
            var swapped := [rows[0], rows[2], rows[1]];
            var targets := TargetsOf(swapped, swapped, source, "");
            "m" in targets && targets["m"] == ArticleAddress("", top, mid)
  {
    var rows := ThreeLevels(source, top, mid, leaf);
    var swapped := [rows[0], rows[2], rows[1]];
    assert Find(swapped, 1) == Some(rows[0]);
    assert IsReadable(swapped, source, swapped[2]);
  }

  lemma NotInSections(source: int, top: string, mid: string, leaf: string)
    requires mid != top
    ensures LoadSection(ThreeLevels(source, top, mid, leaf), source, mid).None?
  {
    var rows := ThreeLevels(source, top, mid, leaf);
    assert LoadSection(rows[2..], source, mid).None?;
    assert LoadSection(rows[1..], source, mid).None?;
  }

  /** That target is answered as what isn't found is. */
  lemma MiddleIsLost(ctx: Context, top: string, mid: string, leaf: string)
    requires IsSlug(mid) && mid != "search" && mid != "static" && mid != top
    ensures var rows, path := ThreeLevels(ctx.source, top, mid, leaf), SectionAddress("", mid);
            AnswerTo(ctx, rows, path) == NotFoundAnswer(ctx, rows, path)
  {
    SectionAnswered(ctx, ThreeLevels(ctx.source, top, mid, leaf), mid, SectionAddress("", mid));
    NotInSections(ctx.source, top, mid, leaf);
  }

  lemma NothingIsNotFound(ctx: Context, rows: Rows, path: string)
    requires ctx.redirects == map[] && forall a :: a in rows ==> a.uuid != ""
    ensures NotFoundAnswer(ctx, rows, path) == NotFound
  {
    NotFoundIsSentOn(ctx, rows, path);
    if "" in TargetsOf(rows, rows, ctx.source, ctx.prefix) {
      var i := TargetIsLastMade(rows, rows, ctx.source, ctx.prefix, "");
    }
  }

  /** So it's not found where nothing is mapped... */
  lemma MiddleIsNotFound(ctx: Context, top: string, mid: string, leaf: string)
    requires IsSlug(mid) && mid != "search" && mid != "static" && mid != top && ctx.redirects == map[]
    ensures AnswerTo(ctx, ThreeLevels(ctx.source, top, mid, leaf), SectionAddress("", mid)) == NotFound
  {
    var rows := ThreeLevels(ctx.source, top, mid, leaf);
    MiddleIsLost(ctx, top, mid, leaf);
    NothingIsNotFound(ctx, rows, SectionAddress("", mid));
  }

  /** ...and it's where an address mapped to the article is sent. */
  lemma MiddleIsSentOn(ctx: Context, top: string, mid: string, leaf: string, path: string)
    requires IsSlug(mid) && IsPublic(ctx) && Mapped(ctx.redirects, NormalizePath(path)) == "m"
    ensures NotFoundAnswer(ctx, ThreeLevels(ctx.source, top, mid, leaf), path)
            == MovedPermanently(SectionAddress("", mid))
  {
    NotFoundIsSentOn(ctx, ThreeLevels(ctx.source, top, mid, leaf), path);
    MiddleTarget(ctx.source, top, mid, leaf);
    SectionLocation(mid);
  }

  /** A public site on which the third article's address was mapped to it while it still was in a section. */
  function WithOldAddress(source: int, mid: string, leaf: string): Context {
    Context(source, map[NormalizePath(ArticleAddress("", mid, leaf)) := "l"], "", false)
  }

  lemma ThirdLevelMoved(source: int, top: string, mid: string, leaf: string)
    requires IsSlug(mid) && IsSlug(leaf)
    ensures var ctx, path := WithOldAddress(source, mid, leaf), ArticleAddress("", mid, leaf);
            NotFoundAnswer(ctx, ThreeLevels(source, top, mid, leaf), path) == MovedPermanently(path)
  {
    var ctx := WithOldAddress(source, mid, leaf);
    ArticleLocation(mid, leaf);
    ThirdLevelTarget(ctx.source, top, mid, leaf);
  }

  /** The old address of the third article is sent to its target, which no route serves and is the old address again. */
  lemma ThirdLevelLoops(source: int, top: string, mid: string, leaf: string, hops: nat)
    requires IsSlug(mid) && IsSlug(leaf) && mid != "static" && mid != top
    ensures var ctx, rows := WithOldAddress(source, mid, leaf), ThreeLevels(source, top, mid, leaf);
            var path := ArticleAddress("", mid, leaf);
            Follow(Answers(ctx, rows), path, hops) == MovedPermanently(path)
  {
    var ctx, rows := WithOldAddress(source, mid, leaf), ThreeLevels(source, top, mid, leaf);
    var path := ArticleAddress("", mid, leaf);
    ArticleAnswered(ctx, rows, mid, leaf, path);
    ThirdLevelMoved(source, top, mid, leaf);
    ThirdLevelNotFound(ctx, top, mid, leaf, NotFoundAnswer(ctx, rows, path));
    RoundForever(Answers(ctx, rows), path, hops);
  }
}
