/** How a request for one of a site's addresses is answered. */
module Routing {
  import opened Common
  import opened Text
  import opened Paths
  import opened Articles
  import opened Redirects

  /** The site a request is for: its source and mapping of old addresses, and the prefix a preview's addresses have. */
  datatype Context = Context(source: int, redirects: map<string, string>, prefix: string, isPreview: bool)

  datatype Answer =
    | HomePage
    | SearchPage
    | RobotsFile
    | SitemapFile
    | StaticFile
    | SectionPage(section: Article, articles: Rows)
    | ArticlePage(section: Article, article: Article, siblings: Rows, targets: Targets)
    | NotFound
    | MovedPermanently(location: string)

  // Redirects, as the HTTP library writes them.

  /** What's left of a rooted path's segments once the empty ones and the dots are resolved. */
  function Resolved(p: seq<string>): seq<string> {
    if p == [] then []
    else
      var before, segment := Resolved(p[..|p| - 1]), p[|p| - 1];
      if segment == "" || segment == "." then before
      else if segment == ".." then (if before == [] then [] else before[..|before| - 1])
      else before + [segment]
  }

  /** A segment that's named is undone by going up, and nothing is left that means the same or nothing. */
  lemma {:induction false} ResolvedIsClean(p: seq<string>)
    ensures forall i :: 0 <= i < |Resolved(p)| ==> Resolved(p)[i] !in {"", ".", ".."}
  {
    if p != [] {
      ResolvedIsClean(p[..|p| - 1]);
    }
  }

  lemma ResolvedUp(p: seq<string>, segment: string)
    requires segment !in {"", ".", ".."}
    ensures Resolved(p + [segment]) == Resolved(p) + [segment] && Resolved(p + [segment, ".."]) == Resolved(p)
    ensures Resolved(p + [""]) == Resolved(p + ["."]) == Resolved(p)
  {
    var q := p + [segment];
    assert q[..|p|] == p && (p + [segment, ".."])[..|p| + 1] == q;
    assert (p + [""])[..|p|] == p && (p + ["."])[..|p|] == p;
  }

  /** The location of a redirect to a rooted path: cleaned, but keeping its trailing slash. */
  function Location(target: string): string {
    var p := Split(target);
    var segments := Resolved(p);
    if segments == [] then "/" else Join([""] + segments + if p[|p| - 1] == "" then [""] else [])
  }

  // Routes.

  datatype Route =
    | HomeRoute
    | RobotsRoute
    | SitemapRoute
    | SearchRoute
    | StaticRoute
    | SectionRoute(section: string)
    | ArticleRoute(section: string, article: string)
    | NoRoute

  predicate IsSlugChar(c: char) {
    IsWordChar(c) || c == '-'
  }

  /** Matches ^[\w-]+$. */
  predicate IsSlug(s: string) {
    s != "" && forall i :: 0 <= i < |s| ==> IsSlugChar(s[i])
  }

  const STATIC := "/static/"

  predicate IsRootFile(path: string) {
    path == "/robots.txt" || path == "/sitemap.xml"
  }

  function RouteOf(path: string): Route {
    if STATIC <= path then StaticRoute
    else if path == "/" then HomeRoute
    else if path == "/robots.txt" then RobotsRoute
    else if path == "/sitemap.xml" then SitemapRoute
    else if path == "/search/" then SearchRoute
    else PageRoute(Split(path))
  }

  /** The route of the segments of a section's or an article's address. */
  function PageRoute(p: Path): Route {
    if |p| == 3 && p[0] == "" && IsSlug(p[1]) && p[2] == "" then SectionRoute(p[1])
    else if |p| == 4 && p[0] == "" && IsSlug(p[1]) && IsSlug(p[2]) && p[3] == "" then ArticleRoute(p[1], p[2])
    else NoRoute
  }

  /** A page's address without its trailing slash. */
  predicate LacksSlash(path: string) {
    path != "" && path[|path| - 1] != '/' && !(STATIC <= path) && !IsRootFile(path)
  }

  // Answers.

  /** LoadArticles: the readable articles in the section, of rows selected from all. */
  function LoadArticles(all: Rows, rows: Rows, source: int, section: int): (r: Rows)
    ensures forall a :: a in r <==> a in rows && IsArticleIn(all, source, section, a)
  {
    if rows == [] then []
    else (if IsArticleIn(all, source, section, rows[0]) then [rows[0]] else []) +
         LoadArticles(all, rows[1..], source, section)
  }

  function NotFoundAnswer(ctx: Context, rows: Rows, path: string): Answer {
    var address := Redirected(ctx.redirects, path, TargetsOf(rows, rows, ctx.source, ctx.prefix), ctx.prefix + "/");
    if address != "" then MovedPermanently(Location(address)) else NotFound
  }

  lemma TargetIsAddress(rows: Rows, source: int, prefix: string, uuid: string)
    requires uuid in TargetsOf(rows, rows, source, prefix)
    ensures TargetsOf(rows, rows, source, prefix)[uuid] != ""
  {
    var a := TargetsAreYielded(rows, rows, source, prefix, uuid);
  }

  /** Where an address that's nothing on the site is sent: home or to the page it's mapped to, or home if the old site
      had addresses below it; and only if it's none of these is it not found. */
  ghost predicate IsSentOn(ctx: Context, rows: Rows, path: string, answer: Answer) {
    var address, targets := NormalizePath(path), TargetsOf(rows, rows, ctx.source, ctx.prefix);
    var uuid := Mapped(ctx.redirects, address);
    && (uuid == HOME ==> answer == MovedPermanently(Location(ctx.prefix + "/")))
    && (uuid != HOME && uuid in targets ==> answer == MovedPermanently(Location(targets[uuid])))
    && (uuid != HOME && uuid !in targets ==>
          answer == if address == "/" || !HasBelow(ctx.redirects, address) then NotFound
                    else MovedPermanently(Location(ctx.prefix + "/")))
  }

  lemma NotFoundIsSentOn(ctx: Context, rows: Rows, path: string)
    ensures IsSentOn(ctx, rows, path, NotFoundAnswer(ctx, rows, path))
  {
    var targets, home := TargetsOf(rows, rows, ctx.source, ctx.prefix), ctx.prefix + "/";
    forall uuid | uuid in targets ensures targets[uuid] != "" {
      TargetIsAddress(rows, ctx.source, ctx.prefix, uuid);
    }
    assert home[|ctx.prefix|] == '/';
    LeadsByMapping(ctx.redirects, NormalizePath(path), targets, home);
  }

  /** Exactly the readable articles in a section, each once. */
  ghost predicate AreArticlesOf(articles: Rows, rows: Rows, source: int, section: int) {
    && (forall a :: a in articles <==> a in rows && IsArticleIn(rows, source, section, a))
    && (NoDuplicates(rows) ==> NoDuplicates(articles))
  }

  lemma {:induction false} ArticlesOnce(all: Rows, rows: Rows, source: int, section: int)
    requires NoDuplicates(rows)
    ensures NoDuplicates(LoadArticles(all, rows, source, section))
  {
    if rows != [] {
      assert rows == [rows[0]] + rows[1..] && rows[0] !in rows[1..];
      ArticlesOnce(all, rows[1..], source, section);
    }
  }

  lemma LoadedAreArticles(rows: Rows, source: int, section: int)
    ensures AreArticlesOf(LoadArticles(rows, rows, source, section), rows, source, section)
  {
    if NoDuplicates(rows) {
      ArticlesOnce(rows, rows, source, section);
    }
  }

  /** The page of a section with the slug, of exactly the readable articles in it, of which there are some. */
  ghost predicate IsSectionWith(ctx: Context, rows: Rows, slug: string, answer: Answer) {
    && answer.SectionPage? && answer.section in rows && IsSection(ctx.source, answer.section)
    && answer.section.slug == slug && answer.articles != []
    && AreArticlesOf(answer.articles, rows, ctx.source, answer.section.id)
  }

  /** The section the slug finds, if any, has nothing readable in it. */
  predicate HasNoSection(ctx: Context, rows: Rows, slug: string) {
    var section := LoadSection(rows, ctx.source, slug);
    section.Some? ==> !HasArticles(rows, ctx.source, section.value.id)
  }

  function SectionAnswer(ctx: Context, rows: Rows, slug: string, notFound: Answer): Answer {
    var section := LoadSection(rows, ctx.source, slug);
    if section.None? then notFound
    else
      var articles := LoadArticles(rows, rows, ctx.source, section.value.id);
      if articles == [] then notFound else SectionPage(section.value, articles)
  }

  /** A section's address is answered with its page exactly when the section its slug finds has something readable in
      it, and otherwise as what isn't found is. */
  lemma SectionIsPaged(ctx: Context, rows: Rows, slug: string, notFound: Answer)
    ensures var answer := SectionAnswer(ctx, rows, slug, notFound);
            if HasNoSection(ctx, rows, slug) then answer == notFound
            else IsSectionWith(ctx, rows, slug, answer) && LoadSection(rows, ctx.source, slug) == Some(answer.section)
  {
    var section := LoadSection(rows, ctx.source, slug);
    if section.Some? {
      var articles := LoadArticles(rows, rows, ctx.source, section.value.id);
      LoadedAreArticles(rows, ctx.source, section.value.id);
      assert articles != [] ==> articles[0] in articles;
      assert HasArticles(rows, ctx.source, section.value.id) <==> articles != [];
    }
  }

  function ArticleAnswer(ctx: Context, rows: Rows, sectionSlug: string, slug: string, notFound: Answer): Answer {
    var section := LoadSection(rows, ctx.source, sectionSlug);
    if section.None? then notFound
    else
      var article := LoadArticle(rows, rows, ctx.source, section.value.id, slug);
      if article.None? then notFound
      else
        ArticlePage(section.value, article.value, LoadArticles(rows, rows, ctx.source, section.value.id),
                    TargetsOf(rows, rows, ctx.source, ctx.prefix))
  }

  /** The targets of every readable article and what it's in, and no others. */
  ghost predicate AreTargetsOf(targets: Targets, rows: Rows, source: int) {
    forall uuid :: uuid in targets <==> exists a :: a in rows && Makes(rows, source, a, uuid)
  }

  lemma TargetsAreOf(rows: Rows, source: int, prefix: string)
    ensures AreTargetsOf(TargetsOf(rows, rows, source, prefix), rows, source)
  {
    var targets := TargetsOf(rows, rows, source, prefix);
    forall uuid ensures uuid in targets <==> exists a :: a in rows && Makes(rows, source, a, uuid) {
      if uuid in targets {
        var i := TargetIsLastMade(rows, rows, source, prefix, uuid);
        assert rows[i] in rows;
      }
      if a :| a in rows && Makes(rows, source, a, uuid) {
        MadeIsTarget(rows, rows, source, prefix, a, uuid);
      }
    }
  }

  /** The page of a readable article with the slug in a section with the slug, with all articles of that section and all
      targets that links in a body can have. */
  ghost predicate IsArticleWith(ctx: Context, rows: Rows, section: string, slug: string, answer: Answer) {
    && answer.ArticlePage? && answer.section in rows && IsSection(ctx.source, answer.section)
    && answer.section.slug == section && answer.article in rows && answer.article.slug == slug
    && IsArticleIn(rows, ctx.source, answer.section.id, answer.article)
    && AreArticlesOf(answer.siblings, rows, ctx.source, answer.section.id)
    && AreTargetsOf(answer.targets, rows, ctx.source)
  }

  /** There's no such section, or no such readable article in it. */
  predicate HasNoArticle(ctx: Context, rows: Rows, section: string, slug: string) {
    var s := LoadSection(rows, ctx.source, section);
    s.Some? ==> forall a :: a in rows && IsArticleIn(rows, ctx.source, s.value.id, a) ==> a.slug != slug
  }

  /** An article's address is answered with its page exactly when there's such an article in the section its first slug
      finds, and otherwise as what isn't found is. */
  lemma ArticleIsShown(ctx: Context, rows: Rows, section: string, slug: string, notFound: Answer)
    ensures var answer := ArticleAnswer(ctx, rows, section, slug, notFound);
            if HasNoArticle(ctx, rows, section, slug) then answer == notFound
            else IsArticleWith(ctx, rows, section, slug, answer)
                 && LoadSection(rows, ctx.source, section) == Some(answer.section)
  {
    var s := LoadSection(rows, ctx.source, section);
    if s.Some? {
      LoadedAreArticles(rows, ctx.source, s.value.id);
      TargetsAreOf(rows, ctx.source, ctx.prefix);
    }
  }

  /** The answer on a route, given what isn't found is answered with. */
  function RouteAnswer(ctx: Context, rows: Rows, route: Route, notFound: Answer): Answer {
    match route
    case HomeRoute => HomePage
    case RobotsRoute => if ctx.isPreview then notFound else RobotsFile
    case SitemapRoute => if ctx.isPreview then notFound else SitemapFile
    case SearchRoute => SearchPage
    case StaticRoute => StaticFile
    case SectionRoute(section) => SectionAnswer(ctx, rows, section, notFound)
    case ArticleRoute(section, article) => ArticleAnswer(ctx, rows, section, article, notFound)
    case NoRoute => notFound
  }

  lemma OnRoute(ctx: Context, rows: Rows, section: string, slug: string, notFound: Answer)
    ensures RouteAnswer(ctx, rows, ArticleRoute(section, slug), notFound)
            == ArticleAnswer(ctx, rows, section, slug, notFound)
    ensures RouteAnswer(ctx, rows, SectionRoute(section), notFound) == SectionAnswer(ctx, rows, section, notFound)
  {
  }

  /** The answer to a GET, through the redirect to a trailing slash. */
  function AnswerTo(ctx: Context, rows: Rows, path: string): Answer {
    if LacksSlash(path) then MovedPermanently(Location(path + "/"))
    else RouteAnswer(ctx, rows, RouteOf(path), NotFoundAnswer(ctx, rows, path))
  }

  /** The views an answer records: an article's own, unless it's a preview. */
  function ViewsOf(ctx: Context, answer: Answer): seq<int> {
    if answer.ArticlePage? && !ctx.isPreview then [answer.article.id] else []
  }

  lemma NoViews(ctx: Context, answer: Answer, views: seq<int>)
    requires !answer.ArticlePage?
    ensures views + ViewsOf(ctx, answer) == views
  {
  }

  /** An answer that was given, and what for. */
  datatype Visit = Visit(ctx: Context, answer: Answer)

  /** The views recorded of answers given one after another. */
  function Recorded(visits: seq<Visit>): seq<int> {
    if visits == [] then []
    else
      var last := visits[|visits| - 1];
      Recorded(visits[..|visits| - 1]) + ViewsOf(last.ctx, last.answer)
  }

  /** A reader, rather than somebody looking at a preview, got the article with the id. */
  predicate IsView(v: Visit, id: int) {
    !v.ctx.isPreview && v.answer.ArticlePage? && v.answer.article.id == id
  }

  function Viewing(visits: seq<Visit>, id: int): set<nat> {
    set i | 0 <= i < |visits| && IsView(visits[i], id)
  }

  /** An article has as many views as readers got it. */
  lemma {:induction false} ViewsAreCounted(visits: seq<Visit>, id: int)
    ensures multiset(Recorded(visits))[id] == |Viewing(visits, id)|
  {
    if visits != [] {
      var init, last := visits[..|visits| - 1], visits[|visits| - 1];
      ViewsAreCounted(init, id);
      RecordedMore(Recorded(init), ViewsOf(last.ctx, last.answer), id);
      ViewingMore(visits, id);
    }
  }

  lemma RecordedMore(before: seq<int>, views: seq<int>, id: int)
    requires |views| <= 1
    ensures multiset(before + views)[id] == multiset(before)[id] + if id in views then 1 else 0
  {
    assert views == [] || views == [views[0]];
    assert multiset(before + views) == multiset(before) + multiset(views);
  }

  lemma ViewingMore(visits: seq<Visit>, id: int)
    requires visits != []
    ensures var init, last := visits[..|visits| - 1], visits[|visits| - 1];
            |Viewing(visits, id)| == |Viewing(init, id)| + if IsView(last, id) then 1 else 0
  {
    var init, last := visits[..|visits| - 1], visits[|visits| - 1];
    assert Viewing(visits, id) == Viewing(init, id) + if IsView(last, id) then {|init|} else {};
  }

  /** The handlers, over a table of articles and the views recorded of them. */
  class SiteRouter {
    var rows: Rows
    var views: seq<int>

    method HandleNotFound(ctx: Context, path: string) returns (answer: Answer)
      ensures answer == NotFoundAnswer(ctx, rows, path)
    {
      var targets := LoadLinkTargets(rows, ctx.source, ctx.prefix);
      var address := GetRedirect(ctx.redirects, path, targets, ctx.prefix + "/");
      if address != "" {
        return MovedPermanently(Location(address));
      }
      return NotFound;
    }

    method HandleSection(ctx: Context, path: string, slug: string) returns (answer: Answer)
      ensures answer == SectionAnswer(ctx, rows, slug, NotFoundAnswer(ctx, rows, path))
    {
      var section := LoadSection(rows, ctx.source, slug);
      if section.None? {
        answer := HandleNotFound(ctx, path);
        return;
      }
      var articles := LoadArticles(rows, rows, ctx.source, section.value.id);
      if |articles| == 0 {
        answer := HandleNotFound(ctx, path);
        return;
      }
      answer := SectionPage(section.value, articles);
    }

    method HandleArticle(ctx: Context, path: string, sectionSlug: string, slug: string) returns (answer: Answer)
      modifies this`views
      ensures answer == ArticleAnswer(ctx, rows, sectionSlug, slug, NotFoundAnswer(ctx, rows, path))
      ensures views == old(views) + ViewsOf(ctx, answer)
    {
      var section := LoadSection(rows, ctx.source, sectionSlug);
      if section.None? {
        answer := HandleNotFound(ctx, path);
        return;
      }
      var article := LoadArticle(rows, rows, ctx.source, section.value.id, slug);
      if article.None? {
        answer := HandleNotFound(ctx, path);
        return;
      }
      var targets := LoadLinkTargets(rows, ctx.source, ctx.prefix);
      var siblings := LoadArticles(rows, rows, ctx.source, section.value.id);
      if !ctx.isPreview {
        views := views + [article.value.id];
      }
      answer := ArticlePage(section.value, article.value, siblings, targets);
    }

    /** A file at the root, which a preview doesn't have. */
    method HandleRootFile(ctx: Context, path: string, file: Answer) returns (answer: Answer)
      ensures answer == if ctx.isPreview then NotFoundAnswer(ctx, rows, path) else file
    {
      if ctx.isPreview {
        answer := HandleNotFound(ctx, path);
        return;
      }
      answer := file;
    }

    /** The handlers of routes that record no view. */
    method HandleUnrecorded(ctx: Context, path: string, route: Route) returns (answer: Answer)
      requires !route.ArticleRoute?
      ensures answer == RouteAnswer(ctx, rows, route, NotFoundAnswer(ctx, rows, path))
      ensures !answer.ArticlePage?
    {
      match route
      case HomeRoute => answer := HomePage;
      case RobotsRoute => answer := HandleRootFile(ctx, path, RobotsFile);
      case SitemapRoute => answer := HandleRootFile(ctx, path, SitemapFile);
      case SearchRoute => answer := SearchPage;
      case StaticRoute => answer := StaticFile;
      case SectionRoute(section) => answer := HandleSection(ctx, path, section);
      case NoRoute => answer := HandleNotFound(ctx, path);
    }

    /** The handler a route is registered with. */
    method Handle(ctx: Context, path: string, route: Route) returns (answer: Answer)
      modifies this`views
      ensures answer == RouteAnswer(ctx, rows, route, NotFoundAnswer(ctx, rows, path))
      ensures views == old(views) + ViewsOf(ctx, answer)
    {
      if route.ArticleRoute? {
        answer := HandleArticle(ctx, path, route.section, route.article);
        OnRoute(ctx, rows, route.section, route.article, NotFoundAnswer(ctx, rows, path));
      } else {
        answer := HandleUnrecorded(ctx, path, route);
        NoViews(ctx, answer, views);
      }
    }

    method Get(ctx: Context, path: string) returns (answer: Answer)
      modifies this`views
      ensures answer == AnswerTo(ctx, rows, path)
      ensures views == old(views) + ViewsOf(ctx, answer)
    {
      if LacksSlash(path) {
        return MovedPermanently(Location(path + "/"));
      }
      answer := Handle(ctx, path, RouteOf(path));
    }
  }
}
