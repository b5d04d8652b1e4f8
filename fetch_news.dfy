/**
 * The news-extraction endpoint `GET /api/fetch-news?url=...`.
 *
 * The page is taken as already fetched, parsed and stripped of noise
 * subtrees; what the CSS selectors pick out of it is given as plain data
 * (a `Page`). Fetching and URL resolution are parameters of `Handle`.
 *
 * `cleanText` is a function value local to the handler; the extraction
 * functions below take it as a `Cleaner` argument and `Handle` passes
 * `TextCleaner.CleanText`, so each extraction step is proved for any
 * cleaner and the cleaner's own properties come from `TextCleaner`.
 */
module FetchNews {
  import opened Wrappers
  import opened JsString
  import opened Seqs
  import opened TextCleaner

  /** URL fragments that mark a section front page ("listing"). */
  const ListingMarkers: seq<string> := ["/news/", "/business/", "/sport/", "/sci-tech/", "/india", "/national"]

  const MaxArticles: nat := 15
  const MinTitleLength: nat := 15
  const MinBodyLength: nat := 150
  const MaxContentLength: nat := 5000

  const SummaryFallback: string := "Latest update from official sources."
  const BriefingTitle: string := "Daily Briefing"
  const DefaultTitle: string := "Live Article"
  const SectionSeparator: string := "---\n\n"
  const MissingUrlError: string := "URL is required"
  const FetchFailedError: string := "Failed to fetch article"

  /** Resolving a reference against a base URL; `None` when the URL parser rejects it. */
  type Resolver = (string, string) -> Option<string>

  /** Fetch, read as text and parse; `None` when any of these throws. */
  type Fetcher = string -> Option<Page>

  /** The handler's `cleanText`. */
  type Cleaner = string -> string

  /**
   * One listing candidate (`.story-card, .article, .row, ...`), reduced to
   * what the extractor reads from it. A text is `None` when its selector
   * matched nothing (cheerio then yields the empty string); an attribute is
   * `None` when the element or the attribute is missing.
   */
  datatype Container = Container(
    titleText: Option<string>,        // first of h2, h3, .title, .story-card-news-heading, a, .heading
    titleHref: Option<string>,        // that element's own href
    titleAnchorHref: Option<string>,  // href of the first anchor inside it
    anchorHref: Option<string>,       // href of the container's first anchor
    dataSrc: Option<string>,          // data-src of the container's first img
    src: Option<string>,              // src of that img
    dataOriginal: Option<string>,     // data-original of that img
    summaryText: Option<string>)      // first of .summary, p, .story-card-news-introduction, .description

  /** One body selector (`article`, `.article-body`, ...): did it match, and its paragraph texts. */
  datatype BodyCandidate = BodyCandidate(matched: bool, paragraphs: seq<string>)

  /** What the extractor reads from a parsed page; `bodies` follows the selector priority order. */
  datatype Page = Page(
    containers: seq<Container>,
    h1Text: Option<string>,
    ogImage: Option<string>,
    mainImageSrc: Option<string>,
    bodies: seq<BodyCandidate>,
    paragraphs: seq<string>)

  datatype Article = Article(title: string, link: Option<string>, image: Option<string>, summary: string)

  /** The JSON bodies the endpoint answers with; both success shapes carry `type: "article"`. */
  datatype Response =
    | MissingUrl(error: string)
    | FetchFailed(error: string)
    | Briefing(title: string, content: string, articles: seq<Article>, heroImage: Option<string>)
    | SingleArticle(title: string, image: Option<string>, content: string, source: string)
  {
    function Status(): int {
      if MissingUrl? then 400 else if FetchFailed? then 500 else 200
    }
  }

  /** The text of a selection: the empty string when nothing was selected. */
  function TextOf(o: Option<string>): string {
    o.GetOr("")
  }

  // ---------------------------------------------------------------------------
  // Mode dispatch

  /** Some listing marker occurs anywhere in the URL string, not only in its path. */
  function IsListing(url: string): (r: bool)
    ensures r <==> exists k, i :: 0 <= k < |ListingMarkers| && OccursAt(url, ListingMarkers[k], i)
  {
    ContainsAnyMeans(url, ListingMarkers);
    ContainsAny(url, ListingMarkers)
  }

  /** A marker anywhere in the string, query string included, makes the URL a listing. */
  lemma MarkerAnywhere(pre: string, k: nat, post: string)
    requires k < |ListingMarkers|
    ensures IsListing(pre + ListingMarkers[k] + post)
  {
    var url := pre + ListingMarkers[k] + post;
    assert url[|pre|..|pre| + |ListingMarkers[k]|] == ListingMarkers[k];
    assert OccursAt(url, ListingMarkers[k], |pre|);
  }

  // ---------------------------------------------------------------------------
  // Listing mode

  function Title(c: Container): string {
    Trim(TextOf(c.titleText))
  }

  /** A container qualifies when its trimmed title is longer than 15 characters. */
  predicate Qualifies(c: Container) {
    |Title(c)| > MinTitleLength
  }

  /**
   * The article link: the title element's own `href`, else the `href` of the
   * first anchor inside the title element, else that of the first anchor in
   * the container, the first one that is present and non-empty.
   */
  function LinkOf(c: Container): Option<string> {
    Or(Or(c.titleHref, c.titleAnchorHref), c.anchorHref)
  }

  /**
   * The image reference: the image's lazy-loading `data-src`, else its `src`,
   * else its `data-original`, the first one that is present and non-empty.
   */
  function ImageOf(c: Container): Option<string> {
    Or(Or(c.dataSrc, c.src), c.dataOriginal)
  }

  /** A chain of three alternatives picks the first present, non-empty candidate; none such makes it falsy. */
  lemma FirstTruthy(a: Option<string>, b: Option<string>, c: Option<string>)
    ensures Truthy(Or(Or(a, b), c)) <==> Truthy(a) || Truthy(b) || Truthy(c)
    ensures Truthy(a) ==> Or(Or(a, b), c) == a
    ensures !Truthy(a) && Truthy(b) ==> Or(Or(a, b), c) == b
    ensures !Truthy(a) && !Truthy(b) && Truthy(c) ==> Or(Or(a, b), c) == c
  {
  }

  /**
   * A missing or empty reference stays absent; one starting with `http` is
   * kept as it is; any other is resolved against the page URL, and a
   * reference the URL parser rejects is an error.
   */
  function Absolutize(ref: Option<string>, base: string, resolve: Resolver): Result<Option<string>> {
    if !Truthy(ref) then Ok(None)
    else if StartsWith(ref.value, "http") then Ok(ref)
    else match resolve(ref.value, base)
      case Some(href) => Ok(Some(href))
      case None => Failure("Invalid URL")
  }

  /** The cleaned, trimmed summary text, or the fallback sentence when cleaning leaves nothing. */
  function Summary(c: Container, clean: Cleaner): string {
    OrElse(clean(Trim(TextOf(c.summaryText))), SummaryFallback)
  }

  /** The object literal pushed for an accepted container; `Failure` when `new URL` throws. */
  function MakeArticle(c: Container, base: string, resolve: Resolver, clean: Cleaner): Result<Article> {
    match Absolutize(LinkOf(c), base, resolve)
    case Failure(e) => Failure(e)
    case Ok(link) =>
      match Absolutize(ImageOf(c), base, resolve)
      case Failure(e) => Failure(e)
      case Ok(image) => Ok(Article(Title(c), link, image, Summary(c, clean)))
  }

  /** Absolutizing the first truthy of three candidates: absent exactly when all three are absent or empty. */
  lemma ResolvedCandidate(a: Option<string>, b: Option<string>, c: Option<string>, base: string, resolve: Resolver)
    requires Absolutize(Or(Or(a, b), c), base, resolve).Ok?
    ensures var ref := Or(Or(a, b), c);
      var r := Absolutize(ref, base, resolve).value;
      && (r.None? <==> !Truthy(a) && !Truthy(b) && !Truthy(c))
      && (Truthy(ref) && StartsWith(ref.value, "http") ==> r == ref)
      && (Truthy(ref) && !StartsWith(ref.value, "http") ==> r == resolve(ref.value, base))
  {
    FirstTruthy(a, b, c);
  }

  /**
   * What an article built from a container holds: its trimmed title; a link
   * and an image that are absent when every candidate is absent or empty,
   * kept as they are when they start with `http`, and resolved against the
   * page URL otherwise; and the cleaned summary or the fallback sentence.
   */
  lemma ArticleFromContainer(c: Container, base: string, resolve: Resolver, clean: Cleaner)
    requires MakeArticle(c, base, resolve, clean).Ok?
    ensures var a := MakeArticle(c, base, resolve, clean).value;
      && a.title == Title(c)
      && (a.link.None? <==> !Truthy(c.titleHref) && !Truthy(c.titleAnchorHref) && !Truthy(c.anchorHref))
      && (Truthy(LinkOf(c)) && StartsWith(LinkOf(c).value, "http") ==> a.link == LinkOf(c))
      && (Truthy(LinkOf(c)) && !StartsWith(LinkOf(c).value, "http") ==> a.link == resolve(LinkOf(c).value, base))
      && (a.image.None? <==> !Truthy(c.dataSrc) && !Truthy(c.src) && !Truthy(c.dataOriginal))
      && (Truthy(ImageOf(c)) && StartsWith(ImageOf(c).value, "http") ==> a.image == ImageOf(c))
      && (Truthy(ImageOf(c)) && !StartsWith(ImageOf(c).value, "http") ==> a.image == resolve(ImageOf(c).value, base))
      && (clean(Trim(TextOf(c.summaryText))) == "" ==> a.summary == SummaryFallback)
      && (clean(Trim(TextOf(c.summaryText))) != "" ==> a.summary == clean(Trim(TextOf(c.summaryText))))
  {
    var a := MakeArticle(c, base, resolve, clean).value;
    assert a.title == Title(c) && a.summary == Summary(c, clean);
    assert a.link == Absolutize(LinkOf(c), base, resolve).value;
    assert a.image == Absolutize(ImageOf(c), base, resolve).value;
    ResolvedCandidate(c.titleHref, c.titleAnchorHref, c.anchorHref, base, resolve);
    ResolvedCandidate(c.dataSrc, c.src, c.dataOriginal, base, resolve);
  }

  /** Building an article fails exactly when a link or image needs resolving and `new URL` throws. */
  lemma ArticleFailure(c: Container, base: string, resolve: Resolver, clean: Cleaner)
    ensures MakeArticle(c, base, resolve, clean).Failure? <==>
      (Truthy(LinkOf(c)) && !StartsWith(LinkOf(c).value, "http") && resolve(LinkOf(c).value, base).None?) ||
      (Truthy(ImageOf(c)) && !StartsWith(ImageOf(c).value, "http") && resolve(ImageOf(c).value, base).None?)
  {
  }

  /** With the handler's own cleaner, a summary is the fallback sentence or lines that pass both filters. */
  lemma SummaryIsClean(c: Container)
    ensures Summary(c, CleanText) == SummaryFallback || IsClean(Summary(c, CleanText))
  {
    CleanTextIsClean(Trim(TextOf(c.summaryText)));
  }

  /**
   * How the listing loop builds one article: a link that fails to resolve
   * stops it, then an image that fails to resolve, and otherwise the article
   * holds the title, the resolved link and image, and the summary.
   */
  lemma BuildSteps(c: Container, base: string, resolve: Resolver, clean: Cleaner)
    ensures var link := Absolutize(LinkOf(c), base, resolve);
      var image := Absolutize(ImageOf(c), base, resolve);
      && (link.Failure? ==> Builder(base, resolve, clean)(c) == Failure(link.error))
      && (link.Ok? && image.Failure? ==> Builder(base, resolve, clean)(c) == Failure(image.error))
      && (link.Ok? && image.Ok? ==>
            Builder(base, resolve, clean)(c) == Ok(Article(Title(c), link.value, image.value, Summary(c, clean))))
  {
  }

  /** The article builder for one page URL. */
  function Builder(base: string, resolve: Resolver, clean: Cleaner): Container -> Result<Article> {
    c => MakeArticle(c, base, resolve, clean)
  }

  /** The containers the listing loop turns into articles: the first 15 that qualify. */
  function Accepted(cs: seq<Container>): seq<Container> {
    Take(Filter(cs, Qualifies), MaxArticles)
  }

  /** Reference result of the listing loop: every accepted container built, or the first failure. */
  function ListingArticles(cs: seq<Container>, base: string, resolve: Resolver, clean: Cleaner): Result<seq<Article>> {
    MapAll(Accepted(cs), Builder(base, resolve, clean))
  }

  /** The `.each` loop over the candidate containers, with its 15-item cap. */
  method ExtractListing(cs: seq<Container>, url: string, resolve: Resolver, clean: Cleaner)
    returns (r: Result<seq<Article>>)
    ensures r == ListingArticles(cs, url, resolve, clean)
  {
    var articles: seq<Article> := [];
    ghost var taken: seq<Container> := [];
    for i := 0 to |cs|
      invariant taken == Take(Filter(cs[..i], Qualifies), MaxArticles)
      invariant MapAll(taken, Builder(url, resolve, clean)) == Ok(articles)
    {
      CappedBuildStep(cs, i, Qualifies, MaxArticles, Builder(url, resolve, clean));
      BuildSteps(cs[i], url, resolve, clean);
      if |articles| < MaxArticles {
        var c := cs[i];
        var title := Trim(TextOf(c.titleText));
        if |title| > MinTitleLength {
          var link := Absolutize(LinkOf(c), url, resolve);
          if link.Failure? {
            return Failure(link.error);
          }
          var image := Absolutize(ImageOf(c), url, resolve);
          if image.Failure? {
            return Failure(image.error);
          }
          var summary := Trim(TextOf(c.summaryText));
          var article := Article(title, link.value, image.value, OrElse(clean(summary), SummaryFallback));
          articles := articles + [article];
          taken := taken + [c];
        }
      }
    }
    assert cs[..|cs|] == cs;
    r := Ok(articles);
  }

  /**
   * The listing keeps at most 15 articles, each with a title longer than 15
   * characters, built from qualifying containers taken in document order.
   */
  lemma ListingShape(cs: seq<Container>, base: string, resolve: Resolver, clean: Cleaner) returns (idx: seq<nat>)
    requires ListingArticles(cs, base, resolve, clean).Ok?
    ensures var articles := ListingArticles(cs, base, resolve, clean).value;
      && |articles| <= MaxArticles
      && SubsequenceAt(Accepted(cs), cs, idx)
      && forall k :: 0 <= k < |articles| ==>
           |articles[k].title| > MinTitleLength && articles[k] == MakeArticle(cs[idx[k]], base, resolve, clean).value
  {
    idx := TakeFilterSubsequence(cs, Qualifies, MaxArticles);
  }

  /** With at least 15 qualifying containers, exactly 15 articles come out. */
  lemma ListingCap(cs: seq<Container>, base: string, resolve: Resolver, clean: Cleaner)
    requires |Filter(cs, Qualifies)| >= MaxArticles
    requires ListingArticles(cs, base, resolve, clean).Ok?
    ensures |ListingArticles(cs, base, resolve, clean).value| == MaxArticles
  {
  }

  // ---------------------------------------------------------------------------
  // Briefing assembly

  /** One briefing section: `## ` and the title, a blank line, the summary, and a blank line. */
  function Section(a: Article): string {
    "## " + a.title + "\n\n" + a.summary + "\n\n"
  }

  /** The sections of all articles, joined by a horizontal rule and a blank line. */
  function BriefingContent(articles: seq<Article>): string {
    Join(Map(articles, Section), SectionSeparator)
  }

  /** The first article's image, if there is a first article and its image is truthy. */
  function HeroImage(articles: seq<Article>): Option<string> {
    if articles != [] && Truthy(articles[0].image) then articles[0].image else None
  }

  /** Every accepted article's section appears in the briefing, and it opens with the first heading. */
  lemma BriefingHoldsEverySection(articles: seq<Article>)
    ensures forall k :: 0 <= k < |articles| ==> Contains(BriefingContent(articles), Section(articles[k]))
    ensures articles != [] ==> StartsWith(BriefingContent(articles), "## " + articles[0].title)
  {
    var sections := Map(articles, Section);
    JoinContainsPieces(sections, SectionSeparator);
    if articles != [] {
      var head := "## " + articles[0].title;
      var j := Join(sections, SectionSeparator);
      if |sections| == 1 {
        assert j == sections[0];
      } else {
        assert j == sections[0] + SectionSeparator + Join(sections[1..], SectionSeparator);
      }
      assert sections[0] == head + ("\n\n" + articles[0].summary + "\n\n");
      assert j[..|head|] == head;
    }
  }

  /**
   * The hero image is the first accepted container's image: absent when it
   * has no image candidate, kept when it starts with `http`, and otherwise
   * the candidate resolved against the page URL, unless that comes out empty.
   */
  lemma HeroImageOfListing(cs: seq<Container>, base: string, resolve: Resolver, clean: Cleaner)
    requires ListingArticles(cs, base, resolve, clean).Ok? && |ListingArticles(cs, base, resolve, clean).value| > 0
    ensures var c, hero := Accepted(cs)[0], HeroImage(ListingArticles(cs, base, resolve, clean).value);
      && (!Truthy(c.dataSrc) && !Truthy(c.src) && !Truthy(c.dataOriginal) ==> hero.None?)
      && (Truthy(ImageOf(c)) && StartsWith(ImageOf(c).value, "http") ==> hero == ImageOf(c))
      && (Truthy(ImageOf(c)) && !StartsWith(ImageOf(c).value, "http") ==>
            hero == if Truthy(resolve(ImageOf(c).value, base)) then resolve(ImageOf(c).value, base) else None)
  {
    var c := Accepted(cs)[0];
    var a := ListingArticles(cs, base, resolve, clean).value[0];
    assert a == Builder(base, resolve, clean)(c).value;
    assert a.image == Absolutize(ImageOf(c), base, resolve).value;
    ResolvedCandidate(c.dataSrc, c.src, c.dataOriginal, base, resolve);
  }

  // ---------------------------------------------------------------------------
  // Single-article mode

  /** The trimmed paragraph texts joined one per line, then cleaned. */
  function ParagraphText(paragraphs: seq<string>, clean: Cleaner): string {
    clean(Join(Map(paragraphs, Trim), "\n"))
  }

  /** A body selector that matched and whose cleaned text is longer than 150 characters. */
  predicate IsLong(b: BodyCandidate, clean: Cleaner) {
    b.matched && |ParagraphText(b.paragraphs, clean)| > MinBodyLength
  }

  /** `IsLong` as a predicate value, for searching. */
  function LongUnder(clean: Cleaner): BodyCandidate -> bool {
    b => IsLong(b, clean)
  }

  predicate Matched(b: BodyCandidate) {
    b.matched
  }

  /** The text of the last matching selector, empty when none matched. */
  function LastMatchedText(bs: seq<BodyCandidate>, clean: Cleaner): string {
    match LastIndex(bs, Matched)
    case Some(j) => ParagraphText(bs[j].paragraphs, clean)
    case None => ""
  }

  /** Reference result of the body-selector loop. */
  function SelectedBody(bs: seq<BodyCandidate>, clean: Cleaner): string {
    match FirstIndex(bs, LongUnder(clean))
    case Some(i) => ParagraphText(bs[i].paragraphs, clean)
    case None => LastMatchedText(bs, clean)
  }

  /** Article content before truncation: the selected body, or every paragraph of the page when that is empty. */
  function ArticleContent(page: Page, clean: Cleaner): string {
    var body := SelectedBody(page.bodies, clean);
    if body == "" then ParagraphText(page.paragraphs, clean) else body
  }

  /** The trimmed text of the first `h1`, or the fallback title when that is empty. */
  function ArticleTitle(page: Page): string {
    OrElse(Trim(TextOf(page.h1Text)), DefaultTitle)
  }

  /** The `og:image` meta content, else the `src` of the main image, the first that is present and non-empty. */
  function ArticleImage(page: Page): Option<string> {
    Or(page.ogImage, page.mainImageSrc)
  }

  /** JavaScript `substring` from 0: the longest prefix of `s` of length at most `n`. */
  function Truncate(s: string, n: nat): (r: string)
    ensures |r| <= n && |r| <= |s| && forall k :: 0 <= k < |r| ==> r[k] == s[k]
    ensures |s| <= n ==> r == s
    ensures |s| > n ==> |r| == n
  {
    if |s| <= n then s else s[..n]
  }

  /** The first matching selector whose cleaned text exceeds 150 characters wins. */
  lemma SelectsFirstLong(bs: seq<BodyCandidate>, clean: Cleaner, i: nat)
    requires i < |bs| && IsLong(bs[i], clean) && forall j :: 0 <= j < i ==> !IsLong(bs[j], clean)
    ensures SelectedBody(bs, clean) == ParagraphText(bs[i].paragraphs, clean)
  {
    FirstIndexAt(bs, LongUnder(clean), i);
  }

  /** When no selector's text is long enough, the last matching selector's short text stays. */
  lemma KeepsLastShort(bs: seq<BodyCandidate>, clean: Cleaner, j: nat)
    requires forall i :: 0 <= i < |bs| ==> !IsLong(bs[i], clean)
    requires j < |bs| && bs[j].matched && forall k :: j < k < |bs| ==> !bs[k].matched
    ensures SelectedBody(bs, clean) == ParagraphText(bs[j].paragraphs, clean)
  {
    LastIndexAt(bs, Matched, j);
  }

  /**
   * When no body selector matched, the content is the cleaned text of every
   * paragraph of the page; a non-empty selected body is kept as it is, even
   * when it is 150 characters or shorter.
   */
  lemma ContentSources(page: Page, clean: Cleaner)
    ensures (forall i :: 0 <= i < |page.bodies| ==> !page.bodies[i].matched) ==>
      ArticleContent(page, clean) == ParagraphText(page.paragraphs, clean)
    ensures SelectedBody(page.bodies, clean) != "" ==> ArticleContent(page, clean) == SelectedBody(page.bodies, clean)
  {
    if forall i :: 0 <= i < |page.bodies| ==> !page.bodies[i].matched {
      assert LastIndex(page.bodies, Matched) == None;
    }
  }

  /** With the handler's own cleaner, the article content is empty or lines that pass both filters. */
  lemma ArticleContentIsClean(page: Page)
    ensures IsClean(ArticleContent(page, CleanText))
  {
    var bs := page.bodies;
    CleanTextIsClean(Join(Map(page.paragraphs, Trim), "\n"));
    match FirstIndex(bs, LongUnder(CleanText))
    case Some(i) =>
      CleanTextIsClean(Join(Map(bs[i].paragraphs, Trim), "\n"));
    case None =>
      match LastIndex(bs, Matched)
      case Some(j) =>
        CleanTextIsClean(Join(Map(bs[j].paragraphs, Trim), "\n"));
      case None =>
  }

  /** The loop over the body selectors, in priority order. */
  method SelectBody(bodies: seq<BodyCandidate>, clean: Cleaner) returns (content: string)
    ensures content == SelectedBody(bodies, clean)
  {
    content := "";
    var i := 0;
    while i < |bodies|
      invariant 0 <= i <= |bodies|
      invariant FirstIndex(bodies[..i], LongUnder(clean)) == None
      invariant content == LastMatchedText(bodies[..i], clean)
    {
      SelectStep(bodies, i, clean);
      if bodies[i].matched {
        content := ParagraphText(bodies[i].paragraphs, clean);
        if |content| > MinBodyLength {
          return;
        }
      }
      i := i + 1;
    }
    assert bodies[..i] == bodies;
  }

  /** One selector more: how the loop's search state moves. */
  lemma SelectStep(bodies: seq<BodyCandidate>, i: nat, clean: Cleaner)
    requires i < |bodies| && FirstIndex(bodies[..i], LongUnder(clean)) == None
    ensures LastMatchedText(bodies[..i + 1], clean) ==
      if bodies[i].matched then ParagraphText(bodies[i].paragraphs, clean) else LastMatchedText(bodies[..i], clean)
    ensures FirstIndex(bodies[..i + 1], LongUnder(clean)) == if IsLong(bodies[i], clean) then Some(i) else None
    ensures IsLong(bodies[i], clean) ==> SelectedBody(bodies, clean) == ParagraphText(bodies[i].paragraphs, clean)
  {
    assert bodies[..i + 1] == bodies[..i] + [bodies[i]];
    LastIndexSnoc(bodies[..i], bodies[i], Matched);
    FirstIndexSnoc(bodies[..i], bodies[i], LongUnder(clean));
    if IsLong(bodies[i], clean) {
      FirstIndexPrefix(bodies, i + 1, LongUnder(clean));
    }
  }

  /** The single-article branch of the handler. */
  method ExtractArticle(page: Page, url: string, clean: Cleaner) returns (resp: Response)
    ensures resp == SingleArticle(ArticleTitle(page), ArticleImage(page), Truncate(ArticleContent(page, clean), MaxContentLength), url)
  {
    var title := Trim(TextOf(page.h1Text));
    var image := Or(page.ogImage, page.mainImageSrc);
    var content := SelectBody(page.bodies, clean);
    if content == "" {
      content := ParagraphText(page.paragraphs, clean);
    }
    resp := SingleArticle(OrElse(title, DefaultTitle), image, Truncate(content, MaxContentLength), url);
  }

  /** The article response: content is a prefix of the extracted text, at most 5000 characters; title defaults. */
  lemma ArticleResponseShape(page: Page, clean: Cleaner)
    ensures var c := Truncate(ArticleContent(page, clean), MaxContentLength);
      |c| <= MaxContentLength && c == ArticleContent(page, clean)[..|c|]
    ensures Trim(TextOf(page.h1Text)) == "" ==> ArticleTitle(page) == DefaultTitle
    ensures Trim(TextOf(page.h1Text)) != "" ==> ArticleTitle(page) == Trim(TextOf(page.h1Text))
  {
    var c := Truncate(ArticleContent(page, clean), MaxContentLength);
    assert c == ArticleContent(page, clean)[..|c|];
  }

  // ---------------------------------------------------------------------------
  // The handler

  /**
   * `GET(req)`. `url` is the `url` query parameter (`None` when absent);
   * `fetched` lists the URLs handed to `fetch`.
   */
  method Handle(url: Option<string>, fetch: Fetcher, resolve: Resolver) returns (resp: Response, fetched: seq<string>)
    ensures !Truthy(url) ==> resp == MissingUrl(MissingUrlError) && resp.Status() == 400 && fetched == []
    ensures Truthy(url) ==> fetched == [url.value]
    ensures Truthy(url) && fetch(url.value).None? ==> resp == FetchFailed(FetchFailedError) && resp.Status() == 500
    ensures Truthy(url) && fetch(url.value).Some? ==>
      var u, page := url.value, fetch(url.value).value;
      var listing := ListingArticles(page.containers, u, resolve, CleanText);
      if IsListing(u) && listing.Failure? then
        resp == FetchFailed(FetchFailedError)
      else if IsListing(u) && |listing.value| > 0 then
        resp == Briefing(BriefingTitle, BriefingContent(listing.value), listing.value, HeroImage(listing.value))
      else
        resp == SingleArticle(ArticleTitle(page), ArticleImage(page), Truncate(ArticleContent(page, CleanText), MaxContentLength), u)
  {
    if !Truthy(url) {
      return MissingUrl(MissingUrlError), [];
    }
    var u := url.value;
    fetched := [u];
    var loaded := fetch(u);
    if loaded.None? {
      return FetchFailed(FetchFailedError), fetched;
    }
    var page := loaded.value;
    if IsListing(u) {
      var articles := ExtractListing(page.containers, u, resolve, CleanText);
      if articles.Failure? {
        return FetchFailed(FetchFailedError), fetched;
      }
      if |articles.value| > 0 {
        var content := BriefingContent(articles.value);
        return Briefing(BriefingTitle, content, articles.value, HeroImage(articles.value)), fetched;
      }
    }
    resp := ExtractArticle(page, u, CleanText);
  }
}
