/** `analyze_seo`: fetch, run every check, score; any uncaught exception turns the
    whole analysis into `(0, {"error": str(e)})`. */
module Analyzer {
  import opened Basics
  import opened Document
  import opened Checks
  import opened Links
  import opened Scoring
  import KeywordDensity

  /** The primary fetch: an exception, or the raw body, the document parsed from
      it and the measured load time in whole milliseconds. */
  datatype PageFetch = PageRaised(msg: string) | Loaded(body: string, doc: seq<Element>, elapsedMs: nat)

  /** The network as one analysis sees it: the page fetch, and the outcome of
      request number `n` to a URL (robots.txt is request 0, the `i`-th link is
      request `i + 1`). */
  datatype Network = Network(page: PageFetch, get: (nat, string) -> FetchOutcome)

  /** Either the full report with its score, or only an error message. */
  datatype Outcome = Scored(score: int, report: Report) | Failed(error: string) {
    /** The number returned next to the report: 0 on failure. */
    function SeoScore(): int {
      if Scored? then score else 0
    }
  }

  /** The first description meta has no `content` attribute. */
  ghost predicate DescriptionLacksContent(doc: seq<Element>) {
    exists i :: FirstAt(doc, IsDescriptionMeta, i) && "content" !in doc[i].attrs
  }

  /** The first canonical link has no `href` attribute. */
  ghost predicate CanonicalLacksHref(doc: seq<Element>) {
    exists i :: FirstAt(doc, IsCanonicalLink, i) && "href" !in doc[i].attrs
  }

  /** `if target_keyword:` — a keyword was given and is not empty. */
  predicate KeywordGiven(keyword: Option<string>) {
    keyword.Some? && keyword.value != ""
  }

  /** `analyze_seo(url, target_keyword)`: a failed fetch is the whole outcome;
      otherwise the loaded page is analyzed. */
  function Analyze(u: Url, keyword: Option<string>, net: Network): (o: Outcome)
    ensures net.page.PageRaised? ==> o == Failed(net.page.msg) && o.SeoScore() == 0
    ensures net.page.Loaded? ==>
      o == AnalyzePage(u, keyword, net.page.body, net.page.doc, net.page.elapsedMs, net.get)
  {
    match net.page
    case PageRaised(msg) => Failed(msg)
    case Loaded(body, doc, elapsedMs) => AnalyzePage(u, keyword, body, doc, elapsedMs, net.get)
  }

  /** Everything after the page has loaded: the checks in source order, with
      robots.txt as request 0 and the `i`-th link as request `i + 1`. */
  function AnalyzePage(u: Url, keyword: Option<string>, body: string, doc: seq<Element>, elapsedMs: nat,
                       get: (nat, string) -> FetchOutcome): (o: Outcome)
    // the description, robots.txt and canonical lookups fail in that order
    ensures DescriptionLacksContent(doc) ==> o == Failed("'content'")
    ensures (!DescriptionLacksContent(doc) && get(0, RobotsUrl(u)).Raised?)
      ==> o == Failed(get(0, RobotsUrl(u)).msg)
    ensures (!DescriptionLacksContent(doc) && get(0, RobotsUrl(u)).Status? && CanonicalLacksHref(doc))
      ==> o == Failed("'href'")
    // nothing else is fatal
    ensures o.Failed? <==> (DescriptionLacksContent(doc) || get(0, RobotsUrl(u)).Raised? || CanonicalLacksHref(doc))
    ensures o.Failed? ==> o.SeoScore() == 0
    // a success carries the score of its own report
    ensures o.Scored? ==> o.SeoScore() == Score(o.report)
    ensures o.Scored? ==> o.report.pageSpeedMs == elapsedMs
    ensures o.Scored? ==> (o.report.keywordDensity.Some? <==> KeywordGiven(keyword))
    ensures o.Scored? && KeywordGiven(keyword) ==>
      o.report.keywordDensity == Some(KeywordDensity.Calculate(body, keyword.value))
    ensures o.Scored? ==> (o.report.sslCertificate <==> u.scheme == "https")
    ensures o.Scored? ==> (o.report.robotsTxt <==> get(0, RobotsUrl(u)) == Status(200))
    ensures o.Scored? ==> o.report.brokenLinks <= |AnchorHrefs(doc)|
    ensures o.Scored? ==> o.report.brokenLinks == |Where(LinkOutcomes(u, AnchorHrefs(doc), get), IsBroken)|
    // every other field is the value of its own check on the parsed page
    ensures o.Scored? ==> o.report.imagesWithoutAlt == |Where(doc, LacksAlt)|
    ensures o.Scored? ==> o.report.imagesWithoutAlt <= |FindAll(doc, IsImage)|
    ensures o.Scored? ==> o.report.title == Title(doc)
    ensures o.Scored? ==> MetaDescription(doc) == Ok(o.report.metaDescription)
    ensures o.Scored? ==> o.report.headings == Headings(doc)
    ensures o.Scored? ==> o.report.mobileFriendly == MobileFriendly(doc)
    ensures o.Scored? ==> o.report.faviconPresent == FaviconPresent(doc)
    ensures o.Scored? ==> Canonical(doc) == Ok(o.report.canonicalUrl)
    ensures o.Scored? ==> o.report.hreflangTags == HreflangTags(doc)
    ensures o.Scored? ==> o.report.noindexTag == Noindex(doc)
    ensures o.Scored? ==> o.report.ogTags == OgTags(doc)
  {
    var density :=
      if KeywordGiven(keyword) then Some(KeywordDensity.Calculate(body, keyword.value)) else None;
    var title := Title(doc);
    match MetaDescription(doc)
    case Err(e) => Failed(e)
    case Ok(description) =>
      var headings := Headings(doc);
      var imagesWithoutAlt := ImagesWithoutAlt(doc);
      var ssl := u.scheme == "https";
      var mobile := MobileFriendly(doc);
      match get(0, RobotsUrl(u))
      case Raised(e) => Failed(e)
      case Status(code) =>
        var hrefs := AnchorHrefs(doc);
        var outcomes := LinkOutcomes(u, hrefs, get);
        BrokenCountIsPositions(outcomes);
        var broken := BrokenCount(outcomes);
        var favicon := FaviconPresent(doc);
        match Canonical(doc)
        case Err(e) => Failed(e)
        case Ok(canonical) =>
          var report := Report(
            title, description, headings, imagesWithoutAlt, elapsedMs, ssl, mobile,
            code == 200, broken, favicon, canonical, HreflangTags(doc), Noindex(doc),
            OgTags(doc), density);
          Scored(Score(report), report)
  }
}
