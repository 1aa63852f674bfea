/** The report record and the additive penalty score computed from it. */
module Scoring {
  import opened Basics
  import opened Checks
  import KeywordDensity

  /** The success report of `analyze_seo`, one field per check. */
  datatype Report = Report(
    title: Option<string>,
    metaDescription: string,
    headings: seq<string>,
    imagesWithoutAlt: nat,
    pageSpeedMs: nat,
    sslCertificate: bool,
    mobileFriendly: bool,
    robotsTxt: bool,
    brokenLinks: nat,
    faviconPresent: bool,
    canonicalUrl: string,
    hreflangTags: seq<string>,
    noindexTag: bool,
    ogTags: map<string, string>,
    keywordDensity: Option<KeywordDensity.DensityReport>)

  /** The conditions that cost a fixed number of points. */
  datatype Signal =
    | TitleMissing | DescriptionMissing | NoHeadings | SlowPage | NoSsl | NotMobileFriendly
    | NoRobotsTxt | NoFavicon | NoCanonical | NoHreflang | NoindexSet

  /** Points each condition costs. */
  function Weight(s: Signal): nat {
    match s
    case TitleMissing => 20
    case DescriptionMissing => 15
    case NoHeadings => 10
    case SlowPage => 10
    case NoSsl => 5
    case NotMobileFriendly => 10
    case NoRobotsTxt => 5
    case NoFavicon => 2
    case NoCanonical => 3
    case NoHreflang => 5
    case NoindexSet => 10
  }

  /** Whether the report shows the condition. Title and description are compared
      with their sentinels; the canonical URL is penalised only when it is falsy,
      that is the empty string, so its own sentinel is never penalised. */
  predicate Shows(r: Report, s: Signal) {
    match s
    case TitleMissing => r.title == Some(NoTitleTag)
    case DescriptionMissing => r.metaDescription == NoMetaDescription
    case NoHeadings => |r.headings| == 0
    case SlowPage => r.pageSpeedMs > 2000
    case NoSsl => !r.sslCertificate
    case NotMobileFriendly => !r.mobileFriendly
    case NoRobotsTxt => !r.robotsTxt
    case NoFavicon => !r.faviconPresent
    case NoCanonical => r.canonicalUrl == ""
    case NoHreflang => |r.hreflangTags| == 0
    case NoindexSet => r.noindexTag
  }

  /** What one condition costs this report. */
  function Penalty(r: Report, s: Signal): (p: nat)
    ensures p <= Weight(s)
  {
    if Shows(r, s) then Weight(s) else 0
  }

  /** The total cost of the fixed-weight conditions the report shows. */
  function FixedPenalty(r: Report): (p: nat)
    ensures p <= 95
  {
    Penalty(r, TitleMissing) + Penalty(r, DescriptionMissing) + Penalty(r, NoHeadings)
    + Penalty(r, SlowPage) + Penalty(r, NoSsl) + Penalty(r, NotMobileFriendly)
    + Penalty(r, NoRobotsTxt) + Penalty(r, NoFavicon) + Penalty(r, NoCanonical)
    + Penalty(r, NoHreflang) + Penalty(r, NoindexSet)
  }

  /** Two reports that pay the same for every condition pay the same in total. */
  lemma SamePenalties(a: Report, b: Report)
    requires forall s :: Penalty(a, s) == Penalty(b, s)
    ensures FixedPenalty(a) == FixedPenalty(b)
  {
    assert Penalty(a, TitleMissing) == Penalty(b, TitleMissing);
    assert Penalty(a, DescriptionMissing) == Penalty(b, DescriptionMissing);
    assert Penalty(a, NoHeadings) == Penalty(b, NoHeadings);
    assert Penalty(a, SlowPage) == Penalty(b, SlowPage);
    assert Penalty(a, NoSsl) == Penalty(b, NoSsl);
    assert Penalty(a, NotMobileFriendly) == Penalty(b, NotMobileFriendly);
    assert Penalty(a, NoRobotsTxt) == Penalty(b, NoRobotsTxt);
    assert Penalty(a, NoFavicon) == Penalty(b, NoFavicon);
    assert Penalty(a, NoCanonical) == Penalty(b, NoCanonical);
    assert Penalty(a, NoHreflang) == Penalty(b, NoHreflang);
    assert Penalty(a, NoindexSet) == Penalty(b, NoindexSet);
  }

  /** Two reports that pay the same for every condition but `t` differ in total
      by what they pay for `t`. */
  lemma PenaltiesDifferIn(a: Report, b: Report, t: Signal)
    requires forall s | s != t :: Penalty(a, s) == Penalty(b, s)
    ensures FixedPenalty(a) - Penalty(a, t) == FixedPenalty(b) - Penalty(b, t)
  {
    assert t == TitleMissing || Penalty(a, TitleMissing) == Penalty(b, TitleMissing);
    assert t == DescriptionMissing || Penalty(a, DescriptionMissing) == Penalty(b, DescriptionMissing);
    assert t == NoHeadings || Penalty(a, NoHeadings) == Penalty(b, NoHeadings);
    assert t == SlowPage || Penalty(a, SlowPage) == Penalty(b, SlowPage);
    assert t == NoSsl || Penalty(a, NoSsl) == Penalty(b, NoSsl);
    assert t == NotMobileFriendly || Penalty(a, NotMobileFriendly) == Penalty(b, NotMobileFriendly);
    assert t == NoRobotsTxt || Penalty(a, NoRobotsTxt) == Penalty(b, NoRobotsTxt);
    assert t == NoFavicon || Penalty(a, NoFavicon) == Penalty(b, NoFavicon);
    assert t == NoCanonical || Penalty(a, NoCanonical) == Penalty(b, NoCanonical);
    assert t == NoHreflang || Penalty(a, NoHreflang) == Penalty(b, NoHreflang);
    assert t == NoindexSet || Penalty(a, NoindexSet) == Penalty(b, NoindexSet);
  }

  /** The scoring block of `analyze_seo`: start at 100 and subtract each triggered
      penalty (the source subtracts them one after another, in this order);
      nothing floors or caps the result. */
  function Score(r: Report): (score: int)
    ensures score == 100 - FixedPenalty(r) - 2 * r.imagesWithoutAlt - 5 * r.brokenLinks
    ensures 5 - 2 * r.imagesWithoutAlt - 5 * r.brokenLinks <= score <= 100 - 2 * r.imagesWithoutAlt - 5 * r.brokenLinks
  {
    PenaltiesSpelledOut(r);
    100
    - (if r.title == Some(NoTitleTag) then 20 else 0)
    - (if r.metaDescription == NoMetaDescription then 15 else 0)
    - (if |r.headings| == 0 then 10 else 0)
    - (if r.imagesWithoutAlt > 0 then r.imagesWithoutAlt * 2 else 0)
    - (if r.pageSpeedMs > 2000 then 10 else 0)
    - (if !r.sslCertificate then 5 else 0)
    - (if !r.mobileFriendly then 10 else 0)
    - (if !r.robotsTxt then 5 else 0)
    - (if r.brokenLinks > 0 then r.brokenLinks * 5 else 0)
    - (if !r.faviconPresent then 2 else 0)
    - (if r.canonicalUrl == "" then 3 else 0)
    - (if |r.hreflangTags| == 0 then 5 else 0)
    - (if r.noindexTag then 10 else 0)
  }


  lemma PenaltiesSpelledOut(r: Report)
    ensures Penalty(r, TitleMissing) == if r.title == Some(NoTitleTag) then 20 else 0
    ensures Penalty(r, DescriptionMissing) == if r.metaDescription == NoMetaDescription then 15 else 0
    ensures Penalty(r, NoHeadings) == if |r.headings| == 0 then 10 else 0
    ensures Penalty(r, SlowPage) == if r.pageSpeedMs > 2000 then 10 else 0
    ensures Penalty(r, NoSsl) == if !r.sslCertificate then 5 else 0
    ensures Penalty(r, NotMobileFriendly) == if !r.mobileFriendly then 10 else 0
    ensures Penalty(r, NoRobotsTxt) == if !r.robotsTxt then 5 else 0
    ensures Penalty(r, NoFavicon) == if !r.faviconPresent then 2 else 0
    ensures Penalty(r, NoCanonical) == if r.canonicalUrl == "" then 3 else 0
    ensures Penalty(r, NoHreflang) == if |r.hreflangTags| == 0 then 5 else 0
    ensures Penalty(r, NoindexSet) == if r.noindexTag then 10 else 0
  {
  }

  // ---------------------------------------------------------------- properties

  /** Every fixed-weight condition passes and both counters are zero. */
  predicate IsPerfect(r: Report) {
    && r.title != Some(NoTitleTag)
    && r.metaDescription != NoMetaDescription
    && |r.headings| > 0
    && OtherwisePerfect(r)
  }

  /** Every condition other than title, description and headings passes. */
  predicate OtherwisePerfect(r: Report) {
    && r.imagesWithoutAlt == 0
    && r.pageSpeedMs <= 2000
    && r.sslCertificate
    && r.mobileFriendly
    && r.robotsTxt
    && r.brokenLinks == 0
    && r.faviconPresent
    && r.canonicalUrl != ""
    && |r.hreflangTags| > 0
    && !r.noindexTag
  }

  /** A perfect page scores exactly 100. */
  lemma PerfectPageScores100(r: Report)
    requires IsPerfect(r)
    ensures Score(r) == 100
  {
    PenaltiesSpelledOut(r);
  }

  /** A page that is perfect except for lacking title, description and headings
      scores exactly 100 - 20 - 15 - 10 = 55. */
  lemma MissingTitleDescriptionHeadingsScores55(r: Report)
    requires OtherwisePerfect(r)
    requires r.title == Some(NoTitleTag) && r.metaDescription == NoMetaDescription && r.headings == []
    ensures Score(r) == 55
  {
    PenaltiesSpelledOut(r);
  }

  /** One more broken link costs exactly 5 points. */
  lemma OneMoreBrokenLink(r: Report)
    ensures Score(r.(brokenLinks := r.brokenLinks + 1)) == Score(r) - 5
  {
    var r' := r.(brokenLinks := r.brokenLinks + 1);
    forall s ensures Penalty(r', s) == Penalty(r, s) {
      assert Shows(r', s) == Shows(r, s);
    }
    SamePenalties(r', r);
  }

  /** One more image without alt text costs exactly 2 points. */
  lemma OneMoreImageWithoutAlt(r: Report)
    ensures Score(r.(imagesWithoutAlt := r.imagesWithoutAlt + 1)) == Score(r) - 2
  {
    var r' := r.(imagesWithoutAlt := r.imagesWithoutAlt + 1);
    forall s ensures Penalty(r', s) == Penalty(r, s) {
      assert Shows(r', s) == Shows(r, s);
    }
    SamePenalties(r', r);
  }

  /** Nothing clamps the score: enough broken links drive it below zero. */
  lemma ScoreUnclamped(r: Report)
    requires r.brokenLinks > 20
    ensures Score(r) < 0
  {
  }

  /** The canonical penalty depends only on whether the value is empty: the
      missing-tag sentinel scores like any real URL, and only an empty href costs 3. */
  lemma CanonicalPenaltyOnlyWhenEmpty(r: Report, c: string)
    ensures Score(r.(canonicalUrl := c)) == Score(r.(canonicalUrl := NoCanonicalTag)) - (if c == "" then 3 else 0)
  {
    var withC := r.(canonicalUrl := c);
    var withSentinel := r.(canonicalUrl := NoCanonicalTag);
    forall s | s != NoCanonical ensures Penalty(withC, s) == Penalty(withSentinel, s) {
      assert Shows(withC, s) == Shows(withSentinel, s);
    }
    assert Penalty(withSentinel, NoCanonical) == 0;
    PenaltiesDifferIn(withC, withSentinel, NoCanonical);
  }

  /** `b` shows every condition `a` shows and has at least as many alt-less
      images and broken links. */
  ghost predicate NoBetterThan(a: Report, b: Report) {
    && (forall s :: Shows(a, s) ==> Shows(b, s))
    && a.imagesWithoutAlt <= b.imagesWithoutAlt
    && a.brokenLinks <= b.brokenLinks
  }

  /** More negative signals never raise the score. */
  lemma ScoreMonotone(a: Report, b: Report)
    requires NoBetterThan(a, b)
    ensures Score(b) <= Score(a)
  {
    forall s: Signal ensures Penalty(a, s) <= Penalty(b, s) {
      assert Shows(a, s) ==> Shows(b, s);
    }
    assert Penalty(a, TitleMissing) <= Penalty(b, TitleMissing);
    assert Penalty(a, DescriptionMissing) <= Penalty(b, DescriptionMissing);
    assert Penalty(a, NoHeadings) <= Penalty(b, NoHeadings);
    assert Penalty(a, SlowPage) <= Penalty(b, SlowPage);
    assert Penalty(a, NoSsl) <= Penalty(b, NoSsl);
    assert Penalty(a, NotMobileFriendly) <= Penalty(b, NotMobileFriendly);
    assert Penalty(a, NoRobotsTxt) <= Penalty(b, NoRobotsTxt);
    assert Penalty(a, NoFavicon) <= Penalty(b, NoFavicon);
    assert Penalty(a, NoCanonical) <= Penalty(b, NoCanonical);
    assert Penalty(a, NoHreflang) <= Penalty(b, NoHreflang);
    assert Penalty(a, NoindexSet) <= Penalty(b, NoindexSet);
  }
}
