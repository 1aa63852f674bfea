/** The per-check extractors of `analyze_seo`. Each reads the parsed page and
    never changes it. */
module Checks {
  import opened Basics
  import opened Text
  import opened Document

  const NoTitleTag := "No title tag"
  const NoMetaDescription := "No meta description"
  const NoCanonicalTag := "No canonical tag"

  predicate IsTitle(e: Element) { e.tag == "title" }
  predicate IsDescriptionMeta(e: Element) { e.tag == "meta" && HasAttr(e, "name", "description") }
  predicate IsViewportMeta(e: Element) { e.tag == "meta" && HasAttr(e, "name", "viewport") }
  predicate IsRobotsMeta(e: Element) { e.tag == "meta" && HasAttr(e, "name", "robots") }
  predicate IsImage(e: Element) { e.tag == "img" }
  predicate IsCanonicalLink(e: Element) { e.tag == "link" && HasAttr(e, "rel", "canonical") }

  /** `not img.get("alt")`: the alt attribute is missing or empty. */
  predicate LacksAlt(e: Element) { e.tag == "img" && Get(e, "alt", "") == "" }

  /** A `<link>` whose `rel` is non-empty and contains "icon" once lower-cased. */
  predicate IsFaviconLink(e: Element) {
    e.tag == "link" && "rel" in e.attrs && e.attrs["rel"] != "" && Contains(Lower(e.attrs["rel"]), "icon")
  }

  /** `<link rel="alternate" hreflang=...>`. */
  predicate IsHreflangLink(e: Element) {
    e.tag == "link" && HasAttr(e, "rel", "alternate") && "hreflang" in e.attrs
  }

  /** `<meta property=...>` whose property is truthy and starts with "og:". */
  predicate IsOgMeta(e: Element) {
    e.tag == "meta" && "property" in e.attrs && StartsWith(e.attrs["property"], "og:")
  }

  function OgKey(e: Element): string { Get(e, "property", "") }

  /** `og.get("content", "")`. */
  function OgContent(e: Element): string { Get(e, "content", "") }

  // ---------------------------------------------------------------- title

  /** `title_tag.string if title_tag else "No title tag"`: the single string of the
      first `<title>` (which may be `None`), or the sentinel when there is none. */
  function Title(doc: seq<Element>): (t: Option<string>)
    ensures (forall j :: 0 <= j < |doc| ==> !IsTitle(doc[j])) ==> t == Some(NoTitleTag)
    ensures forall i | FirstAt(doc, IsTitle, i) :: t == doc[i].str
  {
    match FindFirst(doc, IsTitle)
    case Some(i) => doc[i].str
    case None => Some(NoTitleTag)
  }

  // ---------------------------------------------------------------- meta description

  /** `meta["content"]` of the first description meta, the sentinel when there is no
      such meta, and a `KeyError('content')` when the first one has no content. */
  function MetaDescription(doc: seq<Element>): (r: Result<string>)
    ensures (forall j :: 0 <= j < |doc| ==> !IsDescriptionMeta(doc[j])) ==> r == Ok(NoMetaDescription)
    ensures forall i | FirstAt(doc, IsDescriptionMeta, i) ::
      if "content" in doc[i].attrs then r == Ok(doc[i].attrs["content"]) else r == Err("'content'")
  {
    match FindFirst(doc, IsDescriptionMeta)
    case None => Ok(NoMetaDescription)
    case Some(i) => if "content" in doc[i].attrs then Ok(doc[i].attrs["content"]) else Err("'content'")
  }

  // ---------------------------------------------------------------- headings

  function Texts(es: seq<Element>): (ts: seq<string>)
    ensures |ts| == |es|
    ensures forall i :: 0 <= i < |es| ==> ts[i] == es[i].text
  {
    seq(|es|, i requires 0 <= i < |es| => es[i].text)
  }

  predicate IsH1(e: Element) { e.tag == "h1" }
  predicate IsH2(e: Element) { e.tag == "h2" }
  predicate IsH3(e: Element) { e.tag == "h3" }
  predicate IsHeading(e: Element) { IsH1(e) || IsH2(e) || IsH3(e) }

  /** The texts of all `<h1>`, then all `<h2>`, then all `<h3>`: one `find_all`
      per level, so levels are grouped rather than kept in document order. */
  function Headings(doc: seq<Element>): (hs: seq<string>)
    ensures |hs| == |FindAll(doc, IsH1)| + |FindAll(doc, IsH2)| + |FindAll(doc, IsH3)|
    ensures hs == [] <==> forall j :: 0 <= j < |doc| ==> !IsHeading(doc[j])
    ensures hs[..|FindAll(doc, IsH1)|] == Texts(FindAll(doc, IsH1))
    ensures hs[|FindAll(doc, IsH1)|..|FindAll(doc, IsH1)| + |FindAll(doc, IsH2)|] == Texts(FindAll(doc, IsH2))
    ensures hs[|FindAll(doc, IsH1)| + |FindAll(doc, IsH2)|..] == Texts(FindAll(doc, IsH3))
  {
    FindAllEmptyIff(doc, IsH1);
    FindAllEmptyIff(doc, IsH2);
    FindAllEmptyIff(doc, IsH3);
    Texts(FindAll(doc, IsH1)) + Texts(FindAll(doc, IsH2)) + Texts(FindAll(doc, IsH3))
  }

  lemma TextsAppend(a: seq<Element>, b: seq<Element>)
    ensures Texts(a + b) == Texts(a) + Texts(b)
  {
    assert forall i :: 0 <= i < |b| ==> (a + b)[|a| + i] == b[i];
  }

  /** One more element adds its text to a level's list exactly when it is of
      that level. */
  lemma TextsOfFindAllSnoc(prefix: seq<Element>, e: Element, p: Element -> bool)
    ensures Texts(FindAll(prefix + [e], p)) == Texts(FindAll(prefix, p)) + (if p(e) then [e.text] else [])
  {
    FindAllAppend(prefix, [e], p);
    FindAllSingle(e, p);
    TextsAppend(FindAll(prefix, p), if p(e) then [e] else []);
    assert Texts([e]) == [e.text];
  }

  /** Regrouping loses and invents nothing: the listed texts are, with their
      multiplicities, the texts of the page's `<h1>`, `<h2>` and `<h3>` elements. */
  lemma {:induction false} HeadingsArePageHeadings(doc: seq<Element>)
    ensures multiset(Headings(doc)) == multiset(Texts(FindAll(doc, IsHeading)))
    decreases |doc|
  {
    if doc != [] {
      var prefix := doc[..|doc| - 1];
      var e := doc[|doc| - 1];
      assert doc == prefix + [e];
      HeadingsArePageHeadings(prefix);
      TextsOfFindAllSnoc(prefix, e, IsH1);
      TextsOfFindAllSnoc(prefix, e, IsH2);
      TextsOfFindAllSnoc(prefix, e, IsH3);
      TextsOfFindAllSnoc(prefix, e, IsHeading);
      var m1 := multiset(Texts(FindAll(prefix, IsH1)));
      var m2 := multiset(Texts(FindAll(prefix, IsH2)));
      var m3 := multiset(Texts(FindAll(prefix, IsH3)));
      var added := multiset(if IsHeading(e) then [e.text] else []);
      assert multiset(Headings(prefix)) == m1 + m2 + m3;
      var n1 := multiset(Texts(FindAll(doc, IsH1)));
      var n2 := multiset(Texts(FindAll(doc, IsH2)));
      var n3 := multiset(Texts(FindAll(doc, IsH3)));
      assert n1 == m1 + multiset(if IsH1(e) then [e.text] else []);
      assert n2 == m2 + multiset(if IsH2(e) then [e.text] else []);
      assert n3 == m3 + multiset(if IsH3(e) then [e.text] else []);
      calc {
        multiset(Headings(doc));
        n1 + n2 + n3;
        m1 + m2 + m3 + added;
        multiset(Texts(FindAll(prefix, IsHeading))) + added;
        multiset(Texts(FindAll(doc, IsHeading)));
      }
    }
  }

  /** An `<h2>` that comes before an `<h1>` in the page is listed after it. */
  lemma HeadingsGroupedByLevel(a: Element, b: Element)
    requires IsH2(a) && IsH1(b)
    ensures Headings([a, b]) == [b.text, a.text]
  {
    FindAllPair(a, b, IsH1);
    FindAllPair(a, b, IsH2);
    FindAllPair(a, b, IsH3);
    assert Texts([b]) == [b.text];
    assert Texts([a]) == [a.text];
  }

  // ---------------------------------------------------------------- images

  /** The number of `<img>` whose alt is missing or empty. */
  function ImagesWithoutAlt(doc: seq<Element>): (n: nat)
    ensures n == |Where(doc, LacksAlt)|
    ensures n <= |FindAll(doc, IsImage)|
    ensures n == 0 <==> forall j :: 0 <= j < |doc| && IsImage(doc[j]) ==> Get(doc[j], "alt", "") != ""
  {
    FindAllWeaker(doc, LacksAlt, IsImage);
    FindAllCountsMatches(doc, LacksAlt);
    FindAllEmptyIff(doc, LacksAlt);
    |FindAll(doc, LacksAlt)|
  }

  // ---------------------------------------------------------------- viewport, robots meta

  /** The first `<meta name=...>` of the kind `p` exists and its content (or "")
      contains `needle`. */
  function FirstMetaContains(doc: seq<Element>, p: Element -> bool, needle: string): (b: bool)
    ensures (forall j :: 0 <= j < |doc| ==> !p(doc[j])) ==> !b
    ensures forall i | FirstAt(doc, p, i) :: b <==> Contains(Get(doc[i], "content", ""), needle)
  {
    match FindFirst(doc, p)
    case None => false
    case Some(i) => Contains(Get(doc[i], "content", ""), needle)
  }

  /** `mobile_friendly`: the first viewport meta mentions "width=device-width". */
  function MobileFriendly(doc: seq<Element>): (b: bool)
    ensures b <==> exists i :: FirstAt(doc, IsViewportMeta, i) && Contains(Get(doc[i], "content", ""), "width=device-width")
  {
    FirstMetaContains(doc, IsViewportMeta, "width=device-width")
  }

  /** `noindex_tag`: the first robots meta mentions "noindex". */
  function Noindex(doc: seq<Element>): (b: bool)
    ensures b <==> exists i :: FirstAt(doc, IsRobotsMeta, i) && Contains(Get(doc[i], "content", ""), "noindex")
  {
    FirstMetaContains(doc, IsRobotsMeta, "noindex")
  }

  // ---------------------------------------------------------------- favicon

  /** `favicon_present`: some `<link>` has a rel mentioning "icon" in any case. */
  function FaviconPresent(doc: seq<Element>): (b: bool)
    ensures b <==> exists i :: 0 <= i < |doc| && IsFaviconLink(doc[i])
  {
    FindFirst(doc, IsFaviconLink).Some?
  }

  // ---------------------------------------------------------------- canonical

  /** `canonical["href"]` of the first canonical link, the sentinel when there is
      none, and a `KeyError('href')` when the first one has no href. */
  function Canonical(doc: seq<Element>): (r: Result<string>)
    ensures (forall j :: 0 <= j < |doc| ==> !IsCanonicalLink(doc[j])) ==> r == Ok(NoCanonicalTag)
    ensures forall i | FirstAt(doc, IsCanonicalLink, i) ::
      if "href" in doc[i].attrs then r == Ok(doc[i].attrs["href"]) else r == Err("'href'")
  {
    match FindFirst(doc, IsCanonicalLink)
    case None => Ok(NoCanonicalTag)
    case Some(i) => if "href" in doc[i].attrs then Ok(doc[i].attrs["href"]) else Err("'href'")
  }

  // ---------------------------------------------------------------- hreflang

  /** The hreflang values of every alternate link carrying one, in document order. */
  function HreflangTags(doc: seq<Element>): (ts: seq<string>)
    ensures |ts| == |FindAll(doc, IsHreflangLink)|
    ensures forall i :: 0 <= i < |ts| ==> ts[i] == FindAll(doc, IsHreflangLink)[i].attrs["hreflang"]
    ensures forall t | t in ts :: exists i :: 0 <= i < |doc| && IsHreflangLink(doc[i]) && doc[i].attrs["hreflang"] == t
    ensures ts == [] <==> forall j :: 0 <= j < |doc| ==> !IsHreflangLink(doc[j])
  {
    var links := FindAll(doc, IsHreflangLink);
    FindAllEmptyIff(doc, IsHreflangLink);
    var ts := seq(|links|, i requires 0 <= i < |links| => links[i].attrs["hreflang"]);
    assert forall t | t in ts :: exists i :: 0 <= i < |doc| && IsHreflangLink(doc[i]) && doc[i].attrs["hreflang"] == t by {
      forall t | t in ts
        ensures exists i :: 0 <= i < |doc| && IsHreflangLink(doc[i]) && doc[i].attrs["hreflang"] == t
      {
        var k :| 0 <= k < |ts| && ts[k] == t;
        assert links[k] in links;
        var i :| 0 <= i < |doc| && doc[i] == links[k];
      }
    }
    ts
  }

  // ---------------------------------------------------------------- Open Graph

  /** `i` is an Open Graph meta whose property no later Open Graph meta repeats. */
  ghost predicate LastOgFor(doc: seq<Element>, i: int) {
    0 <= i < |doc| && IsOgMeta(doc[i])
    && forall j :: i < j < |doc| && IsOgMeta(doc[j]) ==> OgKey(doc[j]) != OgKey(doc[i])
  }

  /** `og_tags`: each Open Graph property, in document order, writes its content
      (or "") into the map, so a later duplicate overwrites an earlier one. */
  function OgTags(doc: seq<Element>): (m: map<string, string>)
    ensures |m.Keys| <= |Where(doc, IsOgMeta)|
  {
    if doc == [] then map[]
    else
      var e := doc[|doc| - 1];
      var m := OgTags(doc[..|doc| - 1]);
      WhereSnoc(doc[..|doc| - 1], e, IsOgMeta);
      assert doc[..|doc| - 1] + [e] == doc;
      if IsOgMeta(e) then m[OgKey(e) := OgContent(e)] else m
  }

  /** The keys are exactly the Open Graph properties that occur in the page. */
  lemma {:induction false} OgTagsKeys(doc: seq<Element>)
    ensures forall k :: k in OgTags(doc) <==> exists i :: 0 <= i < |doc| && IsOgMeta(doc[i]) && OgKey(doc[i]) == k
  {
    if doc != [] {
      var prefix := doc[..|doc| - 1];
      OgTagsKeys(prefix);
      assert forall j :: 0 <= j < |prefix| ==> prefix[j] == doc[j];
    }
  }

  /** Each property maps to the content of its last occurrence. */
  lemma {:induction false} OgTagsLastWins(doc: seq<Element>, i: int)
    requires LastOgFor(doc, i)
    ensures OgKey(doc[i]) in OgTags(doc) && OgTags(doc)[OgKey(doc[i])] == OgContent(doc[i])
  {
    var prefix := doc[..|doc| - 1];
    if i < |doc| - 1 {
      assert forall j :: 0 <= j < |prefix| ==> prefix[j] == doc[j];
      assert LastOgFor(prefix, i);
      OgTagsLastWins(prefix, i);
    }
  }

  /** Two Open Graph metas with the same property: the later content is kept. */
  lemma OgLaterDuplicateWins(a: Element, b: Element)
    requires IsOgMeta(a) && IsOgMeta(b) && OgKey(a) == OgKey(b)
    ensures OgTags([a, b]) == map[OgKey(b) := OgContent(b)]
  {
    assert [a, b][..1] == [a];
    assert [a][..0] == [];
    assert OgTags([a]) == map[OgKey(a) := OgContent(a)];
    assert OgTags([a, b]) == OgTags([a])[OgKey(b) := OgContent(b)];
  }
}
