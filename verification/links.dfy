/** robots.txt location, relative-link resolution and the broken-link count. The
    network is abstract: each request's outcome is an input. */
module Links {
  import opened Basics
  import opened Text
  import opened Document

  /** The two parts of the page URL, as `urlparse` yields them, that the analyzer reads. */
  datatype Url = Url(scheme: string, netloc: string)

  /** What one `requests.get` gives back: a status code, or an exception's message. */
  datatype FetchOutcome = Status(code: int) | Raised(msg: string)

  /** `f"{scheme}://{netloc}"`. */
  function Origin(u: Url): string {
    u.scheme + "://" + u.netloc
  }

  /** The robots.txt location of the page's origin. */
  function RobotsUrl(u: Url): (r: string)
    ensures StartsWith(r, Origin(u))
    ensures r[|Origin(u)|..] == "/robots.txt"
  {
    Origin(u) + "/robots.txt"
  }

  /** A link counts as working only on a 200 response; another status or an
      exception makes it broken. */
  predicate IsBroken(o: FetchOutcome) {
    !(o.Status? && o.code == 200)
  }

  /** An href starting with "/" is prefixed with the page's origin; any other href
      (absolute, relative without a slash, fragment, empty) is requested as is. */
  function Resolve(u: Url, href: string): (r: string)
    ensures StartsWith(href, "/") ==> StartsWith(r, Origin(u)) && r[|Origin(u)|..] == href
    ensures !StartsWith(href, "/") ==> r == href
  {
    if StartsWith(href, "/") then Origin(u) + href else href
  }

  /** robots.txt is fetched from the URL a link "/robots.txt" would resolve to. */
  lemma RobotsUrlIsRootLink(u: Url)
    ensures RobotsUrl(u) == Resolve(u, "/robots.txt")
  {
  }

  /** Resolving again changes nothing, since an origin never starts with "/" when
      the scheme does not. */
  lemma ResolveIdempotent(u: Url, href: string)
    requires u.scheme == [] || u.scheme[0] != '/'
    ensures Resolve(u, Resolve(u, href)) == Resolve(u, href)
  {
    if StartsWith(href, "/") {
      var o := Origin(u);
      assert o[0] == (if u.scheme == [] then ':' else u.scheme[0]);
      assert (o + href)[0] == o[0];
    }
  }

  predicate IsAnchorWithHref(e: Element) {
    e.tag == "a" && "href" in e.attrs
  }

  /** `soup.find_all("a", href=True)`: the hrefs of the anchors, in document order. */
  function AnchorHrefs(doc: seq<Element>): (hs: seq<string>)
    ensures |hs| == |FindAll(doc, IsAnchorWithHref)|
    ensures forall i :: 0 <= i < |hs| ==> hs[i] == FindAll(doc, IsAnchorWithHref)[i].attrs["href"]
  {
    var anchors := FindAll(doc, IsAnchorWithHref);
    seq(|anchors|, i requires 0 <= i < |anchors| => anchors[i].attrs["href"])
  }

  /** The outcome of every link request: link `i` is request number `i + 1`
      (request 0 is robots.txt) on its resolved URL. */
  function LinkOutcomes(u: Url, hrefs: seq<string>, get: (nat, string) -> FetchOutcome): (os: seq<FetchOutcome>)
    ensures |os| == |hrefs|
    ensures forall i :: 0 <= i < |hrefs| ==> os[i] == get(i + 1, Resolve(u, hrefs[i]))
  {
    seq(|hrefs|, i requires 0 <= i < |hrefs| => get(i + 1, Resolve(u, hrefs[i])))
  }

  /** The number of broken outcomes. */
  function BrokenCount(os: seq<FetchOutcome>): (n: nat)
    ensures n <= |os|
  {
    if os == [] then 0
    else (if IsBroken(os[0]) then 1 else 0) + BrokenCount(os[1..])
  }

  /** The count is the number of positions holding a broken outcome. */
  lemma {:induction false} BrokenCountIsPositions(os: seq<FetchOutcome>)
    ensures BrokenCount(os) == |Where(os, IsBroken)|
    decreases |os|
  {
    if os != [] {
      var prefix := os[..|os| - 1];
      var last := os[|os| - 1];
      assert os == prefix + [last];
      BrokenCountIsPositions(prefix);
      BrokenCountAppend(prefix, last);
      WhereSnoc(prefix, last, IsBroken);
    }
  }

  /** No link is broken exactly when the count is 0, and every link is broken
      exactly when the count is the number of links. */
  lemma {:induction false} BrokenCountExtremes(os: seq<FetchOutcome>)
    ensures BrokenCount(os) == 0 <==> forall i :: 0 <= i < |os| ==> !IsBroken(os[i])
    ensures BrokenCount(os) == |os| <==> forall i :: 0 <= i < |os| ==> IsBroken(os[i])
  {
    if os != [] {
      BrokenCountExtremes(os[1..]);
      assert forall i :: 1 <= i < |os| ==> os[i] == os[1..][i - 1];
    }
  }

  /** One more link adds exactly one to the count when it is broken, whatever the
      cause, and nothing otherwise. */
  lemma {:induction false} BrokenCountAppend(os: seq<FetchOutcome>, o: FetchOutcome)
    ensures BrokenCount(os + [o]) == BrokenCount(os) + (if IsBroken(o) then 1 else 0)
  {
    if os == [] {
      assert [] + [o] == [o];
      assert [o][1..] == [];
    } else {
      assert (os + [o])[1..] == os[1..] + [o];
      BrokenCountAppend(os[1..], o);
    }
  }

  /** The link loop of `analyze_seo`: request each href in order, resolving a
      leading "/", and count non-200 answers and exceptions alike. */
  method CountBrokenLinks(u: Url, hrefs: seq<string>, get: (nat, string) -> FetchOutcome)
    returns (broken: nat)
    ensures broken == BrokenCount(LinkOutcomes(u, hrefs, get))
    ensures broken <= |hrefs|
  {
    ghost var os := LinkOutcomes(u, hrefs, get);
    broken := 0;
    var i := 0;
    while i < |hrefs|
      invariant 0 <= i <= |hrefs|
      invariant broken == BrokenCount(os[..i])
    {
      var href := hrefs[i];
      if StartsWith(href, "/") {
        href := Origin(u) + href;
      }
      assert href == Resolve(u, hrefs[i]);
      var response := get(i + 1, href);
      assert response == os[i];
      match response {
        case Raised(_) =>
          broken := broken + 1;
        case Status(code) =>
          if code != 200 {
            broken := broken + 1;
          }
      }
      assert os[..i + 1] == os[..i] + [response];
      BrokenCountAppend(os[..i], response);
      i := i + 1;
    }
    assert os[..i] == os;
  }
}
