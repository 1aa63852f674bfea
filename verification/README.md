# SEO analyzer: a Dafny model of the page-analysis core

This project models `analyze_seo` and `calculate_keyword_density` of the SEO
analyzer backend (`backend/analyzer/utils.py`). `analyze_seo` fetches one page, runs
a fixed set of checks against it and folds their results into a penalty score.

The model is purely functional:

- `Basics` holds the `Option` and `Result` wrappers. It also defines `Where`, the
  set of positions that satisfy a predicate, which the exact counts are stated with.
- `Text` holds the character classes (`\w`, `\s`), lower-casing and substring tests.
- `KeywordDensity` models the text pipeline: tag stripping (`<[^>]+>`),
  punctuation stripping (`[^\w\s]`), lower-casing, `str.split()`, `list.count` and
  the density formula.
- `Document` models the parsed page as an immutable `seq<Element>`. Each element
  has a tag, an attribute map, `.text` and `.string`. The module also gives the
  `find`/`find_all` queries.
- `Checks` holds one pure extractor per check: title, meta description, headings,
  images without alt, viewport, noindex, favicon, canonical, hreflang and
  Open Graph tags.
- `Links` models the origin, the robots.txt location, relative-link resolution and
  the broken-link count. The count is given twice: as a function, and as the
  source's loop (a method with invariants) proved equal to it.
- `Scoring` holds the report record, the table of fixed penalties and `Score`.
- `Analyzer` holds `Analyze` and, for a page that loaded, `AnalyzePage`. They
  return either `Scored(score, report)` or `Failed(error)`, which is the source's
  `(0, {"error": msg})`.

The network is an input. `Network.page` is the primary fetch: either an exception
message, or the raw body, the parsed document and the load time in milliseconds.
`Network.get(n, url)` is the outcome of request number `n`, which is a status code
or an exception message. Request 0 is robots.txt, and the `i`-th link is request
`i + 1`.

## Behaviour as written

Where the code behaves in a way a reader might not expect, the model follows the code:

- Headings are grouped by level: all `h1`, then all `h2`, then all `h3`. They are
  not kept in document order (`Checks.HeadingsGroupedByLevel`).
- The canonical penalty fires only when the value is falsy, that is an empty
  `href`. The missing-tag sentinel "No canonical tag" is never penalised
  (`Scoring.CanonicalPenaltyOnlyWhenEmpty`).
- An exception from the robots.txt fetch is fatal to the whole analysis. Only a
  non-200 status gives `robots_txt = False`.
- These two cases raise a `KeyError`, so the whole analysis fails:
  - a description meta without `content` (error `'content'`);
  - a canonical link without `href` (error `'href'`).
- `title` is the first `<title>`'s `.string`, which can be `None`. In that case
  there is neither the sentinel nor the title penalty.
- Sentinels are compared as plain strings. A page whose title really is "No title
  tag" is therefore penalised like a page without one. The same holds for the
  description sentinel.
- The sentinels are capitalised as in the code ("No title tag", "No meta
  description", "No canonical tag").
- Every href starting with "/" is prefixed with `scheme://netloc`. This includes a
  protocol-relative `//host/path`.
- Only the first viewport meta and the first robots meta are examined.

## Model

| member | source | states |
|---|---|---|
| `KeywordDensity.StripTags` | backend/analyzer/utils.py:11 | tag removal never lengthens the text and only keeps characters of the input |
| `KeywordDensity.StripTagsPlainText` | backend/analyzer/utils.py:11 | text containing no `<` passes through tag removal unchanged |
| `KeywordDensity.StripTagsDropsTag` | backend/analyzer/utils.py:11 | a complete tag `<…>` with a non-empty body at the front is removed whole |
| `KeywordDensity.StripTagsPlainPrefix` | backend/analyzer/utils.py:11 | text before the first `<` is kept unchanged and the rest is stripped on its own |
| `KeywordDensity.StripTagsEmptyBrackets` | backend/analyzer/utils.py:11 | `<>` is no tag: the `<` is kept and stripping resumes at the `>` |
| `KeywordDensity.LoneOpenBracketKept` | backend/analyzer/utils.py:11 | a `<` that no `>` follows is kept as text |
| `KeywordDensity.StripPunctuation` | backend/analyzer/utils.py:12-14 | after punctuation removal every character is a word or whitespace character of the input |
| `KeywordDensity.StripPunctuationAppend` | backend/analyzer/utils.py:12-14 | punctuation removal works character by character: cleaning a concatenation is the concatenation of the cleaned parts |
| `KeywordDensity.StripPunctuationSingle` | backend/analyzer/utils.py:12-14 | a single character is kept iff it is a word or whitespace character, so, with the previous row, every such character survives in order and every other one is dropped |
| `KeywordDensity.StripPunctuationKeepsCleanText` | backend/analyzer/utils.py:12-14 | text made only of word and whitespace characters is left unchanged |
| `KeywordDensity.Words` | backend/analyzer/utils.py:15 | `split()` yields only non-empty words, whose characters are non-whitespace characters of the input |
| `KeywordDensity.WordsAroundSpace` | backend/analyzer/utils.py:15 | any whitespace character (space, tab, newline, …) separates words: splitting `s + [c] + t` gives the words of `s` followed by the words of `t`, so runs of whitespace produce no empty words |
| `KeywordDensity.WordsJoinRoundTrip` | backend/analyzer/utils.py:15 | splitting undoes `" ".join` of non-empty whitespace-free words |
| `KeywordDensity.Occurrences` | backend/analyzer/utils.py:21 | `count` is the multiplicity of the keyword in the word list and at most its length |
| `KeywordDensity.Tokens` | backend/analyzer/utils.py:11-15 | cleaned tokens are non-empty and made only of lower-case word characters |
| `KeywordDensity.Calculate` | backend/analyzer/utils.py:9-30 | keyword_count ≤ total_words; zero words gives density 0 with no division; otherwise density × total = 100 × count; density lies in [0, 100]; total_words is the number of cleaned, lowered tokens of the body and keyword_count is the multiplicity of the lowered keyword among them |
| `KeywordDensity.CaseInsensitive` | backend/analyzer/utils.py:15-21 | two keywords that lower-case alike give the same report |
| `KeywordDensity.UnmatchableKeywordCountsZero` | backend/analyzer/utils.py:11-21 | a keyword that is empty or holds a space or punctuation counts 0 and has density 0 |
| `KeywordDensity.CountOnJoinedWords` | backend/analyzer/utils.py:15-21 | on a body of clean words, total_words is the number of words and keyword_count is how often the lowered keyword occurs among them |
| `KeywordDensity.UpperCaseKeywordExample` | backend/analyzer/utils.py:9-30 | keyword "SEO" in "seo tips" gives 2 words, 1 match, density 50 |
| `Document.FindFirst` | backend/analyzer/utils.py:71 | `find` returns the position of the first matching element, or nothing when none matches |
| `Document.FindAll` | backend/analyzer/utils.py:82 | every entry `find_all` returns is an element of the page that matches, and there are at most as many as elements |
| `Document.FindAllEmptyIff` | backend/analyzer/utils.py:82 | `find_all` is empty iff no element matches |
| `Document.FindAllAppend` | backend/analyzer/utils.py:82 | `find_all` over two consecutive parts of a page is the concatenation of the two results, so document order is kept |
| `Document.FindFirstIsHeadOfFindAll` | backend/analyzer/utils.py:71 | `find` succeeds iff `find_all` is non-empty, and then returns its first entry |
| `Document.FindAllCountsMatches` | backend/analyzer/utils.py:87 | `find_all` returns one element per matching position |
| `Checks.Title` | backend/analyzer/utils.py:71-72 | no `<title>` gives the sentinel; otherwise the result is the first title's `.string`, possibly none |
| `Checks.MetaDescription` | backend/analyzer/utils.py:75-78 | no description meta gives the sentinel; the first one's `content` otherwise; a missing `content` is a `KeyError('content')` |
| `Checks.Headings` | backend/analyzer/utils.py:81-84 | one entry per h1, h2 and h3 element; empty iff the page has no h1–h3; the list is the h1 texts in document order, then the h2 texts, then the h3 texts |
| `Checks.HeadingsArePageHeadings` | backend/analyzer/utils.py:81-84 | as a multiset, the list is exactly the texts of the page's h1–h3 elements: regrouping loses and adds nothing |
| `Checks.HeadingsGroupedByLevel` | backend/analyzer/utils.py:81-84 | an h2 placed before an h1 is listed after it |
| `Checks.ImagesWithoutAlt` | backend/analyzer/utils.py:87-90 | the count is the number of `<img>` with a missing or empty alt; it is at most the number of images; it is 0 iff every image has a non-empty alt |
| `Checks.MobileFriendly` | backend/analyzer/utils.py:104-106 | true iff the first viewport meta's content (default "") contains "width=device-width" |
| `Checks.Noindex` | backend/analyzer/utils.py:140-142 | true iff the first robots meta's content (default "") contains "noindex" |
| `Checks.FaviconPresent` | backend/analyzer/utils.py:128-129 | true iff some `<link>` has a non-empty rel that contains "icon" once lower-cased |
| `Checks.Canonical` | backend/analyzer/utils.py:132-133 | no canonical link gives the sentinel; the first one's href otherwise; a missing href is a `KeyError('href')` |
| `Checks.HreflangTags` | backend/analyzer/utils.py:136-137 | one value per alternate link with hreflang, the `i`-th being the `i`-th such link's hreflang in document order; empty iff there is none |
| `Checks.OgTags` | backend/analyzer/utils.py:145-150 | the OG map has at most one key per Open Graph meta of the page |
| `Checks.OgTagsKeys` | backend/analyzer/utils.py:145-150 | the OG map's keys are exactly the "og:" properties occurring in the page |
| `Checks.OgTagsLastWins` | backend/analyzer/utils.py:145-150 | each property maps to the content (default "") of its last occurrence |
| `Checks.OgLaterDuplicateWins` | backend/analyzer/utils.py:145-150 | of two metas with the same property, the later content is kept |
| `Links.RobotsUrlIsRootLink` | backend/analyzer/utils.py:109-119 | robots.txt is requested at the URL that a link "/robots.txt" on the page resolves to |
| `Links.AnchorHrefs` | backend/analyzer/utils.py:115-116 | one href per anchor carrying one, the `i`-th being the `i`-th such anchor's href in document order |
| `Links.ResolveIdempotent` | backend/analyzer/utils.py:117-119 | resolving a resolved link changes nothing |
| `Links.BrokenCount` | backend/analyzer/utils.py:120-125 | the broken count never exceeds the number of links |
| `Links.BrokenCountAppend` | backend/analyzer/utils.py:120-125 | one more link adds exactly 1 if it answered non-200 or raised, and 0 otherwise |
| `Links.BrokenCountIsPositions` | backend/analyzer/utils.py:115-125 | the count is the number of links whose outcome is broken |
| `Links.BrokenCountExtremes` | backend/analyzer/utils.py:120-125 | the count is 0 iff no link is broken, and equals the number of links iff all are |
| `Links.CountBrokenLinks` | backend/analyzer/utils.py:115-125 | the request loop's count equals the broken-outcome count and is at most the number of anchors |
| `Scoring.FixedPenalty` | backend/analyzer/utils.py:152-181 | the fixed penalties together cost at most 95 points |
| `Scoring.Score` | backend/analyzer/utils.py:152-181 | score = 100 − the weights of the triggered conditions − 2 × images without alt − 5 × broken links; it lies between 5 − 2i − 5b and 100 − 2i − 5b |
| `Scoring.PerfectPageScores100` | backend/analyzer/utils.py:152-181 | a page passing every check with both counters 0 scores exactly 100 |
| `Scoring.MissingTitleDescriptionHeadingsScores55` | backend/analyzer/utils.py:152-181 | missing only title, description and headings scores exactly 55 |
| `Scoring.OneMoreBrokenLink` | backend/analyzer/utils.py:170-171 | one more broken link lowers the score by exactly 5 |
| `Scoring.OneMoreImageWithoutAlt` | backend/analyzer/utils.py:160-161 | one more image without alt lowers the score by exactly 2 |
| `Scoring.ScoreUnclamped` | backend/analyzer/utils.py:152-181 | nothing clamps the score: more than 20 broken links make it negative |
| `Scoring.CanonicalPenaltyOnlyWhenEmpty` | backend/analyzer/utils.py:174-175 | the −3 applies iff the canonical value is empty; the sentinel scores like a real URL |
| `Scoring.ScoreMonotone` | backend/analyzer/utils.py:152-181 | a report showing every negative signal of another, with at least its counters, scores no higher |
| `Analyzer.Analyze` | backend/analyzer/utils.py:52-62 | an exception from the page fetch is the outcome, scoring 0; a loaded page is handed to `AnalyzePage` |
| `Analyzer.AnalyzePage` | backend/analyzer/utils.py:64-184 | the description, robots.txt and canonical errors come in that order; failure occurs iff one of them happens and then scores 0; a success carries the score of its own report, the measured load time, the keyword report of the body iff a non-empty keyword was given, SSL iff the scheme is "https", robots_txt iff robots.txt answered 200, broken_links equal to the number of anchors whose request is broken, images_without_alt equal to the number of `<img>` with a missing or empty alt, and title, description, headings, mobile-friendliness, favicon, canonical URL, hreflang list, noindex flag and OG map each equal to its own check on the page |

## Left out

- HTTP requests (`requests.get` for the page, robots.txt and every link) are inputs: `Network`. The network is a function of the request number and the URL.
- Timing and rounding (`time.time`, `round`) are left out. The load time is an input `nat` in milliseconds.
- HTML parsing is a foreign library. The parsed page is an input element sequence. Parse exceptions are not modelled.
- Attribute matching follows exact single values. The parsing library's special handling of multi-valued attributes (`rel`, `class`) is not modelled, so `rel="canonical foo"` is not a canonical link here.
- `KeywordDensity.StripTags`: its contract states only length and character bounds. Its value on every input is fixed by the lemmas: `StripTagsPlainPrefix` (text before the first `<`), `StripTagsDropsTag` (a complete tag), `StripTagsEmptyBrackets` (`<>`), `LoneOpenBracketKept` (a `<` with no later `>`) and `StripTagsPlainText` (no `<` at all).
- `KeywordDensity.Words`: its contract states only what the words are made of. How whitespace splits is stated by `WordsAroundSpace` (for every input and every whitespace character) and `WordsJoinRoundTrip` (for words joined by single spaces).
- `KeywordDensity.StripPunctuation`: its contract states only what the kept characters are. That every word and whitespace character is kept, in order, is stated by `StripPunctuationAppend` with `StripPunctuationSingle`.
- `Links.BrokenCount`: its contract states only the upper bound. The exact count is stated by `BrokenCountIsPositions` and `BrokenCountAppend`.
- `Scoring.FixedPenalty`: its contract states only the bound of 95. Its value per condition is stated by the `Score` contract through `Penalty`.
- `Checks.FaviconPresent`: the rel test runs on the whole attribute string, not on each value of a multi-valued `rel`.
- URL parsing is not modelled. The scheme and netloc are inputs (`Url`).
- Python's Unicode `\w`, `\s` and `str.lower` are approximated by their ASCII members.
- `KeywordDensity.Calculate`: a non-ASCII letter or digit (such as "é", or any word in a non-Latin script) is deleted as punctuation here, while the source keeps it as a word character. A non-ASCII whitespace character (such as U+00A0, the no-break space) is deleted too, so it joins its neighbours: "foo\u00A0bar" is one word here but two in the source. Such pages can get different total_words and keyword_count values than the source computes.
- `KeywordDensity.UnmatchableKeywordCountsZero`: it holds under the ASCII classes only. A keyword such as "café" is unmatchable here but can match in the source.
- `KeywordDensity.Calculate`: the density is an exact real. The source computes a float, so float rounding is not modelled.
- Progress printing is left out. This includes the log line that prints the load time before it is measured.
- The HTTP endpoint is not part of this model (`backend/analyzer/views.py`, `backend/analyzer/urls.py`). Its only logic is rejecting an empty URL. Persistence and serialisation are also out.
- The React front end (`frontend/src/App.js`) is not part of this model.
- Fatal errors outside the four modelled ones are not modelled. Examples are a malformed URL rejected by the HTTP client (folded into the page-fetch exception) and memory exhaustion.
