/** Keyword density of a raw response body: strip tags, strip punctuation,
    lower-case, split on whitespace, then count exact matches of the keyword. */
module KeywordDensity {
  import opened Basics
  import opened Text

  /** The summary the analyzer stores under `keyword_density`. */
  datatype DensityReport = DensityReport(totalWords: nat, keywordCount: nat, density: real)

  /** Position of the first `>` at or after `from`, if there is one. */
  function CloseAfter(s: string, from: nat): (r: Option<nat>)
    requires from <= |s|
    ensures r.Some? ==> from <= r.value < |s| && s[r.value] == '>'
    ensures r.Some? ==> forall j :: from <= j < r.value ==> s[j] != '>'
    ensures r.None? ==> forall j :: from <= j < |s| ==> s[j] != '>'
    decreases |s| - from
  {
    if from == |s| then None
    else if s[from] == '>' then Some(from)
    else CloseAfter(s, from + 1)
  }

  /** Removes every match of the pattern `<[^>]+>`, scanning from the left: a tag
      is a `<`, at least one character other than `>`, and the first `>` after it.
      A `<` with no such `>` (including `<>`) is kept as text. */
  function StripTags(s: string): (r: string)
    ensures |r| <= |s|
    ensures forall c | c in r :: c in s
    decreases |s|
  {
    if s == [] then []
    else if s[0] == '<' && CloseAfter(s, 1).Some? && CloseAfter(s, 1).value >= 2 then
      StripTags(s[CloseAfter(s, 1).value + 1..])
    else
      [s[0]] + StripTags(s[1..])
  }

  /** Text that never opens a tag passes through unchanged. */
  lemma {:induction false} StripTagsPlainText(s: string)
    requires '<' !in s
    ensures StripTags(s) == s
    decreases |s|
  {
    if s != [] {
      assert s[0] != '<';
      assert '<' !in s[1..] by {
        forall i | 0 <= i < |s[1..]| ensures s[1..][i] != '<' {
          assert s[1..][i] == s[i + 1];
        }
      }
      StripTagsPlainText(s[1..]);
      assert s == [s[0]] + s[1..];
    }
  }

  /** A complete tag at the front is dropped, whatever it contains. */
  lemma StripTagsDropsTag(inner: string, rest: string)
    requires |inner| > 0 && '>' !in inner
    ensures StripTags("<" + inner + ">" + rest) == StripTags(rest)
  {
    var s := "<" + inner + ">" + rest;
    var k := |inner| + 1;
    assert s[k] == '>';
    assert forall j :: 1 <= j < k ==> s[j] == inner[j - 1];
    assert CloseAfter(s, 1) == Some(k);
    assert s[k + 1..] == rest;
  }

  /** Text before the first `<` is kept as it is; the rest is stripped on its own. */
  lemma {:induction false} StripTagsPlainPrefix(x: string, y: string)
    requires '<' !in x
    ensures StripTags(x + y) == x + StripTags(y)
    decreases |x|
  {
    if x == [] {
      assert x + y == y;
    } else {
      assert (x + y)[0] == x[0] && x[0] != '<';
      assert (x + y)[1..] == x[1..] + y;
      assert '<' !in x[1..] by {
        forall i | 0 <= i < |x[1..]| ensures x[1..][i] != '<' {
          assert x[1..][i] == x[i + 1];
        }
      }
      StripTagsPlainPrefix(x[1..], y);
      assert x == [x[0]] + x[1..];
    }
  }

  /** `<>` has an empty body, so it is no tag: the `<` is kept and stripping
      resumes at the `>`. */
  lemma StripTagsEmptyBrackets(rest: string)
    ensures StripTags("<>" + rest) == "<" + StripTags(">" + rest)
  {
    var s := "<>" + rest;
    assert s[1] == '>';
    assert CloseAfter(s, 1) == Some(1);
    assert s[1..] == ">" + rest;
  }

  /** A `<` that no `>` follows is ordinary text and is kept. */
  lemma LoneOpenBracketKept(rest: string)
    requires '>' !in rest
    ensures StripTags("<" + rest) == "<" + StripTags(rest)
  {
    var s := "<" + rest;
    assert forall j :: 1 <= j < |s| ==> s[j] == rest[j - 1];
    assert CloseAfter(s, 1).None?;
    assert s[1..] == rest;
  }

  /** `re.sub(r"[^\w\s]", "", s)`: keeps only word and whitespace characters. */
  function StripPunctuation(s: string): (r: string)
    ensures |r| <= |s|
    ensures forall c | c in r :: c in s && (IsWordChar(c) || IsSpace(c))
  {
    if s == [] then []
    else if IsWordChar(s[0]) || IsSpace(s[0]) then [s[0]] + StripPunctuation(s[1..])
    else StripPunctuation(s[1..])
  }

  /** Text made only of word and whitespace characters is left unchanged. */
  lemma {:induction false} StripPunctuationKeepsCleanText(s: string)
    requires forall i :: 0 <= i < |s| ==> IsWordChar(s[i]) || IsSpace(s[i])
    ensures StripPunctuation(s) == s
  {
    if s != [] {
      StripPunctuationKeepsCleanText(s[1..]);
      assert s == [s[0]] + s[1..];
    }
  }

  /** Punctuation is removed character by character: cleaning a concatenation
      cleans each part. */
  lemma {:induction false} StripPunctuationAppend(s: string, t: string)
    ensures StripPunctuation(s + t) == StripPunctuation(s) + StripPunctuation(t)
    decreases |s|
  {
    if s == [] {
      assert s + t == t;
    } else {
      assert (s + t)[0] == s[0];
      assert (s + t)[1..] == s[1..] + t;
      StripPunctuationAppend(s[1..], t);
    }
  }

  /** A single character survives exactly when it is a word or whitespace
      character; with `StripPunctuationAppend` this fixes the result of every
      input, so every such character is kept, in order. */
  lemma StripPunctuationSingle(c: char)
    ensures IsWordChar(c) || IsSpace(c) ==> StripPunctuation([c]) == [c]
    ensures !(IsWordChar(c) || IsSpace(c)) ==> StripPunctuation([c]) == []
  {
    assert [c][1..] == [];
  }

  /** Length of the run of non-whitespace characters at the front of `s`. */
  function TokenLength(s: string): (n: nat)
    ensures n <= |s|
    ensures forall i :: 0 <= i < n ==> !IsSpace(s[i])
    ensures n < |s| ==> IsSpace(s[n])
  {
    if s == [] || IsSpace(s[0]) then 0 else 1 + TokenLength(s[1..])
  }

  /** `s.split()`: the maximal runs of non-whitespace characters, in order.
      Leading, trailing and repeated whitespace produce no empty words. */
  function Words(s: string): (ws: seq<string>)
    ensures forall w | w in ws :: |w| > 0
    ensures forall w, c | w in ws && c in w :: c in s && !IsSpace(c)
    decreases |s|
  {
    if s == [] then []
    else if IsSpace(s[0]) then Words(s[1..])
    else
      var n := TokenLength(s);
      [s[..n]] + Words(s[n..])
  }

  /** A word has no whitespace and is not empty. */
  predicate IsWord(w: string) {
    |w| > 0 && forall i :: 0 <= i < |w| ==> !IsSpace(w[i])
  }

  /** `" ".join(ws)`. */
  function JoinWords(ws: seq<string>): string {
    if |ws| == 0 then ""
    else if |ws| == 1 then ws[0]
    else ws[0] + " " + JoinWords(ws[1..])
  }

  lemma {:induction false} TokenLengthOfWord(w: string, rest: string)
    requires IsWord(w)
    requires rest == [] || IsSpace(rest[0])
    ensures TokenLength(w + rest) == |w|
    decreases |w|
  {
    assert (w + rest)[0] == w[0];
    if |w| > 1 {
      assert (w + rest)[1..] == w[1..] + rest;
      TokenLengthOfWord(w[1..], rest);
    } else {
      assert (w + rest)[1..] == rest;
    }
  }

  /** A word followed by a separator (or by nothing) splits off as one word. */
  lemma WordsOfWordThen(w: string, rest: string)
    requires IsWord(w)
    requires rest == [] || IsSpace(rest[0])
    ensures Words(w + rest) == [w] + Words(rest)
  {
    TokenLengthOfWord(w, rest);
    var s := w + rest;
    assert s[0] == w[0];
    assert s[..|w|] == w;
    assert s[|w|..] == rest;
  }

  lemma WordsSkipsLeadingSpace(t: string)
    ensures Words(" " + t) == Words(t)
  {
    assert (" " + t)[1..] == t;
  }

  /** A run that stops inside `s` stops at the same place whatever follows. */
  lemma {:induction false} TokenLengthStopsInside(s: string, r: string)
    requires TokenLength(s) < |s|
    ensures TokenLength(s + r) == TokenLength(s)
    decreases |s|
  {
    assert (s + r)[0] == s[0];
    if !IsSpace(s[0]) {
      assert (s + r)[1..] == s[1..] + r;
      TokenLengthStopsInside(s[1..], r);
    }
  }

  /** A word that ends inside `s` splits off the same way whatever follows. */
  lemma WordsOfTokenThen(s: string, r: string)
    requires s != [] && !IsSpace(s[0]) && TokenLength(s) < |s|
    ensures Words(s + r) == [s[..TokenLength(s)]] + Words(s[TokenLength(s)..] + r)
  {
    var m := TokenLength(s);
    TokenLengthStopsInside(s, r);
    assert (s + r)[0] == s[0];
    assert (s + r)[..m] == s[..m];
    assert (s + r)[m..] == s[m..] + r;
  }

  /** Any whitespace character separates words: splitting around it splits each
      side on its own, so runs of spaces, tabs and newlines never produce empty
      words or join their neighbours. */
  lemma {:induction false} WordsAroundSpace(s: string, c: char, t: string)
    requires IsSpace(c)
    ensures Words(s + [c] + t) == Words(s) + Words(t)
    decreases |s|, 1
  {
    if s == [] {
      assert s + [c] + t == [c] + t;
      assert ([c] + t)[1..] == t;
    } else if IsSpace(s[0]) {
      SpaceFirstAroundSpace(s, c, t);
    } else if TokenLength(s) < |s| {
      TokenFirstAroundSpace(s, c, t);
    } else {
      WordAroundSpace(s, c, t);
    }
  }

  /** `WordsAroundSpace` when `s` starts with whitespace. */
  lemma {:induction false} SpaceFirstAroundSpace(s: string, c: char, t: string)
    requires IsSpace(c) && s != [] && IsSpace(s[0])
    ensures Words(s + [c] + t) == Words(s) + Words(t)
    decreases |s|, 0
  {
    var x := s + [c] + t;
    assert x[0] == s[0];
    assert x[1..] == s[1..] + [c] + t;
    WordsAroundSpace(s[1..], c, t);
  }

  /** `WordsAroundSpace` when `s` starts with a word that ends inside `s`. */
  lemma {:induction false} TokenFirstAroundSpace(s: string, c: char, t: string)
    requires IsSpace(c) && s != [] && !IsSpace(s[0]) && TokenLength(s) < |s|
    ensures Words(s + [c] + t) == Words(s) + Words(t)
    decreases |s|, 0
  {
    var m := TokenLength(s);
    var ct := [c] + t;
    assert s + [c] + t == s + ct;
    WordsOfTokenThen(s, ct);
    WordsOfTokenThen(s, []);
    assert s + [] == s;
    assert s[m..] + [] == s[m..];
    assert s[m..] + ct == s[m..] + [c] + t;
    WordsAroundSpace(s[m..], c, t);
  }

  /** `WordsAroundSpace` when all of `s` is one word. */
  lemma WordAroundSpace(s: string, c: char, t: string)
    requires IsSpace(c) && s != [] && !IsSpace(s[0]) && TokenLength(s) == |s|
    ensures Words(s + [c] + t) == Words(s) + Words(t)
  {
    var ct := [c] + t;
    assert s + [c] + t == s + ct;
    assert ct[0] == c && ct[1..] == t;
    assert IsWord(s);
    WordsOfWordThen(s, ct);
    WordsOfWordThen(s, []);
    assert s + [] == s;
  }

  /** Splitting undoes joining with single spaces. */
  lemma {:induction false} WordsJoinRoundTrip(ws: seq<string>)
    requires forall i :: 0 <= i < |ws| ==> IsWord(ws[i])
    ensures Words(JoinWords(ws)) == ws
  {
    if |ws| == 1 {
      WordsOfWordThen(ws[0], "");
      assert ws[0] + "" == ws[0];
    } else if |ws| > 1 {
      var tail := JoinWords(ws[1..]);
      var sep := " " + tail;
      assert JoinWords(ws) == ws[0] + sep;
      WordsJoinRoundTrip(ws[1..]);
      WordsOfWordThen(ws[0], sep);
      WordsSkipsLeadingSpace(tail);
      assert Words(JoinWords(ws)) == [ws[0]] + ws[1..];
    }
  }

  /** `ws.count(k)`: how many entries are exactly `k`. */
  function Occurrences(ws: seq<string>, k: string): (n: nat)
    ensures n == multiset(ws)[k]
    ensures n <= |ws|
  {
    if ws == [] then 0
    else
      assert ws == [ws[0]] + ws[1..];
      (if ws[0] == k then 1 else 0) + Occurrences(ws[1..], k)
  }

  /** The cleaned, lower-cased words of a raw body. */
  function Tokens(content: string): (ws: seq<string>)
    ensures forall w | w in ws :: |w| > 0
    ensures forall w, c | w in ws && c in w :: IsWordChar(c) && !IsUpper(c)
  {
    var clean := StripPunctuation(StripTags(content));
    var lowered := Lower(clean);
    assert forall c | c in lowered :: (IsWordChar(c) || IsSpace(c)) && !IsUpper(c) by {
      forall c | c in lowered ensures (IsWordChar(c) || IsSpace(c)) && !IsUpper(c) {
        var i :| 0 <= i < |lowered| && lowered[i] == c;
        assert clean[i] in clean;
      }
    }
    Words(lowered)
  }

  /** `calculate_keyword_density(content, keyword)`. */
  function Calculate(content: string, keyword: string): (d: DensityReport)
    ensures d.keywordCount <= d.totalWords
    ensures d.totalWords == 0 ==> d.keywordCount == 0
    ensures IsPercentage(d.density, d.keywordCount, d.totalWords)
    ensures d.totalWords == |Tokens(content)|
    ensures d.keywordCount == multiset(Tokens(content))[Lower(keyword)]
  {
    var words := Tokens(content);
    var total := |words|;
    var count := Occurrences(words, Lower(keyword));
    var density := Percentage(count, total);
    DensityReport(total, count, density)
  }

  /** `d` is `count` as a percentage of `total`, and 0 when `total` is 0: it lies
      in [0, 100] and `d * total == 100 * count`. */
  ghost predicate IsPercentage(d: real, count: nat, total: nat) {
    && 0.0 <= d <= 100.0
    && (total == 0 ==> d == 0.0)
    && (total > 0 ==> d * (total as real) == 100.0 * (count as real))
  }

  /** `(count / total) * 100 if total > 0 else 0`. */
  function Percentage(count: nat, total: nat): (d: real)
    requires count <= total
    ensures IsPercentage(d, count, total)
  {
    if total > 0 then
      DivideAtMostOne(count as real, total as real);
      (count as real / total as real) * 100.0
    else 0.0
  }

  lemma DivideAtMostOne(a: real, b: real)
    requires 0.0 <= a <= b && b > 0.0
    ensures 0.0 <= a / b <= 1.0
  {
    assert a / b * b == a;
  }

  /** Matching ignores case: the keyword is compared in lower case, so "SEO" and
      "seo" (and any other spelling that lowers alike) give the same report. */
  lemma CaseInsensitive(content: string, k1: string, k2: string)
    requires Lower(k1) == Lower(k2)
    ensures Calculate(content, k1) == Calculate(content, k2)
  {
  }

  /** Tokens are non-empty runs of word characters, so a keyword that is empty or
      holds a space or punctuation never matches. */
  lemma {:induction false} UnmatchableKeywordCountsZero(content: string, keyword: string)
    requires keyword == [] || exists i :: 0 <= i < |keyword| && !IsWordChar(keyword[i])
    ensures Calculate(content, keyword).keywordCount == 0
    ensures Calculate(content, keyword).density == 0.0
  {
    var words := Tokens(content);
    var k := Lower(keyword);
    if keyword != [] {
      var i :| 0 <= i < |keyword| && !IsWordChar(keyword[i]);
      assert k[i] in k && !IsWordChar(k[i]);
    }
    assert k !in words;
    assert multiset(words)[k] == 0;
  }

  /** A token matches exactly when it equals the lowered keyword: occurrences of
      the keyword in a body of joined words are its occurrences among those words. */
  lemma CountOnJoinedWords(ws: seq<string>, keyword: string)
    requires forall i :: 0 <= i < |ws| ==> IsWord(ws[i])
    requires forall i, j :: 0 <= i < |ws| && 0 <= j < |ws[i]| ==> IsWordChar(ws[i][j]) && !IsUpper(ws[i][j])
    ensures Calculate(JoinWords(ws), keyword).totalWords == |ws|
    ensures Calculate(JoinWords(ws), keyword).keywordCount == multiset(ws)[Lower(keyword)]
  {
    var s := JoinWords(ws);
    JoinedWordsAreClean(ws);
    StripTagsPlainText(s);
    StripPunctuationKeepsCleanText(s);
    assert Lower(s) == s by {
      forall i | 0 <= i < |s| ensures Lower(s)[i] == s[i] {
        assert !IsUpper(s[i]);
      }
    }
    WordsJoinRoundTrip(ws);
  }

  /** Example: in "seo tips" the keyword "SEO" matches the token "seo" once, out of
      two words, for a density of 50. */
  lemma UpperCaseKeywordExample()
    ensures Calculate("seo tips", "SEO") == DensityReport(2, 1, 50.0)
  {
    var ws := ["seo", "tips"];
    assert ws[1..] == ["tips"];
    assert JoinWords(ws) == "seo tips";
    assert Lower("SEO") == "seo";
    CountOnJoinedWords(ws, "SEO");
    assert multiset(ws)["seo"] == 1;
  }

  lemma {:induction false} JoinedWordsAreClean(ws: seq<string>)
    requires forall i, j :: 0 <= i < |ws| && 0 <= j < |ws[i]| ==> IsWordChar(ws[i][j]) && !IsUpper(ws[i][j])
    ensures forall i :: 0 <= i < |JoinWords(ws)| ==>
      (IsWordChar(JoinWords(ws)[i]) || JoinWords(ws)[i] == ' ') && !IsUpper(JoinWords(ws)[i])
    ensures '<' !in JoinWords(ws)
  {
    if |ws| > 1 {
      JoinedWordsAreClean(ws[1..]);
      var t := JoinWords(ws[1..]);
      var s := ws[0] + " " + t;
      forall i | 0 <= i < |s| ensures (IsWordChar(s[i]) || s[i] == ' ') && !IsUpper(s[i]) {
        if i < |ws[0]| {
          assert s[i] == ws[0][i];
        } else if i > |ws[0]| {
          assert s[i] == t[i - |ws[0]| - 1];
        }
      }
    } else if |ws| == 1 {
      assert forall i :: 0 <= i < |ws[0]| ==> IsWordChar(ws[0][i]);
    }
  }
}
