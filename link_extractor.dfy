/**
 * Link discovery on the CNN homepage (`extract_article_links`).
 *
 * The HTML parser is not modelled: the input is the sequence of `href`
 * values of the page's `<a href=...>` tags, in document order. An href is
 * kept when it is site-relative (starts with `/`); it is then resolved by
 * prefixing the site origin, and the full URL is kept when it contains the
 * year marker `/2024/` and is not yet in the output list.
 */
module LinkExtractor {
  import opened Text

  const SITE_ORIGIN: string := "https://www.cnn.com"
  const YEAR_MARKER: string := "/2024/"

  /** The full URL built from an href, `https://www.cnn.com{href}`. */
  function FullUrl(href: string): string
  {
    SITE_ORIGIN + href
  }

  /** The two tests an href must pass, apart from the repeat check: it starts
      with `/`, and its full URL contains the year marker. */
  predicate IsArticleHref(href: string)
  {
    StartsWith(href, "/") && Contains(FullUrl(href), YEAR_MARKER)
  }

  /** The full URLs of the hrefs that pass both tests, in document order,
      repeats included. */
  function Candidates(hrefs: seq<string>): seq<string>
  {
    if hrefs == [] then []
    else
      var last := hrefs[|hrefs| - 1];
      Candidates(hrefs[..|hrefs| - 1]) + (if IsArticleHref(last) then [FullUrl(last)] else [])
  }

  /** `s` with every element after its first occurrence removed. */
  function Dedup<T(==)>(s: seq<T>): seq<T>
  {
    if s == [] then []
    else
      var init, last := s[..|s| - 1], s[|s| - 1];
      if last in init then Dedup(init) else Dedup(init) + [last]
  }

  /** The list `extract_article_links` returns for the given hrefs. */
  function ArticleLinks(hrefs: seq<string>): seq<string>
  {
    Dedup(Candidates(hrefs))
  }

  predicate Distinct<T(==)>(s: seq<T>)
  {
    forall i, j :: 0 <= i < j < |s| ==> s[i] != s[j]
  }

  /** A URL as the extractor emits it: the site origin, followed by an href of
      the page that starts with `/`, with the year marker in it. */
  predicate IsArticleUrlFrom(url: string, hrefs: seq<string>)
  {
    && |SITE_ORIGIN| <= |url|
    && url == FullUrl(url[|SITE_ORIGIN|..])
    && url[|SITE_ORIGIN|..] in hrefs
    && StartsWith(url[|SITE_ORIGIN|..], "/")
    && Contains(url, YEAR_MARKER)
    && Contains(url[|SITE_ORIGIN|..], YEAR_MARKER)
  }

  /** The loop of `extract_article_links`: filter, prefix, and skip repeats by
      a membership test against the list built so far. */
  method ExtractArticleLinks(hrefs: seq<string>) returns (articleLinks: seq<string>)
    ensures articleLinks == ArticleLinks(hrefs)
    ensures Distinct(articleLinks)
    ensures forall url :: url in articleLinks ==> url in Candidates(hrefs)
  {
    articleLinks := [];
    for i := 0 to |hrefs|
      invariant articleLinks == Dedup(Candidates(hrefs[..i]))
      invariant Distinct(articleLinks)
    {
      var href := hrefs[i];
      ghost var seen := Candidates(hrefs[..i]);
      assert hrefs[..i + 1] == hrefs[..i] + [href];
      CandidatesStep(hrefs[..i], href);
      DedupElements(seen);
      if StartsWith(href, "/") {
        var fullUrl := FullUrl(href);
        DedupStep(seen, fullUrl);
        if Contains(fullUrl, YEAR_MARKER) && fullUrl !in articleLinks {
          articleLinks := articleLinks + [fullUrl];
        }
      }
    }
    assert hrefs[..|hrefs|] == hrefs;
    DedupElements(Candidates(hrefs));
  }

  // ---------------------------------------------------------------------
  // Repeat removal

  lemma DedupStep<T>(s: seq<T>, x: T)
    ensures Dedup(s + [x]) == if x in s then Dedup(s) else Dedup(s) + [x]
  {
    assert (s + [x])[..|s|] == s;
  }

  /** Removing repeats keeps exactly the elements that occur. */
  lemma {:induction false} DedupElements<T>(s: seq<T>)
    ensures forall x :: x in Dedup(s) <==> x in s
  {
    if s != [] {
      var init := s[..|s| - 1];
      DedupElements(init);
      assert s == init + [s[|s| - 1]];
    }
  }

  /** Removing repeats leaves no repeats. */
  lemma {:induction false} DedupDistinct<T>(s: seq<T>)
    ensures Distinct(Dedup(s))
  {
    if s != [] {
      var init := s[..|s| - 1];
      DedupDistinct(init);
      DedupElements(init);
    }
  }

  /** Removing repeats never makes the list longer. */
  lemma {:induction false} DedupLength<T>(s: seq<T>)
    ensures |Dedup(s)| <= |s|
  {
    if s != [] {
      DedupLength(s[..|s| - 1]);
    }
  }

  /** Whenever one element of `d` is listed before another, the first has
      already occurred in `s` before any occurrence of the second. */
  ghost predicate InFirstSeenOrder<T>(d: seq<T>, s: seq<T>)
  {
    forall i, j, k :: 0 <= i < j < |d| && 0 <= k < |s| && s[k] == d[j] ==> exists m :: 0 <= m < k && s[m] == d[i]
  }

  lemma DedupOrderStep<T>(init: seq<T>, last: T)
    requires InFirstSeenOrder(Dedup(init), init)
    ensures InFirstSeenOrder(Dedup(init + [last]), init + [last])
  {
    var s := init + [last];
    DedupStep(init, last);
    var d, prev := Dedup(s), Dedup(init);
    forall i, j, k | 0 <= i < j < |d| && 0 <= k < |s| && s[k] == d[j]
      ensures exists m :: 0 <= m < k && s[m] == d[i]
    {
      assert d[i] == prev[i];
      if k < |init| {
        assert s[k] == init[k];
        assert prev[j] == d[j];
      } else {
        DedupMember(init, prev[i]);
        var m :| 0 <= m < |init| && init[m] == prev[i];
        assert s[m] == d[i];
      }
    }
  }

  lemma DedupMember<T>(s: seq<T>, x: T)
    ensures x in Dedup(s) <==> x in s
  {
    DedupElements(s);
  }

  /** First-seen order: removing repeats lists each element at the place of
      its first occurrence. */
  lemma {:induction false} DedupFirstSeenOrder<T>(s: seq<T>)
    ensures InFirstSeenOrder(Dedup(s), s)
  {
    if s != [] {
      var init, last := s[..|s| - 1], s[|s| - 1];
      assert s == init + [last];
      DedupFirstSeenOrder(init);
      DedupOrderStep(init, last);
    }
  }

  /** A list without repeats has as many elements as it has distinct values. */
  lemma {:induction false} DistinctCardinality<T>(s: seq<T>)
    requires Distinct(s)
    ensures |set x | x in s| == |s|
  {
    if s != [] {
      var init, last := s[..|s| - 1], s[|s| - 1];
      DistinctCardinality(init);
      assert last !in init;
      assert (set x | x in s) == (set x | x in init) + {last};
    }
  }

  // ---------------------------------------------------------------------
  // The filter and the prefix

  lemma CandidatesStep(hrefs: seq<string>, href: string)
    ensures Candidates(hrefs + [href])
         == if IsArticleHref(href) then Candidates(hrefs) + [FullUrl(href)] else Candidates(hrefs)
  {
    assert (hrefs + [href])[..|hrefs|] == hrefs;
    assert Candidates(hrefs) + [] == Candidates(hrefs);
  }

  lemma {:induction false} CandidatesConcat(a: seq<string>, b: seq<string>)
    ensures Candidates(a + b) == Candidates(a) + Candidates(b)
  {
    if b == [] {
      assert a + b == a;
    } else {
      var init := b[..|b| - 1];
      CandidatesConcat(a, init);
      assert (a + b)[..|a + b| - 1] == a + init;
    }
  }

  /** Every candidate is an article URL built from one of the hrefs, and the
      hrefs that pass both tests are exactly where the candidates come from. */
  lemma {:induction false} CandidatesSound(hrefs: seq<string>)
    ensures forall url :: url in Candidates(hrefs) ==> IsArticleUrlFrom(url, hrefs)
  {
    if hrefs != [] {
      var init, last := hrefs[..|hrefs| - 1], hrefs[|hrefs| - 1];
      CandidatesSound(init);
      assert hrefs == init + [last];
      if IsArticleHref(last) {
        var url := FullUrl(last);
        assert url[|SITE_ORIGIN|..] == last;
        assert url[..|SITE_ORIGIN|] == SITE_ORIGIN;
        StartsWithSlice(url, SITE_ORIGIN);
        YearTestOnHref(last);
      }
    }
  }

  lemma {:induction false} CandidatesComplete(hrefs: seq<string>, k: nat)
    requires k < |hrefs| && IsArticleHref(hrefs[k])
    ensures FullUrl(hrefs[k]) in Candidates(hrefs)
  {
    var init := hrefs[..|hrefs| - 1];
    if k < |init| {
      CandidatesComplete(init, k);
    }
  }

  /** The year test on the full URL is the same test on the href alone: the
      origin holds no `/2024/`, and none can straddle its end. */
  lemma YearTestOnHref(href: string)
    ensures Contains(FullUrl(href), YEAR_MARKER) <==> Contains(href, YEAR_MARKER)
  {
    assert NoOccurrenceStartsFrom(SITE_ORIGIN, YEAR_MARKER, 10);
    ContainsAfterPrefix(SITE_ORIGIN, href, YEAR_MARKER);
  }

  // ---------------------------------------------------------------------
  // What the extractor promises

  /** Soundness: every URL returned is the origin followed by an href of the
      page that starts with `/` and holds the year marker. */
  lemma LinksSound(hrefs: seq<string>)
    ensures forall url :: url in ArticleLinks(hrefs) ==> IsArticleUrlFrom(url, hrefs)
  {
    DedupElements(Candidates(hrefs));
    CandidatesSound(hrefs);
  }

  /** Completeness: every href that passes both tests shows up, resolved. */
  lemma LinksComplete(hrefs: seq<string>, k: nat)
    requires k < |hrefs| && IsArticleHref(hrefs[k])
    ensures FullUrl(hrefs[k]) in ArticleLinks(hrefs)
  {
    CandidatesComplete(hrefs, k);
    DedupElements(Candidates(hrefs));
  }

  /** No repeats, and no more links than hrefs; in fact exactly as many links
      as there are distinct accepted full URLs. */
  lemma LinksDistinctAndCounted(hrefs: seq<string>)
    ensures Distinct(ArticleLinks(hrefs))
    ensures |ArticleLinks(hrefs)| == |set url | url in Candidates(hrefs)|
    ensures |ArticleLinks(hrefs)| <= |hrefs|
  {
    var c := Candidates(hrefs);
    DedupDistinct(c);
    DedupElements(c);
    DistinctCardinality(Dedup(c));
    assert (set url | url in Dedup(c)) == (set url | url in c);
    DedupLength(c);
    CandidatesLength(hrefs);
  }

  lemma {:induction false} CandidatesLength(hrefs: seq<string>)
    ensures |Candidates(hrefs)| <= |hrefs|
  {
    if hrefs != [] {
      CandidatesLength(hrefs[..|hrefs| - 1]);
    }
  }

  /** Order: the links come in the order in which each first occurs among the
      accepted full URLs of the page. */
  lemma LinksFirstSeenOrder(hrefs: seq<string>)
    ensures InFirstSeenOrder(ArticleLinks(hrefs), Candidates(hrefs))
  {
    DedupFirstSeenOrder(Candidates(hrefs));
  }

  /** An href that does not start with `/` (an absolute link to another site,
      a fragment, a `mailto:`) never contributes, wherever it stands. */
  lemma NonRelativeHrefIgnored(before: seq<string>, href: string, after: seq<string>)
    requires !StartsWith(href, "/")
    ensures ArticleLinks(before + [href] + after) == ArticleLinks(before + after)
  {
    CandidatesConcat(before + [href], after);
    CandidatesConcat(before, [href]);
    CandidatesConcat(before, after);
    CandidatesStep([], href);
    assert [] + [href] == [href];
    assert Candidates(before) + [] == Candidates(before);
  }

  /** A network-path reference `//host/...` also starts with `/`; it is not
      rejected, and is resolved against the site origin as if it were a path. */
  lemma NetworkPathHrefAccepted(href: string)
    requires StartsWith(href, "//") && Contains(href, YEAR_MARKER)
    ensures IsArticleHref(href)
    ensures StartsWith(FullUrl(href), SITE_ORIGIN + "/")
  {
    StartsWithSlice(href, "//");
    StartsWithSlice(href, "/");
    assert href[..1] == href[..2][..1];
    YearTestOnHref(href);
    var url := FullUrl(href);
    StartsWithSlice(url, SITE_ORIGIN + "/");
    assert url[..|SITE_ORIGIN| + 1] == SITE_ORIGIN + href[..1];
  }

  /** A page with one href that passes the tests yields that href, resolved. */
  lemma SingleArticle(href: string)
    requires IsArticleHref(href)
    ensures ArticleLinks([href]) == [FullUrl(href)]
  {
    CandidatesStep([], href);
    assert [] + [href] == [href];
    DedupStep([], FullUrl(href));
    assert [] + [FullUrl(href)] == [FullUrl(href)];
  }

  lemma NetworkPathVerdict()
    ensures IsArticleHref("//edition.cnn.com/2024/a")
  {
    var href := "//edition.cnn.com/2024/a";
    assert StartsWith(href, "//");
    assert OccursAt(href, YEAR_MARKER, 17);
    ContainsIffOccurs(href, YEAR_MARKER);
    NetworkPathHrefAccepted(href);
  }

  /** On a page with a protocol-relative link to another host, the link comes
      out as a path under the CNN origin. */
  lemma NetworkPathExample()
    ensures ArticleLinks(["//edition.cnn.com/2024/a"])
         == ["https://www.cnn.com//edition.cnn.com/2024/a"]
  {
    NetworkPathVerdict();
    SingleArticle("//edition.cnn.com/2024/a");
    NetworkPathResolved();
  }

  /** Prefixing the origin keeps the double slash: the result names a path on
      www.cnn.com, not the host of the reference. */
  lemma NetworkPathResolved()
    ensures FullUrl("//edition.cnn.com/2024/a") == "https://www.cnn.com//edition.cnn.com/2024/a"
  {
  }

  /** On four hrefs of which the first two pass the tests and differ, and the
      last two fail them, the extractor returns the first two, resolved. */
  lemma TwoOfFour(a: string, b: string, c: string, d: string)
    requires IsArticleHref(a) && IsArticleHref(b) && a != b
    requires !IsArticleHref(c) && !IsArticleHref(d)
    ensures ArticleLinks([a, b, c, d]) == [FullUrl(a), FullUrl(b)]
  {
    var urlA, urlB := FullUrl(a), FullUrl(b);
    CandidatesOfFour(a, b, c, d);
    assert urlA[|SITE_ORIGIN|..] == a && urlB[|SITE_ORIGIN|..] == b;
    DedupStep([], urlA);
    assert [] + [urlA] == [urlA];
    DedupStep([urlA], urlB);
    assert [urlA] + [urlB] == [urlA, urlB];
  }

  lemma CandidatesOfFour(a: string, b: string, c: string, d: string)
    requires IsArticleHref(a) && IsArticleHref(b)
    requires !IsArticleHref(c) && !IsArticleHref(d)
    ensures Candidates([a, b, c, d]) == [FullUrl(a), FullUrl(b)]
  {
    CandidatesStep([], a);
    assert [] + [a] == [a];
    CandidatesStep([a], b);
    assert [a] + [b] == [a, b];
    assert Candidates([a, b]) == [FullUrl(a)] + [FullUrl(b)];
    CandidatesStep([a, b], c);
    assert [a, b] + [c] == [a, b, c];
    CandidatesStep([a, b, c], d);
    assert [a, b, c] + [d] == [a, b, c, d];
  }

  lemma MixedPageVerdicts()
    ensures IsArticleHref("/2024/a") && IsArticleHref("/2024/b")
    ensures !IsArticleHref("https://other.com/2024/c") && !IsArticleHref("/2023/d")
  {
    YearTestOnHref("/2024/a");
    YearTestOnHref("/2024/b");
    YearTestOnHref("/2023/d");
  }

  /** Two year-2024 site links are kept; a link to another site and a link of
      another year are dropped. */
  lemma MixedPageExample()
    ensures ArticleLinks(["/2024/a", "/2024/b", "https://other.com/2024/c", "/2023/d"])
         == ["https://www.cnn.com/2024/a", "https://www.cnn.com/2024/b"]
  {
    MixedPageVerdicts();
    TwoOfFour("/2024/a", "/2024/b", "https://other.com/2024/c", "/2023/d");
    assert FullUrl("/2024/a") == "https://www.cnn.com/2024/a";
    assert FullUrl("/2024/b") == "https://www.cnn.com/2024/b";
  }
}
