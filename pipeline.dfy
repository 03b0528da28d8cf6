/**
 * Steps 3 and 4 of the app's `main`: fetch the details of every discovered
 * link, then turn every fetched article into an MP3 file named by its
 * 1-based position.
 *
 * Both steps wrap each item in its own try/except: an exception raised for
 * one item is reported and the loop carries on with the next. The calls into
 * newspaper3k and gTTS are not modelled; each is a function parameter that
 * gives back, per item, either a value or the message of the exception it
 * raised. The Streamlit output lines are modelled as report values, one per
 * item, in loop order.
 */
module Pipeline {
  import opened Text
  import LinkExtractor

  datatype Option<T> = None | Some(value: T)

  /** What a call into an external library gives back: a value, or the
      message of the exception it raised. */
  datatype Result<T> = Ok(value: T) | Err(message: string)

  /** The dictionary `extract_article_details` returns. */
  datatype ArticleDetails = ArticleDetails(
    title: string,
    authors: seq<string>,
    publishDate: Option<string>,
    text: string)

  /** The line step 3 writes for one link: the title on success, the link and
      the exception message on failure. */
  datatype FetchReport = Extracted(title: string) | FetchFailed(link: string, message: string)

  /** The line step 4 writes for one article: the file written and the title,
      or the title and the exception message. */
  datatype AudioReport = AudioSaved(fileName: string, title: string) | AudioFailed(title: string, message: string)

  // ---------------------------------------------------------------------
  // Step 3: fetch every link, each in its own try/except

  function FetchReportFor(link: string, outcome: Result<ArticleDetails>): FetchReport
  {
    match outcome
    case Ok(details) => Extracted(details.title)
    case Err(message) => FetchFailed(link, message)
  }

  /** What one fetch adds to `articles`: its details, or nothing. */
  function Contribution(outcome: Result<ArticleDetails>): seq<ArticleDetails>
  {
    if outcome.Ok? then [outcome.value] else []
  }

  /** The details of the links whose fetch succeeded, in link order. */
  function Successes(links: seq<string>, fetch: string -> Result<ArticleDetails>): seq<ArticleDetails>
  {
    if links == [] then []
    else
      Successes(links[..|links| - 1], fetch) + Contribution(fetch(links[|links| - 1]))
  }

  /** The links whose fetch failed, in link order. */
  function FailedLinks(links: seq<string>, fetch: string -> Result<ArticleDetails>): seq<string>
  {
    if links == [] then []
    else
      var init, last := links[..|links| - 1], links[|links| - 1];
      if fetch(last).Err? then FailedLinks(init, fetch) + [last] else FailedLinks(init, fetch)
  }

  /** The loop of step 3: `articles` grows by one entry per successful fetch,
      and every link, failing or not, gets its report line. */
  method ExtractArticles(links: seq<string>, fetch: string -> Result<ArticleDetails>)
    returns (articles: seq<ArticleDetails>, reports: seq<FetchReport>)
    ensures articles == Successes(links, fetch)
    ensures |reports| == |links|
    ensures forall k :: 0 <= k < |links| ==> reports[k] == FetchReportFor(links[k], fetch(links[k]))
  {
    articles, reports := [], [];
    for i := 0 to |links|
      invariant articles == Successes(links[..i], fetch)
      invariant |reports| == i
      invariant forall k :: 0 <= k < i ==> reports[k] == FetchReportFor(links[k], fetch(links[k]))
    {
      var link := links[i];
      assert links[..i + 1] == links[..i] + [link];
      SuccessesStep(links[..i], link, fetch);
      var outcome := fetch(link);
      match outcome {
        case Ok(details) =>
          articles := articles + [details];
          reports := reports + [Extracted(details.title)];
        case Err(message) =>
          reports := reports + [FetchFailed(link, message)];
      }
    }
    assert links[..|links|] == links;
  }

  lemma SuccessesStep(links: seq<string>, link: string, fetch: string -> Result<ArticleDetails>)
    ensures Successes(links + [link], fetch) == Successes(links, fetch) + Contribution(fetch(link))
  {
    assert (links + [link])[..|links|] == links;
  }

  lemma {:induction false} SuccessesConcat(a: seq<string>, b: seq<string>, fetch: string -> Result<ArticleDetails>)
    ensures Successes(a + b, fetch) == Successes(a, fetch) + Successes(b, fetch)
  {
    if b == [] {
      assert a + b == a;
    } else {
      var init, last := b[..|b| - 1], b[|b| - 1];
      assert b == init + [last];
      assert a + b == (a + init) + [last];
      SuccessesConcat(a, init, fetch);
      SuccessesStep(a + init, last, fetch);
      SuccessesStep(init, last, fetch);
    }
  }

  /** Failure isolation: around any link, the articles are those gathered
      from the links before it, then its own details if its fetch succeeded
      and nothing if it failed, then those gathered from the links after it,
      exactly as if those had been processed on their own. A failing link is
      as good as absent. */
  lemma FailureIsolation(before: seq<string>, link: string, after: seq<string>,
                         fetch: string -> Result<ArticleDetails>)
    ensures Successes(before + [link] + after, fetch)
         == Successes(before, fetch) + Contribution(fetch(link)) + Successes(after, fetch)
    ensures fetch(link).Err? ==>
      Successes(before + [link] + after, fetch) == Successes(before + after, fetch)
  {
    SuccessesConcat(before + [link], after, fetch);
    SuccessesStep(before, link, fetch);
    SuccessesConcat(before, after, fetch);
  }

  /** Every article comes from a link whose fetch succeeded with it. */
  lemma {:induction false} SuccessesSound(links: seq<string>, fetch: string -> Result<ArticleDetails>)
    ensures forall details :: details in Successes(links, fetch) ==>
      exists link :: link in links && fetch(link) == Ok(details)
  {
    if links != [] {
      var init, last := links[..|links| - 1], links[|links| - 1];
      SuccessesSound(init, fetch);
      assert links == init + [last];
    }
  }

  /** Every link ends up on exactly one side: its details among the articles,
      or the link among the failures. */
  lemma {:induction false} FetchPartition(links: seq<string>, fetch: string -> Result<ArticleDetails>)
    ensures |Successes(links, fetch)| + |FailedLinks(links, fetch)| == |links|
    ensures forall link :: link in FailedLinks(links, fetch) <==> link in links && fetch(link).Err?
  {
    if links != [] {
      var init, last := links[..|links| - 1], links[|links| - 1];
      FetchPartition(init, fetch);
      assert links == init + [last];
    }
  }

  // ---------------------------------------------------------------------
  // Step 4: one audio file per article, each in its own try/except

  /** `f"article_{n}.mp3"` */
  function AudioFileName(n: nat): string
  {
    "article_" + DecimalString(n) + ".mp3"
  }

  function AudioReportFor(article: ArticleDetails, fileName: string, outcome: Result<string>): AudioReport
  {
    match outcome
    case Ok(_) => AudioSaved(fileName, article.title)
    case Err(message) => AudioFailed(article.title, message)
  }

  /** The loop of step 4 over `enumerate(articles)`: the article at index `i`
      is spoken into `article_{i + 1}.mp3`, and every article gets its report
      line whatever happened to the ones before it. */
  method ConvertArticlesToAudio(articles: seq<ArticleDetails>, speak: (string, string) -> Result<string>)
    returns (reports: seq<AudioReport>)
    ensures |reports| == |articles|
    ensures forall i :: 0 <= i < |articles| ==>
      reports[i] == AudioReportFor(articles[i], AudioFileName(i + 1), speak(articles[i].text, AudioFileName(i + 1)))
  {
    reports := [];
    for i := 0 to |articles|
      invariant |reports| == i
      invariant forall k :: 0 <= k < i ==>
        reports[k] == AudioReportFor(articles[k], AudioFileName(k + 1), speak(articles[k].text, AudioFileName(k + 1)))
    {
      var article := articles[i];
      var fileName := AudioFileName(i + 1);
      var outcome := speak(article.text, fileName);
      match outcome {
        case Ok(_) =>
          reports := reports + [AudioSaved(fileName, article.title)];
        case Err(message) =>
          reports := reports + [AudioFailed(article.title, message)];
      }
    }
  }

  /** The number can be read back out of the file name. */
  lemma AudioFileNameNumber(n: nat)
    ensures var name := AudioFileName(n);
      |name| > 12 && ParseDecimal(name[8..|name| - 4]) == n
  {
    var name := AudioFileName(n);
    assert name[8..|name| - 4] == DecimalString(n);
    ParseDecimalString(n);
  }

  /** Distinct positions get distinct file names. */
  lemma AudioFileNameInjective(m: nat, n: nat)
    requires AudioFileName(m) == AudioFileName(n)
    ensures m == n
  {
    AudioFileNameNumber(m);
    AudioFileNameNumber(n);
  }

  /** Numbering starts at one. */
  lemma FirstAudioFileNames()
    ensures AudioFileName(1) == "article_1.mp3"
    ensures AudioFileName(12) == "article_12.mp3"
  {
  }

  /** Two saved reports of one run never name the same file, so no article's
      audio overwrites another's. */
  lemma SavedFileNamesDistinct(articles: seq<ArticleDetails>, speak: (string, string) -> Result<string>,
                               reports: seq<AudioReport>, i: nat, j: nat)
    requires |reports| == |articles|
    requires forall k :: 0 <= k < |articles| ==>
      reports[k] == AudioReportFor(articles[k], AudioFileName(k + 1), speak(articles[k].text, AudioFileName(k + 1)))
    requires i < j < |reports| && reports[i].AudioSaved? && reports[j].AudioSaved?
    ensures reports[i].fileName != reports[j].fileName
  {
    if reports[i].fileName == reports[j].fileName {
      AudioFileNameInjective(i + 1, j + 1);
    }
  }

  // ---------------------------------------------------------------------
  // Steps 2 to 4 in sequence

  /** The body of `main` after the homepage has been fetched and parsed. */
  method Run(hrefs: seq<string>, fetch: string -> Result<ArticleDetails>, speak: (string, string) -> Result<string>)
    returns (links: seq<string>, articles: seq<ArticleDetails>,
             fetchReports: seq<FetchReport>, audioReports: seq<AudioReport>)
    ensures links == LinkExtractor.ArticleLinks(hrefs)
    ensures articles == Successes(links, fetch)
    ensures |fetchReports| == |links| && |audioReports| == |articles|
    ensures forall k :: 0 <= k < |links| ==> fetchReports[k] == FetchReportFor(links[k], fetch(links[k]))
    ensures forall i :: 0 <= i < |articles| ==>
      audioReports[i] == AudioReportFor(articles[i], AudioFileName(i + 1), speak(articles[i].text, AudioFileName(i + 1)))
  {
    links := LinkExtractor.ExtractArticleLinks(hrefs);
    articles, fetchReports := ExtractArticles(links, fetch);
    audioReports := ConvertArticlesToAudio(articles, speak);
  }

  /** A page with two year-2024 site links, a link to another site and a link
      of another year, where fetching the second link fails: one article
      results, and the second link is the one failure. */
  lemma MixedPageOneFailure(fetch: string -> Result<ArticleDetails>)
    requires fetch("https://www.cnn.com/2024/a").Ok?
    requires fetch("https://www.cnn.com/2024/b").Err?
    ensures var links := LinkExtractor.ArticleLinks(["/2024/a", "/2024/b", "https://other.com/2024/c", "/2023/d"]);
      && Successes(links, fetch) == [fetch("https://www.cnn.com/2024/a").value]
      && FailedLinks(links, fetch) == ["https://www.cnn.com/2024/b"]
  {
    LinkExtractor.MixedPageExample();
    var a, b := "https://www.cnn.com/2024/a", "https://www.cnn.com/2024/b";
    SuccessesStep([], a, fetch);
    SuccessesStep([a], b, fetch);
    assert [] + [a] == [a] && [a] + [b] == [a, b];
    assert [a, b][..1] == [a] && [a][..0] == [];
  }
}
