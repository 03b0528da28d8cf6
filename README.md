# CNN news extractor: link discovery and per-item failure isolation

This project models, in Dafny, the part of the CNN news extractor app
(`cnn_news_extractor.py`) that has logic of its own:

- **Link discovery** (`extract_article_links`). Given the `href` values of the
  homepage's `<a>` tags in document order, it keeps the hrefs that start with
  `/`, prefixes each with `https://www.cnn.com`, keeps the full URLs that
  contain `/2024/`, and skips a URL already in the output list. The model is a
  method with the source's loop (`LinkExtractor.ExtractArticleLinks`), proved
  equal to a specification function (`ArticleLinks`: filter-and-prefix, then
  drop repeats). Lemmas prove soundness, completeness, distinctness, the
  count, first-seen order, that the year test may be read on the href alone,
  and that hrefs not starting with `/` never contribute.
- **Fetching the articles** (step 3 of `main`). Each link is fetched inside
  its own try/except. A success is appended to `articles`; a failure is
  reported and the loop goes on. The article fetcher is a function parameter
  `fetch: string -> Result<ArticleDetails>`. `Pipeline.ExtractArticles` is
  proved to return exactly the successful results in link order, plus one
  report line per link. `FailureIsolation` shows that a failing link only drops
  its own entry.
- **Audio conversion** (step 4 of `main`). Article `i` (0-based) is spoken
  into `article_{i+1}.mp3`, each inside its own try/except. The speech service
  is a function parameter. `Pipeline.ConvertArticlesToAudio` gives one report
  per article. The file names are 1-based and pairwise distinct; this is proved
  by reading the number back out of the name.
- Python's `str.startswith`, the substring test `t in s` and `str(n)` are
  modelled in module `Text`.

Strings are `seq<char>`, one element per code point, as Python strings are.

Where the code and the design description of the system disagree, the model
follows the code:

- The design resolves only hrefs with a single leading slash. The code accepts
  any href starting with `/`. So a network-path reference such as
  `//edition.cnn.com/2024/a` (section 4.2 of RFC 3986) becomes
  `https://www.cnn.com//edition.cnn.com/2024/a`, a path on www.cnn.com.
  `NetworkPathHrefAccepted` and `NetworkPathExample` state this behaviour.
- The design keeps an ingestion result with a `failed` list. The code only
  writes an error line per failing link. The model returns those lines as
  `FetchReport` values. `FailedLinks` is the specification-level list of
  failing links, used to state the partition property.
- The design describes a set of candidate links. The code returns a list in
  first-seen order, and that is what is modelled.

## Model

| member | source | states |
|---|---|---|
| `LinkExtractor.ExtractArticleLinks` | cnn_news_extractor.py:18-27 | the loop returns `ArticleLinks(hrefs)`, the resolved accepted hrefs with repeats removed; the list has no repeats and every entry is a resolved accepted href |
| `LinkExtractor.LinksSound` | cnn_news_extractor.py:21-26 | every returned URL is `https://www.cnn.com` followed by an href of the page that starts with `/`, and both the URL and that href contain `/2024/` |
| `LinkExtractor.LinksComplete` | cnn_news_extractor.py:21-26 | every href that starts with `/` and whose full URL contains `/2024/` appears, resolved, in the output |
| `LinkExtractor.LinksDistinctAndCounted` | cnn_news_extractor.py:25-26 | the output has no repeats; its length equals the number of distinct accepted full URLs and is at most the number of hrefs |
| `LinkExtractor.LinksFirstSeenOrder` | cnn_news_extractor.py:20-27 | if URL x is listed before URL y, then x already occurred among the accepted full URLs before any occurrence of y |
| `LinkExtractor.DedupFirstSeenOrder` | cnn_news_extractor.py:25-26 | removing repeats by testing against the list built so far lists each value at the place of its first occurrence |
| `LinkExtractor.DedupElements` | cnn_news_extractor.py:25-26 | removing repeats keeps exactly the values that occur |
| `LinkExtractor.YearTestOnHref` | cnn_news_extractor.py:24-25 | the full URL contains `/2024/` if and only if the href does: no `/2024/` can start inside the origin |
| `LinkExtractor.NonRelativeHrefIgnored` | cnn_news_extractor.py:23 | inserting an href that does not start with `/` (for example `https://other.com/...`) anywhere in the page leaves the output unchanged |
| `LinkExtractor.NetworkPathHrefAccepted` | cnn_news_extractor.py:23-24 | an href starting with `//` that contains `/2024/` passes both tests, and its full URL starts with `https://www.cnn.com/` |
| `LinkExtractor.NetworkPathExample` | cnn_news_extractor.py:23-26 | the page `["//edition.cnn.com/2024/a"]` yields `["https://www.cnn.com//edition.cnn.com/2024/a"]` |
| `LinkExtractor.SingleArticle` | cnn_news_extractor.py:20-27 | a page whose one href passes the tests yields exactly that href, resolved |
| `LinkExtractor.TwoOfFour` | cnn_news_extractor.py:20-27 | with two distinct passing hrefs followed by two failing ones, the output is the two passing hrefs, resolved, in page order |
| `LinkExtractor.MixedPageExample` | cnn_news_extractor.py:21-26 | `/2024/a`, `/2024/b`, `https://other.com/2024/c`, `/2023/d` yield exactly the two `www.cnn.com/2024/` URLs, in order |
| `Text.ContainsIffOccurs` | cnn_news_extractor.py:25 | the model of Python's `t in s` holds exactly when `t` occurs in `s` at some offset |
| `Text.StartsWithSlice` | cnn_news_extractor.py:23 | the model of `s.startswith(p)` holds exactly when `p` is the front slice of `s` |
| `Text.ContainsAfterPrefix` | cnn_news_extractor.py:24-25 | if no occurrence of `t` can start inside `p`, then `t in p + h` is the same as `t in h` |
| `Text.DecimalString` | cnn_news_extractor.py:71 | `str(n)` for a natural number is non-empty, all decimal digits, with no leading zero |
| `Text.ParseDecimalString` | cnn_news_extractor.py:71 | reading `str(n)` back as a decimal number gives `n` |
| `Text.DecimalStringInjective` | cnn_news_extractor.py:71 | distinct numbers render to distinct strings |
| `Pipeline.ExtractArticles` | cnn_news_extractor.py:59-66 | `articles` is the successful fetch results in link order, and there is one report per link, in order: the title on success, the link and the message on failure |
| `Pipeline.FailureIsolation` | cnn_news_extractor.py:60-66 | for any link with links before and after it, the articles are those from the links before, then the link's details only if its fetch succeeded, then those from the links after, as if each side were processed alone; a failing link gives the same articles as if it were absent |
| `Pipeline.SuccessesConcat` | cnn_news_extractor.py:60-63 | the articles from two runs of links, one after the other, are the articles of each run concatenated |
| `Pipeline.SuccessesSound` | cnn_news_extractor.py:62-63 | every article is the successful fetch result of one of the links |
| `Pipeline.FetchPartition` | cnn_news_extractor.py:60-66 | the number of articles plus the number of failed links is the number of links, and a link is among the failures exactly when its fetch failed |
| `Pipeline.ConvertArticlesToAudio` | cnn_news_extractor.py:69-76 | there is one report per article: for article `i`, a saved `article_{i+1}.mp3` or a failure message, whatever happened to earlier articles |
| `Pipeline.AudioFileNameNumber` | cnn_news_extractor.py:71 | the number `n` can be read back from between `article_` and `.mp3` in the name built from `n` |
| `Pipeline.AudioFileNameInjective` | cnn_news_extractor.py:71 | distinct positions give distinct file names |
| `Pipeline.FirstAudioFileNames` | cnn_news_extractor.py:69-71 | the first file is `article_1.mp3`, and the twelfth is `article_12.mp3` |
| `Pipeline.SavedFileNamesDistinct` | cnn_news_extractor.py:69-74 | two saved reports of one run never name the same file |
| `Pipeline.Run` | cnn_news_extractor.py:55-76 | steps 2 to 4 chained: the links are `ArticleLinks(hrefs)`, the articles are the successes over those links, and the fetch and audio reports are one per link and one per article |
| `Pipeline.MixedPageOneFailure` | cnn_news_extractor.py:55-66 | on the mixed page, if the second link's fetch fails, one article results and the second link is the only failure |

## Left out

- Fetching the homepage (`get_cnn_homepage`, `requests.get`): network I/O. The model starts from the homepage's hrefs.
- HTML parsing with BeautifulSoup (`find_all('a', href=True)`): a foreign library. Its output, the href values in document order, is the model's input. Anchors without an href never reach the loop, so the model has no case for them.
- `extract_article_details` (newspaper3k download and parse): foreign network-and-parse calls. The fetcher is a pure function parameter from URL to details or error message. This means one deterministic outcome per URL. The source also calls it once per link.
- `text_to_speech` (gTTS and the file write) and `st.audio`: an external service and file I/O. They are one function parameter giving success or an error message. Only the file naming and the per-article isolation are modelled.
- Streamlit output (`st.title`, `st.header`, `st.button`, `st.write`, `st.success`, `st.error`): the per-item lines of steps 3 and 4 are modelled as report values. Headers, the button gate and the "Found N articles" line are presentation and are not modelled.
- Exception types: every exception is caught as a message string, as the source's `except Exception as e` does. The publish date is an optional string, because the model never inspects it.
- In step 3, `st.write` is inside the try, after the append. An exception from it would leave the article appended and also report a failure. That line cannot fail on a dictionary that always has a `title` key, so the model does not include this case.
- The text preprocessor, corpus builder, topic model and model-summary exporter of the system's design are not part of this model: the repository has no code for them.
