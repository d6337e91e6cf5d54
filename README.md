# website_summarizer in Dafny

A model of the core of website_summarizer. It is a command-line tool that does four things:

- It crawls a website from a base URL, either by following same-domain links or by taking the URLs listed in the site's `sitemap.xml`.
- It stores each page under a file name derived from the URL's path.
- It summarises every stored page: key sentences chosen by TF-IDF weight, key phrases from bigram counts, and a sectioned text.
- It writes one meta-summary for the whole site.

The modules follow the Python files:

- `WebScraper` (web_scraper.py) models the crawler, `EnhancedWebScraper`.
  - It is a class `Scraper` whose `visited` set is updated in place.
  - It has the methods `Crawl`, `ExtractLinks`, `ProcessSitemap` and `Close`.
  - The network, Selenium, HTML and XML parsing, and `urljoin`/`urlparse` come in as function parameters:
    - `fetch(url, n)` is the result of the `n`-th page fetch: its content, or a raised error.
    - `anchors` gives the `href` values of a page.
    - `join` and `host` give `urljoin` and the `netloc` of `urlparse`. `None` means the call raises.
    - `sitemaps` gives the `<loc>` texts of a sitemap document, or `None` when fetching or parsing it fails.
- `FileManager` (file_manager.py) covers the file names: `_url_to_filename`, the summary and meta-summary names, and the `.txt` filter of `get_scraped_files`.
- `TextCleanup` (main.py lines 36-41) covers the clean-up of extracted page text:
  - lines are stripped;
  - lines are split on double spaces;
  - empty pieces are dropped;
  - the rest are joined with newlines.
- `Summarizer` (summarizer.py) covers five parts:
  - `preprocess_text`, with its three regular-expression passes written out as scans;
  - the top-k sentence selection of `extract_key_sentences`;
  - `extract_key_phrases`, as a dictionary with insertion order and a stable descending sort;
  - `structure_summary`;
  - `create_meta_summary`.
- `App` (main.py) covers `summarize_website`:
  - the early exit when nothing was stored;
  - the loop that summarises each stored page under a URL rebuilt from its file name;
  - the final meta-summary.

  File writes become the list of writes the run performs.
- `Strings`, `Sequences` and `Wrappers` hold the Python string operations the model needs, general sequence facts, and `Option`.

Python dictionaries are sequences of pairs in insertion order. Python sets are Dafny sets. `set.pop()` is a choice of any member.

## Model

| member | source | states |
|---|---|---|
| TextCleanup.CleanUp | main.py:36-41 | the fragments joined with "\n": splitting the output on "\n" gives exactly the fragments, and the output is "" exactly when there are none |
| TextCleanup.FragmentsWellFormed | main.py:37-41 | every fragment is non-empty, has no surrounding whitespace, no "  " and no line break |
| TextCleanup.SplitCleanUp | main.py:41 | every line of a non-empty output is non-empty, has no surrounding whitespace and holds no "  ", so no output line is blank |
| TextCleanup.CleanUpNonSpace | main.py:36-41 | every non-whitespace character of the input survives, in order, and nothing else is added |
| TextCleanup.CleanUpEmpty | main.py:36-41 | the output is "" exactly when the input is empty or all whitespace |
| TextCleanup.CleanUpIdempotent | main.py:36-41 | cleaning up twice is the same as cleaning up once |
| TextCleanup.SplitOnDoubleSpace | main.py:39 | `split("  ")` gives at least one field; no field holds "  "; a line without line breaks gives fields without them |
| TextCleanup.SplitOnDoubleSpaceJoin | main.py:39 | `line.split("  ")` loses nothing: joining the fields with "  " gives the line back |
| TextCleanup.SplitOnDoubleSpaceLeftmost | main.py:39 | `line.split("  ")` cuts at the leftmost separator each time: no field but the last ends with a space |
| App.DropLastFour | main.py:68 | `file[:-4]`: the stem plus the last four characters is the name, or "" for a name shorter than four |
| App.ReconstructUrl | main.py:68 | for a ".txt" name, the URL plus ".txt" is "https://", the domain, "/" and the name |
| App.ReconstructUrlInjective | main.py:68 | two ".txt" names give the same URL if and only if they are equal |
| App.RebuiltUrlRoundTrip | main.py:68-70 | when the stored name has no '?', '#' or ';', the rebuilt URL's path maps back to the same name, and its summary is that name plus "_summary.txt" |
| App.RebuiltPathLosesSlashes | main.py:68 | for segments x, y without '/', '?', '#' or ';': the pages "/x/y" and "/x_y" are both stored as "x_y.txt", which is rebuilt as "/x_y", so the first page's own URL is not recovered |
| App.SemicolonBreaksRoundTrip | main.py:68-70 | the page "/x;y/" is stored as "x;y.txt"; the rebuilt URL's path is "/x", so its summary goes to "x.txt_summary.txt" and not to the page's own name plus "_summary.txt" |
| App.RebuiltPath | main.py:68-70 | the path `urlparse` finds in the rebuilt URL: "/" followed by the longest prefix of the stem without '?', '#' or ';', cut exactly at the first such character |
| App.SegmentEnd | main.py:68 | where `urlparse` ends the path in the last segment: before the first '?', '#' or ';' |
| App.Put | main.py:69 | dictionary assignment: a URL not yet present is appended at the end; a present URL leaves the number of entries unchanged |
| App.PutReplaces | main.py:69 | dictionary assignment to a present URL replaces that entry in place: it keeps its position and takes the new summary, and every other entry stays as it was |
| App.SameFragmentsSameSummary | main.py:56-66 | a page's summary depends only on the fragments of its extracted text: pages with the same fragments get the same summary |
| App.SummarizeWebsite | main.py:45-74 | with no stored ".txt" file, nothing is written (lines 51-53); otherwise one summary per file in listing order, under its rebuilt URL, then the meta-summary of the dictionary |
| App.SummarizePages | main.py:55-70 | the loop's writes are one per file in order, and its dictionary is the specification fold `AllSummaries` |
| App.AllSummariesOnePerFile | main.py:55-69 | with distinct ".txt" names, the dictionary has one (URL, summary) entry per file, in listing order |
| FileManager.UrlToFilename | file_manager.py:42-44 | the name ends in ".txt", is longer than four characters and contains no '/' |
| FileManager.SlashOnlyPathIsIndex | file_manager.py:44 | an empty path, or one made only of slashes, gives "index.txt" |
| FileManager.FilenameOfPath | file_manager.py:42-44 | otherwise the stem is the path between its leading and trailing slashes, with every '/' turned into '_' |
| FileManager.NamesCollide | file_manager.py:44 | for segments x, y without '/': the distinct paths "/x/y", "/x/y/" and "/x_y" all get the name "x_y.txt" |
| FileManager.ScrapedFiles | file_manager.py:46-47 | a name is kept if and only if it ends in ".txt"; each kept name appears as often as in the listing |
| FileManager.ScrapedFilesInOrder | file_manager.py:47 | the kept names are a subsequence of the listing |
| FileManager.SummaryFileName | file_manager.py:28-30 | the summary's name is a ".txt" name followed by "_summary.txt" |
| FileManager.RootSummaryName | file_manager.py:28-30 | the summary of the page "/" is "index.txt_summary.txt" |
| FileManager.MetaSummaryFileName | file_manager.py:34-35 | the name starts with the domain and ends in "_FULL_SUMMARY.txt" |
| Summarizer.StripTags | summarizer.py:24 | no tag is left; no character is introduced; a first character other than '<' is kept |
| Summarizer.StripTagsKeepsOutside | summarizer.py:24 | for text `a` without '<' and a tag "<t>" with non-empty `t` free of '>': `a` is kept as it is, the tag is removed, and the text after it is processed in turn |
| Summarizer.StripTagsNoAngle | summarizer.py:24 | a text without '<' is unchanged |
| Summarizer.CollapseSpaces | summarizer.py:26 | a first character other than whitespace is kept |
| Summarizer.CollapseSpacesSingleSpaced | summarizer.py:26 | the result is single-spaced: every whitespace character is a plain space and none is next to another |
| Summarizer.CollapseSplit | summarizer.py:26 | the text can be cut after any non-whitespace character and the two sides collapsed independently |
| Summarizer.CollapseSpacesRun | summarizer.py:26 | a maximal whitespace run between two pieces of text becomes exactly one space, and the text on either side is collapsed as it stands |
| Summarizer.CollapseNonSpace | summarizer.py:26 | collapsing keeps every non-whitespace character, in order |
| Summarizer.CollapseSingleSpaced | summarizer.py:26 | a single-spaced text is unchanged |
| Summarizer.Preprocess | summarizer.py:22-29 | every character of the result is an ASCII letter or a space |
| Summarizer.CollapsedIsClean | summarizer.py:24-26 | before the last pass the text is tag-free, single-spaced and has no surrounding whitespace |
| Summarizer.PreprocessKeepsLetters | summarizer.py:22-29 | the letters of the result are exactly the letters outside tags, in order |
| Summarizer.PreprocessPlain | summarizer.py:28 | on a tag-free, single-spaced, stripped text only the last deletion applies |
| Summarizer.PreprocessLeadingSpace | summarizer.py:26-28 | for a letter x and a character d that is neither a letter nor whitespace (nor '<'), "d x" becomes " x": the result can start with a space |
| Summarizer.PreprocessDoubleSpace | summarizer.py:26-28 | for letters x, y and such a d, "x d y" becomes "x  y": the result can hold two spaces in a row |
| Summarizer.KeptCount | summarizer.py:42 | `argsort()[-k:]` keeps k entries, or all of them when k is 0 or exceeds their number |
| Summarizer.SelectKeySentences | summarizer.py:42-43 | the kept positions are in increasing order, no left-out sentence scores above a kept one, and the sentences are returned in document order |
| Summarizer.PickBest | summarizer.py:42 | the `argsort()[-k:]` part: exactly k positions are marked, and no unmarked position scores above a marked one |
| Summarizer.CollectPicked | summarizer.py:43 | `sorted(...)` and the list comprehension: the marked positions, each once, in increasing order, with their sentences |
| Summarizer.SelectAll | summarizer.py:42-43 | keeping every sentence returns them all in document order |
| Summarizer.SignificantWords | summarizer.py:49 | a word is kept if and only if it is a token, not a stop word, and longer than two characters |
| Summarizer.Bigrams | summarizer.py:51-53 | as many phrases as there are pairs of neighbouring words, none for fewer than two words |
| Summarizer.BigramWords | summarizer.py:51-53 | each phrase is two neighbouring words |
| Summarizer.NeighbourPairs | summarizer.py:51-53 | the loop appends exactly the phrases of `Bigrams` |
| Summarizer.CountPhrases | summarizer.py:55-57 | the loop's dictionary is the specification fold `Tally` of the phrases |
| Summarizer.Bump | summarizer.py:57 | `defaultdict` increment: a known phrase's count rises by one in place; a new phrase is appended with count 1; keys stay distinct |
| Summarizer.Tally | summarizer.py:55-57 | the dictionary built by the counting loop never holds a phrase twice |
| Summarizer.TallyCounts | summarizer.py:55-57 | the dictionary holds exactly the phrases that occur, each with its number of occurrences, in first-occurrence order |
| Summarizer.BeforeRanks | summarizer.py:59 | the order on dictionary entries (count, then insertion) is the ranking of their phrases |
| Summarizer.TopPhrases | summarizer.py:59 | `sorted(..., reverse=True)[:num]`: min(num, size) distinct entries, in sort order, with none left out that sorts before a kept one |
| Summarizer.TopFromSelection | summarizer.py:55-59 | the selected entries are the top phrases of the text |
| Summarizer.ExtractKeyPhrases | summarizer.py:47-59 | the result is the top `num` phrases by count, ties broken by first occurrence; it is empty for fewer than two significant words; every phrase word is significant; with lower-cased tokens every word is lower-case |
| Summarizer.ClassifyIff | summarizer.py:78-84 | "Main Content" if and only if both words of some key phrase occur in the lower-cased sentence; "Features" if and only if that fails and "feature", "benefit" or "advantage" occurs; "Details" otherwise |
| Summarizer.MentionsKeyPhraseIff | summarizer.py:79 | the `any(...)` test holds if and only if both words of some phrase occur |
| Summarizer.InSection | summarizer.py:77-84 | a section holds only sentences of the input that are classified under it |
| Summarizer.SectionsPartition | summarizer.py:77-84 | the three sections together hold every sentence exactly as often as it occurs |
| Summarizer.SectionInOrder | summarizer.py:77-84 | each section keeps the input order |
| Summarizer.FirstThree | summarizer.py:90 | at most three sentences, a prefix of the section, and the whole section when it has three or fewer |
| Summarizer.SectionBlockFirstThree | summarizer.py:88-92 | sentences after the third do not change a section's text |
| Summarizer.StructureSummary | summarizer.py:61-94 | the summary is the header, the key-phrase lines, then each non-empty section in the order Main Content, Features, Details |
| Summarizer.AddKeyPhrases | summarizer.py:66-67 | appends one "- first second" line per phrase, in order |
| Summarizer.FileSentences | summarizer.py:77-84 | the loop's three lists are the three sections |
| Summarizer.AddSections | summarizer.py:87-92 | appends the block of each section, in order |
| Summarizer.CreateMetaSummary | summarizer.py:103-107 | the heading followed by one "Page: url", summary and blank line per entry, in dictionary order |
| Summarizer.MetaSummaryPage | summarizer.py:105-106 | each page contributes its own block in its place, whatever surrounds it |
| Summarizer.MetaSummaryEmpty | summarizer.py:103-107 | with no pages the meta-summary is the heading alone |
| WebScraper.Scraper.constructor | web_scraper.py:18-27 | nothing visited; a driver exactly when Selenium is used |
| WebScraper.Scraper.ExtractLinks | web_scraper.py:65-73 | `None` (it raises) if and only if resolving some link raises; otherwise exactly the resolved links whose host is the scraper's domain |
| WebScraper.Scraper.ProcessSitemap | web_scraper.py:75-96 | the method computes the specification `SitemapUrls` |
| WebScraper.Scraper.ScanLocs | web_scraper.py:83-87 | the first pass over the `<loc>` elements gives nothing exactly when some `<loc>` has no text, and otherwise the nested sitemaps' URLs plus the texts not ending in ".xml" |
| WebScraper.SitemapContents | web_scraper.py:76-96 | a failed fetch or parse, or a `<loc>` without text, gives the empty set; otherwise every `<loc>` text (".xml" ones included) and everything each nested ".xml" sitemap yields |
| WebScraper.SitemapUrlsAreLocs | web_scraper.py:83-91 | every URL returned is the `<loc>` text of some sitemap document |
| WebScraper.SitemapUrlsMonotone | web_scraper.py:85 | a deeper recursion bound never loses a URL |
| WebScraper.CyclicSitemap | web_scraper.py:83-93 | a sitemap that lists itself and one page yields that page and its own URL |
| WebScraper.Scraper.Crawl | web_scraper.py:98-121 | `visited` grows by exactly the yielded URLs; each is yielded once and was not visited before; the `max_pages` budget holds; each yielded content is non-empty and is what a fetch of that URL returned; without a sitemap every yielded URL is the base URL or on the domain, and with one it is the base URL or a sitemap entry; a raising `urljoin` at line 101 yields nothing |
| WebScraper.Scraper.Explore | web_scraper.py:104-121 | the loop keeps `Yielded` and `Frontier`: the frontier never holds a URL visited during the crawl (line 117) and holds only reachable URLs |
| WebScraper.Scraper.Visit | web_scraper.py:109-121 | a page with content is marked visited and yielded, and its new same-domain links (none in sitemap mode) are returned; a fetch error or empty content changes nothing |
| WebScraper.YieldedStep | web_scraper.py:111-113 | yielding a fetched page keeps the record of visited pages and yields consistent |
| WebScraper.FrontierStep | web_scraper.py:115-117 | adding the page's unvisited same-domain links keeps the frontier invariant |
| WebScraper.Scraper.Close | web_scraper.py:123-125 | the driver is told to quit once per call when there is one; nothing else changes |

## Left out

- HTML parsing is not modelled: BeautifulSoup's `get_text`, removing `script`/`style` elements (main.py:26-34), and `find_all('a', href=True)`. They are function parameters.
- `urljoin` and `urlparse` are not modelled: `join` and `host` stand for them. Only the path-segment cut at '?', '#' and ';' is written out, in `App.SegmentEnd`.
- All I/O is left out:
  - requests and Selenium (`get_page_content`, web_scraper.py:49-63, is the `fetch` parameter);
  - `time.sleep`, logging, argparse, NLTK data downloads and the `main` function;
  - reading, writing and listing files. The listing order is a parameter.
- `save_scraped_content`, `save_metadata` and `summary_exists` are file writes and checks, not modelled. Only their file names are.
- `_setup_selenium`: its failure raises out of the constructor, which the model does not represent. The driver is a flag, and `quits` counts `quit()` calls.
- NLTK's `sent_tokenize` and `word_tokenize`, and the English stop-word list, are inputs: sentences, tokens of the lower-cased text, and a stop-word set.
- TF-IDF scoring is an input: a score per sentence. `TfidfVectorizer` raising on a text with no usable words is not modelled.
- The BERT model loaded in `AdvancedSummarizer.__init__` is not modelled; it is never used.
- `AdvancedSummarizer.summarize` (summarizer.py:96-101) is not modelled. It chains the modelled steps, with the float count `int(n * 0.3)`, and `App` takes it as the `summarize` parameter.
- Summarizer.SelectKeySentences: the ensures allow any order among equal scores, because numpy's default `argsort` does not fix one. The method picks the earliest, which need not be numpy's choice.
- Strings.Lower changes only ASCII letters; Python's `str.lower` covers all of Unicode.
- WebScraper.Scraper.ProcessSitemap: `fuel` bounds the nesting of sitemaps. Python instead hits its recursion limit and raises `RecursionError`, which some enclosing `except Exception` catches; that exact cut-off is not modelled.
- WebScraper.Scraper.Crawl runs the generator to the end, as main.py:97-99 consumes it. Interleaving with the consumer is not modelled.
- WebScraper.Scraper.Crawl: every failure inside the try block (lines 109-121) is one `Failed` result or a `None` from `ExtractLinks`. Which exception was raised is not modelled.

Three behaviours of the crawler code that the model keeps:

- `process_sitemap` returns the URLs of nested ".xml" sitemaps as well as what those sitemaps list, because the second loop (web_scraper.py:90-91) adds every `<loc>` text.
- A page with empty content, such as a Selenium timeout, is not marked visited and may be fetched again (web_scraper.py:111-113).
- One link on which `urljoin` or `urlparse` raises makes `extract_links` raise (web_scraper.py:68-72). The `except` at web_scraper.py:120-121 then drops all of that page's links, though the page itself was already yielded.
