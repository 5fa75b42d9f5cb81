# UK impact-assessment scraper: a verified model of its decision logic

The scraper walks the paginated listing of final-stage impact assessments on
legislation.gov.uk. On each index page it finds the UK and the Northern
Ireland article links and processes every other one, because each link is
rendered twice. For each article it polls the article page for its PDF link,
downloads the PDF with bounded retries and extracts the text. It uses
pdfplumber first and falls back to OCR when the text layer has fewer than two
words. It appends one record per article to an in-memory list. It writes that
list to `output/csv/output.csv` once, after the first page that does not hold
exactly 20 articles.

This Dafny project models that logic with the network, the HTML parser and
the PDF libraries replaced by abstract inputs:

- `Web.Site` answers requests. `index(url)(n)` and `pdf(url)(n)` give the
  outcome of the n-th request: a response, a connection error, or any other
  exception. `article(url)` gives the parsed article page, or None when the
  request raises.
- A parsed page is a sequence of tags in document order. Each tag has a
  name, an optional `href`, CSS classes and visible text.
- A PDF is either a file pdfplumber cannot parse, or its per-page text-layer
  strings (absent for pages without text) and its per-image OCR strings.

Modules, by source file:

- constants.py: `Constants`.
- process.py: `LinkFilter` (`legislation_links`), `TextExtractor`
  (`extract_text_from_pdf`, `pdfplumber_on_pdf`, `ocr_on_pdf`) and
  `ArticleResolver` (`process_article_page`, `process_page`).
- utils.py: `PdfFetcher` (`download_pdf`).
- main.py: `PageCrawler` (`main`).
- Shared helpers: `BoundedRetry` is the retry loop that main.py and utils.py
  each write out. `Strings` holds the Python `str` operations the code uses.
  `Seqs` holds `find_all`/`select` filtering and the `[::2]` slice.

Loops in the source are methods with loops here. Each method is proved equal
to a specification function: `Retry`, `LayerText`, `OcrText`, `Extract`,
`Resolution`, `PageRecords`, `VisitPage` or `CrawlFrom`. The lemmas state
what the source promises about those functions. The two outer loops,
`ProcessArticles` and `CrawlPages`, are proved against `Collect` and
`CrawlFrom` taken over what each article or page comes to (`ArticleOutcome`,
`VisitPage`). This keeps each loop's proof independent of how a single
article or page is processed.

Behaviour kept as the code has it, even where its intent is arguable:

- An exception that nothing catches ends the run without writing the CSV.
  The model calls this the `ArticleCrash` halt. It happens when the article
  request at process.py:52 raises. It also happens when `download_pdf`
  returns None, because `save_pdf` then calls `.getbuffer()` on None at
  utils.py:25. So a PDF that cannot be downloaded never becomes a diagnostic
  record.
- When the index page cannot be fetched, main.py:53 formats `e` after its
  `except` block has ended. In Python 3 that raises instead of logging.
  Either way the loop stops without writing the CSV, which is the
  `IndexUnreachable` halt.
- The `except ConnectionError` clauses name Python's builtin class. That is
  not the class `requests` raises. The model keeps "connection error" as an
  abstract outcome that is retried; it does not claim that real network
  failures reach that branch.
- The crawl stops on any page count other than 20, including counts above
  20.
- A link without an `href` makes `article["href"]` raise at process.py:30,
  which ends the run like any other uncaught exception (the `HrefMissing`
  crash). The links `main` passes in always have one, since
  `legislation_links` accepts only anchors with an href.

## Model

| member | source | states |
|---|---|---|
| `Strings.Split` | process.py:96 | every word of `str.split()` is non-empty and contains no whitespace |
| `Strings.SplitKeepsNonSpace` | process.py:96 | the words of `str.split()`, joined back, are exactly the non-whitespace characters of the text, in order |
| `Strings.SplitNonEmptyIff` | process.py:96 | the word count is at least 1 exactly when the text has a non-whitespace character |
| `Strings.WordCount` | process.py:96 | `len(text.split())`, the number of whitespace-separated words; `SplitNonEmptyIff` and `SplitTwoWordsIff` say when it reaches 1 and 2 |
| `Strings.SplitTwoWordsIff` | process.py:96-98 | the word count is at least 2 (the threshold) exactly when some whitespace separates two non-whitespace characters |
| `Strings.LastSegment` | process.py:63 | `href.split("/")[-1]` is the longest suffix of the href without `/`: a suffix, slash-free, preceded by `/` unless it is the whole href |
| `Strings.LastSegmentKeepsSuffix` | process.py:60-63 | a reference taken from an href ending in ".pdf" itself ends in ".pdf" |
| `Strings.ConcatAppend` | process.py:114-117 | concatenating the texts of two runs of parts gives the concatenation of each run's text |
| `Strings.IntToDecimal` | main.py:34 | the decimal text of a page number in the f-string: a minus sign for negative numbers, then the digits of its magnitude; `DecimalRoundTrip` reads it back |
| `Strings.DecimalRoundTrip` | main.py:34 | the decimal digits printed for a page number read back as that number |
| `Strings.IntToDecimalInjective` | main.py:34 | distinct page numbers print as distinct strings |
| `Seqs.Filter` | main.py:59-64 | `find_all` keeps exactly the tags that satisfy the predicate, and never more than the page holds |
| `Seqs.FilterAppend` | main.py:59-64 | filtering preserves document order: filtering two consecutive runs of tags is filtering each run |
| `Seqs.FilterHead` | process.py:60-62 | the first link the selector returns is the first matching tag of the page |
| `Seqs.EveryOther` | process.py:29 | `articles[::2]` has `ceil(n/2)` elements, the i-th being element `2*i` |
| `Seqs.EveryOtherUndoesDoubled` | process.py:28-29 | when every link appears twice in a row, `[::2]` yields each link once, in order |
| `BoundedRetry.Retry` | utils.py:9-20 | the bounded retry loop from its first request: up to `RETRY_AMOUNT` requests, keeping the first response, retrying after a connection error, giving up at once on any other exception |
| `BoundedRetry.RetryFrom` | main.py:35-50 | the same loop from request `i` on, as the index fetch of `main` writes it out a second time |
| `BoundedRetry.RetryFromShape` | utils.py:10-20 | at most `RETRY_AMOUNT` requests; all but the last failed with a connection error; an early stop follows a non-connection outcome; a response is returned exactly when the last request got one |
| `BoundedRetry.RetrySucceedsAtFirstResponse` | utils.py:12-13 | the first request that gets a response, after connection errors only, returns that response after that many requests |
| `BoundedRetry.RetryAbortsOnOtherError` | utils.py:17-19 | a non-connection exception ends the loop at once with no response, the rest of the budget unused |
| `BoundedRetry.RetryExhausted` | utils.py:14-16 | if every request fails with a connection error, the result is None after exactly `RETRY_AMOUNT` requests |
| `PdfFetcher.DownloadPdf` | utils.py:9-20 | the `for` loop with early return and `break` returns what the bounded-retry specification gives, and makes as many requests |
| `LinkFilter.LettersThenSlashIff` | main.py:56-57 | the hand-written matcher of `[a-zA-Z]*/` accepts exactly a run of ASCII letters closed by a slash |
| `LinkFilter.MatchesIff` | main.py:56-57 | the pattern match succeeds exactly when the href starts with the literal, then letters, then a slash |
| `LinkFilter.LegislationLinks` | process.py:14-21 | a tag is accepted exactly when it is an anchor with an href that matches the pattern, does not contain `/cy/ukia?stage=Final&amp` and does not end in "Final"; so anything else, including an anchor without an href, is rejected |
| `LinkFilter.FindLegislationLinks` | main.py:59-64 | the link family of a page is exactly its accepted tags |
| `LinkFilter.PatternsDisjoint` | main.py:56-57 | no href matches both `^/uk[a-zA-Z]*/` and `^/ni[a-zA-Z]*/` |
| `LinkFilter.LinkFamiliesDisjoint` | main.py:56-64 | the UK and Northern Ireland link families of a page share no anchor |
| `TextExtractor.PresentTextsAppend` | process.py:114-117 | skipping pages without text commutes with splitting the page list |
| `TextExtractor.PdfPlumberOnPdf` | process.py:111-119 | a malformed file raises PDFSyntaxError; otherwise the result is the in-order concatenation, with no separator, of every page's text, pages without text skipped |
| `TextExtractor.OcrOnPdf` | process.py:122-129 | the result is the in-order concatenation of the OCR text of every page image |
| `TextExtractor.Extract` | process.py:93-109 | only a malformed file gives PDFSyntaxError; the tag is one of the three; "pdfplumber" exactly when the text layer has at least 2 words, with that text; otherwise the OCR text, tagged "OCR" exactly when it has at least 2 words, else "Possible error or blank page" |
| `TextExtractor.ExtractTextFromPdf` | process.py:93-109 | the step-by-step reassignments give the extraction above, and OCR runs exactly when the text layer of a parsed file has fewer than 2 words |
| `TextExtractor.PdfPlumberKeptIffTwoWords` | process.py:96-98 | the text layer is kept exactly when some whitespace in it separates two non-whitespace characters |
| `TextExtractor.LayerTextAppend` | process.py:111-119 | the text layer of a file is the text of its first pages followed by the text of the rest |
| `ArticleResolver.SelectPdfLinks` | process.py:60 | `a.pdfLink[href$='.pdf']` keeps exactly the anchors of class pdfLink whose href ends in ".pdf" |
| `ArticleResolver.ResolveLink` | process.py:62-84 | following the first PDF link: download with retries, a failed download crashing in `save_pdf`, an unparsable file giving "PDFSyntaxError" with no text, any other file its extracted text and tag, the reference always the href's last segment |
| `ArticleResolver.Resolution` | process.py:51-91 | what `process_article_page` returns or raises: the article request raising, the missing-link record when the page has no PDF link, otherwise the first link followed |
| `ArticleResolver.ResolveLinkReference` | process.py:62-84 | once a ".pdf" link is followed, every record it gives carries the link's last path segment as reference, and that reference ends in ".pdf" |
| `ArticleResolver.ResolveLinkMethod` | process.py:75-84 | a followed link is tagged with one of the three extraction methods or "PDFSyntaxError", and has no text exactly when the tag is "PDFSyntaxError" |
| `ArticleResolver.ProcessArticlePage` | process.py:51-91 | the polling loop gives the resolution of the article and polls once when the page has a PDF link, `RETRY_AMOUNT` times when it has none |
| `ArticleResolver.ResolutionInvariants` | process.py:63-91 | the method tag is one of five; no reference exactly when the link was missing, and then no text; "PDFSyntaxError" keeps the reference and has no text; text is missing only on those two paths; a reference ends in ".pdf" and has no `/` |
| `ArticleResolver.ReferenceFromFirstPdfLink` | process.py:60-63 | the reference is the last path segment of the first PDF link of the page in document order |
| `ArticleResolver.MissingLinkIffNoPdfLink` | process.py:58-61 | the "Missing pdf link in page" record with no text and no reference arises exactly when the fetched page has no PDF link |
| `ArticleResolver.ArticleOutcome` | process.py:30-35 | one article link: `article["href"]` raises when there is none, otherwise the article at `BASE_URL + href` is processed |
| `ArticleResolver.RecordOf` | process.py:36-43 | the six-field record of one resolved article: its link text, reference, text, method, origin and page number |
| `ArticleResolver.Collect` | process.py:29-45 | articles processed in order, one record appended per article, processing stopping at the first article that raises |
| `ArticleResolver.CollectShape` | process.py:29-45 | processing in order gives one record per article, the i-th built from article i and its outcome, and nothing exactly when some article raises |
| `ArticleResolver.CrashLosesPage` | process.py:30-35 | one article that raises loses the records of the whole page |
| `ArticleResolver.PageRecords` | process.py:25-48 | what `process_page` comes to: the articles `articles[::2]` processed in order |
| `ArticleResolver.ProcessArticles` | process.py:29-47 | the loop over the chosen links appends one record per article in order and returns nothing once an article raises, as `Collect` says |
| `ArticleResolver.ProcessPage` | process.py:25-48 | `process_page` processes `articles[::2]` and comes to what `PageRecords` says |
| `ArticleResolver.PageRecordsShape` | process.py:25-48 | `ceil(n/2)` records, the i-th from link `2*i` and its outcome, each with the given origin and page number; the page is lost exactly when one of those links raises |
| `ArticleResolver.PageRecordsOfDoubled` | process.py:28-45 | a page that lists each article twice in a row gives exactly one record per article, in order, the i-th built from article i and its outcome, or nothing exactly when one of the articles raises |
| `PageCrawler.IndexUrlInjective` | main.py:34 | distinct pages are fetched from distinct index URLs |
| `PageCrawler.FetchIndex` | main.py:35-50 | the index-fetch loop with its two `break`s returns what the bounded-retry specification gives |
| `PageCrawler.IndexUrl` | main.py:34 | the URL of index page `page`: the listing route, then `&page=` and the page number in decimal |
| `PageCrawler.VisitPage` | main.py:33-67 | what one index page comes to: unreachable when the fetch gives no response, a crash when an article raises, otherwise its UK records and its Northern Ireland records |
| `PageCrawler.ProcessIndexPage` | main.py:33-67 | one iteration fetches the index, finds both link families and processes the UK links before the Northern Ireland links, coming to what `VisitPage` says for that page |
| `PageCrawler.CrawlFrom` | main.py:23-89 | the crawl from a page with the records so far: stop without a CSV on an unreachable index or an article that raises, append the page's UK then Northern Ireland records, write the CSV and stop when the page did not hold 20 articles, otherwise go on to the next page |
| `PageCrawler.CrawlPages` | main.py:31-89 | the `while True` loop, its body run against what each page of the site comes to, gives the crawl specification from the starting page with no records |
| `PageCrawler.Crawl` | main.py:23-89 | `main(starting_page=STARTING_PAGE)`, starting from page 1 unless told otherwise, ends as the crawl specification `CrawlFrom` says for the pages of the site |
| `PageCrawler.CrawlAppendOnly` | main.py:29-70 | the record list only grows; earlier records are never changed |
| `PageCrawler.PageRows` | main.py:69-70 | the rows a page adds: its UK records, then its Northern Ireland records |
| `PageCrawler.Harvest` | main.py:29-88 | the rows of consecutive pages, in page order |
| `PageCrawler.CrawlRecords` | main.py:29-85 | the record list is exactly the earlier records, then the rows of every full page visited in page order, then, on the CSV exit, the rows of the page that ended the crawl |
| `PageCrawler.CrawlWritesCsvOnlyWhenFlushed` | main.py:52-85 | the CSV is written exactly on the page-count exit, to `output/csv/output.csv` with the six field names and every accumulated record; the fetch-failure exit writes nothing |
| `PageCrawler.CrawlStopsAtFirstIrregularPage` | main.py:76-88 | pages are visited consecutively; every page before the last held exactly 20 articles; a CSV exit happens on a page whose count is not 20 (fewer or more), and that page's records end the list |
| `PageCrawler.VisitPageTags` | main.py:66-67 | every record of a page carries that page's number, with origin "uk" for the UK family and "nisr" for the other |
| `PageCrawler.AppendPageKeepsOrder` | main.py:69-70 | appending a page's UK records and then its Northern Ireland records to earlier pages keeps the list ordered |
| `PageCrawler.CrawlKeepsOrder` | main.py:66-88 | records come out by increasing page and, within a page, UK before Northern Ireland, each numbered between the first and the last page visited |
| `PageCrawler.CrawlOrdered` | main.py:23-89 | a whole run's records are so ordered, from the starting page on |

## Left out

- HTTP, HTML parsing and CSS selection are abstract. Requests are the `Site` oracle. A page is a flat sequence of tags in document order. Timeouts are not modelled.
- The PDF libraries (pdfplumber, pdf2image, pytesseract) are abstract. A PDF is its per-page text and per-image OCR text. A failure of rasterisation or OCR on a file pdfplumber could open is not modelled; in the source it would raise and end the run.
- pdfplumber's exceptions other than `PDFSyntaxError` are not modelled: `Web.Pdf` is either malformed (the syntax error) or a list of page texts. The source catches only `PDFSyntaxError` (process.py:78), so another parser exception, such as an end-of-file error on a truncated download or a password error on an encrypted file, would escape `process_article_page` and end the run without the CSV.
- The same request is assumed to get the same answer. `Site` answers by URL and attempt number, so two articles that share a PDF URL see the same download outcomes.
- File writes are recorded, not performed. The CSV write is the `CsvFile` value of the result (path, header, rows). The PDF written by `save_pdf` is not recorded; a record has a reference exactly when its PDF was downloaded and written. `make_directories` and the CSV text format are not modelled.
- `time.sleep`, logging and the `tqdm` progress bar have no effect on results and are not modelled. `process_article_page` does not take the article name and page number, which the source uses only in log messages.
- `PageCrawler.Crawl`: the source's `while True` can run forever. The model bounds it with `fuel` pages and reports `FuelExhausted` when the bound is reached first.
- `PageCrawler.Crawl`: an article that raises ends the run. The model records this as the `ArticleCrash` halt, without the traceback. The PDFs downloaded before the crash stay on disk; the model does not record them.
