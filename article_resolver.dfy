/**
 * From an index page's article links to output records (process.py,
 * `process_page` and `process_article_page`).
 */
module ArticleResolver {
  import opened Web
  import opened Constants
  import opened Strings
  import opened Seqs
  import opened BoundedRetry
  import opened PdfFetcher
  import opened TextExtractor

  const PdfSyntaxErrorMethod := "PDFSyntaxError"
  const MissingPdfLinkMethod := "Missing pdf link in page"

  /** An exception that escapes the processing of one article and, as
      nothing catches it, ends the whole run: the link has no href (a
      KeyError in `process_page`), the article request itself raised, or the
      PDF could not be downloaded and `save_pdf` was handed None. */
  datatype Crash = HrefMissing | ArticleRequestFailed | PdfNotDownloaded

  /** What `process_article_page` returns, `(text, method, reference)`, or
      the exception that escapes it. */
  datatype ArticleResult =
    | Resolved(text: Option<string>, extractionMethod: string, reference: Option<string>)
    | Crashed(cause: Crash)

  /** The CSS selector `a.pdfLink[href$='.pdf']`. */
  predicate IsPdfLink(tag: Tag) {
    tag.name == "a" && "pdfLink" in tag.classes && tag.href.Some? && EndsWith(tag.href.value, ".pdf")
  }

  /** `soup.select("a.pdfLink[href$='.pdf']")`, in document order. */
  function SelectPdfLinks(soup: seq<Tag>): (links: seq<Tag>)
    ensures forall t :: t in links <==> t in soup && IsPdfLink(t)
  {
    Filter(IsPdfLink, soup)
  }

  /** What happens once the PDF link `href` is found: the PDF is
      downloaded, a failed download crashes in `save_pdf`, an unparsable file
      gives the "PDFSyntaxError" record, and any other file gives its
      extracted text; the reference is the href's last path segment. */
  function ResolveLink(site: Site, href: string): ArticleResult {
    var reference := LastSegment(href);
    match Retry(site.pdf(BaseUrl + href), RetryAmount).result
    case None => Crashed(PdfNotDownloaded)
    case Some(pdf) =>
      match Extract(pdf)
      case SyntaxError => Resolved(None, PdfSyntaxErrorMethod, Some(reference))
      case Extracted(text, m) => Resolved(Some(text), m, Some(reference))
  }

  /** What processing the article at `url` comes to. The article page is
      requested and parsed once, so every poll for the PDF link sees the
      same document and the first poll decides: no link gives the "Missing
      pdf link in page" record, otherwise the first link is followed. */
  function Resolution(site: Site, url: string): ArticleResult {
    match site.article(url)
    case None => Crashed(ArticleRequestFailed)
    case Some(soup) =>
      var links := SelectPdfLinks(soup);
      if links == [] then Resolved(None, MissingPdfLinkMethod, None)
      else
        assert links[0] in links;
        ResolveLink(site, links[0].href.value)
  }

  /** Following a ".pdf" link never gives a record without a reference: the
      reference is the link's last path segment, a file name ending in
      ".pdf". */
  lemma ResolveLinkReference(site: Site, href: string)
    requires EndsWith(href, ".pdf")
    ensures var r := ResolveLink(site, href);
      r.Resolved? ==> r.reference == Some(LastSegment(href)) && EndsWith(r.reference.value, ".pdf")
  {
    assert EndsWith(LastSegment(href), ".pdf") by {
      LastSegmentKeepsSuffix(href, ".pdf");
    }
    match Retry(site.pdf(BaseUrl + href), RetryAmount).result
    case None =>
    case Some(pdf) =>
      match Extract(pdf)
      case SyntaxError =>
      case Extracted(_, _) =>
  }

  /** A followed link is tagged with one of the three extraction methods or
      with "PDFSyntaxError"; the text is missing only for an unparsable file. */
  lemma ResolveLinkMethod(site: Site, href: string)
    ensures var r := ResolveLink(site, href);
      r.Resolved? ==>
        && r.extractionMethod in {PdfPlumberMethod, OcrMethod, BlankPageMethod, PdfSyntaxErrorMethod}
        && (r.text.None? <==> r.extractionMethod == PdfSyntaxErrorMethod)
  {
    match Retry(site.pdf(BaseUrl + href), RetryAmount).result
    case None =>
    case Some(pdf) =>
      match Extract(pdf)
      case SyntaxError =>
      case Extracted(_, _) =>
  }

  /**
   * `process_article_page`: the polling loop of at most `RetryAmount` polls
   * of the parsed page. `polls` is the number of polls made: one when the
   * page has a PDF link, `RetryAmount` when it has none.
   */
  method ProcessArticlePage(site: Site, url: string) returns (r: ArticleResult, polls: nat)
    ensures r == Resolution(site, url)
    ensures site.article(url).Some? ==>
      polls == if SelectPdfLinks(site.article(url).value) == [] then RetryAmount else 1
  {
    polls := 0;
    var response := site.article(url);
    if response.None? {
      return Crashed(ArticleRequestFailed), polls;
    }
    var soup := response.value;
    var trysLeft: int := RetryAmount;
    while trysLeft != 0
      invariant 0 <= trysLeft <= RetryAmount
      invariant polls == RetryAmount - trysLeft
      invariant polls > 0 ==> SelectPdfLinks(soup) == []
      decreases trysLeft
    {
      polls := polls + 1;
      var pdfLinks := SelectPdfLinks(soup);
      if pdfLinks != [] {
        assert pdfLinks[0] in pdfLinks;
        var href := pdfLinks[0].href.value;
        var reference := LastSegment(href);
        var pdfStream, _ := DownloadPdf(site.pdf(BaseUrl + href));
        // save_pdf(pdf_stream, ...) raises on a stream of None
        if pdfStream.None? {
          return Crashed(PdfNotDownloaded), polls;
        }
        var extraction, _ := ExtractTextFromPdf(pdfStream.value);
        match extraction
        case SyntaxError =>
          return Resolved(None, PdfSyntaxErrorMethod, Some(reference)), polls;
        case Extracted(text, m) =>
          return Resolved(Some(text), m, Some(reference)), polls;
      }
      trysLeft := trysLeft - 1;
    }
    r := Resolved(None, MissingPdfLinkMethod, None);
  }

  /**
   * The record invariants: the method tag is always one of the five tags; a
   * record has no reference exactly when the PDF link was missing, and then
   * has no text either; a "PDFSyntaxError" record has a reference and no
   * text; the text is missing only on those two paths; and a reference is a
   * file name ending in ".pdf".
   */
  lemma ResolutionInvariants(site: Site, url: string)
    ensures var r := Resolution(site, url);
      r.Resolved? ==>
        && r.extractionMethod in {PdfPlumberMethod, OcrMethod, BlankPageMethod, PdfSyntaxErrorMethod, MissingPdfLinkMethod}
        && (r.reference.None? <==> r.extractionMethod == MissingPdfLinkMethod)
        && (r.reference.None? ==> r.text.None?)
        && (r.extractionMethod == PdfSyntaxErrorMethod ==> r.reference.Some? && r.text.None?)
        && (r.text.None? <==> r.extractionMethod in {MissingPdfLinkMethod, PdfSyntaxErrorMethod})
        && (r.reference.Some? ==>
              EndsWith(r.reference.value, ".pdf")
              && forall i :: 0 <= i < |r.reference.value| ==> r.reference.value[i] != '/')
  {
    match site.article(url)
    case None =>
    case Some(soup) =>
      var links := SelectPdfLinks(soup);
      if links != [] {
        assert links[0] in links;
        ResolveLinkReference(site, links[0].href.value);
        ResolveLinkMethod(site, links[0].href.value);
      }
  }

  /**
   * The reference is taken from the first PDF link of the page in document
   * order: it is the text after the last `/` of that link's href.
   */
  lemma ReferenceFromFirstPdfLink(site: Site, url: string)
    requires Resolution(site, url).Resolved? && Resolution(site, url).reference.Some?
    ensures site.article(url).Some?
    ensures exists i :: (
      && 0 <= i < |site.article(url).value|
      && IsPdfLink(site.article(url).value[i])
      && (forall j :: 0 <= j < i ==> !IsPdfLink(site.article(url).value[j]))
      && Resolution(site, url).reference.value == LastSegment(site.article(url).value[i].href.value))
  {
    var soup := site.article(url).value;
    var i := FilterHead(IsPdfLink, soup);
  }

  /** A page without a PDF link, and only such a page, gives the
      "Missing pdf link in page" record with neither text nor reference. */
  lemma MissingLinkIffNoPdfLink(site: Site, url: string)
    ensures Resolution(site, url) == Resolved(None, MissingPdfLinkMethod, None)
            <==> site.article(url).Some? && forall t :: t in site.article(url).value ==> !IsPdfLink(t)
  {
    if site.article(url).Some? {
      var links := SelectPdfLinks(site.article(url).value);
      if links != [] {
        assert links[0] in links;
        ResolutionInvariants(site, url);
      }
    }
  }

  /** What processing one article link comes to in `process_page`:
      `article["href"]` raises when the link has none; otherwise the
      article at `BASE_URL + href` is processed. */
  function ArticleOutcome(site: Site, article: Tag): ArticleResult {
    match article.href
    case None => Crashed(HrefMissing)
    case Some(href) => Resolution(site, BaseUrl + href)
  }

  /** The outcome of each article link of `site`. */
  function Outcomes(site: Site): Tag -> ArticleResult {
    article => ArticleOutcome(site, article)
  }

  /** The record built for `article` when it resolved to `r`. */
  function RecordOf(article: Tag, r: ArticleResult, origin: string, pageNumber: int): Record
    requires r.Resolved?
  {
    Record(article.text, r.reference, r.text, r.extractionMethod, origin, pageNumber)
  }

  /** The articles `chosen` processed in order, article `t` coming to
      `resolve(t)`: one record each, or None as soon as one of them raises. */
  function Collect(resolve: Tag -> ArticleResult, chosen: seq<Tag>, origin: string, pageNumber: int): Option<seq<Record>>
    decreases |chosen|
  {
    if chosen == [] then Some([])
    else
      var last := chosen[|chosen| - 1];
      match Collect(resolve, chosen[..|chosen| - 1], origin, pageNumber)
      case None => None
      case Some(rs) =>
        if resolve(last).Crashed? then None
        else Some(rs + [RecordOf(last, resolve(last), origin, pageNumber)])
  }

  /** Some article of `chosen` raises when it is processed. */
  predicate SomeArticleCrashes(resolve: Tag -> ArticleResult, chosen: seq<Tag>) {
    exists i :: 0 <= i < |chosen| && resolve(chosen[i]).Crashed?
  }

  /** One record per article of `chosen`, the i-th built from article i. */
  function AllRecords(resolve: Tag -> ArticleResult, chosen: seq<Tag>, origin: string, pageNumber: int): seq<Record>
    requires !SomeArticleCrashes(resolve, chosen)
  {
    seq(|chosen|, i requires 0 <= i < |chosen| => RecordOf(chosen[i], resolve(chosen[i]), origin, pageNumber))
  }

  /**
   * Processing articles in order comes to one record per article, the i-th
   * built from article i and its outcome, unless one of them raises, in
   * which case nothing is returned.
   */
  lemma {:induction false} CollectShape(resolve: Tag -> ArticleResult, chosen: seq<Tag>, origin: string, pageNumber: int)
    ensures Collect(resolve, chosen, origin, pageNumber) ==
      if SomeArticleCrashes(resolve, chosen) then None else Some(AllRecords(resolve, chosen, origin, pageNumber))
    decreases |chosen|
  {
    if chosen == [] {
      assert AllRecords(resolve, chosen, origin, pageNumber) == [];
    } else {
      var n := |chosen| - 1;
      var front, last := chosen[..n], chosen[n];
      CollectShape(resolve, front, origin, pageNumber);
      if SomeArticleCrashes(resolve, front) {
        var i :| 0 <= i < n && resolve(front[i]).Crashed?;
        assert resolve(chosen[i]).Crashed?;
      } else if resolve(last).Crashed? {
        assert resolve(chosen[n]).Crashed?;
      } else {
        forall i | 0 <= i < |chosen| ensures resolve(chosen[i]).Resolved? {
          if i < n {
            assert chosen[i] == front[i];
          }
        }
        var rs := AllRecords(resolve, front, origin, pageNumber);
        assert rs + [RecordOf(last, resolve(last), origin, pageNumber)] == AllRecords(resolve, chosen, origin, pageNumber);
      }
    }
  }

  /** One article that raises loses the whole page. */
  lemma CrashLosesPage(resolve: Tag -> ArticleResult, chosen: seq<Tag>, k: nat, origin: string, pageNumber: int)
    requires k < |chosen| && resolve(chosen[k]).Crashed?
    ensures Collect(resolve, chosen, origin, pageNumber) == None
  {
    CollectShape(resolve, chosen, origin, pageNumber);
  }

  /** What `process_page` comes to: the records of the even-indexed links. */
  function PageRecords(site: Site, articles: seq<Tag>, origin: string, pageNumber: int): Option<seq<Record>> {
    Collect(Outcomes(site), EveryOther(articles), origin, pageNumber)
  }

  /** `resolve` gives what each article link of `site` comes to. */
  ghost predicate OutcomesOf(site: Site, resolve: Tag -> ArticleResult) {
    forall t {:trigger ArticleOutcome(site, t)} :: resolve(t) == ArticleOutcome(site, t)
  }

  /** The loop of `process_page` over the chosen links, appending one record
      per article, `resolve` being what each link of `site` comes to. */
  method ProcessArticles(site: Site, ghost resolve: Tag -> ArticleResult, chosen: seq<Tag>, origin: string, pageNumber: int)
    returns (pageInfo: Option<seq<Record>>)
    requires OutcomesOf(site, resolve)
    ensures pageInfo == Collect(resolve, chosen, origin, pageNumber)
  {
    var records: seq<Record> := [];
    for k := 0 to |chosen|
      invariant Collect(resolve, chosen[..k], origin, pageNumber) == Some(records)
    {
      var article := chosen[k];
      assert chosen[..k + 1][..k] == chosen[..k];
      assert ArticleOutcome(site, article) == resolve(article);
      if article.href.None? {
        // `article["href"]` raises
        CrashLosesPage(resolve, chosen, k, origin, pageNumber);
        return None;
      }
      var articleUrl := BaseUrl + article.href.value;
      var articleName := article.text;
      var result, _ := ProcessArticlePage(site, articleUrl);
      if result.Crashed? {
        CrashLosesPage(resolve, chosen, k, origin, pageNumber);
        return None;
      }
      records := records + [Record(articleName, result.reference, result.text, result.extractionMethod, origin, pageNumber)];
    }
    assert chosen[..|chosen|] == chosen;
    pageInfo := Some(records);
  }

  /** `process_page`: links are rendered twice, so every other one,
      `articles[::2]`, is processed. */
  method ProcessPage(site: Site, articles: seq<Tag>, origin: string, pageNumber: int)
    returns (pageInfo: Option<seq<Record>>)
    ensures pageInfo == PageRecords(site, articles, origin, pageNumber)
  {
    var chosen := EveryOther(articles);
    assert OutcomesOf(site, Outcomes(site));
    pageInfo := ProcessArticles(site, Outcomes(site), chosen, origin, pageNumber);
  }

  /**
   * The shape of a processed page: one record per even-indexed link, which
   * is `ceil(n/2)` records for `n` links, the i-th built from link `2*i`
   * with its outcome, and every record tagged with the given origin and
   * page number. A page is lost exactly when one of those links raises.
   */
  lemma PageRecordsShape(site: Site, articles: seq<Tag>, origin: string, pageNumber: int)
    ensures match PageRecords(site, articles, origin, pageNumber)
      case None =>
        exists i :: 0 <= i < (|articles| + 1) / 2 && ArticleOutcome(site, articles[2 * i]).Crashed?
      case Some(rs) =>
        && |rs| == (|articles| + 1) / 2
        && forall i :: 0 <= i < |rs| ==>
          var r := ArticleOutcome(site, articles[2 * i]);
          && rs[i].articleName == articles[2 * i].text
          && rs[i].origin == origin
          && rs[i].pageNumber == pageNumber
          && r.Resolved?
          && rs[i].reference == r.reference
          && rs[i].text == r.text
          && rs[i].extractionMethod == r.extractionMethod
  {
    var chosen := EveryOther(articles);
    CollectShape(Outcomes(site), chosen, origin, pageNumber);
    if SomeArticleCrashes(Outcomes(site), chosen) {
      var i :| 0 <= i < |chosen| && Outcomes(site)(chosen[i]).Crashed?;
      assert ArticleOutcome(site, articles[2 * i]).Crashed?;
    }
  }

  /** When the page lists every article twice in a row, processing it gives
      exactly one record per article, in the original order, each built
      from that article and its outcome; the page is lost exactly when one
      of the articles raises. */
  lemma PageRecordsOfDoubled(site: Site, distinct: seq<Tag>, origin: string, pageNumber: int)
    ensures PageRecords(site, Doubled(distinct), origin, pageNumber) ==
      if SomeArticleCrashes(Outcomes(site), distinct) then None
      else Some(AllRecords(Outcomes(site), distinct, origin, pageNumber))
  {
    EveryOtherUndoesDoubled(distinct);
    CollectShape(Outcomes(site), distinct, origin, pageNumber);
  }
}
