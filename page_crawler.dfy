/**
 * The crawl driver (main.py, `main`): index pages in increasing order, two
 * link families per page, records accumulated in memory and written to the
 * CSV file once, when a page does not hold exactly 20 articles.
 */
module PageCrawler {
  import opened Web
  import opened Constants
  import opened Strings
  import opened BoundedRetry
  import opened LinkFilter
  import opened ArticleResolver

  /** Number of articles on a full index page. */
  const PageSize := 20

  const UkOrigin := "uk"
  const NisrOrigin := "nisr"

  /** `os.path.join(OUTPUT_FOLDER, "csv", "output.csv")`. */
  const CsvPath := OutputFolder + "/csv/output.csv"

  /** The one CSV write of a run: where, with which header, which rows. */
  datatype CsvFile = CsvFile(path: string, header: seq<string>, rows: seq<Record>)

  /** How a crawl ends: the CSV is written after a page that does not hold
      exactly `PageSize` articles; an index page that cannot be fetched, or
      an exception escaping an article, ends it without writing anything;
      `FuelExhausted` is the model's bound on the number of pages. */
  datatype Halt = Flushed | IndexUnreachable | ArticleCrash | FuelExhausted

  /** The end of a crawl: how it ended, the records accumulated, the CSV
      written if any, and the page it ended at. */
  datatype CrawlResult = CrawlResult(halt: Halt, records: seq<Record>, csv: Option<CsvFile>, lastPage: int)

  /** `f"{BASE_URL+IMPACT_ASSESSMENT_ROUTE}&page={page}"`. */
  function IndexUrl(page: int): string {
    BaseUrl + ImpactAssessmentRoute + "&page=" + IntToDecimal(page)
  }

  /** Distinct pages are fetched from distinct URLs. */
  lemma IndexUrlInjective(p: int, q: int)
    requires IndexUrl(p) == IndexUrl(q)
    ensures p == q
  {
    var prefix := BaseUrl + ImpactAssessmentRoute + "&page=";
    assert IntToDecimal(p) == IndexUrl(p)[|prefix|..];
    assert IntToDecimal(q) == IndexUrl(q)[|prefix|..];
    IntToDecimalInjective(p, q);
  }

  /**
   * The index fetch of main.py: up to `RetryAmount` requests, keeping the
   * first response, retrying after a connection error and stopping at once
   * on any other exception. `attempts` is the number of requests made.
   */
  method FetchIndex(answer: nat -> Fetch<seq<Tag>>) returns (soup: Option<seq<Tag>>, attempts: nat)
    ensures Attempts(soup, attempts) == Retry(answer, RetryAmount)
  {
    soup := None;
    attempts := 0;
    for n := 0 to RetryAmount
      invariant attempts == n && soup == None
      invariant RetryFrom(answer, n, RetryAmount) == Retry(answer, RetryAmount)
    {
      attempts := attempts + 1;
      match answer(n)
      case Ok(response) =>
        soup := Some(response);
        break;
      case ConnErr =>
        // wait and try again
      case OtherErr =>
        break;
    }
  }

  /** What one index page comes to. */
  datatype PageOutcome = IndexUnavailable | ArticleFailed | Harvested(uk: seq<Record>, nisr: seq<Record>)

  /** One iteration of the crawl loop on `page`: fetch the index, find the
      two link families, process the UK links and then the Northern Ireland
      links. */
  function VisitPage(site: Site, page: int): PageOutcome {
    match Retry(site.index(IndexUrl(page)), RetryAmount).result
    case None => IndexUnavailable
    case Some(soup) =>
      var ukLinks := FindLegislationLinks(soup, UkHrefPattern);
      var nisrLinks := FindLegislationLinks(soup, NisrHrefPattern);
      match PageRecords(site, ukLinks, UkOrigin, page)
      case None => ArticleFailed
      case Some(uk) =>
        match PageRecords(site, nisrLinks, NisrOrigin, page)
        case None => ArticleFailed
        case Some(nisr) => Harvested(uk, nisr)
  }

  /** The outcome of each index page of `site`. */
  function Visits(site: Site): int -> PageOutcome {
    p => VisitPage(site, p)
  }

  /** The crawl from `page` on, with `acc` accumulated so far and at most
      `fuel` more pages, `visit(p)` being what page `p` comes to. */
  function CrawlFrom(visit: int -> PageOutcome, page: int, acc: seq<Record>, fuel: nat): CrawlResult
    decreases fuel
  {
    if fuel == 0 then CrawlResult(FuelExhausted, acc, None, page)
    else match visit(page)
      case IndexUnavailable => CrawlResult(IndexUnreachable, acc, None, page)
      case ArticleFailed => CrawlResult(ArticleCrash, acc, None, page)
      case Harvested(uk, nisr) =>
        var next := acc + uk + nisr;
        if |uk + nisr| != PageSize then
          CrawlResult(Flushed, next, Some(CsvFile(CsvPath, FieldNames, next)), page)
        else
          CrawlFrom(visit, page + 1, next, fuel - 1)
  }

  /** `visit` gives, for every page, what that page comes to on `site`. */
  ghost predicate VisitsOf(site: Site, visit: int -> PageOutcome) {
    forall p {:trigger VisitPage(site, p)} :: visit(p) == VisitPage(site, p)
  }

  /** The body of the `while True` loop of `main` up to the page-count
      test: fetch the index page, find the two link families, process the
      UK links, then the Northern Ireland links. */
  method ProcessIndexPage(site: Site, ghost visit: int -> PageOutcome, page: int) returns (outcome: PageOutcome)
    requires VisitsOf(site, visit)
    ensures outcome == visit(page)
  {
    ghost var expected := VisitPage(site, page);
    var currentPageUrl := IndexUrl(page);
    var soup, _ := FetchIndex(site.index(currentPageUrl));
    if soup.None? {
      return IndexUnavailable;
    }
    var ukArticleLinks := FindLegislationLinks(soup.value, UkHrefPattern);
    var nisrArticleLinks := FindLegislationLinks(soup.value, NisrHrefPattern);
    var ukArticles := ProcessPage(site, ukArticleLinks, UkOrigin, page);
    if ukArticles.None? {
      return ArticleFailed;
    }
    var nisrArticles := ProcessPage(site, nisrArticleLinks, NisrOrigin, page);
    if nisrArticles.None? {
      return ArticleFailed;
    }
    outcome := Harvested(ukArticles.value, nisrArticles.value);
  }

  /** The `while True` loop of `main`, from `startingPage` with at most
      `fuel` pages, `visit` being what each page of `site` comes to. */
  method CrawlPages(site: Site, ghost visit: int -> PageOutcome, startingPage: int, fuel: nat) returns (result: CrawlResult)
    requires VisitsOf(site, visit)
    ensures result == CrawlFrom(visit, startingPage, [], fuel)
  {
    var page := startingPage;
    var impactAssessments: seq<Record> := [];
    var pagesLeft: nat := fuel;
    while true
      invariant CrawlFrom(visit, page, impactAssessments, pagesLeft) == CrawlFrom(visit, startingPage, [], fuel)
      decreases pagesLeft
    {
      if pagesLeft == 0 {
        return CrawlResult(FuelExhausted, impactAssessments, None, page);
      }
      var outcome := ProcessIndexPage(site, visit, page);
      match outcome
      case IndexUnavailable =>
        return CrawlResult(IndexUnreachable, impactAssessments, None, page);
      case ArticleFailed =>
        return CrawlResult(ArticleCrash, impactAssessments, None, page);
      case Harvested(ukArticles, nisrArticles) =>
        impactAssessments := impactAssessments + ukArticles;
        impactAssessments := impactAssessments + nisrArticles;
        if |ukArticles + nisrArticles| != PageSize {
          var csv := CsvFile(CsvPath, FieldNames, impactAssessments);
          return CrawlResult(Flushed, impactAssessments, Some(csv), page);
        }
        page := page + 1;
        pagesLeft := pagesLeft - 1;
    }
  }

  /** `main(starting_page=STARTING_PAGE)`, with at most `fuel` pages: visit pages in
      increasing order, extend the record list with each page's UK and then
      Northern Ireland records, and write the CSV after the first page whose
      count is not `PageSize`. */
  method Crawl(site: Site, fuel: nat, startingPage: int := StartingPage) returns (result: CrawlResult)
    ensures result == CrawlFrom(Visits(site), startingPage, [], fuel)
  {
    assert VisitsOf(site, Visits(site));
    result := CrawlPages(site, Visits(site), startingPage, fuel);
  }

  /** A page that was fetched and processed in full holds exactly
      `PageSize` articles. */
  predicate FullPage(o: PageOutcome) {
    o.Harvested? && |o.uk + o.nisr| == PageSize
  }

  /** The record list only grows: what was accumulated is never changed. */
  lemma {:induction false} CrawlAppendOnly(visit: int -> PageOutcome, page: int, acc: seq<Record>, fuel: nat)
    ensures var r := CrawlFrom(visit, page, acc, fuel);
      |acc| <= |r.records| && r.records[..|acc|] == acc
    decreases fuel
  {
    if fuel > 0 && visit(page).Harvested? {
      var o := visit(page);
      var next := acc + o.uk + o.nisr;
      if |o.uk + o.nisr| == PageSize {
        CrawlAppendOnly(visit, page + 1, next, fuel - 1);
        assert next[..|acc|] == acc;
      }
    }
  }

  /** The CSV file is written exactly when the crawl ends on a short (or
      over-full) page, and it then holds every accumulated record under the
      fixed header. */
  lemma {:induction false} CrawlWritesCsvOnlyWhenFlushed(visit: int -> PageOutcome, page: int, acc: seq<Record>, fuel: nat)
    ensures var r := CrawlFrom(visit, page, acc, fuel);
      && (r.csv.Some? <==> r.halt == Flushed)
      && (r.csv.Some? ==> r.csv.value == CsvFile(CsvPath, FieldNames, r.records))
    decreases fuel
  {
    if fuel > 0 && FullPage(visit(page)) {
      var o := visit(page);
      CrawlWritesCsvOnlyWhenFlushed(visit, page + 1, acc + o.uk + o.nisr, fuel - 1);
    }
  }

  /**
   * Pages are visited one after the other from `page`, and the crawl goes
   * past a page exactly when that page holds `PageSize` articles: every page
   * before the last one is full, and the last one is what ended the crawl,
   * a page whose count differs from `PageSize` (fewer or more) when the CSV
   * is written, in which case that page's records close the record list.
   */
  lemma {:induction false} CrawlStopsAtFirstIrregularPage(visit: int -> PageOutcome, page: int, acc: seq<Record>, fuel: nat)
    ensures var r := CrawlFrom(visit, page, acc, fuel);
      && page <= r.lastPage <= page + fuel
      && (forall p :: page <= p < r.lastPage ==> FullPage(visit(p)))
      && (r.halt == FuelExhausted <==> r.lastPage == page + fuel)
      && (r.halt == IndexUnreachable ==> visit(r.lastPage).IndexUnavailable?)
      && (r.halt == ArticleCrash ==> visit(r.lastPage).ArticleFailed?)
      && (r.halt == Flushed ==>
            var o := visit(r.lastPage);
            && o.Harvested?
            && |o.uk + o.nisr| != PageSize
            && |o.uk + o.nisr| <= |r.records|
            && r.records[|r.records| - |o.uk + o.nisr|..] == o.uk + o.nisr)
    decreases fuel
  {
    if fuel > 0 {
      var o := visit(page);
      if o.Harvested? {
        var next := acc + o.uk + o.nisr;
        if |o.uk + o.nisr| == PageSize {
          CrawlStopsAtFirstIrregularPage(visit, page + 1, next, fuel - 1);
        } else {
          assert next[|next| - |o.uk + o.nisr|..] == o.uk + o.nisr;
        }
      }
    }
  }

  /** The rows a page adds to the record list: its UK records, then its
      Northern Ireland records. */
  function PageRows(o: PageOutcome): seq<Record> {
    if o.Harvested? then o.uk + o.nisr else []
  }

  /** The rows of `count` consecutive pages from `page`, in page order. */
  function Harvest(visit: int -> PageOutcome, page: int, count: nat): seq<Record>
    decreases count
  {
    if count == 0 then [] else PageRows(visit(page)) + Harvest(visit, page + 1, count - 1)
  }

  /**
   * What the record list holds: the records accumulated before, then the
   * rows of every full page visited, in page order, then, when the crawl
   * ends by writing the CSV, the rows of the page that ended it. Nothing
   * else is ever added, and nothing is dropped.
   */
  lemma {:induction false} CrawlRecords(visit: int -> PageOutcome, page: int, acc: seq<Record>, fuel: nat)
    ensures var r := CrawlFrom(visit, page, acc, fuel);
      && page <= r.lastPage
      && r.records == acc + Harvest(visit, page, r.lastPage - page)
                         + (if r.halt == Flushed then PageRows(visit(r.lastPage)) else [])
    decreases fuel
  {
    if fuel > 0 && FullPage(visit(page)) {
      var o := visit(page);
      var rows := PageRows(o);
      var next := acc + o.uk + o.nisr;
      CrawlRecords(visit, page + 1, next, fuel - 1);
      var r := CrawlFrom(visit, page + 1, next, fuel - 1);
      assert CrawlFrom(visit, page, acc, fuel) == r;
      var rest := Harvest(visit, page + 1, r.lastPage - page - 1);
      var tail := if r.halt == Flushed then PageRows(visit(r.lastPage)) else [];
      assert Harvest(visit, page, r.lastPage - page) == rows + rest;
      calc {
        r.records;
        next + rest + tail;
        { assert next == acc + rows; }
        acc + (rows + rest) + tail;
      }
    } else if fuel > 0 && visit(page).Harvested? {
      var o := visit(page);
      assert Harvest(visit, page, 0) == [];
      assert acc + o.uk + o.nisr == acc + [] + PageRows(o);
    }
  }

  /** Within a page, every UK record precedes every Northern Ireland one. */
  function OriginRank(origin: string): nat {
    if origin == UkOrigin then 0 else 1
  }

  predicate Precedes(a: Record, b: Record) {
    a.pageNumber < b.pageNumber
    || (a.pageNumber == b.pageNumber && OriginRank(a.origin) <= OriginRank(b.origin))
  }

  /** Records by increasing page, and within a page UK before Northern Ireland. */
  predicate Ordered(rs: seq<Record>) {
    forall i, j :: 0 <= i < j < |rs| ==> Precedes(rs[i], rs[j])
  }

  /** The records of page `page` carry its number and their family. */
  predicate WellTagged(o: PageOutcome, page: int) {
    o.Harvested? ==>
      && (forall r :: r in o.uk ==> r.pageNumber == page && r.origin == UkOrigin)
      && (forall r :: r in o.nisr ==> r.pageNumber == page && r.origin == NisrOrigin)
  }

  /** Every page of the site tags its records with its number and family. */
  lemma VisitPageTags(site: Site, page: int)
    ensures WellTagged(Visits(site)(page), page)
  {
    match Retry(site.index(IndexUrl(page)), RetryAmount).result
    case None =>
    case Some(soup) =>
      PageRecordsShape(site, FindLegislationLinks(soup, UkHrefPattern), UkOrigin, page);
      PageRecordsShape(site, FindLegislationLinks(soup, NisrHrefPattern), NisrOrigin, page);
  }

  lemma AppendPageKeepsOrder(acc: seq<Record>, page: int, uk: seq<Record>, nisr: seq<Record>)
    requires Ordered(acc)
    requires forall r :: r in acc ==> r.pageNumber < page
    requires forall r :: r in uk ==> r.pageNumber == page && r.origin == UkOrigin
    requires forall r :: r in nisr ==> r.pageNumber == page && r.origin == NisrOrigin
    ensures Ordered(acc + uk + nisr)
  {
    var all := acc + uk + nisr;
    forall i, j | 0 <= i < j < |all| ensures Precedes(all[i], all[j]) {
      if j < |acc| {
        assert all[i] == acc[i] && all[j] == acc[j];
      } else if i < |acc| {
        assert all[i] in acc;
        assert all[j] in uk || all[j] in nisr;
      } else if j < |acc| + |uk| {
        assert all[i] in uk && all[j] in uk;
      } else if i < |acc| + |uk| {
        assert all[i] in uk && all[j] in nisr;
      } else {
        assert all[i] in nisr && all[j] in nisr;
      }
    }
  }

  /**
   * The record list comes out ordered by page and, within a page, with the
   * UK records before the Northern Ireland ones; every record added carries
   * a page number between the first page visited and the last.
   */
  lemma {:induction false} CrawlKeepsOrder(visit: int -> PageOutcome, page: int, acc: seq<Record>, fuel: nat)
    requires forall p :: WellTagged(visit(p), p)
    requires Ordered(acc)
    requires forall r :: r in acc ==> r.pageNumber < page
    ensures var r := CrawlFrom(visit, page, acc, fuel);
      && Ordered(r.records)
      && |acc| <= |r.records|
      && forall i :: |acc| <= i < |r.records| ==> page <= r.records[i].pageNumber <= r.lastPage
    decreases fuel
  {
    CrawlAppendOnly(visit, page, acc, fuel);
    CrawlStopsAtFirstIrregularPage(visit, page, acc, fuel);
    if fuel > 0 && visit(page).Harvested? {
      var o := visit(page);
      var next := acc + o.uk + o.nisr;
      assert WellTagged(o, page);
      AppendPageKeepsOrder(acc, page, o.uk, o.nisr);
      forall i | |acc| <= i < |next| ensures next[i].pageNumber == page {
        assert next[i] in o.uk || next[i] in o.nisr;
      }
      if |o.uk + o.nisr| == PageSize {
        forall x | x in next ensures x.pageNumber < page + 1 {
          assert x in acc || x in o.uk || x in o.nisr;
        }
        CrawlKeepsOrder(visit, page + 1, next, fuel - 1);
        var r := CrawlFrom(visit, page + 1, next, fuel - 1);
        CrawlAppendOnly(visit, page + 1, next, fuel - 1);
        forall i | |acc| <= i < |next| ensures r.records[i] == next[i] {
          assert r.records[..|next|] == next;
        }
      }
    }
  }

  /** The whole run of `main`: its records are ordered by page and family,
      and each carries a page number from the starting page to the last. */
  lemma CrawlOrdered(site: Site, startingPage: int, fuel: nat)
    ensures var r := CrawlFrom(Visits(site), startingPage, [], fuel);
      && Ordered(r.records)
      && forall i :: 0 <= i < |r.records| ==> startingPage <= r.records[i].pageNumber <= r.lastPage
  {
    forall p ensures WellTagged(Visits(site)(p), p) {
      VisitPageTags(site, p);
    }
    CrawlKeepsOrder(Visits(site), startingPage, [], fuel);
  }
}
