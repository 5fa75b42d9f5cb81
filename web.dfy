/**
 * The values the scraper works on, with the network, the HTML parser and the
 * PDF libraries replaced by abstract data.
 */
module Web {
  datatype Option<T> = None | Some(value: T)

  /** The outcome of one HTTP request: a response, a connection error
      (retried), or any other exception (not retried). */
  datatype Fetch<T> = Ok(value: T) | ConnErr | OtherErr

  /** One element of a parsed HTML document: its tag name, its `href`
      attribute if it has one, its CSS classes and its visible text. */
  datatype Tag = Tag(name: string, href: Option<string>, classes: seq<string>, text: string)

  /** A downloaded PDF as the extraction backends see it: either a file that
      pdfplumber cannot parse (it raises PDFSyntaxError), or, per page, the
      text of its embedded text layer (None for a page without one) and, per
      rasterised page image, the text the OCR engine reads from it. */
  datatype Pdf = Malformed | Parsed(pageTexts: seq<Option<string>>, pageScans: seq<string>)

  /**
   * The web site as the scraper meets it. `index(url)(n)` is the outcome of
   * the n-th request (from 0) for an index page; `article(url)` is the parsed
   * article page, None when the request raises; `pdf(url)(n)` is the outcome
   * of the n-th download request for a PDF.
   */
  datatype Site = Site(
    index: string -> nat -> Fetch<seq<Tag>>,
    article: string -> Option<seq<Tag>>,
    pdf: string -> nat -> Fetch<Pdf>)

  /** One output row; `extractionMethod` is the CSV's "method" column. */
  datatype Record = Record(
    articleName: string,
    reference: Option<string>,
    text: Option<string>,
    extractionMethod: string,
    origin: string,
    pageNumber: int)
}
