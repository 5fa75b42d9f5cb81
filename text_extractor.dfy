/**
 * Turning a downloaded PDF into text (process.py, `extract_text_from_pdf`,
 * `pdfplumber_on_pdf` and `ocr_on_pdf`): the text layer first, OCR only
 * when the text layer yields fewer than two words.
 */
module TextExtractor {
  import opened Web
  import opened Constants
  import opened Strings

  const PdfPlumberMethod := "pdfplumber"
  const OcrMethod := "OCR"
  const BlankPageMethod := "Possible error or blank page"

  /** The result of `extract_text_from_pdf`: the text and the method tag, or
      the PDFSyntaxError that pdfplumber raises on a file it cannot parse. */
  datatype Extraction = Extracted(text: string, extractionMethod: string) | SyntaxError

  /** The page texts pdfplumber returns, without the pages that have none. */
  function PresentTexts(pages: seq<Option<string>>): (texts: seq<string>)
    ensures |texts| <= |pages|
  {
    if pages == [] then []
    else
      var last := pages[|pages| - 1];
      PresentTexts(pages[..|pages| - 1]) + (if last.Some? then [last.value] else [])
  }

  /** Dropping the empty pages of a concatenation drops them from each part. */
  lemma {:induction false} PresentTextsAppend(a: seq<Option<string>>, b: seq<Option<string>>)
    ensures PresentTexts(a + b) == PresentTexts(a) + PresentTexts(b)
    decreases |b|
  {
    if b == [] {
      assert a + b == a;
    } else {
      assert (a + b)[..|a + b| - 1] == a + b[..|b| - 1];
      PresentTextsAppend(a, b[..|b| - 1]);
    }
  }

  /** The text of the text layer: every page's text, in page order, with no
      separator. */
  function LayerText(pages: seq<Option<string>>): string {
    Concat(PresentTexts(pages))
  }

  /** The text OCR reads: every page image's text, in page order, with no
      separator. */
  function OcrText(scans: seq<string>): string {
    Concat(scans)
  }

  /** `pdfplumber_on_pdf`: opening a malformed file raises PDFSyntaxError
      (None here); otherwise the pages' texts are appended one by one,
      skipping pages without text. */
  method PdfPlumberOnPdf(pdf: Pdf) returns (text: Option<string>)
    ensures pdf.Malformed? ==> text == None
    ensures pdf.Parsed? ==> text == Some(LayerText(pdf.pageTexts))
  {
    if pdf.Malformed? {
      return None;
    }
    var pages := pdf.pageTexts;
    var acc := "";
    for n := 0 to |pages|
      invariant acc == LayerText(pages[..n])
    {
      assert pages[..n + 1][..n] == pages[..n];
      var pageText := pages[n];
      var done := PresentTexts(pages[..n]);
      if pageText.Some? {
        assert PresentTexts(pages[..n + 1]) == done + [pageText.value];
        assert (done + [pageText.value])[..|done|] == done;
        acc := acc + pageText.value;
      } else {
        assert PresentTexts(pages[..n + 1]) == done + [];
        assert done + [] == done;
      }
    }
    assert pages[..|pages|] == pages;
    return Some(acc);
  }

  /** `ocr_on_pdf`: the OCR text of each page image, appended in order. */
  method OcrOnPdf(scans: seq<string>) returns (text: string)
    ensures text == OcrText(scans)
  {
    text := "";
    for n := 0 to |scans|
      invariant text == OcrText(scans[..n])
    {
      assert scans[..n + 1][..n] == scans[..n];
      text := text + scans[n];
    }
    assert scans[..|scans|] == scans;
  }

  /**
   * The choice `extract_text_from_pdf` makes. A malformed file raises
   * PDFSyntaxError before anything else. The text layer is kept when it
   * has at least `WordCountThreshold` words; otherwise OCR replaces it and
   * is tagged "OCR" when it has enough words and "Possible error or blank
   * page" when it does not, the OCR text being returned in both cases.
   */
  function Extract(pdf: Pdf): (r: Extraction)
    ensures r.SyntaxError? <==> pdf.Malformed?
    ensures r.Extracted? ==> r.extractionMethod in {PdfPlumberMethod, OcrMethod, BlankPageMethod}
    ensures r.Extracted? ==>
      (r.extractionMethod == PdfPlumberMethod <==> WordCount(LayerText(pdf.pageTexts)) >= WordCountThreshold)
    ensures r.Extracted? && r.extractionMethod == PdfPlumberMethod ==> r.text == LayerText(pdf.pageTexts)
    ensures r.Extracted? && r.extractionMethod != PdfPlumberMethod ==>
      r.text == OcrText(pdf.pageScans)
      && (r.extractionMethod == OcrMethod <==> WordCount(r.text) >= WordCountThreshold)
  {
    match pdf
    case Malformed => SyntaxError
    case Parsed(pages, scans) =>
      var layer := LayerText(pages);
      if WordCount(layer) >= WordCountThreshold then Extracted(layer, PdfPlumberMethod)
      else
        var ocr := OcrText(scans);
        Extracted(ocr, if WordCount(ocr) >= WordCountThreshold then OcrMethod else BlankPageMethod)
  }

  /**
   * `extract_text_from_pdf`, step by step as the source reassigns `method`,
   * `main_text` and `word_count`. `ocrInvoked` records whether OCR ran: it
   * runs exactly when the text layer has fewer than `WordCountThreshold`
   * words.
   */
  method ExtractTextFromPdf(pdf: Pdf) returns (r: Extraction, ghost ocrInvoked: bool)
    ensures r == Extract(pdf)
    ensures ocrInvoked <==> pdf.Parsed? && WordCount(LayerText(pdf.pageTexts)) < WordCountThreshold
  {
    ocrInvoked := false;
    var extractionMethod := PdfPlumberMethod;
    var plumbed := PdfPlumberOnPdf(pdf);
    if plumbed.None? {
      return SyntaxError, false;
    }
    var mainText := plumbed.value;
    var wordCount := WordCount(mainText);
    if wordCount < WordCountThreshold {
      extractionMethod := OcrMethod;
      mainText := OcrOnPdf(pdf.pageScans);
      ocrInvoked := true;
      wordCount := WordCount(mainText);
    }
    if wordCount < WordCountThreshold {
      extractionMethod := BlankPageMethod;
    }
    r := Extracted(mainText, extractionMethod);
  }

  /** With the threshold at two, the text layer is kept exactly when some
      whitespace in it separates two non-whitespace characters. */
  lemma PdfPlumberKeptIffTwoWords(pages: seq<Option<string>>, scans: seq<string>)
    ensures Extract(Parsed(pages, scans)).extractionMethod == PdfPlumberMethod
            <==> HasTwoWords(LayerText(pages))
  {
    SplitTwoWordsIff(LayerText(pages));
  }

  /** The text layer is the concatenation of the texts of consecutive runs of
      pages: extraction does not depend on how the file is split into pages. */
  lemma LayerTextAppend(a: seq<Option<string>>, b: seq<Option<string>>)
    ensures LayerText(a + b) == LayerText(a) + LayerText(b)
  {
    PresentTextsAppend(a, b);
    ConcatAppend(PresentTexts(a), PresentTexts(b));
  }
}
