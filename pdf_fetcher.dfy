/** Downloading a PDF with bounded retries (utils.py, `download_pdf`). */
module PdfFetcher {
  import opened Web
  import opened Constants
  import opened BoundedRetry

  /**
   * Requests the PDF up to `RetryAmount` times; `answer(n)` is the outcome of
   * request number `n`. Returns the first response's content, or None when a
   * non-connection exception ends the loop early or every request fails with
   * a connection error. `attempts` is the number of requests made.
   */
  method DownloadPdf(answer: nat -> Fetch<Pdf>) returns (pdf: Option<Pdf>, attempts: nat)
    ensures Attempts(pdf, attempts) == Retry(answer, RetryAmount)
  {
    attempts := 0;
    for n := 0 to RetryAmount
      invariant attempts == n
      invariant RetryFrom(answer, n, RetryAmount) == Retry(answer, RetryAmount)
    {
      attempts := attempts + 1;
      match answer(n)
      case Ok(content) =>
        return Some(content), attempts;
      case ConnErr =>
        // wait and try again
      case OtherErr =>
        break;
    }
    pdf := None;
  }
}
