/** Configuration values of the scraper (constants.py). */
module Constants {
  /** Site root that every scraped href is appended to. */
  const BaseUrl: string := "https://www.legislation.gov.uk"

  /** Listing endpoint of final-stage impact assessments. */
  const ImpactAssessmentRoute: string := "/ukia?stage=Final"

  /** Root folder of everything the scraper writes. */
  const OutputFolder: string := "output"

  /** Header of the CSV file, in column order. */
  const FieldNames: seq<string> :=
    ["article name", "reference", "text", "method", "origin", "page number"]

  /** Fewest whitespace-separated words a text extraction must yield to be accepted. */
  const WordCountThreshold: nat := 2

  /** Page the crawl starts from when no other page is given. */
  const StartingPage: int := 1

  /** Number of attempts of every bounded retry or polling loop. */
  const RetryAmount: nat := 4
}
