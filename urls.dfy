/**
 * The two components of `urllib.parse.urlparse` that the crawler and the
 * scraper read. Parsing itself is standard-library behaviour and enters the
 * model as a function-typed parameter `Url -> ParsedUrl`.
 */
module Urls {

  type Url = string

  /** `urlparse(url).scheme` and `urlparse(url).netloc`; "" when absent. */
  datatype ParsedUrl = ParsedUrl(scheme: string, netloc: string)
}
