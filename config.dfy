/** The crawler settings of `CrawlerConfig` that the modelled code reads. */
module Config {

  /** Upper bound on the number of pages one `crawl` processes. */
  const MaxPages: nat := 1000

  /** Shortest extracted content that is saved. */
  const MinContentLength: nat := 100

  /** Literal path fragments; a URL is crawled only if it contains one (ignoring case). */
  const UsefulUrlPatterns: seq<string> :=
    ["/article/", "/blog/", "/news/", "/post/", "/story/", "/content/", "/page/"]

  /** Path endings that mark a URL as not worth fetching. */
  const ExcludedExtensions: seq<string> :=
    [".pdf", ".jpg", ".jpeg", ".png", ".gif", ".mp4", ".avi", ".zip", ".exe", ".css", ".js"]
}
