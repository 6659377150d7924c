/**
 * `check_sitemap_inclusion`: resolves the sitemap for a page through its base address and
 * the mapping, walks it from a fresh visited set, and classifies the page in one of three ways.
 */
module SitemapInclusion {
  import opened Wrappers
  import opened SitemapUrls
  import opened SitemapCrawl

  /** One row of the audit report: status ("현황"), comment ("Comment") and fix ("SEO 수정안"). */
  datatype Report = Report(status: string, comment: string, fix: string)

  /** No sitemap is known for the page's base address. */
  const NoSitemap := Report("Sitemap URL 없음", "Sitemap 데이터 없음", "Sitemap 추가 필요")

  /** The page is listed in the sitemap. */
  const Included := Report("Sitemap 포함", "이슈 없음", "N/A")

  /** The page is missing from the sitemap; the fix names it. */
  function NotIncluded(fullUrl: string): Report {
    Report("Sitemap 미포함", "URL 추가 필요", fullUrl + " 추가 필요")
  }

  /** Python truthiness of the sitemap `find_sitemap_url` returns: `None` and `""` are false. */
  predicate Truthy(s: Option<string>) {
    s.Some? && s.value != ""
  }

  /** The page is listed in a urlset reachable from `sitemap`. */
  ghost predicate Listed(web: map<string, FetchResult>, sitemap: string, fullUrl: string) {
    exists v :: Reachable(web, sitemap, v) && Hit(web, v, fullUrl)
  }

  method CheckSitemapInclusion(fullUrl: string, mapping: seq<(string, string)>, web: map<string, FetchResult>)
    returns (r: Report)
    ensures var s := FirstMatch(ExtractBaseUrl(fullUrl), mapping);
      && (r == NoSitemap <==> !Truthy(s))
      && (r == Included <==> Truthy(s) && Listed(web, s.value, fullUrl))
      && (r == NotIncluded(fullUrl) <==> Truthy(s) && !Listed(web, s.value, fullUrl))
    ensures mapping == [] ==> r == NoSitemap
  {
    var baseUrl := ExtractBaseUrl(fullUrl);
    var sitemapUrl := FindSitemapUrl(baseUrl, mapping);
    if !Truthy(sitemapUrl) {
      return NoSitemap;
    }
    var found, _ := IsUrlInSitemaps(web, sitemapUrl.value, fullUrl, {});
    CrawlFindsIffReachable(web, sitemapUrl.value, fullUrl);
    if found.Some? {
      return Included;
    } else {
      return NotIncluded(fullUrl);
    }
  }
}
