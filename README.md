# Sitemap inclusion and URL classification of the SEO audit tool, in Dafny

This project models the core of an SEO audit tool. For a page address, the tool finds the
sitemap that governs the page and then checks whether the page is listed in it:

- `extract_base_url` reduces the address to a base: `scheme://host/`, or
  `scheme://host/aa/bb/` on a `www.` host.
- `remove_language_code` drops a leading locale segment such as `en_s`.
- `find_sitemap_url` returns the first mapping entry whose normalised key is a prefix of the
  normalised base.
- `is_url_in_sitemaps` walks sitemap-index and urlset documents depth first, as defined by
  the Sitemaps XML protocol 0.9, with a visited set against cycles.
- `check_sitemap_inclusion` turns all this into one of three report rows.

The model also covers three per-page utilities:

- the brand / country / language classifier for page addresses;
- the `is_hidden` test on tags;
- the deduplicating loop that collects image alt texts.

Files, one module each:

- `strings.dfy` (`Wrappers`, `Strings`): the Python `str` operations the code relies on, that
  is `startswith`, `in`, `split`/`join`, `strip`, `replace`, `isalpha`, `lower` and `upper`,
  with their laws.
- `url_parse.dfy` (`UrlParse`): the part of `urllib.parse.urlparse` the code reads, namely
  scheme, host and path. Its laws: parsing a rendered well-formed address gives it back, and
  a query or fragment never reaches the path.
- `paths.dfy` (`Paths`): the path segments (`path.strip("/").split("/")`) and the locale-code
  test, shared by the sitemap and classifier modules.
- `lookup.dfy` (`Lookup`): first-match lookup in an ordered list of entries. A Python dict
  iterated in insertion order is such a list.
- `sitemap_urls.dfy` (`SitemapUrls`): `extract_base_url`, `remove_language_code` and
  `find_sitemap_url`.
- `sitemap_crawl.dfy` (`SitemapCrawl`): `is_url_in_sitemaps`. It has a specification
  (`Crawl`/`CrawlChildren`), proofs that the walk is sound and complete with respect to
  reachability, and the recursive method with its loops.
- `sitemap_inclusion.dfy` (`SitemapInclusion`): `check_sitemap_inclusion`.
- `utils.dfy` (`Utils`): `extract_brand_country_and_lancode` and `is_hidden`.
- `alt_texts.dfy` (`AltTexts`): `collect_alt_texts` over an already parsed page.

How the outside world enters the model:

- **Sitemap fetches.** A finite map from address to parsed document stands in for HTTP and
  the XML parser. A document is `Failed`, `Index(children)` or `UrlSet(locs)`:
  - `Failed` covers a non-200 status and any exception.
  - An `Index` child is `None` when its `<sitemap>` has no `<loc>`.
  - The empty address is always `Failed`, because the HTTP client rejects it.
  - The map is finite, so the walk terminates: the unvisited part of the map shrinks with
    every fetch.
- **The visited set.** `visited_sitemaps` is shared and mutated in place across the recursive
  calls. The method models it as a set that comes in and goes out grown.
- **Pages for alt texts.** A page is given already parsed: its `<img>` tags, then its Magento
  init scripts. Each script is undecodable JSON, an object of gallery values, or JSON that is
  not an object.
- **`urljoin`.** It is a function parameter `join`.

### Behaviour of the code worth knowing

- **First match.** Mapping resolution takes the first matching key in
  mapping order (`FirstMatchIsFirst`); there is no longest-prefix rule.
- **Length only.** `extract_base_url` keeps the two-segment prefix when both segments have
  exactly two characters. It does not check that they are letters.
- **`remove_language_code` is not idempotent.** It removes one locale segment per call:
  - `RemoveLanguageCodeNotIdempotent` shows that `https://hk.sulwhasoo.com/en_s/tc_s/`
    becomes `.../tc_s`, then `.../`;
  - on a well-formed address (one with a scheme), `RemoveLanguageCodeSettles` and
    `RemoveLanguageCodeMoves` give the exact condition;
  - without a scheme, every call puts `://` in front of the previous result
    (`RemoveLanguageCodeWithoutScheme`): `//h/en_s/x` becomes `://h/x` and then `:://h/x`.
- **`extract_base_url` is idempotent only when the address has a scheme or no host.** For
  `//www.a.com/kr/ko/x` the base is `://www.a.com/kr/ko/`, which parses back with an empty
  host. `ExtractBaseUrlIdempotent` covers addresses with a scheme. `ExtractBaseUrlWithoutScheme`
  shows that without one the second base is always `:///`: it differs from the first when the
  address has a host, and equals it when it has none (`foo` gives `:///`, then `:///`).

## Model

| member | source | states |
|---|---|---|
| UrlParse.Parse | sitemap_management.py:49 | the parsed scheme is empty or a scheme name; the host has no `/`, `?` or `#`; the path has no `?` or `#`; neither contains a tab, carriage return or newline, which `urlparse` removes |
| UrlParse.ParseRender | sitemap_management.py:49 | parsing a rendered well-formed address gives back its scheme, host and path |
| SitemapUrls.ExtractBaseUrl | sitemap_management.py:48-62 | the base always ends in `/`. A non-`www.` host always gives `scheme://netloc/`. Otherwise the base is that root, or `scheme://netloc/p0/p1/` with `p0`, `p1` of exactly two characters and free of `/`; `ExtractBaseUrlOfSegments` says which |
| SitemapUrls.BasePath | sitemap_management.py:51-60 | the kept path starts and ends with `/`. It is `/` on a non-`www.` host, and otherwise `/` or `/p0/p1/` with `p0`, `p1` of exactly two characters and free of `/`; `BasePathOfSegments` says which |
| SitemapUrls.BasePathOfSegments | sitemap_management.py:51-60 | the kept path is `/s0/s1/`, with `s0`, `s1` the first two segments of the page's own path, exactly when the host starts with `www.`, the path has at least two segments and both have two characters. Otherwise it is `/`. Trailing slashes of the path change nothing |
| SitemapUrls.ExtractBaseUrlOfSegments | sitemap_management.py:48-62 | `extract_base_url(url)` is `scheme://netloc/s0/s1/` under that same condition on the parsed address, and `scheme://netloc/` otherwise |
| SitemapUrls.ExtractBaseUrlKeepsTwoSegments | sitemap_management.py:53-56 | for a well-formed `scheme://www.host/p0/p1/q` with two-character `p0`, `p1`, the base is `scheme://www.host/p0/p1/` |
| Paths.Segments | sitemap_management.py:54 | `path.strip("/").split("/")` has at least one segment and no segment contains `/` |
| SitemapUrls.BasePathOfBase | sitemap_management.py:53-58 | the path of a base is mapped to itself by the base rule |
| SitemapUrls.BaseWellFormed | sitemap_management.py:56-60 | a base built from a page address with a scheme is a well-formed address that parses back to its parts |
| SitemapUrls.ExtractBaseUrlIdempotent | sitemap_management.py:51-62 | for an address with a scheme, `extract_base_url(extract_base_url(u)) == extract_base_url(u)` |
| SitemapUrls.ExtractBaseUrlWithoutScheme | sitemap_management.py:48-62 | for an address without a scheme, the base of the base is `:///`. With a host, that differs from the base itself, so `extract_base_url` is then not idempotent; without a host, the base is `:///` already and is a fixed point |
| UrlParse.ParseRenderSchemeless | sitemap_management.py:49 | `://netloc/path` parses with no scheme and no host: all of it is the path |
| SitemapUrls.ExtractBaseUrlIgnoresQuery | sitemap_management.py:49-51 | appending a query or fragment to an address does not change its base |
| Paths.IsLocaleCode | sitemap_management.py:67 | definition: exactly four characters, two ASCII lower-case letters, `_`, and one more ASCII lower-case letter |
| SitemapUrls.LocaleFreePath | sitemap_management.py:66-70 | definition: when the first segment is a locale code, `/` followed by the remaining segments joined by `/`, or `/` when there are none; otherwise the path unchanged |
| SitemapUrls.RemoveLanguageCode | sitemap_management.py:64-71 | when the first segment is not a locale code, the result is `scheme://netloc` + the original path, with query and fragment dropped |
| SitemapUrls.LocaleFreeNoTrailingSlash | sitemap_management.py:66-68 | when a locale code is followed by more segments, the new path does not end in `/` |
| SitemapUrls.LocaleFreeSegments | sitemap_management.py:66-68 | when a locale code is removed and the segment after it is not empty, the segments of the new path are exactly the remaining segments. An empty second segment (a path such as `/en_s//x`) is excluded, because the new path `//x` then loses it when stripped |
| SitemapUrls.LocaleFreePathShorter | sitemap_management.py:66-68 | removing a locale code makes the path strictly shorter |
| SitemapUrls.LocaleFreeWellFormed | sitemap_management.py:64-71 | the result of `remove_language_code` on a well-formed address is again well formed |
| SitemapUrls.RemoveLanguageCodeOfOf | sitemap_management.py:64-71 | two calls on a well-formed address give `scheme://netloc` followed by the path with the leading-locale rule applied twice |
| SitemapUrls.RemoveLanguageCodeSettles | sitemap_management.py:64-71 | on a well-formed address (one with a scheme), a second `remove_language_code` is a no-op when the path left by the first does not start with a locale code |
| SitemapUrls.RemoveLanguageCodeMoves | sitemap_management.py:64-71 | on a well-formed address (one with a scheme), a second `remove_language_code` changes the address when the path left by the first starts with a locale code; with `RemoveLanguageCodeSettles` this is an exact condition |
| SitemapUrls.RemoveLanguageCodeWithoutScheme | sitemap_management.py:64-71 | for an address without a scheme, a second call returns `://` followed by the first result, so it always changes the address. The reason is that the first result, `://netloc` followed by the locale-free path, parses back as a bare path led by `:` |
| SitemapUrls.RemoveLanguageCodeNotIdempotent | sitemap_management.py:66-68 | with two locale codes in a row, the first call leaves `/c1` and the second leaves `/`, so the two results differ |
| SitemapUrls.RemoveLanguageCodeIgnoresQuery | sitemap_management.py:65-71 | the query and the fragment never affect the result of `remove_language_code` |
| SitemapUrls.KeyMatches | sitemap_management.py:76-77 | definition: the key matches when its `remove_language_code` form is a prefix of that of the base |
| Lookup.FirstWhereIsFirst | sitemap_management.py:75-81 | the lookup gives None exactly when no key qualifies. Otherwise it gives the value of a qualifying key with no qualifying key before it |
| SitemapUrls.FirstMatchIsFirst | sitemap_management.py:73-85 | the resolved sitemap is that of the first key, in mapping order, whose normalised form is a prefix of the normalised base. It is None exactly when no key matches, so an empty mapping gives None |
| Lookup.FindFirst | sitemap_management.py:75-81 | the loop with early return yields the value of the first entry whose key passes the test, or None after the last entry |
| SitemapUrls.FindSitemapUrl | sitemap_management.py:73-85 | the method returns the first-match resolution `FirstMatch`, whose meaning `FirstMatchIsFirst` states |
| SitemapCrawl.Fetch | sitemap_management.py:103-108 | a document is only obtained for a non-empty address known to the map; everything else fails |
| SitemapCrawl.Crawl | sitemap_management.py:92-137 | an already visited address finds nothing, fetches nothing and leaves visited as it was. Otherwise the address is added to visited and fetched first. Visited only grows, by exactly the fetched addresses, and no address is fetched twice |
| SitemapCrawl.CrawlChildren | sitemap_management.py:112-121 | the walk over an index's entries keeps the same visited and fetch discipline across siblings |
| SitemapCrawl.CrawlSound | sitemap_management.py:112-132 | a found sitemap is a urlset that lists the page exactly, and it is reachable from the start through index entries |
| SitemapCrawl.CrawlChildrenSound | sitemap_management.py:114-121 | what the loop over an index finds is listed in a urlset reachable from one of the entries |
| SitemapCrawl.CrawlComplete | sitemap_management.py:92-137 | when nothing is found, no fetched document lists the page, and every entry of every fetched index was visited |
| SitemapCrawl.CrawlChildrenComplete | sitemap_management.py:114-121 | when the loop over an index finds nothing, every entry with a `<loc>` was visited and nothing fetched lists the page |
| SitemapCrawl.CrawlFindsIffReachable | sitemap_management.py:92-137 | from a fresh visited set, the walk finds a sitemap exactly when some urlset reachable from the start lists the page; cycles and self-references are covered |
| SitemapCrawl.SelfReferenceEnds | sitemap_management.py:95-97 | an index that lists itself is fetched once and the walk ends with None |
| SitemapCrawl.ChildrenInOrder | sitemap_management.py:114-121 | in an example, entries without `<loc>` are skipped, children are walked in order, and the first find ends the walk before later children are fetched |
| SitemapCrawl.TrailingSlashMisses | sitemap_management.py:125-131 | in an example, a listed `.../p/` does not match the page `.../p` |
| SitemapCrawl.IsUrlInSitemaps | sitemap_management.py:92-137 | the recursive method with its loops returns what `Crawl` finds and leaves visited as `Crawl` does. Visited only grows and contains the address, and a visited address returns None with visited unchanged |
| SitemapInclusion.CheckSitemapInclusion | sitemap_management.py:139-169 | "Sitemap URL 없음" exactly when the resolved sitemap is None or "". "Sitemap 포함", "이슈 없음", "N/A" exactly when it is set and a urlset reachable from it lists the page, walking from a fresh visited set. "Sitemap 미포함" with fix `full_url + " 추가 필요"` exactly when it is set and no such urlset exists. An empty mapping gives "Sitemap URL 없음" |
| Utils.Brand | utils.py:9-12 | definition: the code of the first brand key, in the order sulwhasoo, laneige, hera, aestura, that is a substring of the host or of the path, and "UNKNOWN" when there is none |
| Utils.BrandIsFirst | utils.py:9-12 | the brand is the code of the first key, in the order sulwhasoo, laneige, hera, aestura, found in the host or the path. It is "UNKNOWN" exactly when no key occurs |
| Utils.Country | utils.py:15-21 | definition: the first host label upper-cased when its lower-case form is one of the nine listed countries; else the first path segment upper-cased when it is two letters; else the second-to-last host label upper-cased when there are two labels or more and it is two letters; else "UNKNOWN" |
| Utils.CountryShape | utils.py:15-21 | the country is "UNKNOWN" or two upper-case letters |
| Utils.FirstLanguageSegment | utils.py:23-27 | the loop's result is "" exactly when no segment is a locale code or one of ko/en/zh/ja; otherwise it is the first such segment |
| Utils.FindLanguageSegment | utils.py:23-27 | the loop with `break` returns the first language segment of the path, or "" when there is none |
| Utils.OverrideIsKrOrJp | utils.py:29-31 | an override gives `kr-ko` or `jp-ja`; the listed `int/en` pair cannot fire because `int` has three letters |
| Utils.Language | utils.py:23-31 | definition: `p0-p1` when the override applies to the first two segments, else the first language segment of the path, else "" |
| Utils.LanguageShape | utils.py:23-31 | the language is "", a language segment of the path, `kr-ko` or `jp-ja`, and never `int-en` |
| Utils.ExtractBrandCountryAndLancode | utils.py:8-33 | the brand, the country and the language (the loop with `break`, then the override) are those of the classifier functions. The country is "UNKNOWN" or two upper-case letters, and the language is never `int-en` |
| Utils.IsHidden | utils.py:35-45 | definition: the style with spaces removed and lower-cased contains `display:none` or `visibility:hidden`, or the tag has the `hidden` attribute, or `hidden` is one of its classes |
| Utils.InlineStyleHides | utils.py:40-42 | a style that contains `display:none` or `visibility:hidden` anywhere hides the tag, whatever surrounds it |
| Utils.HiddenIgnoresNormalisedStyle | utils.py:41-42 | normalising the style first (spaces removed, lower-cased) does not change `is_hidden`, because normalising twice is normalising once |
| Utils.HiddenIgnoresStyleCase | utils.py:35-45 | `is_hidden` does not depend on the case of the style |
| Utils.HiddenIgnoresStyleSpaces | utils.py:35-45 | `is_hidden` does not depend on spaces in the style |
| AltTexts.Resolve | utils.py:65 | definition: an address starting with `http` is kept as it is; any other is joined to the page address |
| AltTexts.ImgEvents | utils.py:59-65 | definition: a hidden tag proposes nothing; otherwise its source is `data-amsrc` when non-empty, else `src`, and an empty source proposes nothing. A non-empty source proposes its resolved address with the tag's `alt` |
| AltTexts.ItemEvents | utils.py:85-88 | definition: a raising item aborts; otherwise its source is `img` when non-empty, else `full`, and an empty source proposes nothing. A non-empty source proposes its resolved address with the caption |
| AltTexts.Step | utils.py:66-68 | definition: once stopped nothing changes; an abort stops; a seen address is skipped; a new one appends the row `(page, address, text)` and joins the seen set |
| AltTexts.RunConsistent | utils.py:66-73 | the collector keeps this invariant: every row is for the page, no two rows share an image address, and the seen set holds exactly the rows' addresses |
| AltTexts.RunFlattenStopped | utils.py:97-106 | after an exception, the remaining elements add nothing: the rows gathered so far are returned |
| AltTexts.RunCollectsAll | utils.py:59-96 | the walk stops exactly when some element raises. Without that, an address is seen exactly when some `<img>` or gallery item proposed it |
| AltTexts.CollectedRecords | utils.py:47-106 | every row's Page URL is the page, no two rows share an Image URL, and a failed request gives no rows |
| AltTexts.ImagesFirst | utils.py:59-96 | the rows from `<img>` tags come first: they are a prefix of all rows |
| AltTexts.RunFirstProposals | utils.py:59-96 | every row holds the address and the text of the first event that proposed that address, with no abort before it, and rows come in the order of those first proposals. A later element with a seen address never changes a row |
| AltTexts.CollectedFirstProposals | utils.py:59-96 | for a page: each row's Alt Text is the `alt` or `caption` of the first `<img>` or gallery item that gave its address, and rows follow the order of first proposal, `<img>` tags in document order, then gallery items |
| AltTexts.CollectsEveryCandidate | utils.py:59-96 | when nothing raises, there is a row for an address exactly when it was proposed. Hidden tags and tags without a source propose nothing |
| AltTexts.GatherImgs | utils.py:59-73 | the `<img>` loop folds the events of the tags in document order and never raises |
| AltTexts.GatherScripts | utils.py:75-81 | the script loop folds script events in order and skips undecodable JSON. It stops at JSON that is not an object |
| AltTexts.GatherValues | utils.py:82-83 | the loop over a script object's values folds their gallery events and stops at a value that is not an object |
| AltTexts.GatherItems | utils.py:84-96 | the gallery item loop uses `img`, else `full`, and skips items without a source. It keeps an address starting with `http` verbatim and stops at a raising item |
| AltTexts.CollectAltTexts | utils.py:47-106 | the rows are the event fold over the page, so `CollectedFirstProposals` gives their texts and order. Every row is for the page and no two rows share an Image URL |

## Left out

- Logging: all `log_output` writes only observe, so they are left out; `print` at module level is also left out.
- `load_sitemap_mapping` and `save_sitemap_mapping` (JSON file I/O) are not modelled, and neither is `normalize_url`, which nothing calls.
- `default_sitemap_mapping` (sitemap_management.py:12-34) is not reproduced: every lemma about resolution holds for any ordered mapping.
- HTTP, the 10-second timeout, BeautifulSoup and `json.loads` are not modelled. They are replaced by the parsed inputs described above. A `<sitemap>` tag with an empty `<loc>` yields the entry `Some("")`, which then fails to fetch.
- `urlparse` is modelled only for what the code reads: scheme, host and path. Three parts of it are not modelled: the `;params` split of the path, the `ValueError` on an unbalanced `[` in the host, and the NFKC host check.
- `urljoin` is an uninterpreted parameter.
- Character classes are ASCII. `isalpha`, `lower` and `upper` are modelled on ASCII letters only, and non-ASCII letters count as non-letters. Python's `$` also matches before a final newline, which cannot matter here: parsed paths contain no newline.
- Utils.Country: a Unicode lower-case mapping onto a listed code (a Kelvin sign for `k`, say) is not modelled, because only ASCII case mapping is. A non-ASCII two-letter first segment such as `/제품/` passes `isalpha()` in the source and becomes the country there, but never in the model.
- Utils.CountryShape: "UNKNOWN or two ASCII capitals" holds only for the ASCII model. In the source, `upper()` can also return non-ASCII letters or make a string longer (`"ß".upper()` is `"SS"`).
- Utils.IsHidden: the class attribute is always a list of class names. The `else False` branch for a non-list class value is therefore not modelled.
- AltTexts.GatherItems: a `caption` that is JSON null, a number or any other non-string value is stored by the source as it is; the model's caption is always a string.
- AltTexts.CollectAltTexts: a JSON `data` value that is not iterable is modelled as a raising value. An exception inside `urljoin` is not modelled.
