/**
 * `is_url_in_sitemaps`: a depth-first walk over sitemap-index and urlset documents
 * (the Sitemaps XML protocol 0.9), guarded by a set of already visited sitemap addresses.
 *
 * The network and the XML parser are a finite map from address to parsed document.
 */
module SitemapCrawl {
  import opened Wrappers

  /**
   * What fetching and parsing one sitemap address gives: a failure (non-200 status or any
   * exception), an index (one entry per `<sitemap>` tag, with the stripped text of its
   * `<loc>` when it has one) or a urlset (the stripped text of every `<url>`'s `<loc>`).
   */
  datatype FetchResult =
    | Failed
    | Index(children: seq<Option<string>>)
    | UrlSet(locs: seq<string>)

  /** The document at `u`; the empty address is rejected by the HTTP client and so fails. */
  function Fetch(web: map<string, FetchResult>, u: string): (r: FetchResult)
    ensures r != Failed ==> u != "" && u in web
  {
    if u != "" && u in web then web[u] else Failed
  }

  /** The result of one walk: the sitemap holding the page, the visited set after it, and the fetch order. */
  datatype Outcome = Outcome(found: Option<string>, visited: set<string>, fetched: seq<string>)

  predicate NoDuplicates(s: seq<string>) {
    forall i, j :: 0 <= i < j < |s| ==> s[i] != s[j]
  }

  /** How a walk that started with visited set `V` relates its visited set and its fetches. */
  ghost predicate Threads(V: set<string>, o: Outcome) {
    && V <= o.visited
    && (forall x :: x in o.visited <==> x in V || x in o.fetched)
    && (forall x :: x in o.fetched ==> x !in V)
    && NoDuplicates(o.fetched)
  }

  lemma ThreadsConcat(V: set<string>, a: Outcome, b: Outcome)
    requires Threads(V, a) && Threads(a.visited, b)
    ensures Threads(V, Outcome(b.found, b.visited, a.fetched + b.fetched))
  {
    var f := a.fetched + b.fetched;
    forall i, j | 0 <= i < j < |f| ensures f[i] != f[j] {
      if j >= |a.fetched| && i < |a.fetched| {
        assert f[i] in a.fetched && f[j] in b.fetched;
      }
    }
  }

  /**
   * The walk from `u` with visited set `V` looking for the page `target`: nothing happens
   * when `u` is already visited; otherwise `u` is marked visited before it is fetched.
   */
  function Crawl(web: map<string, FetchResult>, u: string, target: string, V: set<string>): (r: Outcome)
    ensures Threads(V, r)
    ensures u in r.visited
    ensures u in V ==> r == Outcome(None, V, [])
    ensures u !in V ==> r.fetched != [] && r.fetched[0] == u
    decreases web.Keys - V, 1, 0
  {
    if u in V then Outcome(None, V, [])
    else
      match Fetch(web, u)
      case Failed => Outcome(None, V + {u}, [u])
      case UrlSet(locs) => Outcome(if target in locs then Some(u) else None, V + {u}, [u])
      case Index(children) =>
        var o := CrawlChildren(web, children, target, V + {u});
        ThreadsConcat(V, Outcome(None, V + {u}, [u]), o);
        Outcome(o.found, o.visited, [u] + o.fetched)
  }

  /**
   * The loop over the `<sitemap>` entries of an index: entries without `<loc>` are skipped,
   * and the first child walk that finds the page ends the loop.
   */
  function CrawlChildren(web: map<string, FetchResult>, cs: seq<Option<string>>, target: string, W: set<string>): (r: Outcome)
    ensures Threads(W, r)
    decreases web.Keys - W, 2, |cs|
  {
    if cs == [] then Outcome(None, W, [])
    else
      match cs[0]
      case None => CrawlChildren(web, cs[1..], target, W)
      case Some(c) =>
        var o := Crawl(web, c, target, W);
        if o.found.Some? then o
        else
          assert web.Keys - o.visited <= web.Keys - W;
          var rest := CrawlChildren(web, cs[1..], target, o.visited);
          ThreadsConcat(W, o, rest);
          Outcome(rest.found, rest.visited, o.fetched + rest.fetched)
  }

  /** An index at `u` lists `v` with a `<loc>`. */
  predicate Edge(web: map<string, FetchResult>, u: string, v: string) {
    Fetch(web, u).Index? && Some(v) in Fetch(web, u).children
  }

  /** The urlset at `u` lists `target` exactly, character for character. */
  predicate Hit(web: map<string, FetchResult>, u: string, target: string) {
    Fetch(web, u).UrlSet? && target in Fetch(web, u).locs
  }

  predicate IsPath(web: map<string, FetchResult>, p: seq<string>) {
    forall i :: 0 <= i < |p| - 1 ==> Edge(web, p[i], p[i + 1])
  }

  /** `v` can be reached from `u` by following index entries. */
  ghost predicate Reachable(web: map<string, FetchResult>, u: string, v: string) {
    exists p :: |p| > 0 && p[0] == u && p[|p| - 1] == v && IsPath(web, p)
  }

  lemma ReachablePrepend(web: map<string, FetchResult>, u: string, c: string, v: string)
    requires Edge(web, u, c) && Reachable(web, c, v)
    ensures Reachable(web, u, v)
  {
    var p :| |p| > 0 && p[0] == c && p[|p| - 1] == v && IsPath(web, p);
    var q := [u] + p;
    assert forall i :: 1 <= i < |q| ==> q[i] == p[i - 1];
    assert IsPath(web, q);
  }

  /** What a walk finds is a urlset listing the page, reachable from where the walk started. */
  lemma {:induction false} CrawlSound(web: map<string, FetchResult>, u: string, target: string, V: set<string>)
    ensures var o := Crawl(web, u, target, V);
      o.found.Some? ==> Hit(web, o.found.value, target) && Reachable(web, u, o.found.value)
    decreases web.Keys - V, 1, 0
  {
    var o := Crawl(web, u, target, V);
    if u !in V && o.found.Some? {
      match Fetch(web, u)
      case UrlSet(locs) =>
        assert IsPath(web, [u]);
      case Index(children) =>
        CrawlChildrenSound(web, children, target, V + {u});
        var c :| Some(c) in children && Reachable(web, c, o.found.value);
        ReachablePrepend(web, u, c, o.found.value);
    }
  }

  lemma {:induction false} CrawlChildrenSound(web: map<string, FetchResult>, cs: seq<Option<string>>, target: string, W: set<string>)
    ensures var o := CrawlChildren(web, cs, target, W);
      o.found.Some? ==>
        && Hit(web, o.found.value, target)
        && exists c :: Some(c) in cs && Reachable(web, c, o.found.value)
    decreases web.Keys - W, 2, |cs|
  {
    var o := CrawlChildren(web, cs, target, W);
    if cs != [] && o.found.Some? {
      match cs[0]
      case None =>
        CrawlChildrenSound(web, cs[1..], target, W);
        var c :| Some(c) in cs[1..] && Reachable(web, c, o.found.value);
        assert Some(c) in cs;
      case Some(c) =>
        var oc := Crawl(web, c, target, W);
        CrawlSound(web, c, target, W);
        if oc.found.None? {
          assert web.Keys - oc.visited <= web.Keys - W;
          CrawlChildrenSound(web, cs[1..], target, oc.visited);
          var c' :| Some(c') in cs[1..] && Reachable(web, c', o.found.value);
          assert Some(c') in cs;
        }
    }
  }

  /**
   * When a walk finds nothing, nothing it fetched lists the page, and every entry of an
   * index it fetched lies in its visited set.
   */
  ghost predicate Exhausted(web: map<string, FetchResult>, target: string, o: Outcome) {
    && (forall x :: x in o.fetched ==> !Hit(web, x, target))
    && (forall x, y :: x in o.fetched && Edge(web, x, y) ==> y in o.visited)
  }

  lemma {:induction false} CrawlComplete(web: map<string, FetchResult>, u: string, target: string, V: set<string>)
    ensures var o := Crawl(web, u, target, V); o.found.None? ==> Exhausted(web, target, o)
    decreases web.Keys - V, 1, 0
  {
    var o := Crawl(web, u, target, V);
    if u !in V && o.found.None? {
      match Fetch(web, u)
      case Failed =>
      case UrlSet(locs) =>
      case Index(children) =>
        var oc := CrawlChildren(web, children, target, V + {u});
        CrawlChildrenComplete(web, children, target, V + {u});
        forall x, y | x in o.fetched && Edge(web, x, y) ensures y in o.visited {
          if x == u {
            assert Some(y) in children;
          } else {
            assert x in oc.fetched;
          }
        }
    }
  }

  lemma {:induction false} CrawlChildrenComplete(web: map<string, FetchResult>, cs: seq<Option<string>>, target: string, W: set<string>)
    ensures var o := CrawlChildren(web, cs, target, W);
      o.found.None? ==>
        && Exhausted(web, target, o)
        && forall c :: Some(c) in cs ==> c in o.visited
    decreases web.Keys - W, 2, |cs|
  {
    var o := CrawlChildren(web, cs, target, W);
    if cs != [] && o.found.None? {
      match cs[0]
      case None =>
        CrawlChildrenComplete(web, cs[1..], target, W);
        forall c | Some(c) in cs ensures c in o.visited {
          assert cs == [cs[0]] + cs[1..];
        }
      case Some(c0) =>
        var oc := Crawl(web, c0, target, W);
        CrawlComplete(web, c0, target, W);
        assert web.Keys - oc.visited <= web.Keys - W;
        var rest := CrawlChildren(web, cs[1..], target, oc.visited);
        CrawlChildrenComplete(web, cs[1..], target, oc.visited);
        forall c | Some(c) in cs ensures c in o.visited {
          assert cs == [cs[0]] + cs[1..];
        }
        forall x, y | x in o.fetched && Edge(web, x, y) ensures y in o.visited {
          if x in oc.fetched {
            assert y in oc.visited;
          }
        }
    }
  }

  /** A set closed under index entries holds everything reachable from its members. */
  lemma {:induction false} ClosedHoldsReachable(web: map<string, FetchResult>, S: set<string>, p: seq<string>)
    requires |p| > 0 && p[0] in S && IsPath(web, p)
    requires forall x, y :: x in S && Edge(web, x, y) ==> y in S
    ensures p[|p| - 1] in S
  {
    if |p| > 1 {
      assert Edge(web, p[0], p[1]);
      ClosedHoldsReachable(web, S, p[1..]);
    }
  }

  /**
   * A walk from a fresh visited set finds a sitemap exactly when some urlset reachable from
   * the start lists the page.
   */
  lemma CrawlFindsIffReachable(web: map<string, FetchResult>, root: string, target: string)
    ensures Crawl(web, root, target, {}).found.Some?
        <==> exists v :: Reachable(web, root, v) && Hit(web, v, target)
  {
    var o := Crawl(web, root, target, {});
    CrawlSound(web, root, target, {});
    if o.found.None? {
      CrawlComplete(web, root, target, {});
      forall v | Reachable(web, root, v) ensures !Hit(web, v, target) {
        var p :| |p| > 0 && p[0] == root && p[|p| - 1] == v && IsPath(web, p);
        ClosedHoldsReachable(web, o.visited, p);
      }
    }
  }

  /** An index that lists itself is fetched once and the walk ends with nothing found. */
  lemma SelfReferenceEnds()
    ensures var web := map["https://a.com/sitemap.xml" := Index([Some("https://a.com/sitemap.xml")])];
      Crawl(web, "https://a.com/sitemap.xml", "https://a.com/p", {})
        == Outcome(None, {"https://a.com/sitemap.xml"}, ["https://a.com/sitemap.xml"])
  {
  }

  /** Children are walked in order, entries without `<loc>` are skipped, and the first find wins. */
  lemma ChildrenInOrder()
    ensures var web := map["i" := Index([None, Some("a"), Some("b"), Some("c")]),
                           "a" := UrlSet(["q"]), "b" := UrlSet(["p"]), "c" := UrlSet(["p"])];
      Crawl(web, "i", "p", {}) == Outcome(Some("b"), {"i", "a", "b"}, ["i", "a", "b"])
  {
    var web := map["i" := Index([None, Some("a"), Some("b"), Some("c")]),
                    "a" := UrlSet(["q"]), "b" := UrlSet(["p"]), "c" := UrlSet(["p"])];
    var cs: seq<Option<string>> := [None, Some("a"), Some("b"), Some("c")];
    assert Fetch(web, "i") == Index(cs);
    assert Crawl(web, "a", "p", {"i"}) == Outcome(None, {"i", "a"}, ["a"]);
    assert Crawl(web, "b", "p", {"i", "a"}) == Outcome(Some("b"), {"i", "a", "b"}, ["b"]);
    assert CrawlChildren(web, cs[2..], "p", {"i", "a"}) == Outcome(Some("b"), {"i", "a", "b"}, ["b"]);
    assert cs[1..][1..] == cs[2..];
    assert CrawlChildren(web, cs[1..], "p", {"i"}) == Outcome(Some("b"), {"i", "a", "b"}, ["a", "b"]);
    var none: set<string> := {};
    assert none + {"i"} == {"i"};
    assert CrawlChildren(web, cs, "p", none + {"i"}) == Outcome(Some("b"), {"i", "a", "b"}, ["a", "b"]);
    assert ["i"] + ["a", "b"] == ["i", "a", "b"];
  }

  /** The page must be listed exactly: a trailing slash is a miss. */
  lemma TrailingSlashMisses()
    ensures var web := map["s" := UrlSet(["https://a.com/p/"])];
      Crawl(web, "s", "https://a.com/p", {}).found == None
  {
  }

  /**
   * `is_url_in_sitemaps` with the shared visited set threaded through: the set comes in as
   * `visited` and leaves, grown, as `visited'`.
   */
  method IsUrlInSitemaps(web: map<string, FetchResult>, sitemapUrl: string, fullUrl: string, visited: set<string>)
    returns (found: Option<string>, visited': set<string>)
    ensures found == Crawl(web, sitemapUrl, fullUrl, visited).found
    ensures visited' == Crawl(web, sitemapUrl, fullUrl, visited).visited
    ensures visited <= visited' && sitemapUrl in visited'
    ensures sitemapUrl in visited ==> found == None && visited' == visited
    decreases web.Keys - visited, 1
  {
    if sitemapUrl in visited {
      return None, visited;
    }
    var vis := visited + {sitemapUrl};
    var doc := Fetch(web, sitemapUrl);
    match doc {
      case Failed =>
        return None, vis;
      case Index(children) =>
        var i := 0;
        while i < |children|
          invariant 0 <= i <= |children|
          invariant visited + {sitemapUrl} <= vis
          invariant CrawlChildren(web, children, fullUrl, visited + {sitemapUrl}).found
                 == CrawlChildren(web, children[i..], fullUrl, vis).found
          invariant CrawlChildren(web, children, fullUrl, visited + {sitemapUrl}).visited
                 == CrawlChildren(web, children[i..], fullUrl, vis).visited
        {
          assert children[i..][1..] == children[i + 1..];
          match children[i] {
            case None =>
            case Some(loc) =>
              var f, vis2 := IsUrlInSitemaps(web, loc, fullUrl, vis);
              if f.Some? {
                return f, vis2;
              }
              vis := vis2;
          }
          i := i + 1;
        }
        return None, vis;
      case UrlSet(locs) =>
        for k := 0 to |locs|
          invariant fullUrl !in locs[..k]
        {
          if fullUrl == locs[k] {
            return Some(sitemapUrl), vis;
          }
        }
        assert locs[..|locs|] == locs;
        return None, vis;
    }
  }
}
