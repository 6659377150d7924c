/**
 * The address normaliser and the mapping resolver of `sitemap_management.py`:
 * `extract_base_url`, `remove_language_code` and `find_sitemap_url`.
 */
module SitemapUrls {
  import opened Wrappers
  import opened Strings
  import opened UrlParse
  import opened Lookup
  import opened Paths

  /** A root address `scheme://netloc/`. */
  function RootOf(u: Url): string {
    Render(Url(u.scheme, u.netloc, "/"))
  }

  /**
   * `extract_base_url`: the root of the page's host, or, on a `www.` host whose path
   * starts with two segments of exactly two characters each, that two-segment prefix.
   */
  function ExtractBaseUrl(url: string): (r: string)
    ensures r != [] && r[|r| - 1] == '/'
    ensures !StartsWith(Parse(url).netloc, "www.") ==> r == RootOf(Parse(url))
    ensures
      || r == RootOf(Parse(url))
      || exists p0, p1 ::
           && |p0| == 2 && |p1| == 2 && '/' !in p0 && '/' !in p1
           && r == Render(Url(Parse(url).scheme, Parse(url).netloc, "/" + p0 + "/" + p1 + "/"))
  {
    var u := Parse(url);
    var p := BasePath(u);
    RenderSlashed(u.scheme, u.netloc, p);
    Render(Url(u.scheme, u.netloc, p))
  }

  /**
   * The path `extract_base_url` keeps: `/p0/p1/` when the host starts with `www.` and the
   * path, right-stripped of `/`, has two leading segments of two characters; else `/`.
   */
  function BasePath(u: Url): (p: string)
    ensures p != [] && p[0] == '/' && p[|p| - 1] == '/'
    ensures !StartsWith(u.netloc, "www.") ==> p == "/"
    ensures
      || p == "/"
      || exists p0, p1 :: |p0| == 2 && |p1| == 2 && '/' !in p0 && '/' !in p1 && p == "/" + p0 + "/" + p1 + "/"
  {
    var parts := Segments(RStrip(u.path, '/'));
    if StartsWith(u.netloc, "www.") && |parts| >= 2 && |parts[0]| == 2 && |parts[1]| == 2
    then
      var p := "/" + parts[0] + "/" + parts[1] + "/";
      assert p[|p| - 1] == '/';
      p
    else "/"
  }

  /**
   * The kept path is made of the page's own first two segments: `/s0/s1/` exactly when the
   * host starts with `www.` and both segments have two characters, and `/` otherwise.
   */
  lemma BasePathOfSegments(u: Url)
    ensures var s := Segments(u.path);
      BasePath(u) == if StartsWith(u.netloc, "www.") && |s| >= 2 && |s[0]| == 2 && |s[1]| == 2
                     then "/" + s[0] + "/" + s[1] + "/"
                     else "/"
  {
    SegmentsRStrip(u.path);
  }

  /** `extract_base_url` keeps the page's scheme and host and, on the rule above, its first two segments. */
  lemma ExtractBaseUrlOfSegments(url: string)
    ensures var u := Parse(url); var s := Segments(u.path);
      ExtractBaseUrl(url) == if StartsWith(u.netloc, "www.") && |s| >= 2 && |s[0]| == 2 && |s[1]| == 2
                             then Render(Url(u.scheme, u.netloc, "/" + s[0] + "/" + s[1] + "/"))
                             else RootOf(u)
  {
    BasePathOfSegments(Parse(url));
  }

  /** For instance `https://www.a.com/kr/ko/x` has the base `https://www.a.com/kr/ko/`. */
  lemma ExtractBaseUrlKeepsTwoSegments(scheme: string, host: string, p0: string, p1: string, q: string)
    requires WellFormed(Url(scheme, "www." + host, "/" + p0 + "/" + p1 + "/" + q))
    requires |p0| == 2 && |p1| == 2 && q != [] && '/' !in p0 && '/' !in p1 && '/' !in q
    ensures ExtractBaseUrl(Render(Url(scheme, "www." + host, "/" + p0 + "/" + p1 + "/" + q)))
         == Render(Url(scheme, "www." + host, "/" + p0 + "/" + p1 + "/"))
  {
    var u := Url(scheme, "www." + host, "/" + p0 + "/" + p1 + "/" + q);
    ParseRender(u);
    SegmentsOfThree(p0, p1, q);
    assert ("www." + host)[..4] == "www.";
    ExtractBaseUrlOfSegments(Render(u));
  }

  /** A path `/p0/p1/q` has the three segments `p0`, `p1` and `q`. */
  lemma SegmentsOfThree(p0: string, p1: string, q: string)
    requires p0 != [] && p1 != [] && q != [] && '/' !in p0 && '/' !in p1 && '/' !in q
    ensures var s := Segments("/" + p0 + "/" + p1 + "/" + q); |s| == 3 && s[0] == p0 && s[1] == p1
  {
    var j := JoinThree(p0, p1, q);
    assert p0[0] in p0 && q[|q| - 1] in q;
    SegmentsOfJoined(j, [p0, p1, q]);
  }

  lemma SegmentsOfJoined(j: string, parts: seq<string>)
    requires j != [] && j[0] != '/' && j[|j| - 1] != '/'
    requires |parts| >= 1 && j == Join(parts, '/')
    requires forall i :: 0 <= i < |parts| ==> '/' !in parts[i]
    ensures Segments("/" + j) == parts
  {
    SegmentsOfRooted(j);
    SplitJoin(parts, '/');
  }

  lemma JoinThree(p0: string, p1: string, q: string) returns (j: string)
    requires p0 != [] && q != []
    ensures "/" + p0 + "/" + p1 + "/" + q == "/" + j && j == Join([p0, p1, q], '/')
    ensures j[0] == p0[0] && j[|j| - 1] == q[|q| - 1]
  {
    j := p0 + "/" + p1 + "/" + q;
    assert [p0, p1, q][1..] == [p1, q] && [p1, q][1..] == [q];
    assert Join([p1, q], '/') == p1 + "/" + q;
  }

  lemma RenderSlashed(scheme: string, netloc: string, path: string)
    requires path != [] && path[|path| - 1] == '/'
    ensures var r := Render(Url(scheme, netloc, path)); r != [] && r[|r| - 1] == '/'
  {
    var r := Render(Url(scheme, netloc, path));
    assert r[|r| - 1] == path[|path| - 1];
  }

  /** Right-stripping the slashes first does not change the segments. */
  lemma SegmentsRStrip(path: string)
    ensures Segments(RStrip(path, '/')) == Segments(path)
  {
    RStripTwice(path, '/');
  }

  lemma RStripTwice(s: string, c: char)
    ensures RStrip(RStrip(s, c), c) == RStrip(s, c)
  {
  }

  lemma {:induction false} SplitAvoids(s: string, sep: char, cs: set<char>)
    requires Avoids(s, cs)
    ensures forall i :: 0 <= i < |Split(s, sep)| ==> Avoids(Split(s, sep)[i], cs)
    decreases |s|
  {
    var k := Find(s, {sep});
    AvoidsSlice(s, cs, 0, k);
    if k < |s| {
      AvoidsSlice(s, cs, k + 1, |s|);
      SplitAvoids(s[k + 1..], sep, cs);
    }
  }

  lemma StripAvoids(s: string, c: char, cs: set<char>)
    requires Avoids(s, cs)
    ensures Avoids(Strip(s, c), cs)
  {
    var r := RStrip(s, c);
    AvoidsSlice(s, cs, 0, |r|);
    AvoidsSlice(r, cs, |r| - |LStrip(r, c)|, |r|);
  }

  lemma SegmentsAvoid(path: string, cs: set<char>)
    requires Avoids(path, cs)
    ensures forall i :: 0 <= i < |Segments(path)| ==> Avoids(Segments(path)[i], cs)
  {
    StripAvoids(path, '/', cs);
    SplitAvoids(Strip(path, '/'), '/', cs);
  }

  /** Stripping the slashes around a path that has none at either end. */
  lemma StripSlashes(x: string)
    requires x != [] && x[0] != '/' && x[|x| - 1] != '/'
    ensures Strip("/" + x + "/", '/') == x
  {
    var y := "/" + x;
    assert y + "/" == "/" + x + "/";
    assert y[|y| - 1] == x[|x| - 1];
    assert (y + "/")[..|y|] == y;
    assert RStrip(y + "/", '/') == RStrip(y, '/');
    assert RStrip(y, '/') == y;
    assert y[1..] == x;
    assert LStrip(y, '/') == LStrip(x, '/');
  }

  /** The segments of `/p0/p1/` for two non-empty segments without `/`. */
  lemma SegmentsOfTwo(p0: string, p1: string)
    requires p0 != [] && p1 != [] && '/' !in p0 && '/' !in p1
    ensures Segments("/" + p0 + "/" + p1 + "/") == [p0, p1]
  {
    var x := p0 + "/" + p1;
    assert x[|x| - 1] == p1[|p1| - 1] && p1[|p1| - 1] in p1;
    assert x[0] == p0[0] && p0[0] in p0;
    assert "/" + p0 + "/" + p1 + "/" == "/" + x + "/";
    StripSlashes(x);
    assert Join([p0, p1], '/') == x;
    SplitJoin([p0, p1], '/');
  }

  /** The path a base address carries is a fixed point of BasePath. */
  lemma BasePathOfBase(u: Url)
    ensures BasePath(Url(u.scheme, u.netloc, BasePath(u))) == BasePath(u)
  {
    var bp := BasePath(u);
    SegmentsRStrip(bp);
    if bp != "/" {
      SegmentsRStrip(u.path);
      var segs := Segments(u.path);
      SegmentsOfTwo(segs[0], segs[1]);
    } else {
      assert RStrip("/", '/') == "";
      assert Segments("") == [""];
    }
  }

  lemma BasePathAvoids(u: Url, cs: set<char>)
    requires Avoids(u.path, cs) && '/' !in cs
    ensures Avoids(BasePath(u), cs)
  {
    SegmentsRStrip(u.path);
    var segs := Segments(u.path);
    if BasePath(u) != "/" {
      SegmentsAvoid(u.path, cs);
      SlashedAvoids(segs[0], segs[1], cs);
    }
  }

  /** A base address is well formed whenever the page address it comes from has a scheme. */
  lemma BaseWellFormed(u: Url)
    requires IsSchemeName(u.scheme)
    requires Avoids(u.netloc, NetlocEnd) && Avoids(u.netloc, Unsafe)
    requires Avoids(u.path, PathEnd) && Avoids(u.path, Unsafe)
    ensures WellFormed(Url(u.scheme, u.netloc, BasePath(u)))
  {
    BasePathAvoids(u, PathEnd);
    BasePathAvoids(u, Unsafe);
    WithPathWellFormed(u, BasePath(u));
  }

  /** The scheme and host of `u` with a clean rooted path form a well-formed address. */
  lemma WithPathWellFormed(u: Url, p: string)
    requires IsSchemeName(u.scheme)
    requires Avoids(u.netloc, NetlocEnd) && Avoids(u.netloc, Unsafe)
    requires Avoids(p, PathEnd) && Avoids(p, Unsafe) && p != [] && p[0] == '/'
    ensures WellFormed(Url(u.scheme, u.netloc, p))
  {
  }

  lemma SlashedAvoids(p0: string, p1: string, cs: set<char>)
    requires Avoids(p0, cs) && Avoids(p1, cs) && '/' !in cs
    ensures Avoids("/" + p0 + "/" + p1 + "/", cs)
  {
    AvoidsConcat("/", p0, cs);
    AvoidsConcat("/" + p0, "/", cs);
    AvoidsConcat("/" + p0 + "/", p1, cs);
    AvoidsConcat("/" + p0 + "/" + p1, "/", cs);
  }

  /** `extract_base_url` is idempotent on addresses that carry a scheme. */
  lemma ExtractBaseUrlIdempotent(url: string)
    requires Parse(url).scheme != ""
    ensures ExtractBaseUrl(ExtractBaseUrl(url)) == ExtractBaseUrl(url)
  {
    var u := Parse(url);
    var b := Url(u.scheme, u.netloc, BasePath(u));
    BaseWellFormed(u);
    ParseRender(b);
    BasePathOfBase(u);
  }

  /**
   * Without a scheme, the base `://netloc/...` parses back with no scheme and no host, so its
   * own base is `:///`. The scheme in `ExtractBaseUrlIdempotent` is therefore needed.
   */
  lemma ExtractBaseUrlWithoutScheme(url: string)
    requires Parse(url).scheme == ""
    ensures ExtractBaseUrl(ExtractBaseUrl(url)) == ":///"
    ensures Parse(url).netloc != "" ==> ExtractBaseUrl(ExtractBaseUrl(url)) != ExtractBaseUrl(url)
    ensures Parse(url).netloc == "" ==> ExtractBaseUrl(ExtractBaseUrl(url)) == ExtractBaseUrl(url)
  {
    var b := SchemelessBase(url);
    ExtractBaseUrlHostless(b);
    if Parse(url).netloc == "" {
      RootIsBase(url);
      RootWithoutHost(Parse(url).path);
    }
  }

  /** The base of an address without a scheme parses back as a bare path. */
  lemma SchemelessBase(url: string) returns (b: string)
    requires Parse(url).scheme == ""
    ensures b == ExtractBaseUrl(url) && Parse(b) == Url("", "", b)
    ensures Parse(url).netloc != "" ==> |b| > 4
  {
    b := SchemelessBaseText(url);
    BaseRenderedAsPath(Parse(url), b);
  }

  lemma BaseRenderedAsPath(u: Url, b: string)
    requires Avoids(u.netloc, PathEnd) && Avoids(u.netloc, Unsafe)
    requires Avoids(u.path, PathEnd) && Avoids(u.path, Unsafe)
    requires b == Render(Url("", u.netloc, BasePath(u)))
    ensures Parse(b) == Url("", "", b)
    ensures u.netloc != "" ==> |b| > 4
  {
    var p := BasePathClean(u);
    RenderedAsPath(u.netloc, p, b);
  }

  lemma BasePathClean(u: Url) returns (p: string)
    requires Avoids(u.path, PathEnd) && Avoids(u.path, Unsafe)
    ensures p == BasePath(u) && Avoids(p, PathEnd) && Avoids(p, Unsafe)
  {
    BasePathAvoids(u, PathEnd);
    BasePathAvoids(u, Unsafe);
    p := BasePath(u);
  }

  lemma SchemelessBaseText(url: string) returns (b: string)
    requires Parse(url).scheme == ""
    ensures b == ExtractBaseUrl(url) && b == Render(Url("", Parse(url).netloc, BasePath(Parse(url))))
  {
    b := ExtractBaseUrl(url);
  }

  lemma RenderedAsPath(netloc: string, path: string, b: string)
    requires Avoids(netloc, PathEnd) && Avoids(netloc, Unsafe)
    requires Avoids(path, PathEnd) && Avoids(path, Unsafe)
    requires path != [] && b == Render(Url("", netloc, path))
    ensures Parse(b) == Url("", "", b)
    ensures netloc != "" ==> |b| > 4
  {
    ParseRenderSchemeless(netloc, path);
  }

  lemma ExtractBaseUrlHostless(b: string)
    requires Parse(b) == Url("", "", b)
    ensures ExtractBaseUrl(b) == ":///"
  {
    RootIsBase(b);
    RootWithoutHost(b);
  }

  lemma RootWithoutHost(path: string)
    ensures RootOf(Url("", "", path)) == ":///"
  {
  }

  lemma RootIsBase(url: string)
    requires Parse(url).netloc == ""
    ensures ExtractBaseUrl(url) == RootOf(Parse(url))
  {
    assert !StartsWith(Parse(url).netloc, "www.");
  }

  /** The query and the fragment of the page address do not affect its base. */
  lemma ExtractBaseUrlIgnoresQuery(s: string, q: string)
    requires Avoids(s, PathEnd)
    requires q != [] && q[0] in PathEnd
    ensures ExtractBaseUrl(s + q) == ExtractBaseUrl(s)
  {
    ParseIgnoresQuery(s, q);
  }

  /** The path `remove_language_code` builds. */
  function LocaleFreePath(path: string): string {
    var parts := Segments(path);
    if IsLocaleCode(parts[0]) then
      if |parts| > 1 then "/" + Join(parts[1..], '/') else "/"
    else path
  }

  /**
   * `remove_language_code`: `scheme://netloc` followed by the path without a leading
   * locale code; the query and the fragment are always dropped.
   */
  function RemoveLanguageCode(url: string): (r: string)
    ensures !IsLocaleCode(Segments(Parse(url).path)[0]) ==> r == Render(Parse(url))
  {
    var u := Parse(url);
    Render(Url(u.scheme, u.netloc, LocaleFreePath(u.path)))
  }

  /** Join of the segments after the first one is what follows the first `/` of the stripped path. */
  lemma {:induction false} SegmentsTail(path: string)
    requires |Segments(path)| > 1
    ensures var x := Strip(path, '/'); var parts := Segments(path);
      x == parts[0] + "/" + Join(parts[1..], '/')
  {
    var x := Strip(path, '/');
    var parts := Segments(path);
    JoinSplit(x, '/');
  }

  /** The segments after the locale code, joined, end in a character other than `/`. */
  lemma LocaleTailShape(path: string)
    requires |Segments(path)| > 1
    ensures var j := Join(Segments(path)[1..], '/'); j != [] && j[|j| - 1] != '/'
  {
    var parts := Segments(path);
    var x := Strip(path, '/');
    var j := Join(parts[1..], '/');
    SegmentsTail(path);
    StripEnd(path, '/');
    assert x == (parts[0] + "/") + j;
    assert x[|x| - 1] == j[|j| - 1];
  }

  /** `s.strip(c)` does not end in `c`. */
  lemma StripEnd(s: string, c: char)
    ensures var x := Strip(s, c); x == [] || x[|x| - 1] != c
  {
    var r := RStrip(s, c);
    var x := LStrip(r, c);
    assert x == [] || x[|x| - 1] == r[|r| - 1];
  }

  /** When the first of several segments is a locale code, the trailing slash is lost. */
  lemma LocaleFreeNoTrailingSlash(path: string)
    requires IsLocaleCode(Segments(path)[0]) && |Segments(path)| > 1
    ensures var r := LocaleFreePath(path); r != [] && r[|r| - 1] != '/'
  {
    LocaleTailShape(path);
  }

  /** When the first segment is a locale code, the path left has exactly the remaining segments. */
  lemma LocaleFreeSegments(path: string)
    requires IsLocaleCode(Segments(path)[0]) && |Segments(path)| > 1 && Segments(path)[1] != ""
    ensures Segments(LocaleFreePath(path)) == Segments(path)[1..]
  {
    var parts := Segments(path);
    var j := Join(parts[1..], '/');
    LocaleTailShape(path);
    JoinHead(parts[1..], '/');
    assert parts[1..][0] == parts[1] && parts[1][0] in parts[1];
    SegmentsOfRooted(j);
    SplitJoin(parts[1..], '/');
  }

  lemma JoinHead(ps: seq<string>, sep: char)
    requires |ps| >= 1 && ps[0] != []
    ensures Join(ps, sep) != [] && Join(ps, sep)[0] == ps[0][0]
  {
    if |ps| > 1 {
      assert Join(ps, sep) == ps[0] + ([sep] + Join(ps[1..], sep));
    }
  }

  /** The segments of `/j` are the parts of `j` when `j` has no slash at either end. */
  lemma SegmentsOfRooted(j: string)
    requires j != [] && j[0] != '/' && j[|j| - 1] != '/'
    ensures Segments("/" + j) == Split(j, '/')
  {
    var y := "/" + j;
    assert y[|y| - 1] == j[|j| - 1];
    assert RStrip(y, '/') == y;
    assert y[1..] == j;
    assert LStrip(y, '/') == j;
  }

  /** An address `remove_language_code` produces from a well-formed one is again well formed. */
  lemma LocaleFreeWellFormed(u: Url)
    requires WellFormed(u)
    ensures WellFormed(Url(u.scheme, u.netloc, LocaleFreePath(u.path)))
  {
    var p := LocaleFreeClean(u.path);
    ReplacedPathWellFormed(u, p);
  }

  lemma LocaleFreeClean(path: string) returns (p: string)
    requires Avoids(path, PathEnd) && Avoids(path, Unsafe) && (path == "" || path[0] == '/')
    ensures p == LocaleFreePath(path)
    ensures Avoids(p, PathEnd) && Avoids(p, Unsafe) && (p == "" || p[0] == '/')
  {
    p := LocaleFreePath(path);
    LocaleFreeRooted(path);
    assert '/' !in PathEnd && '/' !in Unsafe;
    LocaleFreeAvoids(path, PathEnd);
    LocaleFreeAvoids(path, Unsafe);
  }

  lemma ReplacedPathWellFormed(u: Url, p: string)
    requires WellFormed(u)
    requires Avoids(p, PathEnd) && Avoids(p, Unsafe) && (p == "" || p[0] == '/')
    ensures WellFormed(Url(u.scheme, u.netloc, p))
  {
  }

  lemma LocaleFreeRooted(path: string)
    requires path == "" || path[0] == '/'
    ensures var p := LocaleFreePath(path); p == "" || p[0] == '/'
  {
  }

  /** A path without some characters other than `/` keeps avoiding them once its locale code is gone. */
  lemma LocaleFreeAvoids(path: string, cs: set<char>)
    requires Avoids(path, cs) && '/' !in cs
    ensures Avoids(LocaleFreePath(path), cs)
  {
    var parts := Segments(path);
    if IsLocaleCode(parts[0]) && |parts| > 1 {
      var x := Strip(path, '/');
      var j := Join(parts[1..], '/');
      SegmentsTail(path);
      StripAvoids(path, '/', cs);
      assert j == x[|x| - |j|..];
      AvoidsSlice(x, cs, |x| - |j|, |x|);
      AvoidsConcat("/", j, cs);
    }
  }

  /** The first segment of text that starts with `:` starts with `:` too, so it is no locale code. */
  lemma ColonLedNotLocale(s: string)
    requires s != [] && s[0] == ':'
    ensures !IsLocaleCode(Segments(s)[0])
  {
    var r := RStrip(s, '/');
    assert r != [] && r[0] == ':';
    var x := LStrip(r, '/');
    assert x == r;
    var k := Find(x, {'/'});
    assert k >= 1;
    assert Segments(s)[0][0] == ':';
  }

  /**
   * Without a scheme, `remove_language_code` renders `://netloc/path`, which parses back as
   * a bare path led by `:`. A second call then finds no locale code and puts `://` in front
   * again, so the two results always differ, whatever the path.
   */
  lemma RemoveLanguageCodeWithoutScheme(url: string)
    requires Parse(url).scheme == ""
    ensures RemoveLanguageCode(RemoveLanguageCode(url)) == "://" + RemoveLanguageCode(url)
  {
    var r1 := SchemelessLocaleFree(url);
    RemoveLanguageCodeOfColonLed(r1);
  }

  lemma SchemelessLocaleFree(url: string) returns (r1: string)
    requires Parse(url).scheme == ""
    ensures r1 == RemoveLanguageCode(url) && r1 != [] && r1[0] == ':' && Parse(r1) == Url("", "", r1)
  {
    r1 := SchemelessLocaleFreeText(url);
    LocaleFreeRendered(Parse(url).netloc, Parse(url).path, r1);
  }

  lemma LocaleFreeRendered(netloc: string, path: string, r1: string)
    requires Avoids(netloc, PathEnd) && Avoids(netloc, Unsafe)
    requires Avoids(path, PathEnd) && Avoids(path, Unsafe)
    requires r1 == Render(Url("", netloc, LocaleFreePath(path)))
    ensures r1 != [] && r1[0] == ':' && Parse(r1) == Url("", "", r1)
  {
    LocaleFreeAvoids(path, PathEnd);
    LocaleFreeAvoids(path, Unsafe);
    ParseRenderSchemeless(netloc, LocaleFreePath(path));
  }

  lemma SchemelessLocaleFreeText(url: string) returns (r1: string)
    requires Parse(url).scheme == ""
    ensures r1 == RemoveLanguageCode(url) && r1 == Render(Url("", Parse(url).netloc, LocaleFreePath(Parse(url).path)))
  {
    r1 := RemoveLanguageCode(url);
  }

  lemma RemoveLanguageCodeOfColonLed(s: string)
    requires s != [] && s[0] == ':' && Parse(s) == Url("", "", s)
    ensures RemoveLanguageCode(s) == "://" + s
  {
    ColonLedNotLocale(s);
    RemoveLanguageCodeOfBarePath(s, s);
  }

  /** Text that parses as a bare path without a leading locale code gets `://` put in front. */
  lemma RemoveLanguageCodeOfBarePath(s: string, p: string)
    requires Parse(s) == Url("", "", p) && !IsLocaleCode(Segments(p)[0])
    ensures RemoveLanguageCode(s) == "://" + p
  {
    RenderBarePath(p);
  }

  lemma RenderBarePath(p: string)
    ensures Render(Url("", "", p)) == "://" + p
  {
  }

  /** Removing a locale code shortens the path, so a second removal changes the address. */
  lemma LocaleFreePathShorter(path: string)
    requires IsLocaleCode(Segments(path)[0])
    ensures |LocaleFreePath(path)| < |path|
  {
    var parts := Segments(path);
    var x := Strip(path, '/');
    if |parts| > 1 {
      SegmentsTail(path);
    } else {
      JoinSplit(x, '/');
    }
  }

  /** Addresses with the same scheme and host render alike exactly when their paths agree. */
  lemma RenderInjective(u: Url, p: string, p': string)
    ensures Render(Url(u.scheme, u.netloc, p)) == Render(Url(u.scheme, u.netloc, p')) <==> p == p'
  {
    var pre := u.scheme + "://" + u.netloc;
    assert Render(Url(u.scheme, u.netloc, p))[|pre|..] == p;
    assert Render(Url(u.scheme, u.netloc, p'))[|pre|..] == p';
  }

  /** Two calls of `remove_language_code` on a well-formed address remove at most two locale codes. */
  lemma RemoveLanguageCodeOfOf(u: Url)
    requires WellFormed(u)
    ensures RemoveLanguageCode(RemoveLanguageCode(Render(u)))
         == Render(Url(u.scheme, u.netloc, LocaleFreePath(LocaleFreePath(u.path))))
  {
    RemoveLanguageCodeOf(u);
    LocaleFreeWellFormed(u);
    RemoveLanguageCodeOf(Url(u.scheme, u.netloc, LocaleFreePath(u.path)));
  }

  /**
   * `remove_language_code` strips one locale code per call: applying it a second time
   * changes nothing when the path left by the first call does not start with one ...
   */
  lemma RemoveLanguageCodeSettles(u: Url)
    requires WellFormed(u)
    requires !IsLocaleCode(Segments(LocaleFreePath(u.path))[0])
    ensures RemoveLanguageCode(RemoveLanguageCode(Render(u))) == RemoveLanguageCode(Render(u))
  {
    RemoveLanguageCodeOf(u);
    RemoveLanguageCodeOfOf(u);
  }

  /** ... and changes the address again when it does. */
  lemma RemoveLanguageCodeMoves(u: Url)
    requires WellFormed(u)
    requires IsLocaleCode(Segments(LocaleFreePath(u.path))[0])
    ensures RemoveLanguageCode(RemoveLanguageCode(Render(u))) != RemoveLanguageCode(Render(u))
  {
    var p1 := LocaleFreePath(u.path);
    RemoveLanguageCodeOf(u);
    RemoveLanguageCodeOfOf(u);
    LocaleFreePathShorter(p1);
    RenderInjective(u, LocaleFreePath(p1), p1);
  }

  lemma LocaleCodeAvoids(c: string, cs: set<char>)
    requires IsLocaleCode(c) && forall x :: x in cs ==> x == '/' || x == '?' || x == '#' || x == '\t' || x == '\r' || x == '\n'
    ensures Avoids(c, cs) && c != [] && c[0] != '/' && c[|c| - 1] != '/'
  {
  }

  /** The segments of `/p` for one non-empty segment without `/` at its end. */
  lemma SegmentsOfOne(p: string)
    requires p != [] && p[0] != '/' && p[|p| - 1] != '/' && '/' !in p
    ensures Segments("/" + p) == [p]
  {
    SegmentsOfRooted(p);
    SplitJoin([p], '/');
  }

  lemma SegmentsOfCodes(c0: string, c1: string)
    requires IsLocaleCode(c0) && IsLocaleCode(c1)
    ensures Segments("/" + c0 + "/" + c1 + "/") == [c0, c1]
    ensures Segments("/" + c1) == [c1]
  {
    LocaleCodeAvoids(c0, {'/'});
    LocaleCodeAvoids(c1, {'/'});
    SegmentsOfTwo(c0, c1);
    SegmentsOfOne(c1);
  }

  lemma CodePathsWellFormed(scheme: string, netloc: string, c0: string, c1: string)
    requires WellFormed(Url(scheme, netloc, "/"))
    requires IsLocaleCode(c0) && IsLocaleCode(c1)
    ensures WellFormed(Url(scheme, netloc, "/" + c0 + "/" + c1 + "/"))
    ensures WellFormed(Url(scheme, netloc, "/" + c1))
  {
    LocaleCodeAvoids(c0, PathEnd);
    LocaleCodeAvoids(c1, PathEnd);
    LocaleCodeAvoids(c0, Unsafe);
    LocaleCodeAvoids(c1, Unsafe);
    SlashedAvoids(c0, c1, PathEnd);
    SlashedAvoids(c0, c1, Unsafe);
    AvoidsConcat("/", c1, PathEnd);
    AvoidsConcat("/", c1, Unsafe);
  }

  lemma RemoveLanguageCodeOf(u: Url)
    requires WellFormed(u)
    ensures RemoveLanguageCode(Render(u)) == Render(Url(u.scheme, u.netloc, LocaleFreePath(u.path)))
  {
    ParseRender(u);
  }

  lemma LocaleFreeOfCodes(c0: string, c1: string)
    requires IsLocaleCode(c0) && IsLocaleCode(c1)
    ensures LocaleFreePath("/" + c0 + "/" + c1 + "/") == "/" + c1
    ensures LocaleFreePath("/" + c1) == "/"
  {
    SegmentsOfCodes(c0, c1);
    LocaleFreeOfTwo(c0, c1);
  }

  lemma LocaleFreeOfTwo(c0: string, c1: string)
    requires IsLocaleCode(c0) && Segments("/" + c0 + "/" + c1 + "/") == [c0, c1]
    ensures LocaleFreePath("/" + c0 + "/" + c1 + "/") == "/" + c1
  {
    assert [c0, c1][1..] == [c1];
  }

  /**
   * Two locale codes in a row: each call removes one, so a second call still changes the
   * address (for instance `https://hk.sulwhasoo.com/en_s/tc_s/`).
   */
  lemma RemoveLanguageCodeNotIdempotent(scheme: string, netloc: string, c0: string, c1: string)
    requires WellFormed(Url(scheme, netloc, "/"))
    requires IsLocaleCode(c0) && IsLocaleCode(c1)
    ensures RemoveLanguageCode(Render(Url(scheme, netloc, "/" + c0 + "/" + c1 + "/")))
         == Render(Url(scheme, netloc, "/" + c1))
    ensures RemoveLanguageCode(Render(Url(scheme, netloc, "/" + c1))) == Render(Url(scheme, netloc, "/"))
  {
    CodePathsWellFormed(scheme, netloc, c0, c1);
    RemoveLanguageCodeOf(Url(scheme, netloc, "/" + c0 + "/" + c1 + "/"));
    RemoveLanguageCodeOf(Url(scheme, netloc, "/" + c1));
    LocaleFreeOfCodes(c0, c1);
  }

  /** The query and the fragment never reach the result of `remove_language_code`. */
  lemma RemoveLanguageCodeIgnoresQuery(s: string, q: string)
    requires Avoids(s, PathEnd)
    requires q != [] && q[0] in PathEnd
    ensures RemoveLanguageCode(s + q) == RemoveLanguageCode(s)
  {
    ParseIgnoresQuery(s, q);
  }

  /** The prefix test of `find_sitemap_url`, on both sides normalised by `remove_language_code`. */
  predicate KeyMatches(baseUrl: string, key: string) {
    StartsWith(RemoveLanguageCode(baseUrl), RemoveLanguageCode(key))
  }

  /** The test `find_sitemap_url` applies to each key of the mapping. */
  function KeyMatcher(baseUrl: string): string -> bool {
    key => KeyMatches(baseUrl, key)
  }

  /** The sitemap of the first mapping entry, in mapping order, whose key matches. */
  function FirstMatch(baseUrl: string, mapping: seq<(string, string)>): Option<string> {
    FirstWhere(KeyMatcher(baseUrl), mapping)
  }

  /** FirstMatch is first-match resolution: no longest-key tie-break, and None only when no key matches. */
  lemma FirstMatchIsFirst(baseUrl: string, mapping: seq<(string, string)>)
    ensures FirstMatch(baseUrl, mapping).None?
        <==> forall i :: 0 <= i < |mapping| ==> !KeyMatches(baseUrl, mapping[i].0)
    ensures FirstMatch(baseUrl, mapping).Some? ==>
      exists i ::
        && 0 <= i < |mapping|
        && KeyMatches(baseUrl, mapping[i].0)
        && FirstMatch(baseUrl, mapping).value == mapping[i].1
        && forall j :: 0 <= j < i ==> !KeyMatches(baseUrl, mapping[j].0)
  {
    FirstWhereIsFirst(KeyMatcher(baseUrl), mapping);
  }

  /**
   * `find_sitemap_url`: walks the mapping in order and returns the sitemap of the first
   * key whose normalised form is a prefix of the normalised base address. The loop is
   * FindFirst; normalising the base once before it, as the code does, or inside each test
   * gives the same value, since `remove_language_code` has no effects.
   */
  method FindSitemapUrl(baseUrl: string, mapping: seq<(string, string)>) returns (r: Option<string>)
    ensures r == FirstMatch(baseUrl, mapping)
  {
    r := FindFirst(KeyMatcher(baseUrl), mapping);
  }
}
