/**
 * A model of the part of Python's `urllib.parse.urlparse` that the tool reads:
 * the scheme, the network location and the path of an address.
 */
module UrlParse {
  import opened Strings

  datatype Url = Url(scheme: string, netloc: string, path: string)

  /** `f"{scheme}://{netloc}{path}"`, the way the tool puts an address back together. */
  function Render(u: Url): string {
    u.scheme + "://" + u.netloc + u.path
  }

  /** Tab, carriage return and line feed, which urlparse deletes wherever they occur. */
  const Unsafe: set<char> := {'\t', '\r', '\n'}

  /** The characters that end the network location. */
  const NetlocEnd: set<char> := {'/', '?', '#'}

  /** The characters that end the path: the start of the query or of the fragment. */
  const PathEnd: set<char> := {'?', '#'}

  /** Drops leading C0 control characters and spaces. */
  function LStripControl(s: string): (r: string)
    ensures |r| <= |s| && r == s[|s| - |r|..]
    ensures r == [] || r[0] > ' '
  {
    if s != [] && s[0] <= ' ' then LStripControl(s[1..]) else s
  }

  predicate IsSchemeChar(c: char) {
    IsAsciiLetter(c) || '0' <= c <= '9' || c == '+' || c == '-' || c == '.'
  }

  /** A scheme as urlparse reports it: a letter, then scheme characters, all in lower case. */
  predicate IsSchemeName(s: string) {
    && |s| > 0
    && IsAsciiLetter(s[0])
    && forall i :: 0 <= i < |s| ==> IsSchemeChar(s[i]) && !IsAsciiUpper(s[i])
  }

  /** Splits off `scheme:` when the text before the first colon is a scheme. */
  function SplitScheme(s: string): (string, string) {
    var i := Find(s, {':'});
    if 0 < i < |s| && IsAsciiLetter(s[0]) && (forall j :: 0 <= j < i ==> IsSchemeChar(s[j]))
    then (Lower(s[..i]), s[i + 1..])
    else ("", s)
  }

  /** Splits `//netloc` off the front when present. */
  function SplitNetloc(rest: string): (string, string) {
    if StartsWith(rest, "//") then
      var k := Find(rest[2..], NetlocEnd);
      (rest[2..][..k], rest[2..][k..])
    else ("", rest)
  }

  /** What urlparse does to the text before splitting it. */
  function Clean(raw: string): string {
    RemoveAll(LStripControl(raw), Unsafe)
  }

  /** `urlparse(raw)`, keeping the scheme, the network location and the path. */
  function Parse(raw: string): (u: Url)
    ensures u.scheme == "" || IsSchemeName(u.scheme)
    ensures Avoids(u.netloc, NetlocEnd) && Avoids(u.netloc, Unsafe)
    ensures Avoids(u.path, PathEnd) && Avoids(u.path, Unsafe)
  {
    Components(Clean(raw))
  }

  /** Splits cleaned text into its components. */
  function Components(s: string): (u: Url)
    requires Avoids(s, Unsafe)
    ensures u.scheme == "" || IsSchemeName(u.scheme)
    ensures Avoids(u.netloc, NetlocEnd) && Avoids(u.netloc, Unsafe)
    ensures Avoids(u.path, PathEnd) && Avoids(u.path, Unsafe)
  {
    var (scheme, rest) := SplitScheme(s);
    SplitSchemeClean(s);
    var (netloc, rest2) := SplitNetloc(rest);
    SplitNetlocClean(rest);
    var k := Find(rest2, PathEnd);
    AvoidsSlice(rest2, Unsafe, 0, k);
    AvoidsPrefix(rest2, PathEnd, k);
    Url(scheme, netloc, rest2[..k])
  }

  lemma AvoidsPrefix(s: string, cs: set<char>, k: nat)
    requires k <= |s|
    requires forall j :: 0 <= j < k ==> s[j] !in cs
    ensures Avoids(s[..k], cs)
  {
    forall c | c in s[..k] ensures c !in cs {
      var j :| 0 <= j < k && s[..k][j] == c;
    }
  }

  lemma SplitSchemeClean(s: string)
    requires Avoids(s, Unsafe)
    ensures SplitScheme(s).0 == "" || IsSchemeName(SplitScheme(s).0)
    ensures Avoids(SplitScheme(s).1, Unsafe)
  {
    var i := Find(s, {':'});
    if 0 < i < |s| && IsAsciiLetter(s[0]) && (forall j :: 0 <= j < i ==> IsSchemeChar(s[j])) {
      var scheme := Lower(s[..i]);
      assert forall j :: 0 <= j < i ==> scheme[j] == LowerChar(s[j]);
      AvoidsSlice(s, Unsafe, i + 1, |s|);
    }
  }

  lemma SplitNetlocClean(rest: string)
    requires Avoids(rest, Unsafe)
    ensures Avoids(SplitNetloc(rest).0, NetlocEnd) && Avoids(SplitNetloc(rest).0, Unsafe)
    ensures Avoids(SplitNetloc(rest).1, Unsafe)
  {
    if StartsWith(rest, "//") {
      var r := rest[2..];
      var k := Find(r, NetlocEnd);
      AvoidsSlice(rest, Unsafe, 2, |rest|);
      AvoidsSlice(r, Unsafe, 0, k);
      AvoidsSlice(r, Unsafe, k, |r|);
      AvoidsPrefix(r, NetlocEnd, k);
    }
  }

  /** The components urlparse can give back unchanged from their rendering. */
  predicate WellFormed(u: Url) {
    && IsSchemeName(u.scheme)
    && Avoids(u.netloc, NetlocEnd) && Avoids(u.netloc, Unsafe)
    && Avoids(u.path, PathEnd) && Avoids(u.path, Unsafe)
    && (u.path == "" || u.path[0] == '/')
  }

  /** Rendering a well-formed address and parsing it again gives back its components. */
  lemma ParseRender(u: Url)
    requires WellFormed(u)
    ensures Parse(Render(u)) == u
  {
    var s := Render(u);
    var tail := "//" + u.netloc + u.path;
    assert s == u.scheme + (":" + tail);
    assert Avoids(u.scheme, {':'}) && Avoids(u.scheme, Unsafe) by {
      assert forall j :: 0 <= j < |u.scheme| ==> IsSchemeChar(u.scheme[j]);
    }
    assert Avoids(s, Unsafe);
    assert Clean(s) == s by {
      assert LStripControl(s) == s;
    }
    SchemeOfRender(u.scheme, tail);
    NetlocOfRender(u.netloc, u.path);
    ComponentsOf(s, u.scheme, tail, u.netloc, u.path);
  }

  /**
   * Rendering an address without a scheme gives text that starts with `://`. Parsing that text
   * finds no scheme and no host: all of it is the path.
   */
  lemma ParseRenderSchemeless(netloc: string, path: string)
    requires Avoids(netloc, PathEnd) && Avoids(netloc, Unsafe)
    requires Avoids(path, PathEnd) && Avoids(path, Unsafe)
    ensures var s := Render(Url("", netloc, path)); Parse(s) == Url("", "", s)
  {
    var s := Render(Url("", netloc, path));
    assert s == "://" + netloc + path;
    AvoidsConcat("://", netloc, Unsafe);
    AvoidsConcat("://" + netloc, path, Unsafe);
    AvoidsConcat("://", netloc, PathEnd);
    AvoidsConcat("://" + netloc, path, PathEnd);
    ParseColonLed(s);
  }

  /** Text that starts with `:` has neither a scheme nor a host. */
  lemma ParseColonLed(s: string)
    requires s != [] && s[0] == ':'
    requires Avoids(s, PathEnd) && Avoids(s, Unsafe)
    ensures Parse(s) == Url("", "", s)
  {
    assert LStripControl(s) == s;
    assert Find(s, {':'}) == 0;
    assert !StartsWith(s, "//");
    ComponentsOf(s, "", s, "", s);
  }

  lemma ComponentsOf(s: string, scheme: string, rest: string, netloc: string, path: string)
    requires Avoids(s, Unsafe)
    requires SplitScheme(s) == (scheme, rest)
    requires SplitNetloc(rest) == (netloc, path)
    requires Avoids(path, PathEnd)
    ensures Components(s) == Url(scheme, netloc, path)
  {
    ComponentsSplit(s, scheme, rest, netloc, path);
    assert Find(path, PathEnd) == |path|;
    assert path[..|path|] == path;
  }

  /** Components takes the path from the text after the host up to the query or the fragment. */
  lemma ComponentsSplit(s: string, scheme: string, rest: string, netloc: string, tail: string)
    requires Avoids(s, Unsafe)
    requires SplitScheme(s) == (scheme, rest)
    requires SplitNetloc(rest) == (netloc, tail)
    ensures Components(s) == Url(scheme, netloc, tail[..Find(tail, PathEnd)])
  {
  }

  lemma SchemeOfRender(scheme: string, tail: string)
    requires IsSchemeName(scheme) && Avoids(scheme, {':'})
    ensures SplitScheme(scheme + (":" + tail)) == (scheme, tail)
  {
    var s := scheme + (":" + tail);
    FindAppend(scheme, ":" + tail, {':'});
    assert Find(":" + tail, {':'}) == 0;
    assert s[..|scheme|] == scheme;
    assert s[|scheme| + 1..] == tail;
    assert forall j :: 0 <= j < |scheme| ==> s[j] == scheme[j];
    assert Lower(scheme) == scheme;
  }

  lemma NetlocOfRender(netloc: string, path: string)
    requires Avoids(netloc, NetlocEnd)
    requires path == "" || path[0] == '/'
    ensures SplitNetloc("//" + netloc + path) == (netloc, path)
  {
    var tail := "//" + netloc + path;
    assert tail[2..] == netloc + path;
    FindAppend(netloc, path, NetlocEnd);
    assert Find(path, NetlocEnd) == 0;
    assert (netloc + path)[..|netloc|] == netloc;
    assert (netloc + path)[|netloc|..] == path;
  }

  /** The query and the fragment take no part in any component urlparse reports here. */
  lemma ParseIgnoresQuery(s: string, q: string)
    requires Avoids(s, PathEnd)
    requires q != [] && q[0] in PathEnd
    ensures Parse(s + q) == Parse(s)
  {
    CleanAppend(s, q);
    var qq := RemoveAll(q, Unsafe);
    AvoidsSlice(s, PathEnd, |s| - |LStripControl(s)|, |s|);
    assert forall c :: c in Clean(s) ==> c in LStripControl(s);
    assert Avoids(Clean(s), PathEnd);
    ComponentsIgnoreQuery(Clean(s), qq);
  }

  lemma CleanAppend(s: string, q: string)
    requires q != [] && q[0] in PathEnd
    ensures Clean(s + q) == Clean(s) + RemoveAll(q, Unsafe)
    ensures RemoveAll(q, Unsafe) != [] && RemoveAll(q, Unsafe)[0] == q[0]
  {
    var a := LStripControl(s);
    LStripControlAppend(s, q);
    assert Clean(s + q) == RemoveAll(a + q, Unsafe);
    RemoveAllAppend(a, q, Unsafe);
    PathEndIsSafe(q[0]);
    RemoveAllHead(q, Unsafe);
  }

  lemma PathEndIsSafe(c: char)
    requires c in PathEnd
    ensures c !in Unsafe
  {
  }

  lemma RemoveAllHead(q: string, cs: set<char>)
    requires q != [] && q[0] !in cs
    ensures RemoveAll(q, cs) == [q[0]] + RemoveAll(q[1..], cs)
  {
  }

  lemma ComponentsIgnoreQuery(s: string, q: string)
    requires Avoids(s, PathEnd) && Avoids(s, Unsafe) && Avoids(q, Unsafe)
    requires q != [] && q[0] in PathEnd
    ensures Avoids(s + q, Unsafe)
    ensures Components(s + q) == Components(s)
  {
    AvoidsConcat(s, q, Unsafe);
    var (scheme, rest) := SplitScheme(s);
    var (netloc, rest2) := SplitNetloc(rest);
    SplitSchemeAppend(s, q);
    RestAvoids(s);
    SplitNetlocAppend(rest, q);
    NetlocRestAvoids(rest);
    FindAppend(rest2, q, PathEnd);
    assert (rest2 + q)[..|rest2|] == rest2;
    ComponentsOf(s, scheme, rest, netloc, rest2);
    ComponentsSplit(s + q, scheme, rest + q, netloc, rest2 + q);
  }

  lemma RestAvoids(s: string)
    requires Avoids(s, PathEnd)
    ensures Avoids(SplitScheme(s).1, PathEnd)
  {
    var rest := SplitScheme(s).1;
    assert rest == s[|s| - |rest|..];
    AvoidsSlice(s, PathEnd, |s| - |rest|, |s|);
  }

  lemma NetlocRestAvoids(rest: string)
    requires Avoids(rest, PathEnd)
    ensures Avoids(SplitNetloc(rest).1, PathEnd)
  {
    if StartsWith(rest, "//") {
      AvoidsSlice(rest, PathEnd, 2, |rest|);
      var k := Find(rest[2..], NetlocEnd);
      AvoidsSlice(rest[2..], PathEnd, k, |rest[2..]|);
    }
  }

  lemma {:induction false} LStripControlAppend(a: string, b: string)
    requires b != [] && b[0] > ' '
    ensures LStripControl(a + b) == LStripControl(a) + b
  {
    if a == [] {
      assert a + b == b;
    } else {
      assert (a + b)[0] == a[0] && (a + b)[1..] == a[1..] + b;
      LStripControlAppend(a[1..], b);
    }
  }

  lemma SplitSchemeAppend(a: string, q: string)
    requires Avoids(a, PathEnd)
    requires q != [] && q[0] in PathEnd
    ensures SplitScheme(a + q).0 == SplitScheme(a).0
    ensures SplitScheme(a + q).1 == SplitScheme(a).1 + q
  {
    FindConcat(a, q, {':'});
    var i := Find(a, {':'});
    if i < |a| {
      SchemeColonAppend(a, q, i);
    } else {
      SchemeNoColonAppend(a, q);
    }
  }

  /** With a colon in `a`, the scheme test and the split are the same on `a + q`. */
  lemma SchemeColonAppend(a: string, q: string, i: nat)
    requires i == Find(a, {':'}) && i < |a| && Find(a + q, {':'}) == i
    ensures SplitScheme(a + q).0 == SplitScheme(a).0
    ensures SplitScheme(a + q).1 == SplitScheme(a).1 + q
  {
    assert (a + q)[..i] == a[..i];
    assert (a + q)[i + 1..] == a[i + 1..] + q;
    assert forall j :: 0 <= j < i ==> (a + q)[j] == a[j];
    assert (a + q)[0] == a[0];
  }

  /** Without a colon in `a`, the first character of `q` rules out a scheme on `a + q`. */
  lemma SchemeNoColonAppend(a: string, q: string)
    requires Find(a, {':'}) == |a| && Find(a + q, {':'}) == |a| + Find(q, {':'})
    requires q != [] && q[0] in PathEnd
    ensures SplitScheme(a + q) == ("", a + q) && SplitScheme(a) == ("", a)
  {
    assert (a + q)[|a|] == q[0];
    assert !IsSchemeChar(q[0]);
  }

  lemma SplitNetlocAppend(rest: string, q: string)
    requires Avoids(rest, PathEnd)
    requires q != [] && q[0] in PathEnd
    ensures SplitNetloc(rest + q).0 == SplitNetloc(rest).0
    ensures SplitNetloc(rest + q).1 == SplitNetloc(rest).1 + q
  {
    if |rest| >= 2 {
      assert (rest + q)[..2] == rest[..2];
    } else {
      assert (rest + q)[|rest|] == q[0];
    }
    if StartsWith(rest, "//") {
      var r := rest[2..];
      assert (rest + q)[2..] == r + q;
      FindConcat(r, q, NetlocEnd);
      var k := Find(r, NetlocEnd);
      assert (r + q)[..k] == r[..k];
      if k < |r| {
        assert (r + q)[k..] == r[k..] + q;
      } else {
        assert Find(q, NetlocEnd) == 0;
        assert (r + q)[k..] == q;
      }
    }
  }
}
