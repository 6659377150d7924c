/**
 * `extract_brand_country_and_lancode` and `is_hidden` of `utils.py`: classifying a page
 * address by brand, country and language, and deciding whether a tag is hidden.
 */
module Utils {
  import opened Wrappers
  import opened Strings
  import opened Lookup
  import opened UrlParse
  import opened Paths

  /** Brand keys and their codes, in the order they are tried. */
  const BrandMapping: seq<(string, string)> :=
    [("sulwhasoo", "SWS"), ("laneige", "LNG"), ("hera", "HERA"), ("aestura", "AES")]

  /** First host labels taken as a country. */
  const CountryHosts: seq<string> := ["hk", "sg", "my", "ph", "th", "tw", "vn", "jp", "kr"]

  /** Two-letter segments taken as a language. */
  const LanguageWords: seq<string> := ["ko", "en", "zh", "ja"]

  /** `country/language` pairs at the head of the path that override the language. */
  const LanguageOverrides: seq<string> := ["kr/ko", "int/en", "jp/ja"]

  /** The brand key occurs in the host or in the path. */
  predicate BrandKeyIn(netloc: string, path: string, key: string) {
    Contains(netloc, key) || Contains(path, key)
  }

  /** The code of the first brand key found in the host or the path, else "UNKNOWN". */
  function Brand(netloc: string, path: string): string {
    match FirstWhere(key => BrandKeyIn(netloc, path, key), BrandMapping)
    case Some(code) => code
    case None => "UNKNOWN"
  }

  /** Brand is first-match over the fixed key order, and "UNKNOWN" only when no key occurs. */
  lemma BrandIsFirst(netloc: string, path: string)
    ensures Brand(netloc, path) == "UNKNOWN"
        <==> forall i :: 0 <= i < |BrandMapping| ==> !BrandKeyIn(netloc, path, BrandMapping[i].0)
    ensures Brand(netloc, path) != "UNKNOWN" ==>
      exists i ::
        && 0 <= i < |BrandMapping|
        && BrandKeyIn(netloc, path, BrandMapping[i].0)
        && Brand(netloc, path) == BrandMapping[i].1
        && forall j :: 0 <= j < i ==> !BrandKeyIn(netloc, path, BrandMapping[j].0)
  {
    FirstWhereIsFirst(key => BrandKeyIn(netloc, path, key), BrandMapping);
  }

  /** Two ASCII letters, so `isalpha()` and of length 2. */
  predicate IsTwoLetters(s: string) {
    |s| == 2 && IsAlpha(s)
  }

  /**
   * The country: the first host label when it is a listed country, else a two-letter
   * first path segment, else a two-letter second-to-last host label, else "UNKNOWN";
   * all upper-cased.
   */
  function Country(netloc: string, parts: seq<string>): string
    requires |parts| >= 1
  {
    var labels := Split(netloc, '.');
    if Lower(labels[0]) in CountryHosts then Upper(labels[0])
    else if IsTwoLetters(parts[0]) then Upper(parts[0])
    else if |labels| > 1 && IsTwoLetters(labels[|labels| - 2]) then Upper(labels[|labels| - 2])
    else "UNKNOWN"
  }

  predicate IsCountryCode(s: string) {
    |s| == 2 && IsAsciiUpper(s[0]) && IsAsciiUpper(s[1])
  }

  lemma LowerLetters(s: string)
    requires IsTwoLetters(Lower(s))
    ensures IsTwoLetters(s)
  {
    forall i | 0 <= i < |s| ensures IsAsciiLetter(s[i]) {
      assert IsAsciiLetter(Lower(s)[i]);
    }
  }

  lemma UpperLetters(s: string)
    requires IsTwoLetters(s)
    ensures IsCountryCode(Upper(s))
  {
    assert IsAsciiLetter(s[0]) && IsAsciiLetter(s[1]);
  }

  /** The country is "UNKNOWN" or two upper-case letters. */
  lemma CountryShape(netloc: string, parts: seq<string>)
    requires |parts| >= 1
    ensures Country(netloc, parts) == "UNKNOWN" || IsCountryCode(Country(netloc, parts))
  {
    var labels := Split(netloc, '.');
    if Lower(labels[0]) in CountryHosts {
      assert IsTwoLetters(Lower(labels[0]));
      LowerLetters(labels[0]);
      UpperLetters(labels[0]);
    } else if IsTwoLetters(parts[0]) {
      UpperLetters(parts[0]);
    } else if |labels| > 1 && IsTwoLetters(labels[|labels| - 2]) {
      UpperLetters(labels[|labels| - 2]);
    }
  }

  /** A segment taken as a language: a locale code such as `en_s`, or one of ko/en/zh/ja. */
  predicate IsLanguageSegment(p: string) {
    IsLocaleCode(p) || (IsTwoLetters(p) && p in LanguageWords)
  }

  /** The first language segment of the path, or "" when there is none. */
  function FirstLanguageSegment(parts: seq<string>): (lan: string)
    ensures lan == "" <==> forall i :: 0 <= i < |parts| ==> !IsLanguageSegment(parts[i])
    ensures lan != "" ==>
      exists i :: 0 <= i < |parts| && parts[i] == lan && IsLanguageSegment(lan)
        && forall j :: 0 <= j < i ==> !IsLanguageSegment(parts[j])
  {
    if parts == [] then ""
    else if IsLanguageSegment(parts[0]) then parts[0]
    else
      var lan := FirstLanguageSegment(parts[1..]);
      assert forall i :: 1 <= i < |parts| ==> parts[i] == parts[1..][i - 1];
      lan
  }

  /** The first two segments are two-letter words whose pair is listed as an override. */
  predicate HasOverride(parts: seq<string>) {
    && |parts| >= 2
    && IsTwoLetters(parts[0]) && IsTwoLetters(parts[1])
    && parts[0] + "/" + parts[1] in LanguageOverrides
  }

  /** The language code: the override pair joined by `-` when there is one, else the first language segment. */
  function Language(parts: seq<string>): string {
    if HasOverride(parts) then parts[0] + "-" + parts[1] else FirstLanguageSegment(parts)
  }

  /** The only overrides that can fire are `kr-ko` and `jp-ja`: the `int/en` pair has a three-letter segment. */
  lemma OverrideIsKrOrJp(parts: seq<string>)
    requires HasOverride(parts)
    ensures Language(parts) == "kr-ko" || Language(parts) == "jp-ja"
  {
    var pair := parts[0] + "/" + parts[1];
    assert |pair| == 5;
    assert pair[..2] == parts[0] && pair[3..] == parts[1];
    assert pair == "kr/ko" || pair == "jp/ja";
  }

  /** The language is "", a language segment of the path, `kr-ko` or `jp-ja`; never `int-en`. */
  lemma LanguageShape(parts: seq<string>)
    ensures var lan := Language(parts);
      || lan == ""
      || (lan in parts && IsLanguageSegment(lan))
      || lan == "kr-ko" || lan == "jp-ja"
    ensures Language(parts) != "int-en"
  {
    if HasOverride(parts) {
      OverrideIsKrOrJp(parts);
    }
  }

  /**
   * `extract_brand_country_and_lancode`: the brand, the country and the language of a page
   * address; the language is searched for with a loop that stops at the first hit.
   */
  method ExtractBrandCountryAndLancode(url: string) returns (brand: string, country: string, lan: string)
    ensures var u := Parse(url);
      && brand == Brand(u.netloc, u.path)
      && country == Country(u.netloc, Segments(u.path))
      && lan == Language(Segments(u.path))
    ensures country == "UNKNOWN" || IsCountryCode(country)
    ensures lan != "int-en"
  {
    var u := Parse(url);
    brand := Brand(u.netloc, u.path);
    var parts := Segments(u.path);
    country := Country(u.netloc, parts);
    CountryShape(u.netloc, parts);
    lan := FindLanguageSegment(parts);
    if HasOverride(parts) {
      lan := parts[0] + "-" + parts[1];
    }
    LanguageShape(parts);
  }

  /** The language loop: the first language segment of the path, or "" when there is none. */
  method FindLanguageSegment(parts: seq<string>) returns (lan: string)
    ensures lan == FirstLanguageSegment(parts)
  {
    for i := 0 to |parts|
      invariant FirstLanguageSegment(parts) == FirstLanguageSegment(parts[i..])
    {
      assert parts[i..][0] == parts[i] && parts[i..][1..] == parts[i + 1..];
      if IsLanguageSegment(parts[i]) {
        return parts[i];
      }
    }
    return "";
  }

  /** The attributes `is_hidden` looks at; an absent `style` is "" and an absent `class` is empty. */
  datatype Tag = Tag(style: string, classes: seq<string>, hiddenAttr: bool)

  /** The style with spaces removed, lower-cased. */
  function NormStyle(style: string): string {
    Lower(RemoveAll(style, {' '}))
  }

  /** `is_hidden`: an inline `display:none` or `visibility:hidden`, the `hidden` attribute, or the `hidden` class. */
  predicate IsHidden(t: Tag) {
    || Contains(NormStyle(t.style), "display:none")
    || Contains(NormStyle(t.style), "visibility:hidden")
    || t.hiddenAttr
    || "hidden" in t.classes
  }

  lemma RemoveAllCons(c: char, t: string, cs: set<char>)
    ensures RemoveAll([c] + t, cs) == if c in cs then RemoveAll(t, cs) else [c] + RemoveAll(t, cs)
  {
    assert ([c] + t)[0] == c && ([c] + t)[1..] == t;
  }

  lemma UpperCons(c: char, t: string)
    ensures Upper([c] + t) == [UpperChar(c)] + Upper(t)
  {
  }

  lemma {:induction false} RemoveAllUpper(s: string)
    ensures RemoveAll(Upper(s), {' '}) == Upper(RemoveAll(s, {' '}))
  {
    if s != [] {
      var t := s[1..];
      assert s == [s[0]] + t;
      UpperCons(s[0], t);
      RemoveAllCons(UpperChar(s[0]), Upper(t), {' '});
      RemoveAllCons(s[0], t, {' '});
      RemoveAllUpper(t);
      if s[0] != ' ' {
        UpperCons(s[0], RemoveAll(t, {' '}));
      }
    }
  }

  lemma LowerUpper(s: string)
    ensures Lower(Upper(s)) == Lower(s)
  {
  }

  lemma LowerTwice(s: string)
    ensures Lower(Lower(s)) == Lower(s)
  {
  }

  /** Normalising a style twice changes nothing. */
  lemma NormStyleIdempotent(style: string)
    ensures NormStyle(NormStyle(style)) == NormStyle(style)
  {
    var r := RemoveAll(style, {' '});
    forall c | c in Lower(r) ensures c != ' ' {
      var i :| 0 <= i < |Lower(r)| && Lower(r)[i] == c;
      assert r[i] in r;
    }
    LowerTwice(r);
  }

  /** Whether a tag is hidden does not depend on the case of its style. */
  lemma HiddenIgnoresStyleCase(t: Tag)
    ensures IsHidden(t.(style := Upper(t.style))) == IsHidden(t)
  {
    RemoveAllUpper(t.style);
    LowerUpper(RemoveAll(t.style, {' '}));
  }

  lemma RemoveSpace(a: string, b: string)
    ensures RemoveAll(a + " " + b, {' '}) == RemoveAll(a + b, {' '})
  {
    assert a + " " + b == a + ([' '] + b);
    RemoveAllAppend(a, [' '] + b, {' '});
    RemoveAllCons(' ', b, {' '});
    RemoveAllAppend(a, b, {' '});
  }

  /** Whether a tag is hidden does not depend on the spaces in its style. */
  lemma HiddenIgnoresStyleSpaces(t: Tag, a: string, b: string)
    requires t.style == a + b
    ensures IsHidden(t.(style := a + " " + b)) == IsHidden(t)
  {
    RemoveSpace(a, b);
    assert NormStyle(a + " " + b) == NormStyle(t.style);
  }

  /** A tag whose style is already normalised is hidden exactly when the original is. */
  lemma HiddenIgnoresNormalisedStyle(t: Tag)
    ensures IsHidden(t.(style := NormStyle(t.style))) == IsHidden(t)
  {
    NormStyleIdempotent(t.style);
  }

  /** An inline `display:none` or `visibility:hidden`, written exactly so anywhere in the style, hides the tag. */
  lemma InlineStyleHides(t: Tag, w: string)
    requires w == "display:none" || w == "visibility:hidden"
    requires Contains(t.style, w)
    ensures IsHidden(t)
  {
    var a, b := ContainsAt(t.style, w);
    HidingWordsNormal(w);
    NormStyleKeeps(a, w, b);
    ContainsMiddle(Lower(RemoveAll(a, {' '})), w, Lower(RemoveAll(b, {' '})));
  }

  lemma HidingWordsNormal(w: string)
    requires w == "display:none" || w == "visibility:hidden"
    ensures Avoids(w, {' '}) && Lower(w) == w
  {
    assert forall i :: 0 <= i < |w| ==> !IsAsciiUpper(w[i]) && w[i] != ' ';
    assert forall i :: 0 <= i < |w| ==> LowerChar(w[i]) == w[i];
  }

  /** Normalising a style keeps a word with no space and no upper-case letter intact. */
  lemma NormStyleKeeps(a: string, w: string, b: string)
    requires Avoids(w, {' '}) && Lower(w) == w
    ensures NormStyle(a + w + b) == Lower(RemoveAll(a, {' '})) + w + Lower(RemoveAll(b, {' '}))
  {
    RemoveAllAppend(a + w, b, {' '});
    RemoveAllAppend(a, w, {' '});
    var ra, rb := RemoveAll(a, {' '}), RemoveAll(b, {' '});
    LowerAppend(ra + w, rb);
    LowerAppend(ra, w);
  }
}
