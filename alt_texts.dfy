/**
 * `collect_alt_texts` of `utils.py`: gathers one record per distinct image address of a page,
 * first from its visible `<img>` tags, then from the gallery items of its Magento init scripts.
 *
 * The page is given already parsed. Each source element yields at most one candidate image or
 * an abort (an exception the outer handler catches); the collector folds these events in order,
 * skipping addresses it has already seen and keeping what it gathered when an abort comes.
 */
module AltTexts {
  import opened Strings
  import opened Utils

  /** An `<img>` tag; an absent `data-amsrc`, `src` or `alt` is "". */
  datatype Img = Img(tag: Tag, dataAmsrc: string, src: string, alt: string)

  /**
   * One entry of a gallery's `data` list: its `img` and `full` (a falsy or absent one is "", and
   * `img` then falls back to `full`) and its `caption` (an absent one is ""), or an entry the loop
   * raises on (not an object, or a truthy non-string source).
   */
  datatype GalleryItem = Item(img: string, full: string, caption: string) | BadItem

  /**
   * One value of a decoded script object: the items of its `mage/gallery/gallery` `data` list
   * (empty when either key is missing), or a value the loop raises on (not an object).
   */
  datatype ConfigValue = Gallery(items: seq<GalleryItem>) | BadValue

  /** A `text/x-magento-init` script: invalid JSON, a JSON object, or JSON that is not an object. */
  datatype Script = Undecodable | Config(values: seq<ConfigValue>) | NotAnObject

  /** The page: the request failed, or its `<img>` tags and Magento init scripts in document order. */
  datatype Page = Unreachable | Fetched(imgs: seq<Img>, scripts: seq<Script>)

  /** One output row: "Page URL", "Image URL" and "Alt Text (AS-IS)". */
  datatype AltRecord = AltRecord(pageUrl: string, imageUrl: string, altText: string)

  /** What one source element contributes: an image address with its text, or an abort. */
  datatype Event = Candidate(imageUrl: string, alt: string) | Abort

  /** The collector's state: the rows so far, the addresses seen, and whether an exception ended the walk. */
  datatype Gather = Gather(records: seq<AltRecord>, seen: set<string>, stopped: bool)

  const Start := Gather([], {}, false)

  /** An address starting with `http` is kept as it is; any other is resolved against the page. */
  function Resolve(url: string, raw: string, join: (string, string) -> string): string {
    if StartsWith(raw, "http") then raw else join(url, raw)
  }

  /** A candidate for a non-empty source, nothing for an empty one. */
  function SourceEvents(url: string, join: (string, string) -> string, raw: string, alt: string): seq<Event> {
    if raw == "" then [] else [Candidate(Resolve(url, raw, join), alt)]
  }

  /** A hidden `<img>` gives nothing; otherwise its `data-amsrc`, or else its `src`, is the source. */
  function ImgEvents(url: string, join: (string, string) -> string, img: Img): seq<Event> {
    if IsHidden(img.tag) then []
    else SourceEvents(url, join, if img.dataAmsrc != "" then img.dataAmsrc else img.src, img.alt)
  }

  /** A gallery item's source is its `img`, or else its `full`. */
  function ItemEvents(url: string, join: (string, string) -> string, item: GalleryItem): seq<Event> {
    match item
    case BadItem => [Abort]
    case Item(img, full, caption) => SourceEvents(url, join, if img != "" then img else full, caption)
  }

  function ItemStep(url: string, join: (string, string) -> string): GalleryItem -> seq<Event> {
    item => ItemEvents(url, join, item)
  }

  function ValueEvents(url: string, join: (string, string) -> string, v: ConfigValue): seq<Event> {
    match v
    case BadValue => [Abort]
    case Gallery(items) => Flatten(ItemStep(url, join), items)
  }

  function ValueStep(url: string, join: (string, string) -> string): ConfigValue -> seq<Event> {
    v => ValueEvents(url, join, v)
  }

  /** Invalid JSON is skipped; JSON that is not an object aborts. */
  function ScriptEvents(url: string, join: (string, string) -> string, s: Script): seq<Event> {
    match s
    case Undecodable => []
    case NotAnObject => [Abort]
    case Config(values) => Flatten(ValueStep(url, join), values)
  }

  function ScriptStep(url: string, join: (string, string) -> string): Script -> seq<Event> {
    s => ScriptEvents(url, join, s)
  }

  function ImgStep(url: string, join: (string, string) -> string): Img -> seq<Event> {
    img => ImgEvents(url, join, img)
  }

  /** All `<img>` events in document order, then all script events. */
  function PageEvents(url: string, join: (string, string) -> string, page: Page): seq<Event> {
    match page
    case Unreachable => []
    case Fetched(imgs, scripts) => Flatten(ImgStep(url, join), imgs) + Flatten(ScriptStep(url, join), scripts)
  }

  /** The events of each element of `xs`, in order. */
  function Flatten<T>(f: T -> seq<Event>, xs: seq<T>): seq<Event> {
    if xs == [] then [] else Flatten(f, xs[..|xs| - 1]) + f(xs[|xs| - 1])
  }

  lemma FlattenSnoc<T>(f: T -> seq<Event>, xs: seq<T>, i: nat)
    requires i < |xs|
    ensures Flatten(f, xs[..i + 1]) == Flatten(f, xs[..i]) + f(xs[i])
  {
    assert xs[..i + 1][..i] == xs[..i];
  }

  /** One event: a new address adds a row for the page, a seen one is skipped, an abort ends the walk. */
  function Step(url: string, g: Gather, e: Event): Gather {
    if g.stopped then g
    else
      match e
      case Abort => g.(stopped := true)
      case Candidate(u, alt) =>
        if u in g.seen then g
        else Gather(g.records + [AltRecord(url, u, alt)], g.seen + {u}, false)
  }

  /** The events folded left to right. */
  function Run(url: string, g: Gather, es: seq<Event>): Gather {
    if es == [] then g else Step(url, Run(url, g, es[..|es| - 1]), es[|es| - 1])
  }

  lemma {:induction false} RunAppend(url: string, g: Gather, a: seq<Event>, b: seq<Event>)
    ensures Run(url, g, a + b) == Run(url, Run(url, g, a), b)
    decreases |b|
  {
    if b == [] {
      assert a + b == a;
    } else {
      var b' := b[..|b| - 1];
      assert (a + b)[..|a + b| - 1] == a + b';
      RunAppend(url, g, a, b');
    }
  }

  lemma {:induction false} RunStopped(url: string, g: Gather, es: seq<Event>)
    requires g.stopped
    ensures Run(url, g, es) == g
  {
    if es != [] {
      RunStopped(url, g, es[..|es| - 1]);
    }
  }

  /** Once stopped on a prefix of the elements, the remaining elements change nothing. */
  lemma {:induction false} RunFlattenStopped<T>(url: string, g: Gather, f: T -> seq<Event>, xs: seq<T>, i: nat)
    requires i <= |xs| && Run(url, g, Flatten(f, xs[..i])).stopped
    ensures Run(url, g, Flatten(f, xs)) == Run(url, g, Flatten(f, xs[..i]))
    decreases |xs| - i
  {
    if i < |xs| {
      FlattenSnoc(f, xs, i);
      RunAppend(url, g, Flatten(f, xs[..i]), f(xs[i]));
      RunStopped(url, Run(url, g, Flatten(f, xs[..i])), f(xs[i]));
      RunFlattenStopped(url, g, f, xs, i + 1);
    } else {
      assert xs[..i] == xs;
    }
  }

  /** The address of some row is `u`. */
  ghost predicate HasRecord(records: seq<AltRecord>, u: string) {
    exists i :: 0 <= i < |records| && records[i].imageUrl == u
  }

  /**
   * The state's rows are for `url`, no two share an address, and `seen` holds exactly
   * their addresses.
   */
  ghost predicate Consistent(url: string, g: Gather) {
    && (forall i :: 0 <= i < |g.records| ==> g.records[i].pageUrl == url)
    && (forall i, j :: 0 <= i < j < |g.records| ==> g.records[i].imageUrl != g.records[j].imageUrl)
    && (forall u :: u in g.seen <==> HasRecord(g.records, u))
  }

  lemma StepConsistent(url: string, g: Gather, e: Event)
    requires Consistent(url, g)
    ensures Consistent(url, Step(url, g, e))
  {
    if !g.stopped && e.Candidate? && e.imageUrl !in g.seen {
      var r := Step(url, g, e).records;
      assert r[|r| - 1].imageUrl == e.imageUrl;
      forall u | HasRecord(r, u) ensures u in g.seen || u == e.imageUrl {
        var i :| 0 <= i < |r| && r[i].imageUrl == u;
        if i < |g.records| {
          assert g.records[i].imageUrl == u;
        }
      }
      forall u | u in g.seen ensures HasRecord(r, u) {
        var i :| 0 <= i < |g.records| && g.records[i].imageUrl == u;
        assert r[i].imageUrl == u;
      }
    }
  }

  lemma {:induction false} RunConsistent(url: string, g: Gather, es: seq<Event>)
    requires Consistent(url, g)
    ensures Consistent(url, Run(url, g, es))
  {
    if es != [] {
      RunConsistent(url, g, es[..|es| - 1]);
      StepConsistent(url, Run(url, g, es[..|es| - 1]), es[|es| - 1]);
    }
  }

  /** Rows are only ever appended. */
  lemma {:induction false} RunExtends(url: string, g: Gather, es: seq<Event>)
    ensures |g.records| <= |Run(url, g, es).records|
    ensures Run(url, g, es).records[..|g.records|] == g.records
  {
    if es != [] {
      RunExtends(url, g, es[..|es| - 1]);
    }
  }

  /** Some event of `es` is a candidate for `u`. */
  ghost predicate HasCandidate(es: seq<Event>, u: string) {
    exists k :: 0 <= k < |es| && es[k].Candidate? && es[k].imageUrl == u
  }

  /**
   * Without an abort, an address is seen at the end exactly when it was seen at the start
   * or some event proposed it; and the walk ends stopped exactly when some event aborts.
   */
  lemma {:induction false} RunCollectsAll(url: string, g: Gather, es: seq<Event>)
    requires !g.stopped
    ensures Run(url, g, es).stopped <==> Abort in es
    ensures Abort !in es ==>
      forall u :: u in Run(url, g, es).seen <==> u in g.seen || HasCandidate(es, u)
  {
    if es != [] {
      var es' := es[..|es| - 1];
      var e := es[|es| - 1];
      RunCollectsAll(url, g, es');
      assert es == es' + [e];
      if Abort !in es {
        assert Abort !in es';
        forall u ensures u in Run(url, g, es).seen <==> u in g.seen || HasCandidate(es, u) {
          if HasCandidate(es', u) {
            var k :| 0 <= k < |es'| && es'[k].Candidate? && es'[k].imageUrl == u;
            assert es[k] == es'[k];
          }
          if HasCandidate(es, u) && !HasCandidate(es', u) {
            var k :| 0 <= k < |es| && es[k].Candidate? && es[k].imageUrl == u;
            assert k == |es'|;
          }
        }
      }
    }
  }

  /**
   * Event `k` proposes `u` with text `alt`, and it is the first proposal of `u`: no earlier
   * event aborts or proposes `u`.
   */
  ghost predicate FirstProposal(es: seq<Event>, k: int, u: string, alt: string) {
    && 0 <= k < |es| && es[k] == Candidate(u, alt)
    && forall j :: 0 <= j < k ==> es[j] != Abort && !(es[j].Candidate? && es[j].imageUrl == u)
  }

  /** Some event is the first proposal of the row's address, with the row's text. */
  ghost predicate FirstProposed(es: seq<Event>, x: AltRecord) {
    exists k :: FirstProposal(es, k, x.imageUrl, x.altText)
  }

  /** Every row holds the address and the text of the first event that proposed that address. */
  ghost predicate FromFirstProposals(es: seq<Event>, r: seq<AltRecord>) {
    forall i :: 0 <= i < |r| ==> FirstProposed(es, r[i])
  }

  /** Rows come in the order in which their addresses were first proposed. */
  ghost predicate InProposalOrder(es: seq<Event>, r: seq<AltRecord>) {
    forall i, j, ki, kj ::
      && 0 <= i < j < |r|
      && FirstProposal(es, ki, r[i].imageUrl, r[i].altText)
      && FirstProposal(es, kj, r[j].imageUrl, r[j].altText)
      ==> ki < kj
  }

  /** An address has at most one first proposal. */
  lemma FirstProposalUnique(es: seq<Event>, k1: int, k2: int, u: string, a1: string, a2: string)
    requires FirstProposal(es, k1, u, a1) && FirstProposal(es, k2, u, a2)
    ensures k1 == k2 && a1 == a2
  {
  }

  /** A first proposal within `es` stays one when an event is appended, and conversely. */
  lemma FirstProposalSnoc(es: seq<Event>, e: Event, k: int, u: string, alt: string)
    requires 0 <= k < |es|
    ensures FirstProposal(es + [e], k, u, alt) <==> FirstProposal(es, k, u, alt)
  {
    assert forall j :: 0 <= j <= k ==> (es + [e])[j] == es[j];
  }

  /** An appended event that adds no row keeps both properties. */
  lemma SnocKeeps(es: seq<Event>, e: Event, r: seq<AltRecord>)
    requires FromFirstProposals(es, r) && InProposalOrder(es, r)
    ensures FromFirstProposals(es + [e], r) && InProposalOrder(es + [e], r)
  {
    forall i, k | 0 <= i < |r| && FirstProposal(es + [e], k, r[i].imageUrl, r[i].altText)
      ensures FirstProposal(es, k, r[i].imageUrl, r[i].altText)
    {
      BeforeLast(es, e, r, i, k);
    }
    forall i | 0 <= i < |r| ensures FirstProposed(es + [e], r[i]) {
      var k :| FirstProposal(es, k, r[i].imageUrl, r[i].altText);
      FirstProposalSnoc(es, e, k, r[i].imageUrl, r[i].altText);
    }
  }

  /** A row already proposed within `es` has its first proposal within `es`, also in `es + [e]`. */
  lemma BeforeLast(es: seq<Event>, e: Event, r: seq<AltRecord>, i: int, k: int)
    requires FromFirstProposals(es, r) && 0 <= i < |r|
    requires FirstProposal(es + [e], k, r[i].imageUrl, r[i].altText)
    ensures k < |es| && FirstProposal(es, k, r[i].imageUrl, r[i].altText)
  {
    var k0 :| FirstProposal(es, k0, r[i].imageUrl, r[i].altText);
    FirstProposalSnoc(es, e, k0, r[i].imageUrl, r[i].altText);
    FirstProposalUnique(es + [e], k, k0, r[i].imageUrl, r[i].altText, r[i].altText);
  }

  /** An appended first proposal of a new address, after no abort, adds its row last. */
  lemma SnocAppends(url: string, es: seq<Event>, u: string, alt: string, r: seq<AltRecord>)
    requires FromFirstProposals(es, r) && InProposalOrder(es, r)
    requires Abort !in es && !HasCandidate(es, u)
    ensures var es', r' := es + [Candidate(u, alt)], r + [AltRecord(url, u, alt)];
      FromFirstProposals(es', r') && InProposalOrder(es', r')
  {
    var e := Candidate(u, alt);
    var es', r' := es + [e], r + [AltRecord(url, u, alt)];
    SnocKeeps(es, e, r);
    forall j | 0 <= j < |es| ensures es'[j] != Abort && !(es'[j].Candidate? && es'[j].imageUrl == u) {
      assert es'[j] == es[j] && es[j] in es;
    }
    assert FirstProposal(es', |es|, u, alt);
    forall i | 0 <= i < |r'| ensures FirstProposed(es', r'[i]) {
      if i < |r| {
        assert r'[i] == r[i];
      } else {
        assert FirstProposal(es', |es|, r'[i].imageUrl, r'[i].altText);
      }
    }
    forall i, j, ki, kj |
      && 0 <= i < j < |r'|
      && FirstProposal(es', ki, r'[i].imageUrl, r'[i].altText)
      && FirstProposal(es', kj, r'[j].imageUrl, r'[j].altText)
      ensures ki < kj
    {
      assert r'[i] == r[i];
      BeforeLast(es, e, r, i, ki);
      if j < |r| {
        assert r'[j] == r[j];
        BeforeLast(es, e, r, j, kj);
      } else {
        FirstProposalUnique(es', kj, |es|, u, alt, alt);
      }
    }
  }

  /**
   * Each row holds the address and the text of the first event proposing that address, and
   * rows come in the order of those first proposals.
   */
  lemma {:induction false} RunFirstProposals(url: string, es: seq<Event>)
    ensures var r := Run(url, Start, es).records;
      FromFirstProposals(es, r) && InProposalOrder(es, r)
  {
    if es != [] {
      var es', e := es[..|es| - 1], es[|es| - 1];
      assert es == es' + [e];
      RunFirstProposals(url, es');
      var g := Run(url, Start, es');
      if !g.stopped && e.Candidate? && e.imageUrl !in g.seen {
        RunCollectsAll(url, Start, es');
        SnocAppends(url, es', e.imageUrl, e.alt, g.records);
      } else {
        SnocKeeps(es', e, g.records);
      }
    }
  }

  /** The collector's final state for a page. */
  function Collected(url: string, join: (string, string) -> string, page: Page): Gather {
    Run(url, Start, PageEvents(url, join, page))
  }

  /** Every row is for the page, no two rows share an image address, and an unreachable page gives none. */
  lemma CollectedRecords(url: string, join: (string, string) -> string, page: Page)
    ensures var r := Collected(url, join, page).records;
      && (forall i :: 0 <= i < |r| ==> r[i].pageUrl == url)
      && (forall i, j :: 0 <= i < j < |r| ==> r[i].imageUrl != r[j].imageUrl)
    ensures page.Unreachable? ==> Collected(url, join, page).records == []
  {
    RunConsistent(url, Start, PageEvents(url, join, page));
  }

  /** Rows from `<img>` tags come first: they are a prefix of all the rows. */
  lemma ImagesFirst(url: string, join: (string, string) -> string, imgs: seq<Img>, scripts: seq<Script>)
    ensures var fromImgs := Run(url, Start, Flatten(ImgStep(url, join), imgs)).records;
      var all := Collected(url, join, Fetched(imgs, scripts)).records;
      |fromImgs| <= |all| && all[..|fromImgs|] == fromImgs
  {
    var a := Flatten(ImgStep(url, join), imgs);
    RunAppend(url, Start, a, Flatten(ScriptStep(url, join), scripts));
    RunExtends(url, Run(url, Start, a), Flatten(ScriptStep(url, join), scripts));
  }

  /**
   * When nothing aborts, the rows hold exactly the proposed addresses: a hidden `<img>` or
   * one without a source proposes none.
   */
  lemma CollectsEveryCandidate(url: string, join: (string, string) -> string, page: Page, u: string)
    requires Abort !in PageEvents(url, join, page)
    ensures HasRecord(Collected(url, join, page).records, u) <==> HasCandidate(PageEvents(url, join, page), u)
  {
    RunConsistent(url, Start, PageEvents(url, join, page));
    RunCollectsAll(url, Start, PageEvents(url, join, page));
  }

  /**
   * Each row of a page holds the text of the first `<img>` or gallery item that proposed its
   * address, and rows follow the order of first proposal: `<img>` tags in document order, then
   * gallery items.
   */
  lemma CollectedFirstProposals(url: string, join: (string, string) -> string, page: Page)
    ensures var r := Collected(url, join, page).records; var es := PageEvents(url, join, page);
      FromFirstProposals(es, r) && InProposalOrder(es, r)
  {
    RunFirstProposals(url, PageEvents(url, join, page));
  }

  /** The innermost loop: the items of one gallery; a raising item stops the walk. */
  method GatherItems(url: string, join: (string, string) -> string, items: seq<GalleryItem>, g: Gather)
    returns (g': Gather)
    requires !g.stopped
    ensures g' == Run(url, g, Flatten(ItemStep(url, join), items))
  {
    g' := g;
    for i := 0 to |items|
      invariant g' == Run(url, g, Flatten(ItemStep(url, join), items[..i]))
      invariant !g'.stopped
    {
      FlattenSnoc(ItemStep(url, join), items, i);
      RunAppend(url, g, Flatten(ItemStep(url, join), items[..i]), ItemEvents(url, join, items[i]));
      match items[i] {
        case BadItem =>
          g' := g'.(stopped := true);
          RunFlattenStopped(url, g, ItemStep(url, join), items, i + 1);
          return;
        case Item(img, full, caption) =>
          var raw := if img != "" then img else full;
          if raw == "" {
            continue;
          }
          var fullUrl := Resolve(url, raw, join);
          if fullUrl in g'.seen {
            continue;
          }
          g' := Gather(g'.records + [AltRecord(url, fullUrl, caption)], g'.seen + {fullUrl}, false);
      }
    }
    assert items[..|items|] == items;
  }

  /** The loop over the values of one decoded script object. */
  method GatherValues(url: string, join: (string, string) -> string, values: seq<ConfigValue>, g: Gather)
    returns (g': Gather)
    requires !g.stopped
    ensures g' == Run(url, g, Flatten(ValueStep(url, join), values))
  {
    g' := g;
    for i := 0 to |values|
      invariant g' == Run(url, g, Flatten(ValueStep(url, join), values[..i]))
      invariant !g'.stopped
    {
      FlattenSnoc(ValueStep(url, join), values, i);
      RunAppend(url, g, Flatten(ValueStep(url, join), values[..i]), ValueEvents(url, join, values[i]));
      match values[i] {
        case BadValue =>
          g' := g'.(stopped := true);
        case Gallery(items) =>
          g' := GatherItems(url, join, items, g');
      }
      if g'.stopped {
        RunFlattenStopped(url, g, ValueStep(url, join), values, i + 1);
        return;
      }
    }
    assert values[..|values|] == values;
  }

  /** The loop over the page's Magento init scripts; invalid JSON is skipped. */
  method GatherScripts(url: string, join: (string, string) -> string, scripts: seq<Script>, g: Gather)
    returns (g': Gather)
    requires !g.stopped
    ensures g' == Run(url, g, Flatten(ScriptStep(url, join), scripts))
  {
    g' := g;
    for i := 0 to |scripts|
      invariant g' == Run(url, g, Flatten(ScriptStep(url, join), scripts[..i]))
      invariant !g'.stopped
    {
      FlattenSnoc(ScriptStep(url, join), scripts, i);
      RunAppend(url, g, Flatten(ScriptStep(url, join), scripts[..i]), ScriptEvents(url, join, scripts[i]));
      match scripts[i] {
        case Undecodable =>
          continue;
        case NotAnObject =>
          g' := g'.(stopped := true);
        case Config(values) =>
          g' := GatherValues(url, join, values, g');
      }
      if g'.stopped {
        RunFlattenStopped(url, g, ScriptStep(url, join), scripts, i + 1);
        return;
      }
    }
    assert scripts[..|scripts|] == scripts;
  }

  /** The loop over the page's `<img>` tags: hidden tags and tags without a source are skipped. */
  method GatherImgs(url: string, join: (string, string) -> string, imgs: seq<Img>, g: Gather)
    returns (g': Gather)
    requires !g.stopped
    ensures g' == Run(url, g, Flatten(ImgStep(url, join), imgs))
    ensures !g'.stopped
  {
    g' := g;
    for i := 0 to |imgs|
      invariant g' == Run(url, g, Flatten(ImgStep(url, join), imgs[..i]))
      invariant !g'.stopped
    {
      FlattenSnoc(ImgStep(url, join), imgs, i);
      RunAppend(url, g, Flatten(ImgStep(url, join), imgs[..i]), ImgEvents(url, join, imgs[i]));
      var img := imgs[i];
      if IsHidden(img.tag) {
        continue;
      }
      var raw := if img.dataAmsrc != "" then img.dataAmsrc else img.src;
      if raw == "" {
        continue;
      }
      var fullUrl := Resolve(url, raw, join);
      if fullUrl in g'.seen {
        continue;
      }
      g' := Gather(g'.records + [AltRecord(url, fullUrl, img.alt)], g'.seen + {fullUrl}, false);
    }
    assert imgs[..|imgs|] == imgs;
  }

  /**
   * `collect_alt_texts`: the rows for the page's distinct image addresses; on a failed request
   * or an exception it returns the rows gathered so far.
   */
  method CollectAltTexts(url: string, join: (string, string) -> string, page: Page) returns (records: seq<AltRecord>)
    ensures records == Collected(url, join, page).records
    ensures forall i :: 0 <= i < |records| ==> records[i].pageUrl == url
    ensures forall i, j :: 0 <= i < j < |records| ==> records[i].imageUrl != records[j].imageUrl
  {
    CollectedRecords(url, join, page);
    match page {
      case Unreachable =>
        return [];
      case Fetched(imgs, scripts) =>
        var g := GatherImgs(url, join, imgs, Start);
        g := GatherScripts(url, join, scripts, g);
        RunAppend(url, Start, Flatten(ImgStep(url, join), imgs), Flatten(ScriptStep(url, join), scripts));
        return g.records;
    }
  }
}
