/**
 * The page scan of `law_activity`: list pages are read in order until one is
 * short or starts before the cutoff day; on each page the laws are visited in
 * order until the first one older than the cutoff, and each visited law whose
 * detail page opens is extracted and collected.
 */
module Activity {
  import opened Wrappers
  import opened Cache
  import opened Detail

  /** `DISPLAY`: the number of laws a full list page holds. */
  const Display := 100

  /** A law from the list API: its promulgation date (`공포일자`, as the number yyyymmdd) and detail link. */
  datatype Item = Item(date: int, link: string)

  /**
   * What visiting the law's detail page gives: `NoPage` when the browser is
   * gone, so that `browser.new_page()` raises before the law's `try` and ends
   * the activity; `Closed` when `TargetClosedError` is raised inside the `try`
   * while the frame is read, which skips the law; else the `#conScroll` markup
   * and the anchors of the frame.
   */
  datatype Frame = NoPage | Closed | Loaded(rawHtml: string, anchors: seq<Anchor>)

  /** The outside world: the law frames, the cited pages, and the HTML text extractor. */
  datatype Site = Site(browse: Item -> Frame, render: string -> PageView, getText: string -> string)

  /** A collected law: the list item with its `법령` field set to the extracted text. */
  datatype Collected = Collected(item: Item, body: string)

  /** The list for `page_no = p + 1`; past the last page the API answers with no laws. */
  function PageAt(pages: seq<seq<Item>>, p: nat): seq<Item>
  {
    if p < |pages| then pages[p] else []
  }

  /** The two stop conditions of the outer loop, checked before any law of the page is visited. */
  predicate Stops(items: seq<Item>, yesterday: int)
  {
    |items| < Display || yesterday > items[0].date
  }

  /**
   * One law: `None` when the activity aborts (no page could be opened, or the
   * anchor loop raised), nothing when the law's page closed, else the
   * collected law.
   */
  function ItemResult(it: Item, site: Site): Option<seq<Collected>>
  {
    match site.browse(it)
    case NoPage => None
    case Closed => Some([])
    case Loaded(raw, anchors) =>
      match DetailText(raw, anchors, site.render, site.getText)
      case None => None
      case Some(body) => Some([Collected(it, body)])
  }

  /** Prepends `acc` to a result that may have aborted. */
  function Glue(acc: seq<Collected>, r: Option<seq<Collected>>): Option<seq<Collected>>
  {
    if r.None? then None else Some(acc + r.value)
  }

  lemma GlueAssoc(a: seq<Collected>, b: seq<Collected>, r: Option<seq<Collected>>)
    ensures Glue(a, Glue(b, r)) == Glue(a + b, r)
  {
    if r.Some? {
      assert a + (b + r.value) == (a + b) + r.value;
    }
  }

  lemma GlueNil(r: Option<seq<Collected>>)
    ensures Glue([], r) == r
  {
    if r.Some? {
      assert [] + r.value == r.value;
    }
  }

  /** The laws one page contributes: the `for item in items` loop. */
  function PageLoop(items: seq<Item>, yesterday: int, site: Site): Option<seq<Collected>>
    decreases |items|
  {
    if items == [] || yesterday > items[0].date then Some([])
    else match ItemResult(items[0], site)
      case None => None
      case Some(c) => Glue(c, PageLoop(items[1..], yesterday, site))
  }

  /** The loop over a page, entered at a law older than the cutoff: it stops there. */
  lemma PageLoopOlder(items: seq<Item>, i: nat, yesterday: int, site: Site)
    requires i < |items| && yesterday > items[i].date
    ensures PageLoop(items[i..], yesterday, site) == Some([])
    ensures PageUrls(items[i..], yesterday, site) == {}
  {
    assert items[i..][0] == items[i];
  }

  /** The loop over a page, entered at a law it visits: that law, then the rest unless it aborted. */
  lemma PageLoopVisit(items: seq<Item>, i: nat, yesterday: int, site: Site)
    requires i < |items| && !(yesterday > items[i].date)
    ensures ItemResult(items[i], site).None? ==>
              PageLoop(items[i..], yesterday, site).None? &&
              PageUrls(items[i..], yesterday, site) == ItemUrls(items[i], site)
    ensures ItemResult(items[i], site).Some? ==>
              PageLoop(items[i..], yesterday, site) ==
                Glue(ItemResult(items[i], site).value, PageLoop(items[i + 1..], yesterday, site)) &&
              PageUrls(items[i..], yesterday, site) ==
                ItemUrls(items[i], site) + PageUrls(items[i + 1..], yesterday, site)
  {
    assert items[i..][0] == items[i] && items[i..][1..] == items[i + 1..];
  }

  /** The laws collected from page index `p` on: the `while True` loop. */
  function Scan(pages: seq<seq<Item>>, yesterday: int, site: Site, p: nat): Option<seq<Collected>>
    requires p <= |pages|
    decreases |pages| - p
  {
    var items := PageAt(pages, p);
    if Stops(items, yesterday) then Some([])
    else match PageLoop(items, yesterday, site)
      case None => None
      case Some(c) => Glue(c, Scan(pages, yesterday, site, p + 1))
  }

  /** The URLs one law's visit fetches: those its splice loop cites, when its frame opened. */
  function ItemUrls(it: Item, site: Site): set<string>
  {
    match site.browse(it)
    case Loaded(_, anchors) => CitedUrls(anchors)
    case _ => {}
  }

  /** The URLs fetched while visiting one page, up to an abort. */
  function PageUrls(items: seq<Item>, yesterday: int, site: Site): set<string>
    decreases |items|
  {
    if items == [] || yesterday > items[0].date then {}
    else ItemUrls(items[0], site) +
         (if ItemResult(items[0], site).None? then {} else PageUrls(items[1..], yesterday, site))
  }

  /** The URLs fetched by the scan from page index `p` on, up to an abort. */
  function ScanUrls(pages: seq<seq<Item>>, yesterday: int, site: Site, p: nat): set<string>
    requires p <= |pages|
    decreases |pages| - p
  {
    var items := PageAt(pages, p);
    if Stops(items, yesterday) then {}
    else PageUrls(items, yesterday, site) +
         (if PageLoop(items, yesterday, site).None? then {} else ScanUrls(pages, yesterday, site, p + 1))
  }

  /**
   * `law_activity`'s scan: `pages[p]` is what `fetch_list` returns for
   * `page_no = p + 1`, `yesterday` the cutoff day; `None` when the activity
   * aborted with an exception; `lastPage` is the `last_page` it reports,
   * the number of the page it stopped at.
   */
  method LawActivity(pages: seq<seq<Item>>, yesterday: int, site: Site, cache: LinkCache)
    returns (collected: Option<seq<Collected>>, lastPage: int)
    modifies cache
    ensures old(cache.entries).Keys <= cache.entries.Keys
    ensures old(Faithful(cache.entries, site.render)) ==>
              && Faithful(cache.entries, site.render) && collected == Scan(pages, yesterday, site, 0)
              && cache.entries.Keys == old(cache.entries).Keys + ScanUrls(pages, yesterday, site, 0)
    ensures collected.Some? ==> lastPage == StopPage(pages, yesterday, 0) + 1
  {
    ghost var faithful := Faithful(cache.entries, site.render);
    ghost var keys0 := cache.entries.Keys;
    ghost var stop := StopPage(pages, yesterday, 0);
    var acc: seq<Collected> := [];
    var pageNo := 1;
    GlueNil(Scan(pages, yesterday, site, 0));
    while true
      invariant 1 <= pageNo <= |pages| + 1
      invariant pageNo - 1 <= stop
      invariant keys0 <= cache.entries.Keys
      invariant faithful ==> cache.entries.Keys + ScanUrls(pages, yesterday, site, pageNo - 1) ==
                             keys0 + ScanUrls(pages, yesterday, site, 0)
      invariant faithful ==> Faithful(cache.entries, site.render)
      invariant faithful ==> Scan(pages, yesterday, site, 0) == Glue(acc, Scan(pages, yesterday, site, pageNo - 1))
      decreases |pages| + 1 - pageNo
    {
      var items := PageAt(pages, pageNo - 1);
      if |items| < Display {
        break;
      }
      if yesterday > items[0].date {
        break;
      }
      ghost var keysBefore := cache.entries.Keys;
      var laws := VisitPage(items, yesterday, site, cache);
      if laws.None? {
        if faithful {
          ScanAborts(pages, yesterday, site, pageNo - 1, acc, keysBefore, cache.entries.Keys, keys0);
        }
        return None, pageNo;
      }
      if faithful {
        ScanContinues(pages, yesterday, site, pageNo - 1, acc, laws.value, keysBefore, cache.entries.Keys, keys0);
      }
      StopPageAt(pages, yesterday, pageNo - 1);
      acc := acc + laws.value;
      pageNo := pageNo + 1;
    }
    collected, lastPage := Some(acc), pageNo;
    StopPageAt(pages, yesterday, pageNo - 1);
    ScanStops(pages, yesterday, site, pageNo - 1);
    assert acc + [] == acc;
  }

  /** The `for item in items` loop over one page. */
  method VisitPage(items: seq<Item>, yesterday: int, site: Site, cache: LinkCache)
    returns (laws: Option<seq<Collected>>)
    modifies cache
    ensures cache.entries.Keys == old(cache.entries).Keys + PageUrls(items, yesterday, site)
    ensures old(Faithful(cache.entries, site.render)) ==>
              Faithful(cache.entries, site.render) && laws == PageLoop(items, yesterday, site)
  {
    ghost var faithful := Faithful(cache.entries, site.render);
    ghost var keys0 := cache.entries.Keys;
    var acc: seq<Collected> := [];
    var i := 0;
    assert items[0..] == items;
    GlueNil(PageLoop(items, yesterday, site));
    while i < |items|
      invariant 0 <= i <= |items|
      invariant cache.entries.Keys + PageUrls(items[i..], yesterday, site) == keys0 + PageUrls(items, yesterday, site)
      invariant faithful ==> Faithful(cache.entries, site.render)
      invariant faithful ==> PageLoop(items, yesterday, site) == Glue(acc, PageLoop(items[i..], yesterday, site))
    {
      var item := items[i];
      if yesterday > item.date {
        PageLoopOlder(items, i, yesterday, site);
        break;
      }
      ghost var keysBefore := cache.entries.Keys;
      var r := VisitItem(item, site, cache);
      PageLoopVisit(items, i, yesterday, site);
      if r.None? {
        return None;
      }
      UrlsStep(keysBefore, ItemUrls(item, site), PageUrls(items[i + 1..], yesterday, site),
               keys0 + PageUrls(items, yesterday, site));
      GlueAssoc(acc, r.value, PageLoop(items[i + 1..], yesterday, site));
      acc := acc + r.value;
      i := i + 1;
    }
    if i == |items| {
      assert items[i..] == [];
    }
    laws := Some(acc);
    assert acc + [] == acc;
  }

  /**
   * One law: open a page and, in the `try` block, its detail frame, and
   * extract the text; `None` when no page opens or the extraction raised,
   * nothing when the page closed.
   */
  method VisitItem(item: Item, site: Site, cache: LinkCache) returns (r: Option<seq<Collected>>)
    modifies cache
    ensures r.None? <==> ItemResult(item, site).None?
    ensures cache.entries.Keys == old(cache.entries).Keys + ItemUrls(item, site)
    ensures old(Faithful(cache.entries, site.render)) ==>
              Faithful(cache.entries, site.render) && r == ItemResult(item, site)
  {
    var frame := site.browse(item);
    if frame.NoPage? {
      return None;
    }
    if frame.Closed? {
      return Some([]);
    }
    var body := ExtractDetail(frame.rawHtml, frame.anchors, cache, site.render, site.getText);
    if body.None? {
      return None;
    }
    r := Some([Collected(item, body.value)]);
  }

  // ---------------------------------------------------------------------------
  // What the scan collects

  /** The scan from a page that stops it collects and fetches nothing. */
  lemma ScanStops(pages: seq<seq<Item>>, yesterday: int, site: Site, p: nat)
    requires p <= |pages| && Stops(PageAt(pages, p), yesterday)
    ensures Scan(pages, yesterday, site, p) == Some([])
    ensures ScanUrls(pages, yesterday, site, p) == {}
  {
  }

  /** One page of the `while True` loop that completes: the loop's accounting moves past it. */
  lemma ScanContinues(pages: seq<seq<Item>>, yesterday: int, site: Site, p: nat, acc: seq<Collected>,
                      laws: seq<Collected>, keysBefore: set<string>, keysAfter: set<string>, keys0: set<string>)
    requires p < |pages| && !Stops(PageAt(pages, p), yesterday)
    requires PageLoop(PageAt(pages, p), yesterday, site) == Some(laws)
    requires Scan(pages, yesterday, site, 0) == Glue(acc, Scan(pages, yesterday, site, p))
    requires keysBefore + ScanUrls(pages, yesterday, site, p) == keys0 + ScanUrls(pages, yesterday, site, 0)
    requires keysAfter == keysBefore + PageUrls(PageAt(pages, p), yesterday, site)
    ensures Scan(pages, yesterday, site, 0) == Glue(acc + laws, Scan(pages, yesterday, site, p + 1))
    ensures keysAfter + ScanUrls(pages, yesterday, site, p + 1) == keys0 + ScanUrls(pages, yesterday, site, 0)
  {
    ScanAt(pages, yesterday, site, p);
    GlueAssoc(acc, laws, Scan(pages, yesterday, site, p + 1));
    UrlsStep(keysBefore, PageUrls(PageAt(pages, p), yesterday, site), ScanUrls(pages, yesterday, site, p + 1),
             keys0 + ScanUrls(pages, yesterday, site, 0));
  }

  /** One page of the `while True` loop that aborts: so does the scan, having fetched what it fetched. */
  lemma ScanAborts(pages: seq<seq<Item>>, yesterday: int, site: Site, p: nat, acc: seq<Collected>,
                   keysBefore: set<string>, keysAfter: set<string>, keys0: set<string>)
    requires p < |pages| && !Stops(PageAt(pages, p), yesterday)
    requires PageLoop(PageAt(pages, p), yesterday, site).None?
    requires Scan(pages, yesterday, site, 0) == Glue(acc, Scan(pages, yesterday, site, p))
    requires keysBefore + ScanUrls(pages, yesterday, site, p) == keys0 + ScanUrls(pages, yesterday, site, 0)
    requires keysAfter == keysBefore + PageUrls(PageAt(pages, p), yesterday, site)
    ensures Scan(pages, yesterday, site, 0) == None
    ensures keysAfter == keys0 + ScanUrls(pages, yesterday, site, 0)
  {
    ScanAt(pages, yesterday, site, p);
  }

  /** The scan from a page that does not stop it: that page, then the rest unless it aborted. */
  lemma ScanAt(pages: seq<seq<Item>>, yesterday: int, site: Site, p: nat)
    requires p < |pages| && !Stops(PageAt(pages, p), yesterday)
    ensures PageLoop(PageAt(pages, p), yesterday, site).None? ==>
              Scan(pages, yesterday, site, p).None? &&
              ScanUrls(pages, yesterday, site, p) == PageUrls(PageAt(pages, p), yesterday, site)
    ensures PageLoop(PageAt(pages, p), yesterday, site).Some? ==>
              Scan(pages, yesterday, site, p) ==
                Glue(PageLoop(PageAt(pages, p), yesterday, site).value, Scan(pages, yesterday, site, p + 1)) &&
              ScanUrls(pages, yesterday, site, p) ==
                PageUrls(PageAt(pages, p), yesterday, site) + ScanUrls(pages, yesterday, site, p + 1)
  {
  }

  /** Moving the URLs of one step from the pending set to the cache keeps their union. */
  lemma UrlsStep(keys: set<string>, step: set<string>, rest: set<string>, total: set<string>)
    requires keys + (step + rest) == total
    ensures (keys + step) + rest == total
  {
  }

  /** The laws of a page that the inner loop visits: those before the first one older than the cutoff. */
  function TakeRecent(items: seq<Item>, yesterday: int): seq<Item>
    decreases |items|
  {
    if items == [] || yesterday > items[0].date then [] else [items[0]] + TakeRecent(items[1..], yesterday)
  }

  /** The index of the page the scan stops at: the first, from `p`, that is short or starts before the cutoff. */
  function StopPage(pages: seq<seq<Item>>, yesterday: int, p: nat): (q: nat)
    requires p <= |pages|
    ensures p <= q <= |pages| && Stops(PageAt(pages, q), yesterday)
    ensures forall r :: p <= r < q ==> !Stops(PageAt(pages, r), yesterday)
    decreases |pages| - p
  {
    if Stops(PageAt(pages, p), yesterday) then p else StopPage(pages, yesterday, p + 1)
  }

  /** A page at or before the stop page is the stop page exactly when it stops the scan. */
  lemma StopPageAt(pages: seq<seq<Item>>, yesterday: int, p: nat)
    requires p <= StopPage(pages, yesterday, 0)
    ensures StopPage(pages, yesterday, 0) == p <==> Stops(PageAt(pages, p), yesterday)
  {
  }

  /** The laws visited on pages `p` to `q - 1`, in page order. */
  function Recent(pages: seq<seq<Item>>, yesterday: int, p: nat, q: nat): seq<Item>
    requires p <= q <= |pages|
    decreases q - p
  {
    if p == q then [] else TakeRecent(pages[p], yesterday) + Recent(pages, yesterday, p + 1, q)
  }

  /** The laws whose detail page opened, in order. */
  function Kept(its: seq<Item>, site: Site): seq<Item>
  {
    if its == [] then []
    else (if site.browse(its[0]).Loaded? then [its[0]] else []) + Kept(its[1..], site)
  }

  function Items(c: seq<Collected>): seq<Item>
  {
    if c == [] then [] else [c[0].item] + Items(c[1..])
  }

  /** Some law of `its` makes the activity abort. */
  predicate Aborts(its: seq<Item>, site: Site)
  {
    exists k :: 0 <= k < |its| && ItemResult(its[k], site).None?
  }

  /** A collected law carries the text extracted from its own detail page. */
  predicate Extracted(col: Collected, site: Site)
  {
    site.browse(col.item).Loaded? &&
    DetailText(site.browse(col.item).rawHtml, site.browse(col.item).anchors, site.render, site.getText) == Some(col.body)
  }

  lemma {:induction false} KeptConcat(a: seq<Item>, b: seq<Item>, site: Site)
    ensures Kept(a + b, site) == Kept(a, site) + Kept(b, site)
    decreases |a|
  {
    if a == [] {
      assert a + b == b;
    } else {
      assert (a + b)[0] == a[0] && (a + b)[1..] == a[1..] + b;
      KeptConcat(a[1..], b, site);
    }
  }

  lemma {:induction false} ItemsConcat(a: seq<Collected>, b: seq<Collected>)
    ensures Items(a + b) == Items(a) + Items(b)
    decreases |a|
  {
    if a == [] {
      assert a + b == b;
    } else {
      assert (a + b)[0] == a[0] && (a + b)[1..] == a[1..] + b;
      ItemsConcat(a[1..], b);
    }
  }

  lemma AbortsConcat(a: seq<Item>, b: seq<Item>, site: Site)
    ensures Aborts(a + b, site) <==> Aborts(a, site) || Aborts(b, site)
  {
    if Aborts(a + b, site) {
      var k :| 0 <= k < |a + b| && ItemResult((a + b)[k], site).None?;
      if k >= |a| {
        assert b[k - |a|] == (a + b)[k];
      }
    }
    if Aborts(a, site) {
      var k :| 0 <= k < |a| && ItemResult(a[k], site).None?;
      assert (a + b)[k] == a[k];
    }
    if Aborts(b, site) {
      var k :| 0 <= k < |b| && ItemResult(b[k], site).None?;
      assert (a + b)[|a| + k] == b[k];
    }
  }

  /** The laws one page contributes are those of its recent prefix that opened, unless one aborts. */
  lemma {:induction false} PageLoopShape(items: seq<Item>, yesterday: int, site: Site)
    ensures PageLoop(items, yesterday, site).None? <==> Aborts(TakeRecent(items, yesterday), site)
    ensures PageLoop(items, yesterday, site).Some? ==>
              var c := PageLoop(items, yesterday, site).value;
              Items(c) == Kept(TakeRecent(items, yesterday), site) &&
              forall k :: 0 <= k < |c| ==> Extracted(c[k], site)
    decreases |items|
  {
    if items != [] && !(yesterday > items[0].date) {
      var it := items[0];
      var rest := TakeRecent(items[1..], yesterday);
      assert TakeRecent(items, yesterday) == [it] + rest;
      AbortsConcat([it], rest, site);
      KeptConcat([it], rest, site);
      PageLoopShape(items[1..], yesterday, site);
      match ItemResult(it, site)
      case None =>
      case Some(c0) =>
        assert !Aborts([it], site);
        if PageLoop(items[1..], yesterday, site).Some? {
          var c1 := PageLoop(items[1..], yesterday, site).value;
          ItemsConcat(c0, c1);
          assert Kept([it], site) == Items(c0);
          assert forall k :: 0 <= k < |c0| ==> Extracted(c0[k], site);
        }
    }
  }

  /**
   * The scan from page `p` collects exactly the laws that opened among the
   * laws it visits on the pages before its stop page, in page and in-page
   * order, each with the text extracted from its page; it aborts exactly
   * when one of those laws finds no page to open or makes the anchor loop raise.
   */
  lemma {:induction false} ScanShape(pages: seq<seq<Item>>, yesterday: int, site: Site, p: nat)
    requires p <= |pages|
    ensures var vis := Recent(pages, yesterday, p, StopPage(pages, yesterday, p));
      && (Scan(pages, yesterday, site, p).None? <==> Aborts(vis, site))
      && (Scan(pages, yesterday, site, p).Some? ==>
            var c := Scan(pages, yesterday, site, p).value;
            Items(c) == Kept(vis, site) && forall k :: 0 <= k < |c| ==> Extracted(c[k], site))
    decreases |pages| - p
  {
    if !Stops(PageAt(pages, p), yesterday) {
      var q := StopPage(pages, yesterday, p);
      var head := TakeRecent(pages[p], yesterday);
      var tail := Recent(pages, yesterday, p + 1, q);
      assert Recent(pages, yesterday, p, q) == head + tail;
      PageLoopShape(pages[p], yesterday, site);
      ScanShape(pages, yesterday, site, p + 1);
      AbortsConcat(head, tail, site);
      KeptConcat(head, tail, site);
      if PageLoop(pages[p], yesterday, site).Some? && Scan(pages, yesterday, site, p + 1).Some? {
        ItemsConcat(PageLoop(pages[p], yesterday, site).value, Scan(pages, yesterday, site, p + 1).value);
      }
    }
  }

  /** The URLs the visits of `its` fetch when every one of them runs. */
  function AllUrls(its: seq<Item>, site: Site): set<string>
  {
    if its == [] then {} else ItemUrls(its[0], site) + AllUrls(its[1..], site)
  }

  lemma {:induction false} AllUrlsConcat(a: seq<Item>, b: seq<Item>, site: Site)
    ensures AllUrls(a + b, site) == AllUrls(a, site) + AllUrls(b, site)
    decreases |a|
  {
    if a == [] {
      assert a + b == b;
    } else {
      assert (a + b)[0] == a[0] && (a + b)[1..] == a[1..] + b;
      AllUrlsConcat(a[1..], b, site);
    }
  }

  /**
   * A page fetches only URLs cited by the laws it visits, and every one of
   * them when none of those laws aborts.
   */
  lemma {:induction false} PageUrlsShape(items: seq<Item>, yesterday: int, site: Site)
    ensures PageUrls(items, yesterday, site) <= AllUrls(TakeRecent(items, yesterday), site)
    ensures !Aborts(TakeRecent(items, yesterday), site) ==>
              PageUrls(items, yesterday, site) == AllUrls(TakeRecent(items, yesterday), site)
    decreases |items|
  {
    if items != [] && !(yesterday > items[0].date) {
      var it := items[0];
      var rest := TakeRecent(items[1..], yesterday);
      assert TakeRecent(items, yesterday) == [it] + rest;
      AllUrlsConcat([it], rest, site);
      AbortsConcat([it], rest, site);
      PageUrlsShape(items[1..], yesterday, site);
      if ItemResult(it, site).Some? {
        assert !Aborts([it], site);
      }
    }
  }

  /**
   * The scan from page `p` leaves in the cache only URLs cited by the laws
   * it visits before its stop page, and every one of them when it does not
   * abort.
   */
  lemma {:induction false} ScanUrlsShape(pages: seq<seq<Item>>, yesterday: int, site: Site, p: nat)
    requires p <= |pages|
    ensures var vis := Recent(pages, yesterday, p, StopPage(pages, yesterday, p));
      && ScanUrls(pages, yesterday, site, p) <= AllUrls(vis, site)
      && (!Aborts(vis, site) ==> ScanUrls(pages, yesterday, site, p) == AllUrls(vis, site))
    decreases |pages| - p
  {
    if !Stops(PageAt(pages, p), yesterday) {
      var q := StopPage(pages, yesterday, p);
      var head := TakeRecent(pages[p], yesterday);
      var tail := Recent(pages, yesterday, p + 1, q);
      assert Recent(pages, yesterday, p, q) == head + tail;
      PageLoopShape(pages[p], yesterday, site);
      PageUrlsShape(pages[p], yesterday, site);
      ScanUrlsShape(pages, yesterday, site, p + 1);
      AbortsConcat(head, tail, site);
      AllUrlsConcat(head, tail, site);
    }
  }

  lemma {:induction false} ItemsAt(c: seq<Collected>, k: nat)
    requires k < |c|
    ensures |Items(c)| == |c| && Items(c)[k] == c[k].item
    decreases k
  {
    if k > 0 {
      ItemsAt(c[1..], k - 1);
    } else {
      ItemsLength(c);
    }
  }

  lemma {:induction false} ItemsLength(c: seq<Collected>)
    ensures |Items(c)| == |c|
    decreases |c|
  {
    if c != [] {
      ItemsLength(c[1..]);
    }
  }

  lemma {:induction false} KeptWithin(its: seq<Item>, site: Site)
    ensures forall it :: it in Kept(its, site) ==> it in its && site.browse(it).Loaded?
    decreases |its|
  {
    if its != [] {
      KeptWithin(its[1..], site);
    }
  }

  lemma {:induction false} KeptAll(its: seq<Item>, site: Site)
    requires forall k :: 0 <= k < |its| ==> site.browse(its[k]).Loaded?
    ensures Kept(its, site) == its
    decreases |its|
  {
    if its != [] {
      KeptAll(its[1..], site);
    }
  }

  lemma {:induction false} TakeRecentDates(items: seq<Item>, yesterday: int)
    ensures forall it :: it in TakeRecent(items, yesterday) ==> it in items && it.date >= yesterday
    decreases |items|
  {
    if items != [] && !(yesterday > items[0].date) {
      TakeRecentDates(items[1..], yesterday);
    }
  }

  lemma {:induction false} RecentDates(pages: seq<seq<Item>>, yesterday: int, p: nat, q: nat)
    requires p <= q <= |pages|
    ensures forall it :: it in Recent(pages, yesterday, p, q) ==> it.date >= yesterday
    decreases q - p
  {
    if p < q {
      TakeRecentDates(pages[p], yesterday);
      RecentDates(pages, yesterday, p + 1, q);
    }
  }

  /** Every collected law was promulgated on or after the cutoff day, and its detail page opened. */
  lemma ScanDates(pages: seq<seq<Item>>, yesterday: int, site: Site)
    requires Scan(pages, yesterday, site, 0).Some?
    ensures forall k :: 0 <= k < |Scan(pages, yesterday, site, 0).value| ==>
              Scan(pages, yesterday, site, 0).value[k].item.date >= yesterday &&
              site.browse(Scan(pages, yesterday, site, 0).value[k].item).Loaded?
  {
    var c := Scan(pages, yesterday, site, 0).value;
    var vis := Recent(pages, yesterday, 0, StopPage(pages, yesterday, 0));
    ScanShape(pages, yesterday, site, 0);
    KeptWithin(vis, site);
    RecentDates(pages, yesterday, 0, StopPage(pages, yesterday, 0));
    forall k | 0 <= k < |c| ensures c[k].item.date >= yesterday && site.browse(c[k].item).Loaded? {
      ItemsAt(c, k);
      assert c[k].item in Items(c);
    }
  }

  /**
   * When every detail page opens, the scan collects every law it visits:
   * the recent prefix of each page before the stop page, in order.
   */
  lemma ScanComplete(pages: seq<seq<Item>>, yesterday: int, site: Site)
    requires forall it :: site.browse(it).Loaded?
    requires Scan(pages, yesterday, site, 0).Some?
    ensures Items(Scan(pages, yesterday, site, 0).value) == Recent(pages, yesterday, 0, StopPage(pages, yesterday, 0))
  {
    ScanShape(pages, yesterday, site, 0);
    KeptAll(Recent(pages, yesterday, 0, StopPage(pages, yesterday, 0)), site);
  }
}
