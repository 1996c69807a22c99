/**
 * `fetch_detail` and the module-level `link_cache`: the text of a cited
 * page is computed once per URL and then served from the dictionary.
 * What the browser shows at a URL is a parameter `render`.
 */
module Cache {
  import opened Wrappers
  import opened PyStr

  /**
   * What the two locator reads give on a loaded page: the text of
   * `div#rvsConTop, div#conTop` and the texts of `div#viewwrapCenter,
   * div.lawcon`; `None` where the read raised.
   */
  datatype PageView = PageView(primary: Option<string>, secondary: Option<seq<string>>)

  /** The text `fetch_detail` builds: `"(" + primary + ")"` when read, then the secondary texts joined. */
  function PageText(v: PageView): string
  {
    (if v.primary.Some? then "(" + v.primary.value + ")" else "") +
    (if v.secondary.Some? then Join(v.secondary.value, "") else "")
  }

  lemma {:induction false} JoinEmptySep(parts: seq<string>, k: nat)
    requires k <= |parts|
    ensures Join(parts[..k], "") + Join(parts[k..], "") == Join(parts, "")
    decreases k
  {
    if k > 0 {
      JoinEmptySep(parts[1..], k - 1);
      assert parts[1..][..k - 1] == parts[..k][1..];
      assert parts[1..][k - 1..] == parts[k..];
    }
  }

  /**
   * The text starts with the bracketed primary text when that was read, is
   * empty when neither read succeeded, and contains each secondary text.
   */
  lemma PageTextParts(v: PageView)
    ensures v.primary.Some? ==> StartsWith(PageText(v), "(" + v.primary.value + ")")
    ensures v.primary.None? && v.secondary.None? ==> PageText(v) == ""
    ensures v.secondary.Some? ==> forall k :: 0 <= k < |v.secondary.value| ==>
              Contains(PageText(v), v.secondary.value[k])
  {
    var head := if v.primary.Some? then "(" + v.primary.value + ")" else "";
    if v.primary.Some? {
      assert PageText(v)[..|head|] == head;
    }
    if v.secondary.Some? {
      var ss := v.secondary.value;
      forall k | 0 <= k < |ss| ensures Contains(PageText(v), ss[k]) {
        JoinEmptySep(ss, k);
        JoinEmptySep(ss[k..], 1);
        assert ss[k..][..1] == [ss[k]];
        assert Join(ss, "") == Join(ss[..k], "") + (ss[k] + Join(ss[k..][1..], ""));
        assert OccursAt(ss[k] + Join(ss[k..][1..], ""), ss[k], 0);
        ContainsInRight(Join(ss[..k], ""), ss[k] + Join(ss[k..][1..], ""), ss[k]);
        ContainsInRight(head, Join(ss, ""), ss[k]);
      }
    }
  }

  /** Every stored entry is the text of the page at its URL. */
  ghost predicate Faithful(entries: map<string, string>, render: string -> PageView)
  {
    forall u {:trigger entries[u]} :: u in entries ==> entries[u] == PageText(render(u))
  }

  /** One call of `fetch_detail` on a cache in state `entries`: the text and the new state. */
  function Fetch(entries: map<string, string>, url: string, render: string -> PageView): (string, map<string, string>)
  {
    if url in entries then (entries[url], entries)
    else var txt := PageText(render(url)); (txt, entries[url := txt])
  }

  /** With a faithful cache, fetching is indistinguishable from loading the page. */
  lemma FetchTransparent(entries: map<string, string>, url: string, render: string -> PageView)
    requires Faithful(entries, render)
    ensures Fetch(entries, url, render).0 == PageText(render(url))
    ensures Faithful(Fetch(entries, url, render).1, render)
    ensures Fetch(entries, url, render).1.Keys == entries.Keys + {url}
  {
  }

  /** A second fetch of the same URL is a hit: same text, cache unchanged. */
  lemma FetchIdempotent(entries: map<string, string>, url: string, render: string -> PageView)
    ensures var (t1, e1) := Fetch(entries, url, render);
      Fetch(e1, url, render) == (t1, e1)
  {
  }

  /** Fetching never forgets or changes another URL's entry. */
  lemma FetchKeepsOthers(entries: map<string, string>, url: string, other: string, render: string -> PageView)
    requires other != url && other in entries
    ensures var e1 := Fetch(entries, url, render).1; other in e1 && e1[other] == entries[other]
  {
  }

  /** The URL-to-text memo table `link_cache`. */
  class LinkCache {
    var entries: map<string, string>

    constructor()
      ensures entries == map[]
    {
      entries := map[];
    }

    /** `fetch_detail(page, url)`, where `render(url)` is what loading `url` shows. */
    method FetchDetail(url: string, render: string -> PageView) returns (txt: string)
      modifies this
      ensures (txt, entries) == Fetch(old(entries), url, render)
      ensures entries.Keys == old(entries).Keys + {url}
      ensures url in old(entries) ==> txt == old(entries)[url] && entries == old(entries)
      ensures url !in old(entries) ==> entries == old(entries)[url := txt]
      ensures old(Faithful(entries, render)) ==> Faithful(entries, render) && txt == PageText(render(url))
    {
      if url in entries {
        return entries[url];
      }
      var view := render(url);
      txt := "";
      if view.primary.Some? {
        txt := "(" + view.primary.value + ")";
      }
      if view.secondary.Some? {
        txt := txt + Join(view.secondary.value, "");
      }
      assert view.secondary.None? ==> txt + "" == txt;
      entries := entries[url := txt];
    }
  }
}
