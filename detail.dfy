/**
 * The per-law detail step of `law_activity`: collect the citation anchors of
 * the law's frame into the insertion-ordered dictionary `parsed`, splice the
 * text of every cited page into the markup in place of the anchor, and clean
 * the result. The frame's markup and anchors are inputs; cited pages are read
 * through the link cache.
 */
module Detail {
  import opened Wrappers
  import opened PyStr
  import opened Citation
  import opened Cache
  import opened Cleaner

  /** One `<a>` element of the frame: its `outerHTML`, its `onclick` attribute (if any) and its text. */
  datatype Anchor = Anchor(outer: string, onclick: Option<string>, text: string)

  /** A Python dict: its keys in insertion order, and its contents. */
  datatype OrderedMap = OrderedMap(keys: seq<string>, vals: map<string, string>)

  /** `d[k] = v`: a new key goes to the end, an existing key keeps its place. */
  function Put(m: OrderedMap, k: string, v: string): OrderedMap
  {
    if k in m.vals then OrderedMap(m.keys, m.vals[k := v])
    else OrderedMap(m.keys + [k], m.vals[k := v])
  }

  const AllJo := "ALLJO"

  /** What one iteration of the anchor loop does with an anchor. */
  datatype Step = Skip | Add(key: string, url: string) | Raise

  function Classify(a: Anchor): Step
  {
    if a.onclick.None? || a.onclick.value == [] then Skip
    else
      var onclick := a.onclick.value;
      if Contains(onclick, AllJo) then Skip
      else match BuildDetailUrl(onclick, QuotedParams(onclick))
        case Url(u) => Add(a.outer + "_" + a.text, u)
        case NoTarget => Skip
        case MissingParam => Raise
  }

  /** The steps the loop takes, one per anchor. */
  function Steps(anchors: seq<Anchor>): (r: seq<Step>)
    ensures |r| == |anchors|
  {
    seq(|anchors|, i requires 0 <= i < |anchors| => Classify(anchors[i]))
  }

  /** The step stores key `k`. */
  predicate Adds(st: Step, k: string)
  {
    st.Add? && st.key == k
  }

  predicate AddsKey(a: Anchor, k: string)
  {
    Adds(Classify(a), k)
  }

  /** The dictionary after one step, or `None` when the step raised. */
  function Apply(m: OrderedMap, st: Step): Option<OrderedMap>
  {
    match st
    case Skip => Some(m)
    case Add(k, u) => Some(Put(m, k, u))
    case Raise => None
  }

  /** The dictionary after `steps`, starting from `{}`, or `None` once a step raised. */
  function Run(steps: seq<Step>): Option<OrderedMap>
    decreases |steps|
  {
    if steps == [] then Some(OrderedMap([], map[]))
    else match Run(steps[..|steps| - 1])
      case None => None
      case Some(m) => Apply(m, steps[|steps| - 1])
  }

  /**
   * The dictionary `parsed` after the loop over `anchors`, or `None` when
   * `build_detail_url` raised `IndexError` on some anchor.
   */
  function Collect(anchors: seq<Anchor>): Option<OrderedMap>
  {
    Run(Steps(anchors))
  }

  /** One more anchor: its step applied to the dictionary so far. */
  lemma CollectSnoc(anchors: seq<Anchor>, i: nat)
    requires i < |anchors|
    ensures Collect(anchors[..i + 1]) ==
            if Collect(anchors[..i]).None? then None else Apply(Collect(anchors[..i]).value, Classify(anchors[i]))
  {
    var s := Steps(anchors[..i + 1]);
    assert s[..i] == Steps(anchors[..i]);
    assert s[i] == Classify(anchors[i]);
  }

  /** The anchor loop, statement for statement (`last_key` is written and never read). */
  method CollectAnchors(anchors: seq<Anchor>) returns (parsed: Option<OrderedMap>)
    ensures parsed == Collect(anchors)
  {
    var keys: seq<string> := [];
    var vals: map<string, string> := map[];
    var lastKey := "";
    var i := 0;
    assert Steps(anchors[..0]) == [];
    while i < |anchors|
      invariant 0 <= i <= |anchors|
      invariant Collect(anchors[..i]) == Some(OrderedMap(keys, vals))
    {
      var a := anchors[i];
      CollectSnoc(anchors, i);
      i := i + 1;
      if a.onclick.None? || a.onclick.value == [] {
        continue;
      }
      var onclick := a.onclick.value;
      var params := QuotedParams(onclick);
      if Contains(onclick, AllJo) {
        continue;
      }
      var durl := BuildDetailUrl(onclick, params);
      if durl.MissingParam? {
        CollectNoneStays(anchors, i);
        return None;
      }
      if durl.Url? {
        var key := a.outer + "_" + a.text;
        if key !in vals {
          keys := keys + [key];
        }
        vals := vals[key := durl.url];
        lastKey := key;
      }
    }
    assert anchors[..i] == anchors;
    parsed := Some(OrderedMap(keys, vals));
  }

  /** Once a step has raised, no later step matters. */
  lemma {:induction false} RunNoneStays(s: seq<Step>, n: nat)
    requires n <= |s| && Run(s[..n]) == None
    ensures Run(s) == None
    decreases |s| - n
  {
    if n < |s| {
      assert s[..n + 1][..n] == s[..n];
      RunNoneStays(s, n + 1);
    } else {
      assert s[..n] == s;
    }
  }

  /** Once the loop has raised, no later anchor matters. */
  lemma CollectNoneStays(anchors: seq<Anchor>, n: nat)
    requires n <= |anchors| && Collect(anchors[..n]) == None
    ensures Collect(anchors) == None
  {
    assert Steps(anchors)[..n] == Steps(anchors[..n]);
    RunNoneStays(Steps(anchors), n);
  }

  lemma {:induction false} RunRaises(s: seq<Step>)
    ensures Run(s).None? <==> exists i :: 0 <= i < |s| && s[i].Raise?
    decreases |s|
  {
    if s != [] {
      var init := s[..|s| - 1];
      RunRaises(init);
      if exists i :: 0 <= i < |init| && init[i].Raise? {
        var i :| 0 <= i < |init| && init[i].Raise?;
        assert s[i] == init[i];
      }
      if exists i :: 0 <= i < |s| && s[i].Raise? {
        var i :| 0 <= i < |s| && s[i].Raise?;
        if i < |init| {
          assert init[i] == s[i];
        }
      }
    }
  }

  /** The loop raises exactly when some anchor's citation lacks a parameter. */
  lemma CollectRaises(anchors: seq<Anchor>)
    ensures Collect(anchors).None? <==> exists i :: 0 <= i < |anchors| && Classify(anchors[i]).Raise?
  {
    var s := Steps(anchors);
    RunRaises(s);
    if exists i :: 0 <= i < |s| && s[i].Raise? {
      var i :| 0 <= i < |s| && s[i].Raise?;
      assert Classify(anchors[i]).Raise?;
    }
    if exists i :: 0 <= i < |anchors| && Classify(anchors[i]).Raise? {
      var i :| 0 <= i < |anchors| && Classify(anchors[i]).Raise?;
      assert s[i].Raise?;
    }
  }

  ghost predicate Distinct(s: seq<string>)
  {
    forall i, j :: 0 <= i < j < |s| ==> s[i] != s[j]
  }

  /** A dictionary whose key list has no repeats and names exactly its keys. */
  ghost predicate Consistent(m: OrderedMap)
  {
    Distinct(m.keys) && forall k :: k in m.vals <==> k in m.keys
  }

  lemma PutConsistent(m: OrderedMap, k: string, v: string)
    requires Consistent(m)
    ensures Consistent(Put(m, k, v))
    ensures forall x :: x in Put(m, k, v).vals <==> x in m.vals || x == k
  {
  }

  lemma {:induction false} RunKeys(s: seq<Step>)
    requires Run(s).Some?
    ensures Consistent(Run(s).value)
    ensures forall k :: k in Run(s).value.vals <==> exists i :: 0 <= i < |s| && Adds(s[i], k)
    decreases |s|
  {
    if s != [] {
      var init := s[..|s| - 1];
      var last := s[|s| - 1];
      RunKeys(init);
      var m0 := Run(init).value;
      var m := Run(s).value;
      if last.Add? {
        PutConsistent(m0, last.key, last.url);
      }
      forall k ensures k in m.vals <==> exists i :: 0 <= i < |s| && Adds(s[i], k) {
        if exists i :: 0 <= i < |init| && Adds(init[i], k) {
          var i :| 0 <= i < |init| && Adds(init[i], k);
          assert Adds(s[i], k);
        }
        if exists i :: 0 <= i < |s| && Adds(s[i], k) {
          var i :| 0 <= i < |s| && Adds(s[i], k);
          if i < |init| {
            assert Adds(init[i], k);
          }
        }
      }
    }
  }

  /**
   * The dictionary holds a key exactly for the anchors with a handler, no
   * `ALLJO`, and a target URL; its key list has no repeats.
   */
  lemma CollectKeys(anchors: seq<Anchor>)
    requires Collect(anchors).Some?
    ensures var m := Collect(anchors).value;
      && Distinct(m.keys)
      && (forall k :: k in m.vals <==> k in m.keys)
      && (forall k :: k in m.vals <==> exists i :: 0 <= i < |anchors| && AddsKey(anchors[i], k))
  {
    var s := Steps(anchors);
    var m := Collect(anchors).value;
    RunKeys(s);
    forall k ensures k in m.vals <==> exists i :: 0 <= i < |anchors| && AddsKey(anchors[i], k) {
      if exists i :: 0 <= i < |s| && Adds(s[i], k) {
        var i :| 0 <= i < |s| && Adds(s[i], k);
        assert AddsKey(anchors[i], k);
      }
      if exists i :: 0 <= i < |anchors| && AddsKey(anchors[i], k) {
        var i :| 0 <= i < |anchors| && AddsKey(anchors[i], k);
        assert Adds(s[i], k);
      }
    }
  }

  lemma {:induction false} RunLastWins(s: seq<Step>, i: nat)
    requires Run(s).Some? && i < |s| && s[i].Add?
    requires forall j :: i < j < |s| ==> !Adds(s[j], s[i].key)
    ensures s[i].key in Run(s).value.vals && Run(s).value.vals[s[i].key] == s[i].url
    decreases |s|
  {
    var init := s[..|s| - 1];
    if i < |init| {
      assert s[i] == init[i];
      RunLastWins(init, i);
    }
  }

  /** A repeated key holds the URL of the last anchor that produced it. */
  lemma CollectLastWins(anchors: seq<Anchor>, i: nat)
    requires Collect(anchors).Some? && i < |anchors| && Classify(anchors[i]).Add?
    requires forall j :: i < j < |anchors| ==> !AddsKey(anchors[j], Classify(anchors[i]).key)
    ensures var m := Collect(anchors).value;
      Classify(anchors[i]).key in m.vals && m.vals[Classify(anchors[i]).key] == Classify(anchors[i]).url
  {
    var s := Steps(anchors);
    assert s[i] == Classify(anchors[i]);
    forall j | i < j < |s| ensures !Adds(s[j], s[i].key) {
      assert s[j] == Classify(anchors[j]);
    }
    RunLastWins(s, i);
  }

  /** The index of the first step that stores key `k`, or `|s|` if none does. */
  function FirstStep(s: seq<Step>, k: string): (r: nat)
    ensures r <= |s|
    ensures r < |s| ==> Adds(s[r], k)
    ensures forall j :: 0 <= j < r ==> !Adds(s[j], k)
    decreases |s|
  {
    if s == [] then 0
    else
      var init := s[..|s| - 1];
      var f := FirstStep(init, k);
      assert forall j :: 0 <= j < |init| ==> init[j] == s[j];
      if f < |init| then f else if Adds(s[|s| - 1], k) then |init| else |s|
  }

  lemma {:induction false} RunFirstOrder(s: seq<Step>)
    requires Run(s).Some?
    ensures var m := Run(s).value;
      forall p, q :: 0 <= p < q < |m.keys| ==> FirstStep(s, m.keys[p]) < FirstStep(s, m.keys[q])
    decreases |s|
  {
    if s != [] {
      var init := s[..|s| - 1];
      var last := s[|s| - 1];
      RunFirstOrder(init);
      RunKeys(init);
      RunKeys(s);
      var m0 := Run(init).value;
      var m := Run(s).value;
      // every key already present keeps its first index
      forall k | k in m0.vals ensures FirstStep(init, k) < |init| && FirstStep(s, k) == FirstStep(init, k) {
        var i :| 0 <= i < |init| && Adds(init[i], k);
        assert FirstStep(init, k) <= i;
      }
      if last.Add? && last.key !in m0.vals {
        var k := last.key;
        assert FirstStep(init, k) == |init|;
        assert m.keys == m0.keys + [k];
      }
    }
  }

  /** The index of the first anchor that produces key `k`, or `|anchors|` if none does. */
  function FirstAdd(anchors: seq<Anchor>, k: string): (r: nat)
    ensures r <= |anchors|
    ensures r < |anchors| ==> AddsKey(anchors[r], k)
    ensures forall j :: 0 <= j < r ==> !AddsKey(anchors[j], k)
  {
    var s := Steps(anchors);
    var r := FirstStep(s, k);
    assert r < |anchors| ==> s[r] == Classify(anchors[r]);
    assert forall j :: 0 <= j < r ==> s[j] == Classify(anchors[j]);
    r
  }

  /** Keys are listed in the order their first anchor appears: a dict keeps first-insertion order. */
  lemma CollectFirstOrder(anchors: seq<Anchor>)
    requires Collect(anchors).Some?
    ensures var m := Collect(anchors).value;
      forall p, q :: 0 <= p < q < |m.keys| ==> FirstAdd(anchors, m.keys[p]) < FirstAdd(anchors, m.keys[q])
  {
    RunFirstOrder(Steps(anchors));
  }

  // ---------------------------------------------------------------------------
  // Splicing cited texts into the markup

  /** A key that `str.split("_")` cuts into at least two parts. */
  predicate Underscored(key: string)
  {
    |Split(key, "_")| >= 2
  }

  /** `key.split("_")[0]`: the text replaced in the markup. */
  function Ident(key: string): string
  {
    Split(key, "_")[0]
  }

  /** `key.split("_")[1]`: the label written in place of the anchor. */
  function Label(key: string): string
    requires Underscored(key)
  {
    Split(key, "_")[1]
  }

  /** What replaces each occurrence of the identifier: the label and the cited text in brackets. */
  function Insertion(key: string, txt: string): string
    requires Underscored(key)
  {
    Label(key) + "\n[[" + txt + "]]\n"
  }

  /**
   * A key `outer + "_" + text` always has two parts; its identifier is the
   * part of `outer` before its first underscore, so it is `outer` itself,
   * and the label is `text`, exactly when neither contains an underscore.
   */
  lemma {:induction false} KeyParts(outer: string, text: string)
    ensures Underscored(outer + "_" + text)
    ensures Ident(outer + "_" + text) == Ident(outer)
    ensures StartsWith(outer, Ident(outer))
    ensures (forall k :: 0 <= k < |outer| ==> outer[k] != '_') ==> Ident(outer + "_" + text) == outer
    ensures (forall k :: 0 <= k < |outer| ==> outer[k] != '_') && (forall k :: 0 <= k < |text| ==> text[k] != '_') ==>
              Label(outer + "_" + text) == text
    decreases |outer|
  {
    SplitFirstIsPrefix(outer, "_");
    var s := outer + "_" + text;
    if outer == [] {
      assert s[..1] == "_" && s[1..] == text;
    } else if outer[0] == '_' {
      assert s[..1] == "_" == outer[..1];
      assert s[1..] == outer[1..] + "_" + text;
      KeyParts(outer[1..], text);
    } else {
      assert s[..1] != "_" && outer[..1] != "_";
      assert s[1..] == outer[1..] + "_" + text;
      KeyParts(outer[1..], text);
    }
    if forall k :: 0 <= k < |outer| ==> outer[k] != '_' {
      SplitOnFreeChar(outer, text, '_');
      SplitNoSep(outer, '_');
      if forall k :: 0 <= k < |text| ==> text[k] != '_' {
        SplitNoSep(text, '_');
      }
    }
  }

  /** One round of the splice loop: `raw_html.replace(identifier, label + "\n[[" + txt + "]]\n")`. */
  function SpliceOne(html: string, key: string, txt: string): string
    requires Underscored(key)
  {
    Replace(html, Ident(key), Insertion(key, txt))
  }

  /** When the identifier does not occur, the round leaves the markup unchanged. */
  lemma SpliceOneAbsent(html: string, key: string, txt: string)
    requires Underscored(key) && !Contains(html, Ident(key))
    ensures SpliceOne(html, key, txt) == html
  {
    ReplaceAbsent(html, Ident(key), Insertion(key, txt));
  }

  /**
   * When it does occur, the label and the cited text appear in the result;
   * an empty identifier (`"_x"`) occurs everywhere and the result starts with them.
   */
  lemma SpliceOneInserts(html: string, key: string, txt: string)
    requires Underscored(key) && Contains(html, Ident(key))
    ensures Contains(SpliceOne(html, key, txt), Insertion(key, txt))
  {
    ReplaceInserts(html, Ident(key), Insertion(key, txt));
  }

  /** A dictionary as the anchor loop leaves it: keys and contents agree, and every key has two parts. */
  ghost predicate WellKeyed(m: OrderedMap)
  {
    (forall k :: k in m.vals <==> k in m.keys) && forall i :: 0 <= i < |m.keys| ==> Underscored(m.keys[i])
  }

  lemma CollectWellKeyed(anchors: seq<Anchor>)
    requires Collect(anchors).Some?
    ensures WellKeyed(Collect(anchors).value)
  {
    var m := Collect(anchors).value;
    CollectKeys(anchors);
    forall p | 0 <= p < |m.keys| ensures Underscored(m.keys[p]) {
      assert m.keys[p] in m.keys;
      var i :| 0 <= i < |anchors| && AddsKey(anchors[i], m.keys[p]);
      var a := anchors[i];
      assert m.keys[p] == a.outer + "_" + a.text;
      KeyParts(a.outer, a.text);
    }
  }

  /**
   * The markup after the first `n` rounds of the splice loop, each key's
   * cited text being the text of the page at its URL.
   */
  function Splice(html: string, m: OrderedMap, n: nat, render: string -> PageView): string
    requires WellKeyed(m) && n <= |m.keys|
  {
    if n == 0 then html
    else
      var key := m.keys[n - 1];
      SpliceOne(Splice(html, m, n - 1, render), key, PageText(render(m.vals[key])))
  }

  lemma SpliceStep(html: string, m: OrderedMap, i: nat, render: string -> PageView)
    requires WellKeyed(m) && i < |m.keys|
    ensures m.keys[i] in m.vals && Underscored(m.keys[i])
    ensures SplicedUrls(m, i + 1) == SplicedUrls(m, i) + {m.vals[m.keys[i]]}
    ensures Splice(html, m, i + 1, render) ==
            SpliceOne(Splice(html, m, i, render), m.keys[i], PageText(render(m.vals[m.keys[i]])))
  {
  }

  /** The URLs fetched by the first `n` rounds of the splice loop. */
  function SplicedUrls(m: OrderedMap, n: nat): set<string>
    requires WellKeyed(m) && n <= |m.keys|
  {
    if n == 0 then {} else SplicedUrls(m, n - 1) + {m.vals[m.keys[n - 1]]}
  }

  lemma {:induction false} SplicedUrlsIn(m: OrderedMap, n: nat, u: string)
    requires WellKeyed(m) && n <= |m.keys|
    ensures u in SplicedUrls(m, n) <==> exists i :: 0 <= i < n && m.vals[m.keys[i]] == u
  {
    if n > 0 {
      SplicedUrlsIn(m, n - 1, u);
      if u == m.vals[m.keys[n - 1]] {
        assert 0 <= n - 1 < n && m.vals[m.keys[n - 1]] == u;
      }
    }
  }

  /** The whole splice loop fetches exactly the URLs stored in the dictionary. */
  lemma SplicedUrlsAll(m: OrderedMap)
    requires WellKeyed(m)
    ensures SplicedUrls(m, |m.keys|) == m.vals.Values
  {
    forall u ensures u in SplicedUrls(m, |m.keys|) <==> u in m.vals.Values {
      SplicedUrlsIn(m, |m.keys|, u);
      if u in m.vals.Values {
        var k :| k in m.vals && m.vals[k] == u;
        assert k in m.keys;
        var i :| 0 <= i < |m.keys| && m.keys[i] == k;
        assert m.vals[m.keys[i]] == u;
      }
    }
  }

  /**
   * The splice loop; cited texts come through the cache, which afterwards
   * holds its old URLs and every URL of the dictionary.
   */
  method SpliceCitations(html: string, m: OrderedMap, cache: LinkCache, render: string -> PageView)
    returns (out: string)
    requires WellKeyed(m)
    modifies cache
    ensures cache.entries.Keys == old(cache.entries).Keys + m.vals.Values
    ensures old(Faithful(cache.entries, render)) ==>
              Faithful(cache.entries, render) && out == Splice(html, m, |m.keys|, render)
  {
    ghost var faithful := Faithful(cache.entries, render);
    ghost var keys0 := cache.entries.Keys;
    out := html;
    var i := 0;
    while i < |m.keys|
      invariant 0 <= i <= |m.keys|
      invariant cache.entries.Keys == keys0 + SplicedUrls(m, i)
      invariant faithful ==> Faithful(cache.entries, render) && out == Splice(html, m, i, render)
    {
      var key := m.keys[i];
      assert key in m.vals && Underscored(key);
      var identifier := Ident(key);
      var txt := cache.FetchDetail(m.vals[key], render);
      assert cache.entries.Keys == keys0 + SplicedUrls(m, i) + {m.vals[key]};
      ghost var before := out;
      out := Replace(out, identifier, Label(key) + "\n[[" + txt + "]]\n");
      assert out == SpliceOne(before, key, txt);
      SpliceStep(html, m, i, render);
      i := i + 1;
    }
    SplicedUrlsAll(m);
  }

  /**
   * The text stored as the item's `법령` field: `None` when the anchor loop
   * raised, else the spliced markup after `clean_html`.
   */
  function DetailText(rawHtml: string, anchors: seq<Anchor>, render: string -> PageView,
                      getText: string -> string): Option<string>
  {
    match Collect(anchors)
    case None => None
    case Some(m) =>
      CollectWellKeyed(anchors);
      Some(CleanText(Splice(rawHtml, m, |m.keys|, render), getText))
  }

  /** The URLs the splice loop of a law fetches: none when the anchor loop raised. */
  function CitedUrls(anchors: seq<Anchor>): set<string>
  {
    match Collect(anchors)
    case None => {}
    case Some(m) => m.vals.Values
  }

  /** Lines 146-177 for one law whose frame has been read. */
  method ExtractDetail(rawHtml: string, anchors: seq<Anchor>, cache: LinkCache,
                       render: string -> PageView, getText: string -> string)
    returns (body: Option<string>)
    modifies cache
    ensures body.None? <==> Collect(anchors).None?
    ensures cache.entries.Keys == old(cache.entries).Keys + CitedUrls(anchors)
    ensures old(Faithful(cache.entries, render)) ==>
              Faithful(cache.entries, render) && body == DetailText(rawHtml, anchors, render, getText)
  {
    var parsed := CollectAnchors(anchors);
    if parsed.None? {
      return None;
    }
    CollectWellKeyed(anchors);
    var html := SpliceCitations(rawHtml, parsed.value, cache, render);
    var cleaned := CleanHtml(html, getText);
    body := Some(cleaned);
  }
}
