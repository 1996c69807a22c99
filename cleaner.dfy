/**
 * `clean_html`: protect every HTML comment behind a numbered placeholder,
 * let the HTML parser extract the text, strip it, then put the comments
 * back. The parser (BeautifulSoup with `script`, `style` and `noscript`
 * removed, then `get_text("\n")`) is a parameter `getText`.
 */
module Cleaner {
  import opened Wrappers
  import opened PyStr
  import opened Placeholders

  const CommentOpen := "<!--"
  const CommentClose := "-->"

  /** The first index `>= from` where `w` occurs in `s`, if any. */
  function FindFrom(s: string, w: string, from: nat): (r: Option<nat>)
    requires w != []
    ensures r.Some? ==> from <= r.value && OccursAt(s, w, r.value) &&
                        forall p :: from <= p < r.value ==> !OccursAt(s, w, p)
    ensures r.None? ==> forall p :: from <= p ==> !OccursAt(s, w, p)
    decreases |s| - from
  {
    if from + |w| > |s| then None
    else if OccursAt(s, w, from) then Some(from)
    else FindFrom(s, w, from + 1)
  }

  /**
   * `re.findall(r"<!--.*?-->", s, flags=re.DOTALL)`: scanning left to right,
   * a match starts at `<!--` and ends at the first `-->` after it; the scan
   * resumes after the match, or one character further when there is none.
   */
  function FindComments(s: string): seq<string>
    decreases |s|
  {
    if |s| < |CommentOpen| then []
    else if StartsWith(s, CommentOpen) then
      match FindFrom(s, CommentClose, |CommentOpen|)
      case Some(j) => [s[..j + 3]] + FindComments(s[j + 3..])
      case None => FindComments(s[1..])
    else FindComments(s[1..])
  }

  /** What the non-greedy pattern can match: `<!--`, then anything without `-->`, then `-->`. */
  predicate IsComment(c: string)
  {
    && |c| >= 7
    && c[..4] == CommentOpen
    && c[|c| - 3..] == CommentClose
    && forall p :: 4 <= p < |c| - 3 ==> !OccursAt(c, CommentClose, p)
  }

  lemma OccursInPrefix(s: string, w: string, n: int, p: int)
    requires 0 <= n <= |s| && OccursAt(s[..n], w, p)
    ensures OccursAt(s, w, p)
  {
    assert s[..n][p..p + |w|] == s[p..p + |w|];
  }

  lemma FirstComment(s: string, j: nat)
    requires StartsWith(s, CommentOpen) && FindFrom(s, CommentClose, |CommentOpen|) == Some(j)
    ensures IsComment(s[..j + 3]) && Contains(s, s[..j + 3])
  {
    var c := s[..j + 3];
    assert c[..4] == s[..4] == CommentOpen;
    assert c[|c| - 3..] == s[j..j + 3] == CommentClose;
    forall p | 4 <= p < |c| - 3 ensures !OccursAt(c, CommentClose, p) {
      if OccursAt(c, CommentClose, p) {
        OccursInPrefix(s, CommentClose, j + 3, p);
      }
    }
    assert OccursAt(s, c, 0);
  }

  /** Every match is a well-formed comment that occurs in the scanned text. */
  lemma {:induction false} FindCommentsFacts(s: string)
    ensures forall k :: 0 <= k < |FindComments(s)| ==>
              IsComment(FindComments(s)[k]) && Contains(s, FindComments(s)[k])
    decreases |s|
  {
    var cs := FindComments(s);
    if |s| < |CommentOpen| {
    } else if StartsWith(s, CommentOpen) && FindFrom(s, CommentClose, |CommentOpen|).Some? {
      var j := FindFrom(s, CommentClose, |CommentOpen|).value;
      var c := s[..j + 3];
      var rest := FindComments(s[j + 3..]);
      FindCommentsFacts(s[j + 3..]);
      assert cs == [c] + rest;
      FirstComment(s, j);
      assert s == c + s[j + 3..];
      forall k | 0 <= k < |rest| ensures Contains(s, rest[k]) {
        ContainsInRight(c, s[j + 3..], rest[k]);
      }
    } else {
      assert cs == FindComments(s[1..]);
      FindCommentsFacts(s[1..]);
      forall k | 0 <= k < |cs| ensures Contains(s, cs[k]) {
        ContainsTail(s, cs[k]);
      }
    }
  }

  /** Without a `<!--` there is nothing to protect. */
  lemma {:induction false} NoOpenNoComments(s: string)
    requires !Contains(s, CommentOpen)
    ensures FindComments(s) == []
    decreases |s|
  {
    if |s| >= |CommentOpen| {
      assert !OccursAt(s, CommentOpen, 0);
      if Contains(s[1..], CommentOpen) {
        ContainsTail(s, CommentOpen);
      }
      NoOpenNoComments(s[1..]);
    }
  }

  /** The text after the first `n` rounds of `text = text.replace(c, key)`. */
  function Protect(text: string, cs: seq<string>, n: nat): string
    requires n <= |cs|
  {
    if n == 0 then text else Replace(Protect(text, cs, n - 1), cs[n - 1], Key(n - 1))
  }

  /** The result after the first `n` rounds of `r = r.replace(key, comment)`. */
  function Restore(r: string, cs: seq<string>, n: nat): string
    requires n <= |cs|
  {
    if n == 0 then r else Replace(Restore(r, cs, n - 1), Key(n - 1), cs[n - 1])
  }

  /** What `clean_html(text)` returns when the parser's text extraction is `getText`. */
  function CleanText(text: string, getText: string -> string): string
  {
    var cs := FindComments(text);
    Restore(Strip(getText(Protect(text, cs, |cs|))), cs, |cs|)
  }

  /** `clean_html`, loop for loop; the placeholder dictionary is a sequence of (key, comment). */
  method CleanHtml(text: string, getText: string -> string) returns (r: string)
    ensures r == CleanText(text, getText)
  {
    var comments := FindComments(text);
    var placeholders: seq<(string, string)> := [];
    var t := text;
    var i := 0;
    while i < |comments|
      invariant 0 <= i <= |comments|
      invariant t == Protect(text, comments, i)
      invariant |placeholders| == i
      invariant forall k :: 0 <= k < i ==> placeholders[k] == (Key(k), comments[k])
    {
      var key := Key(i);
      placeholders := placeholders + [(key, comments[i])];
      t := Replace(t, comments[i], key);
      i := i + 1;
    }
    r := Strip(getText(t));
    var k := 0;
    while k < |placeholders|
      invariant 0 <= k <= |placeholders|
      invariant r == Restore(Strip(getText(t)), comments, k)
    {
      var (key, comment) := placeholders[k];
      r := Replace(r, key, comment);
      k := k + 1;
    }
  }

  /** Distinct comments get distinct placeholders, so the dictionary loses none. */
  lemma KeysDistinct(i: nat, j: nat)
    requires i != j
    ensures Key(i) != Key(j)
  {
    if Key(i) == Key(j) {
      KeyFacts(i);
      KeyFacts(j);
      assert Digits(i) == Key(i)[10..|Key(i)| - 2] == Key(j)[10..|Key(j)| - 2] == Digits(j);
      DigitsInjective(i, j);
    }
  }

  // ---------------------------------------------------------------------------
  // The round trip

  /** A comment found in a text free of the tag is `Marked`. */
  lemma CommentsMarked(t: string)
    requires !Contains(t, Tag)
    ensures forall k :: 0 <= k < |FindComments(t)| ==> Marked(FindComments(t)[k])
  {
    var cs := FindComments(t);
    FindCommentsFacts(t);
    forall k | 0 <= k < |cs| ensures Marked(cs[k]) {
      var c := cs[k];
      assert c[0] == c[..4][0] == '<';
      assert c[|c| - 1] == c[|c| - 3..][2] == '>';
      if Contains(c, Tag) {
        ContainsWithin(t, c, Tag);
      }
    }
  }

  function ProtectLayout(t: string, cs: seq<string>, n: nat): Layout
    requires n <= |cs| && forall k :: 0 <= k < |cs| ==> Marked(cs[k])
  {
    if n == 0 then Last(t) else ProtectStep(ProtectLayout(t, cs, n - 1), cs[n - 1], n - 1)
  }

  lemma {:induction false} ProtectLayoutFacts(t: string, cs: seq<string>, n: nat)
    requires n <= |cs| && !Contains(t, Tag)
    requires forall k :: 0 <= k < |cs| ==> Marked(cs[k])
    ensures var l := ProtectLayout(t, cs, n);
      Show(l) == Protect(t, cs, n) && Expand(l, cs) == t && TextsClean(l) && SlotsIn(l, 0, |cs|)
  {
    if n > 0 {
      var l := ProtectLayout(t, cs, n - 1);
      ProtectLayoutFacts(t, cs, n - 1);
      ShowProtectStep(l, cs[n - 1], n - 1);
      RenderProtectStep(l, cs[n - 1], n - 1, CommentOf(cs));
      ProtectStepInvariants(l, cs[n - 1], n - 1, 0, |cs|);
    }
  }

  function RestoreLayout(l: Layout, cs: seq<string>, n: nat): Layout
    requires n <= |cs|
  {
    if n == 0 then l else RestoreStep(RestoreLayout(l, cs, n - 1), cs[n - 1], n - 1)
  }

  lemma {:induction false} RestoreLayoutFacts(l: Layout, cs: seq<string>, n: nat)
    requires n <= |cs| && TextsClean(l) && SlotsIn(l, 0, |cs|)
    requires forall k :: 0 <= k < |cs| ==> Marked(cs[k])
    ensures var m := RestoreLayout(l, cs, n);
      Show(m) == Restore(Show(l), cs, n) && Expand(m, cs) == Expand(l, cs) &&
      TextsClean(m) && SlotsIn(m, n, |cs|)
  {
    if n > 0 {
      var m := RestoreLayout(l, cs, n - 1);
      RestoreLayoutFacts(l, cs, n - 1);
      ShowRestoreStep(m, cs[n - 1], n - 1);
      RenderRestoreStep(m, cs[n - 1], n - 1, CommentOf(cs));
      RestoreStepInvariants(m, cs[n - 1], n - 1, |cs|);
    }
  }

  /**
   * With a parser that returns its input unchanged, `clean_html` gives back
   * exactly the stripped input, comments included, provided the input does
   * not itself contain the placeholder marker `COMMENT_`.
   */
  lemma CleanRoundTrip(t: string, getText: string -> string)
    requires !Contains(t, Tag)
    requires forall x :: getText(x) == x
    ensures CleanText(t, getText) == Strip(t)
  {
    var cs := FindComments(t);
    var n := |cs|;
    CommentsMarked(t);
    var pl := ProtectLayout(t, cs, n);
    ProtectLayoutFacts(t, cs, n);
    var sl := StripLayout(pl);
    KeysSolid(pl);
    RenderStrip(pl, Key);
    CommentsSolid(pl, cs);
    RenderStrip(pl, CommentOf(cs));
    StripLayoutInvariants(pl, 0, n);
    var rl := RestoreLayout(sl, cs, n);
    RestoreLayoutFacts(sl, cs, n);
    assert rl.Last?;
    calc {
      CleanText(t, getText);
      Restore(Strip(Show(pl)), cs, n);
      Restore(Show(sl), cs, n);
      Show(rl);
      Expand(rl, cs);
      Expand(sl, cs);
      Strip(Expand(pl, cs));
    }
  }

  /** Under the same conditions, every comment of the input appears verbatim in the output. */
  lemma CleanKeepsComments(t: string, getText: string -> string)
    requires !Contains(t, Tag)
    requires forall x :: getText(x) == x
    ensures forall k :: 0 <= k < |FindComments(t)| ==> Contains(CleanText(t, getText), FindComments(t)[k])
  {
    var cs := FindComments(t);
    CleanRoundTrip(t, getText);
    CommentsMarked(t);
    FindCommentsFacts(t);
    forall k | 0 <= k < |cs| ensures Contains(Strip(t), cs[k]) {
      var p := PickOccurrence(t, cs[k]);
      StripKeepsInner(t, cs[k], p);
    }
  }
}
