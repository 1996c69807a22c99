/**
 * Citation links in a statute's detail page are anchors whose `onclick`
 * handler calls one of three popup functions with quoted positional
 * arguments. This module models how the crawler pulls those arguments out
 * of the handler text and turns a handler into the URL of the cited page.
 */
module Citation {
  import opened Wrappers
  import opened PyStr

  // ---------------------------------------------------------------------------
  // re.findall(r"'([^']+)'", onclick)

  /** Index of the first `'` at or after `from`. */
  function NextQuote(s: string, from: nat): (r: Option<nat>)
    ensures r.Some? ==> from <= r.value < |s| && s[r.value] == '\''
    ensures r.Some? ==> forall k :: from <= k < r.value ==> s[k] != '\''
    ensures r.None? ==> forall k :: from <= k < |s| ==> s[k] != '\''
    decreases |s| - from
  {
    if from >= |s| then None
    else if s[from] == '\'' then Some(from)
    else NextQuote(s, from + 1)
  }

  /**
   * The groups of `re.findall(r"'([^']+)'", s)`: scanning left to right, a
   * quote followed by at least one non-quote character and a closing quote
   * is a match and the scan resumes after the closing quote; anywhere else
   * the scan moves on by one character.
   */
  function QuotedParams(s: string): seq<string>
    decreases |s|
  {
    if s == [] then []
    else if s[0] != '\'' then QuotedParams(s[1..])
    else match NextQuote(s, 1)
      case None => QuotedParams(s[1..])
      case Some(j) =>
        if j == 1 then QuotedParams(s[1..])
        else [s[1..j]] + QuotedParams(s[j + 1..])
  }

  predicate QuoteFree(p: string)
  {
    forall k :: 0 <= k < |p| ==> p[k] != '\''
  }

  /** `p` is quoted in `s` with its opening quote at index `i`. */
  predicate QuotedAt(s: string, p: string, i: nat)
  {
    i + |p| + 1 < |s| && s[i] == '\'' && s[i + 1..i + 1 + |p|] == p && s[i + 1 + |p|] == '\''
  }

  /**
   * `pos[k]` is the index of the opening quote of `ps[k]` in `s`, and each
   * parameter starts after the closing quote of the one before it.
   */
  predicate Located(s: string, ps: seq<string>, pos: seq<nat>)
  {
    && |pos| == |ps|
    && (forall k :: 0 <= k < |ps| ==> QuotedAt(s, ps[k], pos[k]))
    && (forall k :: 0 <= k < |ps| - 1 ==> pos[k] + |ps[k]| + 1 < pos[k + 1])
  }

  function Shift(pos: seq<nat>, d: nat): (r: seq<nat>)
    ensures |r| == |pos| && forall k :: 0 <= k < |pos| ==> r[k] == pos[k] + d
  {
    seq(|pos|, k requires 0 <= k < |pos| => pos[k] + d)
  }

  lemma LocatedShift(s: string, d: nat, ps: seq<string>, pos: seq<nat>)
    requires d <= |s| && Located(s[d..], ps, pos)
    ensures Located(s, ps, Shift(pos, d))
  {
    forall k | 0 <= k < |ps| ensures QuotedAt(s, ps[k], pos[k] + d) {
      assert s[pos[k] + d + 1..pos[k] + d + 1 + |ps[k]|] == s[d..][pos[k] + 1..pos[k] + 1 + |ps[k]|];
    }
  }

  /** Every extracted parameter is non-empty and quote-free. */
  lemma {:induction false} QuotedParamsNonEmpty(s: string)
    ensures forall k :: 0 <= k < |QuotedParams(s)| ==> |QuotedParams(s)[k]| > 0 && QuoteFree(QuotedParams(s)[k])
    decreases |s|
  {
    if s == [] {
    } else if s[0] != '\'' || NextQuote(s, 1).None? || NextQuote(s, 1).value == 1 {
      QuotedParamsNonEmpty(s[1..]);
    } else {
      QuotedParamsNonEmpty(s[NextQuote(s, 1).value + 1..]);
    }
  }

  lemma LocatedCons(s: string, p: string, ps: seq<string>, pos: seq<nat>)
    requires QuotedAt(s, p, 0) && Located(s, ps, pos)
    requires forall k :: 0 <= k < |pos| ==> |p| + 1 < pos[k]
    ensures Located(s, [p] + ps, [0] + pos)
  {
    var ps', pos' := [p] + ps, [0] + pos;
    forall k | 0 <= k < |ps'| ensures QuotedAt(s, ps'[k], pos'[k]) {
      if k > 0 {
        assert ps'[k] == ps[k - 1] && pos'[k] == pos[k - 1];
      }
    }
    forall k | 0 <= k < |ps'| - 1 ensures pos'[k] + |ps'[k]| + 1 < pos'[k + 1] {
      if k > 0 {
        assert ps'[k] == ps[k - 1] && pos'[k] == pos[k - 1] && pos'[k + 1] == pos[k];
      }
    }
  }

  /**
   * Every extracted parameter sits between two quotes of the handler, and
   * the parameters come in the left-to-right order of their positions, which
   * never overlap.
   */
  lemma {:induction false} QuotedParamsInOrder(s: string) returns (pos: seq<nat>)
    ensures Located(s, QuotedParams(s), pos)
    decreases |s|
  {
    if s == [] {
      pos := [];
    } else if s[0] != '\'' || NextQuote(s, 1).None? || NextQuote(s, 1).value == 1 {
      var tail := QuotedParamsInOrder(s[1..]);
      pos := InOrderSkip(s, tail);
    } else {
      var j := NextQuote(s, 1).value;
      var tail := QuotedParamsInOrder(s[j + 1..]);
      pos := InOrderTake(s, j, tail);
    }
  }

  /** The scan steps over a character that does not open a match. */
  lemma InOrderSkip(s: string, tail: seq<nat>) returns (pos: seq<nat>)
    requires s != [] && (s[0] != '\'' || NextQuote(s, 1).None? || NextQuote(s, 1).value == 1)
    requires Located(s[1..], QuotedParams(s[1..]), tail)
    ensures Located(s, QuotedParams(s), pos)
  {
    assert QuotedParams(s) == QuotedParams(s[1..]);
    LocatedShift(s, 1, QuotedParams(s[1..]), tail);
    pos := Shift(tail, 1);
  }

  /** The scan takes the match `s[1..j]` and resumes after its closing quote. */
  lemma InOrderTake(s: string, j: nat, tail: seq<nat>) returns (pos: seq<nat>)
    requires s != [] && s[0] == '\'' && NextQuote(s, 1) == Some(j) && j > 1
    requires Located(s[j + 1..], QuotedParams(s[j + 1..]), tail)
    ensures Located(s, QuotedParams(s), pos)
  {
    var rest := QuotedParams(s[j + 1..]);
    assert QuotedParams(s) == [s[1..j]] + rest;
    LocatedShift(s, j + 1, rest, tail);
    assert QuotedAt(s, s[1..j], 0);
    LocatedCons(s, s[1..j], rest, Shift(tail, j + 1));
    pos := [0] + Shift(tail, j + 1);
  }

  /** A handler call `name('a0','a1',...)` with quote-free arguments. */
  function CallText(name: string, args: seq<string>): string
  {
    name + "(" + ArgList(args) + ")"
  }

  function ArgList(args: seq<string>): string
  {
    if args == [] then ""
    else if |args| == 1 then "'" + args[0] + "'"
    else "'" + args[0] + "'," + ArgList(args[1..])
  }

  lemma {:induction false} SkipUnquoted(x: string, rest: string)
    requires QuoteFree(x)
    ensures QuotedParams(x + rest) == QuotedParams(rest)
    decreases |x|
  {
    if x != [] {
      assert (x + rest)[1..] == x[1..] + rest;
      SkipUnquoted(x[1..], rest);
    } else {
      assert x + rest == rest;
    }
  }

  lemma TakeQuoted(p: string, rest: string)
    requires |p| > 0 && QuoteFree(p)
    ensures QuotedParams("'" + p + "'" + rest) == [p] + QuotedParams(rest)
  {
    var s := "'" + p + "'" + rest;
    var j := |p| + 1;
    assert s[j] == '\'';
    assert forall k :: 1 <= k < j ==> s[k] == p[k - 1];
    assert NextQuote(s, 1) == Some(j);
    assert s[1..j] == p;
    assert s[j + 1..] == rest;
  }

  /**
   * Round trip: the scan recovers exactly the arguments of a handler call
   * whose name is quote-free and whose arguments are non-empty and quote-free.
   */
  lemma {:induction false} QuotedParamsOfCall(name: string, args: seq<string>)
    requires QuoteFree(name)
    requires forall k :: 0 <= k < |args| ==> |args[k]| > 0 && QuoteFree(args[k])
    ensures QuotedParams(CallText(name, args)) == args
  {
    assert CallText(name, args) == (name + "(") + (ArgList(args) + ")");
    SkipUnquoted(name + "(", ArgList(args) + ")");
    ArgListParams(args);
  }

  lemma {:induction false} ArgListParams(args: seq<string>)
    requires forall k :: 0 <= k < |args| ==> |args[k]| > 0 && QuoteFree(args[k])
    ensures QuotedParams(ArgList(args) + ")") == args
    decreases |args|
  {
    if args == [] {
      assert ArgList(args) + ")" == ")";
    } else if |args| == 1 {
      TakeQuoted(args[0], ")");
      assert QuotedParams(")") == [];
    } else {
      ArgListParams(args[1..]);
      ArgListCons(args);
    }
  }

  /** One more argument in front: its quoted form, a comma, then the rest. */
  lemma ArgListCons(args: seq<string>)
    requires |args| >= 2 && |args[0]| > 0 && QuoteFree(args[0])
    ensures QuotedParams(ArgList(args) + ")") == [args[0]] + QuotedParams(ArgList(args[1..]) + ")")
  {
    var rest := ArgList(args[1..]) + ")";
    assert ArgList(args) + ")" == "'" + args[0] + "'" + ("," + rest);
    TakeQuoted(args[0], "," + rest);
    SkipUnquoted(",", rest);
  }

  // ---------------------------------------------------------------------------
  // build_detail_url(onclick, params)

  const PatternHandler := "fncLsPttnLinkPop"
  const ArticleHandler := "fncLsLawPop"
  const SideInfoHandler := "fncArLawPop"
  /** `fncLsLawPop` handlers carrying one of these markers are not article citations. */
  const Exclusions: seq<string> := ["XX", "BG", "BF", "BE"]

  const PatternPrefix := "https://www.law.go.kr/LSW/lsLinkCommonInfo.do?lspttninfSeq="
  const ArticlePrefix := "https://www.law.go.kr/LSW/lsLinkCommonInfo.do?lsJoLnkSeq="
  const SideInfoPrefix := "https://www.law.go.kr/LSW/lsSideInfoP.do?lsNm="
  const AncYdField := "ancYd="
  const UrlModeField := "urlMode=lsRvsDocInfoR"
  const AncNoField := "ancNo="

  /** What `build_detail_url` does: return a URL, return `None`, or raise IndexError on a missing positional parameter. */
  datatype Target = Url(url: string) | NoTarget | MissingParam

  predicate Excluded(onclick: string)
  {
    exists x | x in Exclusions :: Contains(onclick, x)
  }

  function BuildDetailUrl(onclick: string, params: seq<string>): Target
  {
    if Contains(onclick, PatternHandler) then
      if |params| < 1 then MissingParam else Url(PatternPrefix + params[0])
    else if Contains(onclick, ArticleHandler) && !Excluded(onclick) then
      if |params| < 1 then MissingParam else Url(ArticlePrefix + params[0])
    else if Contains(onclick, SideInfoHandler) then
      if |params| < 3 then MissingParam
      else Url(RevisionUrl(params[0], params[1], params[2]))
    else NoTarget
  }

  // ---------------------------------------------------------------------------
  // Reading a target URL back

  /** The three kinds of cited page, with the parameters their URL carries. */
  datatype CitedPage =
    | PatternClause(lspttninfSeq: string)
    | Article(lsJoLnkSeq: string)
    | Revision(lsNm: string, ancYd: string, ancNo: string)

  /** Reads a target URL back into the page kind and parameters it names. */
  function ParseTarget(url: string): Option<CitedPage>
  {
    if StartsWith(url, PatternPrefix) then Some(PatternClause(url[|PatternPrefix|..]))
    else if StartsWith(url, ArticlePrefix) then Some(Article(url[|ArticlePrefix|..]))
    else if StartsWith(url, SideInfoPrefix) then
      var fields := Split(url[|SideInfoPrefix|..], "&");
      if |fields| == 4 && StartsWith(fields[1], AncYdField) && fields[2] == UrlModeField
         && StartsWith(fields[3], AncNoField)
      then Some(Revision(fields[0], fields[1][|AncYdField|..], fields[3][|AncNoField|..]))
      else None
    else None
  }

  function CitedBy(t: Target): Option<CitedPage>
  {
    if t.Url? then ParseTarget(t.url) else None
  }

  lemma {:induction false} SplitOnFreeChar(a: string, b: string, c: char)
    requires forall k :: 0 <= k < |a| ==> a[k] != c
    ensures Split(a + [c] + b, [c]) == [a] + Split(b, [c])
    decreases |a|
  {
    var s := a + [c] + b;
    if a == [] {
      assert s[..1] == [c] && s[1..] == b;
    } else {
      assert s[0] == a[0];
      assert s[..1] != [c];
      assert s[1..] == a[1..] + [c] + b;
      SplitOnFreeChar(a[1..], b, c);
      assert [a[0]] + a[1..] == a;
    }
  }

  lemma {:induction false} SplitNoSep(a: string, c: char)
    requires forall k :: 0 <= k < |a| ==> a[k] != c
    ensures Split(a, [c]) == [a]
    decreases |a|
  {
    if a != [] {
      assert a[..1] == [a[0]];
      SplitNoSep(a[1..], c);
      assert [a[0]] + a[1..] == a;
    }
  }

  predicate AmpFree(p: string)
  {
    forall k :: 0 <= k < |p| ==> p[k] != '&'
  }

  lemma ParsePattern(p: string)
    ensures ParseTarget(PatternPrefix + p) == Some(PatternClause(p))
  {
    assert (PatternPrefix + p)[..|PatternPrefix|] == PatternPrefix;
  }

  lemma ParseArticle(p: string)
    ensures ParseTarget(ArticlePrefix + p) == Some(Article(p))
  {
    var url := ArticlePrefix + p;
    assert !StartsWith(url, PatternPrefix) by { assert url[48] != PatternPrefix[48]; }
    assert url[..|ArticlePrefix|] == ArticlePrefix;
  }

  /** The side-info URL `...lsSideInfoP.do?lsNm=p0&ancYd=p1&urlMode=lsRvsDocInfoR&ancNo=p2`. */
  function RevisionUrl(p0: string, p1: string, p2: string): string
  {
    SideInfoPrefix + Fields(p0, AncYdField + p1, UrlModeField, AncNoField + p2)
  }

  /** Four query fields joined by `&`. */
  function Fields(f0: string, f1: string, f2: string, f3: string): string
  {
    f0 + "&" + f1 + "&" + f2 + "&" + f3
  }

  lemma AmpFreeConcat(x: string, y: string)
    requires AmpFree(x) && AmpFree(y)
    ensures AmpFree(x + y)
  {
    forall k | 0 <= k < |x + y| ensures (x + y)[k] != '&' {
      if k >= |x| {
        assert (x + y)[k] == y[k - |x|];
      }
    }
  }

  /** Four `&`-free fields joined by `&` split back into those four fields. */
  lemma SplitFour(f0: string, f1: string, f2: string, f3: string)
    requires AmpFree(f0) && AmpFree(f1) && AmpFree(f2) && AmpFree(f3)
    ensures Split(Fields(f0, f1, f2, f3), "&") == [f0, f1, f2, f3]
  {
    var t2 := f2 + "&" + f3;
    var t1 := f1 + "&" + t2;
    assert Fields(f0, f1, f2, f3) == f0 + ['&'] + t1;
    assert t1 == f1 + ['&'] + t2;
    assert t2 == f2 + ['&'] + f3;
    SplitOnFreeChar(f0, t1, '&');
    SplitOnFreeChar(f1, t2, '&');
    SplitOnFreeChar(f2, f3, '&');
    SplitNoSep(f3, '&');
  }

  lemma RevisionFields(p0: string, p1: string, p2: string)
    requires AmpFree(p0) && AmpFree(p1) && AmpFree(p2)
    ensures Split(Fields(p0, AncYdField + p1, UrlModeField, AncNoField + p2), "&")
            == [p0, AncYdField + p1, UrlModeField, AncNoField + p2]
  {
    assert AmpFree(AncYdField) && AmpFree(UrlModeField) && AmpFree(AncNoField);
    AmpFreeConcat(AncYdField, p1);
    AmpFreeConcat(AncNoField, p2);
    SplitFour(p0, AncYdField + p1, UrlModeField, AncNoField + p2);
  }

  lemma RevisionPrefix(rest: string)
    ensures !StartsWith(SideInfoPrefix + rest, PatternPrefix)
    ensures !StartsWith(SideInfoPrefix + rest, ArticlePrefix)
    ensures StartsWith(SideInfoPrefix + rest, SideInfoPrefix)
    ensures (SideInfoPrefix + rest)[|SideInfoPrefix|..] == rest
  {
    var url := SideInfoPrefix + rest;
    assert url[28] == 'S' && PatternPrefix[28] == 'L' && ArticlePrefix[28] == 'L';
    assert url[..|SideInfoPrefix|] == SideInfoPrefix;
  }

  lemma ParseRevision(p0: string, p1: string, p2: string)
    requires AmpFree(p0) && AmpFree(p1) && AmpFree(p2)
    ensures ParseTarget(RevisionUrl(p0, p1, p2)) == Some(Revision(p0, p1, p2))
  {
    var rest := Fields(p0, AncYdField + p1, UrlModeField, AncNoField + p2);
    RevisionPrefix(rest);
    RevisionFields(p0, p1, p2);
    var f1, f3 := AncYdField + p1, AncNoField + p2;
    assert StartsWith(f1, AncYdField) && f1[|AncYdField|..] == p1;
    assert StartsWith(f3, AncNoField) && f3[|AncNoField|..] == p2;
  }

  /**
   * A handler naming `fncLsPttnLinkPop` cites a pattern clause with its first
   * parameter, whatever else it contains; with no parameter it raises.
   */
  lemma PatternHandlerWins(onclick: string, params: seq<string>)
    requires Contains(onclick, PatternHandler)
    ensures |params| == 0 <==> BuildDetailUrl(onclick, params) == MissingParam
    ensures |params| > 0 ==> CitedBy(BuildDetailUrl(onclick, params)) == Some(PatternClause(params[0]))
  {
    if |params| > 0 {
      ParsePattern(params[0]);
    }
  }

  /**
   * Without `fncLsPttnLinkPop`, a `fncLsLawPop` handler with a parameter cites
   * an article exactly when it carries none of `XX`, `BG`, `BF`, `BE`; an
   * excluded one is judged as if `fncLsLawPop` were not there.
   */
  lemma ArticleHandlerUnlessExcluded(onclick: string, params: seq<string>)
    requires !Contains(onclick, PatternHandler) && Contains(onclick, ArticleHandler)
    ensures !Excluded(onclick) ==> (BuildDetailUrl(onclick, params) == MissingParam <==> |params| == 0)
    ensures |params| > 0 ==>
      (CitedBy(BuildDetailUrl(onclick, params)) == Some(Article(params[0])) <==> !Excluded(onclick))
    ensures Excluded(onclick) ==>
      BuildDetailUrl(onclick, params) == (if Contains(onclick, SideInfoHandler) then BuildDetailUrl(SideInfoHandler, params) else NoTarget)
  {
    assert !Contains(SideInfoHandler, PatternHandler);
    assert !OccursAt(SideInfoHandler, ArticleHandler, 0) by { assert SideInfoHandler[3] != ArticleHandler[3]; }
    assert OccursAt(SideInfoHandler, SideInfoHandler, 0);
    if Excluded(onclick) {
      if Contains(onclick, SideInfoHandler) && |params| >= 3 {
        RevisionNotArticle(params[0], params[1], params[2]);
      }
    } else if |params| > 0 {
      ParseArticle(params[0]);
    }
  }

  /** A side-info URL never reads back as an article, whatever its parameters hold. */
  lemma RevisionNotArticle(p0: string, p1: string, p2: string)
    ensures ParseTarget(RevisionUrl(p0, p1, p2)).Some? ==> ParseTarget(RevisionUrl(p0, p1, p2)).value.Revision?
  {
    RevisionPrefix(Fields(p0, AncYdField + p1, UrlModeField, AncNoField + p2));
  }

  /**
   * A handler that reaches the `fncArLawPop` test needs three parameters and
   * then targets the revision page they name; the URL reads back to those
   * parameters when none of them holds `&`, since they are not URL-encoded.
   */
  lemma RevisionHandlerNeedsThree(onclick: string, params: seq<string>)
    requires !Contains(onclick, PatternHandler)
    requires !Contains(onclick, ArticleHandler) || Excluded(onclick)
    requires Contains(onclick, SideInfoHandler)
    ensures BuildDetailUrl(onclick, params) == MissingParam <==> |params| < 3
    ensures |params| >= 3 ==>
      BuildDetailUrl(onclick, params) == Url(RevisionUrl(params[0], params[1], params[2]))
    ensures |params| >= 3 && AmpFree(params[0]) && AmpFree(params[1]) && AmpFree(params[2]) ==>
      CitedBy(BuildDetailUrl(onclick, params)) == Some(Revision(params[0], params[1], params[2]))
  {
    if |params| >= 3 && AmpFree(params[0]) && AmpFree(params[1]) && AmpFree(params[2]) {
      ParseRevision(params[0], params[1], params[2]);
    }
  }

  /**
   * An `&` inside the law name is not encoded, so the revision URL does not
   * read back to that name: its first field ends at that `&`.
   */
  lemma UnencodedAmpersand(x: string, y: string, p1: string, p2: string)
    requires AmpFree(x)
    ensures ParseTarget(RevisionUrl(x + "&" + y, p1, p2)) != Some(Revision(x + "&" + y, p1, p2))
  {
    var f1, f3 := AncYdField + p1, AncNoField + p2;
    var tail := Fields(y, f1, UrlModeField, f3);
    FieldsCons(x, y, f1, UrlModeField, f3);
    RevisionPrefix(x + "&" + tail);
    SplitOnFreeChar(x, tail, '&');
    assert |x| < |x + "&" + y|;
  }

  /** Splitting the first field at an `&` of its own. */
  lemma FieldsCons(x: string, y: string, f1: string, f2: string, f3: string)
    ensures Fields(x + "&" + y, f1, f2, f3) == x + "&" + Fields(y, f1, f2, f3)
  {
    calc {
      Fields(x + "&" + y, f1, f2, f3);
      (x + "&") + (y + "&" + f1 + "&" + f2 + "&" + f3);
      { assert (x + "&") + Fields(y, f1, f2, f3) == x + "&" + Fields(y, f1, f2, f3); }
      x + "&" + Fields(y, f1, f2, f3);
    }
  }

  /** `build_detail_url` returns `None` exactly when no branch applies. */
  lemma NoTargetExactly(onclick: string, params: seq<string>)
    ensures BuildDetailUrl(onclick, params) == NoTarget <==>
      && !Contains(onclick, PatternHandler)
      && (!Contains(onclick, ArticleHandler) || Excluded(onclick))
      && !Contains(onclick, SideInfoHandler)
  {
  }
}
