/**
 * The placeholders `__COMMENT_<i>__` that `clean_html` puts in place of HTML
 * comments, and a description of a string as text pieces interleaved with
 * placeholder slots (a `Layout`). Rendering a layout with placeholders gives
 * the protected markup; rendering it with the comments gives the original.
 * The lemmas say how `str.replace` and `str.strip` act on such a string.
 */
module Placeholders {
  import opened PyStr

  /** The marker inside every placeholder; texts without it cannot fake one. */
  const Tag := "COMMENT_"

  predicate IsDigit(c: char)
  {
    '0' <= c <= '9'
  }

  function DigitChar(d: nat): (c: char)
    requires d < 10
    ensures IsDigit(c)
  {
    ('0' as int + d) as char
  }

  /** `f"{n}"` for a natural number: its decimal digits, without leading zeros. */
  function Digits(n: nat): (r: string)
    ensures |r| >= 1 && forall k :: 0 <= k < |r| ==> IsDigit(r[k])
    decreases n
  {
    if n < 10 then [DigitChar(n)] else Digits(n / 10) + [DigitChar(n % 10)]
  }

  /** Distinct numbers print differently. */
  lemma {:induction false} DigitsInjective(a: nat, b: nat)
    requires Digits(a) == Digits(b)
    ensures a == b
    decreases a
  {
    if a >= 10 && b >= 10 {
      var da, db := Digits(a), Digits(b);
      assert da[|da| - 1] == DigitChar(a % 10) && db[|db| - 1] == DigitChar(b % 10);
      assert Digits(a / 10) == da[..|da| - 1] == db[..|db| - 1] == Digits(b / 10);
      DigitsInjective(a / 10, b / 10);
    }
  }

  /** The placeholder `f"__COMMENT_{i}__"`. */
  function Key(i: nat): string
  {
    "__COMMENT_" + Digits(i) + "__"
  }

  /** A string that is non-empty and neither starts nor ends with whitespace. */
  predicate Solid(x: string)
  {
    x != [] && !IsSpace(x[0]) && !IsSpace(x[|x| - 1])
  }

  lemma KeyFacts(i: nat)
    ensures var k := Key(i);
      && |k| >= 13 && Solid(k)
      && k[0] == '_' && k[1] == '_' && k[2] == 'C' && k[9] == '_'
      && k[|k| - 2] == '_' && k[|k| - 1] == '_'
      && k[2..10] == Tag
      && (forall m :: 2 <= m < 9 ==> k[m] != '_')
      && (forall m :: 10 <= m < |k| - 2 ==> IsDigit(k[m]))
      && (forall m :: 0 <= m < |k| ==> k[m] != '<' && k[m] != '>')
  {
    var k := Key(i);
    var d := Digits(i);
    assert forall m :: 10 <= m < |k| - 2 ==> k[m] == d[m - 10];
  }

  lemma KeyHasTag(i: nat)
    ensures Contains(Key(i), Tag)
  {
    KeyFacts(i);
    assert OccursAt(Key(i), Tag, 2);
  }

  lemma OccurrenceChar(s: string, w: string, i: int, m: int)
    requires OccursAt(s, w, i) && 0 <= m < |w|
    ensures s[i + m] == w[m]
  {
    assert s[i..i + |w|][m] == s[i + m];
  }

  /** Eight characters of `s` equal to the tag, read off an occurrence of a placeholder. */
  lemma TagFromKey(s: string, j: nat, i: int, lo: int, hi: int)
    requires OccursAt(s, Key(j), i) && lo <= i + 2 && i + 10 <= hi && 0 <= lo <= hi <= |s|
    ensures OccursAt(s[lo..hi], Tag, i + 2 - lo)
  {
    KeyFacts(j);
    var k := Key(j);
    forall m | 0 <= m < 8 ensures s[lo..hi][i + 2 - lo + m] == Tag[m] {
      OccurrenceChar(s, k, i, 2 + m);
    }
    assert s[lo..hi][i + 2 - lo..i + 2 - lo + 8] == Tag;
  }

  /** A string that is empty or begins with two underscores, as a placeholder does. */
  predicate KeyLed(w: string)
  {
    w == [] || (|w| >= 2 && w[0] == '_' && w[1] == '_')
  }

  /**
   * A placeholder occurrence that starts inside `a` and runs into a
   * following placeholder-led `w` would put the tag inside `a`.
   */
  lemma TextEndOccurrence(a: string, w: string, j: nat, i: int)
    requires OccursAt(a + w, Key(j), i) && i < |a| < i + |Key(j)|
    requires KeyLed(w)
    ensures Contains(a, Tag)
  {
    var k := Key(j);
    KeyFacts(j);
    var d := |a| - i;
    OccurrenceChar(a + w, k, i, d);
    assert k[d] == '_';
    if d < 10 {
      OccurrenceChar(a + w, k, i, d + 1);
    }
    assert d >= 10;
    TagFromKey(a + w, j, i, 0, |a|);
    assert (a + w)[0..|a|] == a;
  }

  /**
   * A placeholder occurrence that starts strictly inside placeholder `s`,
   * followed by a text `b` and a placeholder-led `w`, would put the tag in `b`.
   */
  lemma KeyEndOccurrence(s: nat, b: string, w: string, j: nat, e: int)
    requires OccursAt(Key(s) + b + w, Key(j), e) && 0 < e < |Key(s)|
    requires KeyLed(w)
    ensures Contains(b, Tag)
  {
    var ks, k := Key(s), Key(j);
    var z := Key(s) + b + w;
    KeyFacts(s);
    KeyFacts(j);
    OccurrenceChar(z, k, e, 0);
    OccurrenceChar(z, k, e, 1);
    assert ks[e] == '_';
    assert e == |ks| - 2 || e == |ks| - 1;
    var off := |ks| - e;   // characters of k taken from ks
    // the rest of k must come from b + w
    if |b| < 10 - off {
      if |b| + |ks| < |z| {
        OccurrenceChar(z, k, e, off + |b|);
        OccurrenceChar(z, k, e, off + |b| + 1);
      }
    }
    assert |b| >= 10 - off;
    TagFromKey(z, j, e, |ks|, |ks| + |b|);
    assert z[|ks|..|ks| + |b|] == b;
  }

  /** A placeholder found at the very start of placeholder `s` is placeholder `s` itself. */
  lemma KeyStartOccurrence(s: nat, z: string, j: nat)
    requires OccursAt(Key(s) + z, Key(j), 0)
    ensures s == j
  {
    var ks, k := Key(s), Key(j);
    KeyFacts(s);
    KeyFacts(j);
    if |k| < |ks| {
      OccurrenceChar(Key(s) + z, k, 0, |k| - 2);
      assert false;
    } else if |k| > |ks| {
      OccurrenceChar(Key(s) + z, k, 0, |ks| - 2);
      assert false;
    } else {
      assert (Key(s) + z)[..|k|] == ks;
      assert Digits(s) == ks[10..|ks| - 2] == k[10..|k| - 2] == Digits(j);
      DigitsInjective(s, j);
    }
  }

  // ---------------------------------------------------------------------------
  // Layouts

  /** Text pieces, each but the last followed by the slot of one comment. */
  datatype Layout = Last(text: string) | Slot(text: string, key: nat, next: Layout)

  /** The string a layout stands for, when slot `i` is rendered as `f(i)`. */
  function Render(l: Layout, f: nat -> string): string
  {
    match l
    case Last(a) => a
    case Slot(a, i, n) => a + f(i) + Render(n, f)
  }

  /** The layout with its slots written as placeholders. */
  function Show(l: Layout): string
  {
    Render(l, Key)
  }

  /** Renders slot `i` as the `i`-th comment. */
  function CommentOf(cs: seq<string>): nat -> string
  {
    (i: nat) => if i < |cs| then cs[i] else ""
  }

  /** The layout with its slots written as the comments they stand for. */
  function Expand(l: Layout, cs: seq<string>): string
  {
    Render(l, CommentOf(cs))
  }

  /** No text piece of the layout contains the tag. */
  predicate TextsClean(l: Layout)
  {
    !Contains(l.text, Tag) && (l.Slot? ==> TextsClean(l.next))
  }

  /** Every slot number is in `[lo, hi)`. */
  predicate SlotsIn(l: Layout, lo: nat, hi: nat)
  {
    l.Slot? ==> lo <= l.key < hi && SlotsIn(l.next, lo, hi)
  }

  /** Every slot renders as a solid string. */
  predicate SolidSlots(l: Layout, f: nat -> string)
  {
    l.Slot? ==> Solid(f(l.key)) && SolidSlots(l.next, f)
  }

  function Prepend(x: string, l: Layout): Layout
  {
    match l
    case Last(a) => Last(x + a)
    case Slot(a, i, n) => Slot(x + a, i, n)
  }

  lemma RenderPrepend(x: string, l: Layout, f: nat -> string)
    ensures Render(Prepend(x, l), f) == x + Render(l, f)
  {
  }

  /** Pieces separated by slot `j`, the last piece continuing into `end`. */
  function Chain(pieces: seq<string>, j: nat, end: Layout): Layout
    requires |pieces| >= 1
    decreases |pieces|
  {
    if |pieces| == 1 then Prepend(pieces[0], end)
    else Slot(pieces[0], j, Chain(pieces[1..], j, end))
  }

  lemma {:induction false} RenderChain(pieces: seq<string>, j: nat, end: Layout, f: nat -> string)
    requires |pieces| >= 1
    ensures Render(Chain(pieces, j, end), f) == Join(pieces, f(j)) + Render(end, f)
    decreases |pieces|
  {
    if |pieces| == 1 {
      RenderPrepend(pieces[0], end, f);
    } else {
      RenderChain(pieces[1..], j, end, f);
    }
  }

  // ---------------------------------------------------------------------------
  // Protecting one comment: text.replace(c, key_j)

  /** Cuts every text piece at the occurrences of `c` and puts slot `j` there. */
  function ProtectStep(l: Layout, c: string, j: nat): Layout
    requires c != []
  {
    match l
    case Last(a) => Chain(Split(a, c), j, Last(""))
    case Slot(a, i, n) => Chain(Split(a, c), j, Slot("", i, ProtectStep(n, c, j)))
  }

  /** A comment as `re.findall` returns it: `<` first, `>` last, no tag inside. */
  predicate Marked(c: string)
  {
    |c| >= 2 && c[0] == '<' && c[|c| - 1] == '>' && !Contains(c, Tag)
  }

  /** Replacing a comment in the protected markup cuts only the text pieces. */
  lemma {:induction false} ShowProtectStep(l: Layout, c: string, j: nat)
    requires Marked(c)
    ensures Replace(Show(l), c, Key(j)) == Show(ProtectStep(l, c, j))
  {
    match l
    case Last(a) =>
      ReplaceIsJoinOfSplit(a, c, Key(j));
      RenderChain(Split(a, c), j, Last(""), Key);
    case Slot(a, i, n) =>
      ShowProtectStep(n, c, j);
      ShowProtectSlot(a, i, n, c, j);
  }

  /** The slot case of `ShowProtectStep`, given the result for the rest of the layout. */
  lemma ShowProtectSlot(a: string, i: nat, n: Layout, c: string, j: nat)
    requires Marked(c)
    requires Replace(Show(n), c, Key(j)) == Show(ProtectStep(n, c, j))
    ensures Replace(Show(Slot(a, i, n)), c, Key(j)) == Show(ProtectStep(Slot(a, i, n), c, j))
  {
    var kj, ki := Key(j), Key(i);
    var sn := Show(n);
    var n' := ProtectStep(n, c, j);
    var pieces := Split(a, c);
    var tail := Slot("", i, n');
    calc {
      Replace(Show(Slot(a, i, n)), c, kj);
      { assert Show(Slot(a, i, n)) == a + (ki + sn); }
      Replace(a + (ki + sn), c, kj);
      { CommentBeforeKey(a, i, sn, c, j); }
      Replace(a, c, kj) + Replace(ki + sn, c, kj);
      { CommentAtKey(i, sn, c, j); }
      Replace(a, c, kj) + (ki + Show(n'));
      { ReplaceIsJoinOfSplit(a, c, kj); }
      Join(pieces, kj) + (ki + Show(n'));
      { assert Show(tail) == ki + Show(n'); }
      Join(pieces, kj) + Show(tail);
      { RenderChain(pieces, j, tail, Key); }
      Show(Chain(pieces, j, tail));
    }
  }

  /** A comment cannot run from a text piece into the placeholder after it. */
  lemma CommentBeforeKey(a: string, i: nat, z: string, c: string, j: nat)
    requires Marked(c)
    ensures Replace(a + (Key(i) + z), c, Key(j)) == Replace(a, c, Key(j)) + Replace(Key(i) + z, c, Key(j))
  {
    var ki := Key(i);
    var rest := ki + z;
    KeyFacts(i);
    forall p | |a| - |c| < p < |a| ensures !OccursAt(a + rest, c, p) {
      if OccursAt(a + rest, c, p) && p >= 0 {
        if p + |c| <= |a| + |ki| {
          OccurrenceChar(a + rest, c, p, |c| - 1);
        } else {
          assert c[|a| - p..|a| - p + |ki|] == (a + rest)[|a|..|a| + |ki|] == ki;
          assert OccursAt(c, ki, |a| - p);
          KeyHasTag(i);
          ContainsWithin(c, ki, Tag);
        }
      }
    }
    ReplaceConcat(a, rest, c, Key(j));
  }

  /** A comment never starts inside a placeholder, which has no `<`. */
  lemma CommentAtKey(i: nat, z: string, c: string, j: nat)
    requires Marked(c)
    ensures Replace(Key(i) + z, c, Key(j)) == Key(i) + Replace(z, c, Key(j))
  {
    var ki := Key(i);
    KeyFacts(i);
    forall p | |ki| - |c| < p < |ki| ensures !OccursAt(ki + z, c, p) {
      if OccursAt(ki + z, c, p) && p >= 0 {
        OccurrenceChar(ki + z, c, p, 0);
      }
    }
    ReplaceConcat(ki, z, c, Key(j));
    if Contains(ki, c) {
      var p := PickOccurrence(ki, c);
      OccurrenceChar(ki, c, p, 0);
    }
    ReplaceAbsent(ki, c, Key(j));
  }

  /** Cutting at `c` and rendering slot `j` as `c` again gives back the same string. */
  lemma {:induction false} RenderProtectStep(l: Layout, c: string, j: nat, f: nat -> string)
    requires c != [] && f(j) == c
    ensures Render(ProtectStep(l, c, j), f) == Render(l, f)
  {
    match l
    case Last(a) =>
      RenderChain(Split(a, c), j, Last(""), f);
      SplitJoin(a, c);
    case Slot(a, i, n) =>
      RenderChain(Split(a, c), j, Slot("", i, ProtectStep(n, c, j)), f);
      SplitJoin(a, c);
      RenderProtectStep(n, c, j, f);
  }

  lemma {:induction false} ChainClean(pieces: seq<string>, j: nat, end: Layout)
    requires |pieces| >= 1 && forall k :: 0 <= k < |pieces| ==> !Contains(pieces[k], Tag)
    requires TextsClean(end) && end.text == ""
    ensures TextsClean(Chain(pieces, j, end))
    decreases |pieces|
  {
    if |pieces| == 1 {
      assert pieces[0] + end.text == pieces[0];
    } else {
      ChainClean(pieces[1..], j, end);
    }
  }

  lemma {:induction false} ProtectStepInvariants(l: Layout, c: string, j: nat, lo: nat, hi: nat)
    requires c != [] && TextsClean(l) && SlotsIn(l, lo, hi) && lo <= j < hi
    ensures TextsClean(ProtectStep(l, c, j)) && SlotsIn(ProtectStep(l, c, j), lo, hi)
  {
    var a := l.text;
    forall k | 0 <= k < |Split(a, c)| ensures !Contains(Split(a, c)[k], Tag) {
      SplitPieceInside(a, c, k);
      if Contains(Split(a, c)[k], Tag) {
        ContainsWithin(a, Split(a, c)[k], Tag);
      }
    }
    match l
    case Last(_) =>
      ChainClean(Split(a, c), j, Last(""));
      ChainSlots(Split(a, c), j, Last(""), lo, hi);
    case Slot(_, i, n) =>
      ProtectStepInvariants(n, c, j, lo, hi);
      ChainClean(Split(a, c), j, Slot("", i, ProtectStep(n, c, j)));
      ChainSlots(Split(a, c), j, Slot("", i, ProtectStep(n, c, j)), lo, hi);
  }

  lemma {:induction false} ChainSlots(pieces: seq<string>, j: nat, end: Layout, lo: nat, hi: nat)
    requires |pieces| >= 1 && SlotsIn(end, lo, hi) && lo <= j < hi
    ensures SlotsIn(Chain(pieces, j, end), lo, hi)
    decreases |pieces|
  {
    if |pieces| > 1 {
      ChainSlots(pieces[1..], j, end, lo, hi);
    }
  }

  // ---------------------------------------------------------------------------
  // Restoring one comment: r.replace(key_j, c)

  /** Writes `c` in place of every slot `j`, merging it with the texts around it. */
  function RestoreStep(l: Layout, c: string, j: nat): Layout
  {
    match l
    case Last(a) => Last(a)
    case Slot(a, i, n) =>
      if i == j then Prepend(a + c, RestoreStep(n, c, j)) else Slot(a, i, RestoreStep(n, c, j))
  }

  lemma NoKeyInCleanText(a: string, j: nat)
    requires !Contains(a, Tag)
    ensures !Contains(a, Key(j))
  {
    if Contains(a, Key(j)) {
      KeyHasTag(j);
      ContainsWithin(a, Key(j), Tag);
    }
  }

  /** The text after a placeholder: a clean piece, then nothing or another placeholder. */
  lemma ShowShape(l: Layout)
    ensures l.Last? ==> Show(l) == l.text
    ensures l.Slot? ==> Show(l) == l.text + (Key(l.key) + Show(l.next)) && KeyLed(Key(l.key) + Show(l.next))
  {
    if l.Slot? {
      KeyFacts(l.key);
    }
  }

  /** Restoring comment `j` in the protected markup touches exactly the slots `j`. */
  lemma {:induction false} ShowRestoreStep(l: Layout, c: string, j: nat)
    requires TextsClean(l)
    ensures Replace(Show(l), Key(j), c) == Show(RestoreStep(l, c, j))
  {
    match l
    case Last(a) =>
      KeyFacts(j);
      NoKeyInCleanText(a, j);
      ReplaceAbsent(a, Key(j), c);
    case Slot(a, i, n) =>
      ShowRestoreStep(n, c, j);
      ShowRestoreSlot(a, i, n, c, j);
  }

  /** No placeholder occurrence starts in a clean text piece and runs into the placeholder after it. */
  lemma RestoreBeforeKey(a: string, rest: string, c: string, j: nat)
    requires !Contains(a, Tag) && KeyLed(rest)
    ensures Replace(a + rest, Key(j), c) == a + Replace(rest, Key(j), c)
  {
    var k := Key(j);
    KeyFacts(j);
    forall p | |a| - |k| < p < |a| ensures !OccursAt(a + rest, k, p) {
      if OccursAt(a + rest, k, p) && p >= 0 {
        TextEndOccurrence(a, rest, j, p);
      }
    }
    ReplaceConcat(a, rest, k, c);
    NoKeyInCleanText(a, j);
    ReplaceAbsent(a, k, c);
  }

  /** Placeholder `i` is replaced by `c` when `i == j`, and is otherwise left alone. */
  lemma RestoreAtKey(i: nat, n: Layout, c: string, j: nat)
    requires TextsClean(n)
    ensures Replace(Key(i) + Show(n), Key(j), c) == (if i == j then c else Key(i)) + Replace(Show(n), Key(j), c)
  {
    var k, ki := Key(j), Key(i);
    KeyFacts(j);
    ShowShape(n);
    var w := if n.Last? then [] else Key(n.key) + Show(n.next);
    assert Show(n) == n.text + w && KeyLed(w);
    assert ki + Show(n) == ki + n.text + w;
    forall p | |ki| - |k| < p < |ki| ensures !OccursAt(ki + Show(n), k, p) {
      if OccursAt(ki + Show(n), k, p) {
        if p == 0 {
          KeyStartOccurrence(i, Show(n), j);
        } else if p > 0 {
          KeyEndOccurrence(i, n.text, w, j, p);
        }
      }
    }
    ReplaceConcat(ki, Show(n), k, c);
    if i == j {
      ReplaceWhole(k, c);
    } else {
      forall p ensures !OccursAt(ki, k, p) {
        if OccursAt(ki, k, p) {
          assert ki + [] == ki;
          assert KeyLed([]);
          if p == 0 {
            KeyStartOccurrence(i, [], j);
          } else {
            KeyEndOccurrence(i, [], [], j, p);
          }
        }
      }
      ReplaceAbsent(ki, k, c);
    }
  }

  /** The slot case of `ShowRestoreStep`, given the result for the rest of the layout. */
  lemma ShowRestoreSlot(a: string, i: nat, n: Layout, c: string, j: nat)
    requires TextsClean(Slot(a, i, n))
    requires Replace(Show(n), Key(j), c) == Show(RestoreStep(n, c, j))
    ensures Replace(Show(Slot(a, i, n)), Key(j), c) == Show(RestoreStep(Slot(a, i, n), c, j))
  {
    ReplaceSlot(a, i, n, c, j);
    ShowRestoredSlot(a, i, n, c, j);
  }

  /** Restoring in the rendering of a slot: the text piece stays, the placeholder is swapped if it is `j`. */
  lemma ReplaceSlot(a: string, i: nat, n: Layout, c: string, j: nat)
    requires TextsClean(Slot(a, i, n))
    ensures Replace(Show(Slot(a, i, n)), Key(j), c) ==
            a + ((if i == j then c else Key(i)) + Replace(Show(n), Key(j), c))
  {
    var ki, sn := Key(i), Show(n);
    assert Show(Slot(a, i, n)) == a + (ki + sn);
    ShowShape(Slot(a, i, n));
    RestoreBeforeKey(a, ki + sn, c, j);
    RestoreAtKey(i, n, c, j);
  }

  lemma ShowRestoredSlot(a: string, i: nat, n: Layout, c: string, j: nat)
    ensures Show(RestoreStep(Slot(a, i, n), c, j)) ==
            a + ((if i == j then c else Key(i)) + Show(RestoreStep(n, c, j)))
  {
    var n' := RestoreStep(n, c, j);
    if i == j {
      RenderPrepend(a + c, n', Key);
      assert a + (c + Show(n')) == a + c + Show(n');
    } else {
      assert Show(Slot(a, i, n')) == a + (Key(i) + Show(n'));
    }
  }

  lemma {:induction false} RenderRestoreStep(l: Layout, c: string, j: nat, f: nat -> string)
    requires f(j) == c
    ensures Render(RestoreStep(l, c, j), f) == Render(l, f)
  {
    match l
    case Last(_) =>
    case Slot(a, i, n) =>
      RenderRestoreStep(n, c, j, f);
      RenderPrepend(a + c, RestoreStep(n, c, j), f);
  }

  lemma {:induction false} RestoreStepInvariants(l: Layout, c: string, j: nat, hi: nat)
    requires Marked(c) && TextsClean(l) && SlotsIn(l, j, hi)
    ensures TextsClean(RestoreStep(l, c, j)) && SlotsIn(RestoreStep(l, c, j), j + 1, hi)
  {
    match l
    case Last(_) =>
    case Slot(a, i, n) =>
      RestoreStepInvariants(n, c, j, hi);
      if i == j {
        var m := RestoreStep(n, c, j);
        NoContainsConcat(a, c, Tag);
        NoContainsConcat(a + c, m.text, Tag);
      }
  }

  // ---------------------------------------------------------------------------
  // strip()

  function RStripLast(l: Layout): Layout
  {
    match l
    case Last(a) => Last(RStrip(a))
    case Slot(a, i, n) => Slot(a, i, RStripLast(n))
  }

  /** The layout of the stripped string: strip the first piece's front and the last piece's end. */
  function StripLayout(l: Layout): Layout
  {
    match l
    case Last(a) => Last(Strip(a))
    case Slot(a, i, n) => Slot(LStrip(a), i, RStripLast(n))
  }

  lemma {:induction false} RenderRStripLast(l: Layout, f: nat -> string)
    requires SolidSlots(l, f)
    ensures RStrip(Render(l, f)) == Render(RStripLast(l), f)
  {
    match l
    case Last(_) =>
    case Slot(a, i, n) =>
      RenderRStripLast(n, f);
      RStripConcat(a + f(i), Render(n, f));
  }

  /** Stripping commutes with rendering when every slot renders solid. */
  lemma RenderStrip(l: Layout, f: nat -> string)
    requires SolidSlots(l, f)
    ensures Strip(Render(l, f)) == Render(StripLayout(l), f)
  {
    match l
    case Last(_) =>
    case Slot(a, i, n) =>
      var fi := f(i);
      assert Render(l, f) == a + (fi + Render(n, f));
      assert (fi + Render(n, f))[0] == fi[0];
      LStripConcat(a, fi + Render(n, f));
      assert LStrip(Render(l, f)) == (LStrip(a) + fi) + Render(n, f);
      assert (LStrip(a) + fi)[|LStrip(a) + fi| - 1] == fi[|fi| - 1];
      RStripConcat(LStrip(a) + fi, Render(n, f));
      RenderRStripLast(n, f);
  }

  lemma {:induction false} RStripLastInvariants(l: Layout, lo: nat, hi: nat)
    requires TextsClean(l) && SlotsIn(l, lo, hi)
    ensures TextsClean(RStripLast(l)) && SlotsIn(RStripLast(l), lo, hi)
  {
    match l
    case Last(a) =>
      if Contains(RStrip(a), Tag) {
        RStripInside(a, Tag);
      }
    case Slot(_, _, n) =>
      RStripLastInvariants(n, lo, hi);
  }

  lemma StripLayoutInvariants(l: Layout, lo: nat, hi: nat)
    requires TextsClean(l) && SlotsIn(l, lo, hi)
    ensures TextsClean(StripLayout(l)) && SlotsIn(StripLayout(l), lo, hi)
  {
    match l
    case Last(a) =>
      if Contains(Strip(a), Tag) {
        RStripInside(LStrip(a), Tag);
        LStripInside(a, Tag);
      }
    case Slot(a, _, n) =>
      if Contains(LStrip(a), Tag) {
        LStripInside(a, Tag);
      }
      RStripLastInvariants(n, lo, hi);
  }

  lemma {:induction false} KeysSolid(l: Layout)
    ensures SolidSlots(l, Key)
  {
    if l.Slot? {
      KeyFacts(l.key);
      KeysSolid(l.next);
    }
  }

  lemma {:induction false} CommentsSolid(l: Layout, cs: seq<string>)
    requires SlotsIn(l, 0, |cs|) && forall k :: 0 <= k < |cs| ==> Marked(cs[k])
    ensures SolidSlots(l, CommentOf(cs))
  {
    if l.Slot? {
      CommentsSolid(l.next, cs);
    }
  }
}
