/**
 * The handful of Python `str` operations the crawler relies on, with their
 * CPython semantics: substring test (`w in s`), `s.replace(old, new)`,
 * `s.split(sep)`, `sep.join(parts)` and `s.strip()`.
 */
module PyStr {

  /** `w` occurs in `s` starting at index `i`. */
  predicate OccursAt(s: string, w: string, i: int)
  {
    0 <= i && i + |w| <= |s| && s[i..i + |w|] == w
  }

  /** Python's `w in s` (true for the empty `w`). */
  predicate Contains(s: string, w: string)
  {
    exists i | 0 <= i <= |s| - |w| :: OccursAt(s, w, i)
  }

  predicate StartsWith(s: string, w: string)
  {
    |w| <= |s| && s[..|w|] == w
  }

  /** `s.replace(old, new)`: every occurrence, found left to right, never overlapping. */
  function Replace(s: string, pat: string, rep: string): string
  {
    if pat == [] then Interleave(s, rep) else ReplaceScan(s, pat, rep)
  }

  /** For an empty pattern, CPython inserts the replacement before every character and at the end. */
  function Interleave(s: string, rep: string): string
  {
    if s == [] then rep else rep + [s[0]] + Interleave(s[1..], rep)
  }

  function ReplaceScan(s: string, pat: string, rep: string): string
    requires pat != []
    decreases |s|
  {
    if |s| < |pat| then s
    else if s[..|pat|] == pat then rep + ReplaceScan(s[|pat|..], pat, rep)
    else [s[0]] + ReplaceScan(s[1..], pat, rep)
  }

  /** `s.split(sep)` for a non-empty `sep` (CPython raises ValueError on an empty one). */
  function Split(s: string, sep: string): (parts: seq<string>)
    requires sep != []
    ensures |parts| >= 1
    decreases |s|
  {
    if |s| < |sep| then [s]
    else if s[..|sep|] == sep then [""] + Split(s[|sep|..], sep)
    else
      var rest := Split(s[1..], sep);
      [[s[0]] + rest[0]] + rest[1..]
  }

  /** `sep.join(parts)`. */
  function Join(parts: seq<string>, sep: string): string
  {
    if parts == [] then ""
    else if |parts| == 1 then parts[0]
    else parts[0] + sep + Join(parts[1..], sep)
  }

  /** `str.isspace()` for one character: the Unicode whitespace set CPython uses. */
  predicate IsSpace(c: char)
  {
    c == ' ' || ('\t' <= c <= '\r') || ('\U{1c}' <= c <= '\U{1f}') ||
    c == '\U{85}' || c == '\U{a0}' || c == '\U{1680}' || ('\U{2000}' <= c <= '\U{200a}') ||
    c == '\U{2028}' || c == '\U{2029}' || c == '\U{202f}' || c == '\U{205f}' || c == '\U{3000}'
  }

  function LStrip(s: string): string
  {
    if |s| > 0 && IsSpace(s[0]) then LStrip(s[1..]) else s
  }

  function RStrip(s: string): string
  {
    if |s| > 0 && IsSpace(s[|s| - 1]) then RStrip(s[..|s| - 1]) else s
  }

  /** `s.strip()` with no argument. */
  function Strip(s: string): string
  {
    RStrip(LStrip(s))
  }

  // ---------------------------------------------------------------------------
  // Substrings

  /** A witness for `Contains`. */
  lemma PickOccurrence(s: string, w: string) returns (i: nat)
    requires Contains(s, w)
    ensures OccursAt(s, w, i)
  {
    i :| 0 <= i <= |s| - |w| && OccursAt(s, w, i);
  }

  lemma OccursWithin(s: string, m: string, w: string, i: int, j: int)
    requires OccursAt(s, m, i) && OccursAt(m, w, j)
    ensures OccursAt(s, w, i + j)
  {
    assert m == s[i..i + |m|];
    forall k | 0 <= k < |w| ensures s[i + j + k] == w[k] {
      assert m[j + k] == s[i + j + k];
    }
    assert s[i + j..i + j + |w|] == w;
  }

  lemma ContainsWithin(s: string, m: string, w: string)
    requires Contains(m, w) && Contains(s, m)
    ensures Contains(s, w)
  {
    var i := PickOccurrence(s, m);
    var j := PickOccurrence(m, w);
    OccursWithin(s, m, w, i, j);
  }

  lemma ContainsInLeft(a: string, b: string, w: string)
    requires Contains(a, w)
    ensures Contains(a + b, w)
  {
    var i := PickOccurrence(a, w);
    assert (a + b)[i..i + |w|] == a[i..i + |w|];
    assert OccursAt(a + b, w, i);
  }

  lemma ContainsInRight(a: string, b: string, w: string)
    requires Contains(b, w)
    ensures Contains(a + b, w)
  {
    var i := PickOccurrence(b, w);
    assert (a + b)[|a| + i..|a| + i + |w|] == b[i..i + |w|];
    assert OccursAt(a + b, w, |a| + i);
  }

  /**
   * An occurrence of `w` in `a + b` lies in `a`, in `b`, or covers both the
   * last character of `a` and the first character of `b`.
   */
  lemma ContainsConcat(a: string, b: string, w: string, i: int)
    requires OccursAt(a + b, w, i)
    ensures OccursAt(a, w, i) || OccursAt(b, w, i - |a|) ||
            (i < |a| < i + |w| && w[|a| - 1 - i] == a[|a| - 1] && w[|a| - i] == b[0])
  {
    if i + |w| <= |a| {
      assert a[i..i + |w|] == (a + b)[i..i + |w|];
    } else if |a| <= i {
      assert b[i - |a|..i - |a| + |w|] == (a + b)[i..i + |w|];
    } else {
      assert w[|a| - 1 - i] == (a + b)[|a| - 1];
      assert w[|a| - i] == (a + b)[|a|];
    }
  }

  /** Gluing two strings without `w` creates no `w` when one of the glued characters is foreign to `w`. */
  lemma NoContainsConcat(a: string, b: string, w: string)
    requires !Contains(a, w) && !Contains(b, w)
    requires a == [] || b == [] || (forall k :: 0 <= k < |w| ==> w[k] != a[|a| - 1]) ||
             (forall k :: 0 <= k < |w| ==> w[k] != b[0])
    ensures !Contains(a + b, w)
  {
    if Contains(a + b, w) {
      var i := PickOccurrence(a + b, w);
      ContainsConcat(a, b, w, i);
      assert false;
    }
  }

  lemma ContainsTail(s: string, w: string)
    requires |s| > 0 && Contains(s[1..], w)
    ensures Contains(s, w)
  {
    ContainsInRight(s[..1], s[1..], w);
    assert s[..1] + s[1..] == s;
  }

  lemma ContainsInit(s: string, w: string)
    requires |s| > 0 && Contains(s[..|s| - 1], w)
    ensures Contains(s, w)
  {
    ContainsInLeft(s[..|s| - 1], s[|s| - 1..], w);
    assert s[..|s| - 1] + s[|s| - 1..] == s;
  }

  // ---------------------------------------------------------------------------
  // replace, split and join

  /** `s.replace(p, r) == r.join(s.split(p))` for a non-empty `p`. */
  lemma {:induction false} ReplaceIsJoinOfSplit(s: string, p: string, r: string)
    requires p != []
    ensures Replace(s, p, r) == Join(Split(s, p), r)
    decreases |s|
  {
    if |s| < |p| {
    } else if s[..|p|] == p {
      ReplaceIsJoinOfSplit(s[|p|..], p, r);
    } else {
      ReplaceIsJoinOfSplit(s[1..], p, r);
      var rest := Split(s[1..], p);
      JoinConsFirst(s[0], rest, r);
    }
  }

  lemma JoinConsFirst(c: char, parts: seq<string>, sep: string)
    requires |parts| >= 1
    ensures Join([[c] + parts[0]] + parts[1..], sep) == [c] + Join(parts, sep)
  {
  }

  /** Joining the pieces of a split with the same separator gives back the string. */
  lemma {:induction false} SplitJoin(s: string, sep: string)
    requires sep != []
    ensures Join(Split(s, sep), sep) == s
    decreases |s|
  {
    if |s| < |sep| {
    } else if s[..|sep|] == sep {
      var rest := Split(s[|sep|..], sep);
      SplitJoin(s[|sep|..], sep);
      JoinConsEmpty(rest, sep);
      assert s == sep + s[|sep|..];
    } else {
      var rest := Split(s[1..], sep);
      SplitJoin(s[1..], sep);
      JoinConsFirst(s[0], rest, sep);
      assert s == [s[0]] + s[1..];
    }
  }

  lemma JoinConsEmpty(parts: seq<string>, sep: string)
    requires |parts| >= 1
    ensures Join([""] + parts, sep) == sep + Join(parts, sep)
  {
    assert ([""] + parts)[1..] == parts;
  }

  /** No piece of `s.split(sep)` contains `sep`. */
  lemma {:induction false} SplitPiecesFree(s: string, sep: string)
    requires sep != []
    ensures forall k :: 0 <= k < |Split(s, sep)| ==> !Contains(Split(s, sep)[k], sep)
    decreases |s|
  {
    var parts := Split(s, sep);
    if |s| < |sep| {
    } else if s[..|sep|] == sep {
      SplitPiecesFree(s[|sep|..], sep);
      forall k | 0 <= k < |parts| ensures !Contains(parts[k], sep) {
        if k > 0 {
          assert parts[k] == Split(s[|sep|..], sep)[k - 1];
        }
      }
    } else {
      SplitPiecesFree(s[1..], sep);
      var rest := Split(s[1..], sep);
      forall k | 0 <= k < |parts| ensures !Contains(parts[k], sep) {
        if k == 0 {
          if Contains(parts[0], sep) {
            var i := PickOccurrence(parts[0], sep);
            var head := [s[0]] + rest[0];
            if i == 0 {
              // head is a prefix of s, and s does not start with sep
              SplitFirstIsPrefix(s[1..], sep);
              assert false;
            } else {
              assert rest[0][i - 1..i - 1 + |sep|] == head[i..i + |sep|];
              assert OccursAt(rest[0], sep, i - 1);
              assert false;
            }
          }
        } else {
          assert parts[k] == rest[k];
        }
      }
    }
  }

  /** The first piece of a split is a prefix of the string. */
  lemma {:induction false} SplitFirstIsPrefix(s: string, sep: string)
    requires sep != []
    ensures |Split(s, sep)[0]| <= |s| && s[..|Split(s, sep)[0]|] == Split(s, sep)[0]
    decreases |s|
  {
    if |s| < |sep| {
    } else if s[..|sep|] == sep {
    } else {
      SplitFirstIsPrefix(s[1..], sep);
    }
  }

  /** Every piece of `s.split(sep)` is a substring of `s`. */
  lemma {:induction false} SplitPieceInside(s: string, sep: string, k: nat)
    requires sep != [] && k < |Split(s, sep)|
    ensures Contains(s, Split(s, sep)[k])
    decreases |s|
  {
    var parts := Split(s, sep);
    if |s| < |sep| {
      assert OccursAt(s, parts[k], 0);
    } else if s[..|sep|] == sep {
      if k == 0 {
        assert OccursAt(s, "", 0);
      } else {
        SplitPieceInside(s[|sep|..], sep, k - 1);
        assert s == s[..|sep|] + s[|sep|..];
        ContainsInRight(s[..|sep|], s[|sep|..], parts[k]);
      }
    } else {
      if k == 0 {
        SplitFirstIsPrefix(s, sep);
        assert OccursAt(s, parts[0], 0);
      } else {
        SplitPieceInside(s[1..], sep, k);
        ContainsTail(s, parts[k]);
      }
    }
  }

  /** A string without `p` is left alone by `replace`. */
  lemma {:induction false} ReplaceAbsent(s: string, p: string, r: string)
    requires !Contains(s, p)
    ensures Replace(s, p, r) == s
    decreases |s|
  {
    assert !OccursAt(s, p, 0);
    if |s| < |p| {
    } else {
      if Contains(s[1..], p) {
        ContainsTail(s, p);
      }
      ReplaceAbsent(s[1..], p, r);
    }
  }

  /** `p.replace(p, r) == r`. */
  lemma ReplaceWhole(p: string, r: string)
    requires p != []
    ensures Replace(p, p, r) == r
  {
    assert p[..|p|] == p && p[|p|..] == [];
    assert ReplaceScan([], p, r) == [];
  }

  /**
   * `replace` distributes over a concatenation when no occurrence of the
   * pattern begins in `a` and runs past its end.
   */
  lemma ReplaceConcat(a: string, b: string, p: string, r: string)
    requires p != []
    requires forall i :: |a| - |p| < i < |a| ==> !OccursAt(a + b, p, i)
    ensures Replace(a + b, p, r) == Replace(a, p, r) + Replace(b, p, r)
  {
    ScanConcat(a, b, p, r);
  }

  /** An occurrence in a suffix is an occurrence in the whole, shifted. */
  lemma OccursShift(a: string, b: string, p: string, d: nat, i: int)
    requires d <= |a| && OccursAt(a[d..] + b, p, i)
    ensures OccursAt(a + b, p, d + i)
  {
    assert (a + b)[d..] == a[d..] + b;
    assert (a + b)[d + i..d + i + |p|] == (a[d..] + b)[i..i + |p|];
  }

  /** Dropping the first `d` characters of `a` keeps the no-straddle condition. */
  lemma NoStraddleShift(a: string, b: string, p: string, d: nat)
    requires d <= |a|
    requires forall i :: |a| - |p| < i < |a| ==> !OccursAt(a + b, p, i)
    ensures forall i :: |a[d..]| - |p| < i < |a[d..]| ==> !OccursAt(a[d..] + b, p, i)
  {
    forall i | |a[d..]| - |p| < i < |a[d..]| ensures !OccursAt(a[d..] + b, p, i) {
      if OccursAt(a[d..] + b, p, i) {
        OccursShift(a, b, p, d, i);
      }
    }
  }

  lemma {:induction false} ScanConcat(a: string, b: string, p: string, r: string)
    requires p != []
    requires forall i :: |a| - |p| < i < |a| ==> !OccursAt(a + b, p, i)
    ensures ReplaceScan(a + b, p, r) == ReplaceScan(a, p, r) + ReplaceScan(b, p, r)
    decreases |a|
  {
    var s := a + b;
    if a == [] {
      assert s == b;
    } else if |s| < |p| {
      ReplaceShort(s, p, r);
      ReplaceShort(a, p, r);
      ReplaceShort(b, p, r);
    } else if s[..|p|] == p {
      assert OccursAt(s, p, 0);
      assert |p| <= |a|;
      assert a[..|p|] == p;
      NoStraddleShift(a, b, p, |p|);
      assert s[|p|..] == a[|p|..] + b;
      ScanConcat(a[|p|..], b, p, r);
    } else {
      NoStraddleShift(a, b, p, 1);
      assert s[1..] == a[1..] + b;
      ScanConcat(a[1..], b, p, r);
      if |a| >= |p| {
        assert a[..|p|] == s[..|p|];
      } else {
        ReplaceShort(a, p, r);
        ReplaceShort(a[1..], p, r);
      }
      assert s[0] == a[0];
    }
  }

  lemma ReplaceShort(s: string, p: string, r: string)
    requires p != [] && |s| < |p|
    ensures Replace(s, p, r) == s
  {
  }

  /** Replacing a pattern that occurs puts the replacement into the result; the empty pattern puts it first. */
  lemma ReplaceInserts(s: string, p: string, r: string)
    requires Contains(s, p)
    ensures Contains(Replace(s, p, r), r)
  {
    if p == [] {
      var t := Interleave(s, r);
      assert t[..|r|] == r;
      assert OccursAt(t, r, 0);
    } else {
      ReplaceScanInserts(s, p, r);
    }
  }

  lemma {:induction false} ReplaceScanInserts(s: string, p: string, r: string)
    requires p != [] && Contains(s, p)
    ensures Contains(Replace(s, p, r), r)
    decreases |s|
  {
    var i := PickOccurrence(s, p);
    if s[..|p|] == p {
      assert OccursAt(r + ReplaceScan(s[|p|..], p, r), r, 0);
    } else {
      assert i > 0;
      assert s[1..][i - 1..i - 1 + |p|] == s[i..i + |p|];
      assert OccursAt(s[1..], p, i - 1);
      ReplaceScanInserts(s[1..], p, r);
      ContainsInRight([s[0]], Replace(s[1..], p, r), r);
    }
  }

  // ---------------------------------------------------------------------------
  // strip

  lemma {:induction false} LStripConcat(a: string, b: string)
    requires b != [] && !IsSpace(b[0])
    ensures LStrip(a + b) == LStrip(a) + b
    decreases |a|
  {
    if a == [] {
      assert a + b == b;
    } else if IsSpace(a[0]) {
      assert (a + b)[1..] == a[1..] + b;
      LStripConcat(a[1..], b);
    } else {
      assert (a + b)[0] == a[0];
    }
  }

  lemma {:induction false} RStripConcat(a: string, b: string)
    requires a != [] && !IsSpace(a[|a| - 1])
    ensures RStrip(a + b) == a + RStrip(b)
    decreases |b|
  {
    if b == [] {
      assert a + b == a;
    } else if IsSpace(b[|b| - 1]) {
      assert (a + b)[..|a + b| - 1] == a + b[..|b| - 1];
      RStripConcat(a, b[..|b| - 1]);
    } else {
      assert (a + b)[|a + b| - 1] == b[|b| - 1];
    }
  }

  /** What `lstrip` keeps is a suffix of the input. */
  lemma {:induction false} LStripInside(s: string, w: string)
    requires Contains(LStrip(s), w)
    ensures Contains(s, w)
    decreases |s|
  {
    if |s| > 0 && IsSpace(s[0]) {
      LStripInside(s[1..], w);
      ContainsTail(s, w);
    }
  }

  /** What `rstrip` keeps is a prefix of the input. */
  lemma {:induction false} RStripInside(s: string, w: string)
    requires Contains(RStrip(s), w)
    ensures Contains(s, w)
    decreases |s|
  {
    if |s| > 0 && IsSpace(s[|s| - 1]) {
      RStripInside(s[..|s| - 1], w);
      ContainsInit(s, w);
    }
  }

  /**
   * `s.strip()` is the part of `s` between its leading and its trailing
   * whitespace: it starts and ends with a non-space character, and an
   * occurrence in `s` whose two ends are not spaces survives it.
   */
  lemma {:induction false} StripKeepsInner(s: string, w: string, i: int)
    requires OccursAt(s, w, i) && |w| > 0
    requires !IsSpace(w[0]) && !IsSpace(w[|w| - 1])
    ensures Contains(Strip(s), w)
  {
    var pre, post := s[..i], s[i + |w|..];
    assert s == pre + (w + post);
    LStripConcat(pre, w + post);
    assert LStrip(s) == LStrip(pre) + w + post;
    RStripConcat(LStrip(pre) + w, post);
    assert Strip(s) == LStrip(pre) + w + RStrip(post);
    assert OccursAt(Strip(s), w, |LStrip(pre)|);
  }

  lemma {:induction false} LStripEnds(s: string)
    ensures LStrip(s) == [] || !IsSpace(LStrip(s)[0])
    decreases |s|
  {
    if |s| > 0 && IsSpace(s[0]) {
      LStripEnds(s[1..]);
    }
  }

  lemma {:induction false} RStripEnds(s: string)
    ensures RStrip(s) == [] || !IsSpace(RStrip(s)[|RStrip(s)| - 1])
    decreases |s|
  {
    if |s| > 0 && IsSpace(s[|s| - 1]) {
      RStripEnds(s[..|s| - 1]);
    }
  }

  lemma {:induction false} RStripKeepsHead(s: string)
    requires s != [] && !IsSpace(s[0])
    ensures RStrip(s) != [] && RStrip(s)[0] == s[0]
    decreases |s|
  {
    if IsSpace(s[|s| - 1]) {
      RStripKeepsHead(s[..|s| - 1]);
    }
  }

  /** The result of `strip()` neither starts nor ends with whitespace. */
  lemma StripEnds(s: string)
    ensures Strip(s) == [] || (!IsSpace(Strip(s)[0]) && !IsSpace(Strip(s)[|Strip(s)| - 1]))
  {
    LStripEnds(s);
    RStripEnds(LStrip(s));
    if LStrip(s) != [] {
      RStripKeepsHead(LStrip(s));
    }
  }
}
