/**
 The text normaliser of the scraper (`_norm`): strip both ends, then replace
 every run of two or more whitespace characters by one blank. Whitespace is
 Python's notion of it (`str.isspace`), which is also what `str.strip()`
 removes and what the regular-expression class `\s` matches on `str`.
 */
module Text {
  import opened Common

  /** Python's `str.isspace()` for one character. */
  predicate IsSpace(c: char) {
    var n := c as int;
    || 0x09 <= n <= 0x0D
    || 0x1C <= n <= 0x20
    || n == 0x85
    || n == 0xA0
    || n == 0x1680
    || 0x2000 <= n <= 0x200A
    || n == 0x2028
    || n == 0x2029
    || n == 0x202F
    || n == 0x205F
    || n == 0x3000
  }

  /** Neither end of `t` is whitespace. */
  predicate Trimmed(t: string) {
    t == [] || (!IsSpace(t[0]) && !IsSpace(t[|t| - 1]))
  }

  /** No two neighbouring characters of `t` are both whitespace. */
  predicate NoDoubleSpace(t: string) {
    forall i :: 0 <= i < |t| - 1 ==> !(IsSpace(t[i]) && IsSpace(t[i + 1]))
  }

  /** What `_norm` guarantees of its output. */
  predicate IsNormal(t: string) {
    Trimmed(t) && NoDoubleSpace(t)
  }

  /** The non-whitespace characters of `s`, in order. */
  function Visible(s: string): string {
    if s == [] then [] else (if IsSpace(s[0]) then [] else [s[0]]) + Visible(s[1..])
  }

  /** `str.lstrip()`: drops the leading whitespace and nothing else. */
  function TrimStart(s: string): (r: string)
    ensures |r| <= |s| && r == s[|s| - |r|..]
    ensures forall i :: 0 <= i < |s| - |r| ==> IsSpace(s[i])
    ensures r == [] || !IsSpace(r[0])
  {
    if |s| > 0 && IsSpace(s[0]) then TrimStart(s[1..]) else s
  }

  /** `str.rstrip()`: drops the trailing whitespace and nothing else. */
  function TrimEnd(s: string): (r: string)
    ensures |r| <= |s| && r == s[..|r|]
    ensures forall i :: |r| <= i < |s| ==> IsSpace(s[i])
    ensures r == [] || !IsSpace(r[|r| - 1])
  {
    if |s| > 0 && IsSpace(s[|s| - 1]) then TrimEnd(s[..|s| - 1]) else s
  }

  /** `r` is `s` with a whitespace-only prefix of length `i` and a
      whitespace-only suffix cut off. */
  ghost predicate CutFrom(s: string, r: string, i: nat) {
    && i + |r| <= |s|
    && r == s[i..i + |r|]
    && (forall k :: 0 <= k < i ==> IsSpace(s[k]))
    && (forall k :: i + |r| <= k < |s| ==> IsSpace(s[k]))
  }

  lemma SliceOfSuffix(s: string, i: nat, n: nat)
    requires i + n <= |s|
    ensures s[i..][..n] == s[i..i + n]
  {
  }

  /** Cutting a whitespace prefix and then a whitespace suffix cuts
      whitespace from either side. */
  lemma CutTwice(s: string, t: string, r: string)
    requires |t| <= |s| && t == s[|s| - |t|..] && forall i :: 0 <= i < |s| - |t| ==> IsSpace(s[i])
    requires |r| <= |t| && r == t[..|r|] && forall i :: |r| <= i < |t| ==> IsSpace(t[i])
    ensures CutFrom(s, r, |s| - |t|)
  {
    var i := |s| - |t|;
    SliceOfSuffix(s, i, |r|);
    forall k | i + |r| <= k < |s| ensures IsSpace(s[k]) {
      assert s[k] == t[k - i];
    }
  }

  /** Trimming the start and then the end cuts only whitespace from
      either side. */
  lemma TrimBothCuts(s: string)
    ensures CutFrom(s, TrimEnd(TrimStart(s)), |s| - |TrimStart(s)|)
  {
    CutTwice(s, TrimStart(s), TrimEnd(TrimStart(s)));
  }

  /** Trimming the start and then the end leaves no whitespace at either
      end. */
  lemma TrimBothTrimmed(s: string)
    ensures Trimmed(TrimEnd(TrimStart(s)))
  {
    var t := TrimStart(s);
    var r := TrimEnd(t);
    if r != [] {
      assert r[0] == t[0];
    }
  }

  /** `str.strip()`: the result is a slice of `s` with only whitespace cut
      off either side, and it neither starts nor ends with whitespace. */
  function Strip(s: string): (r: string)
    ensures Trimmed(r)
    ensures exists i :: CutFrom(s, r, i)
  {
    TrimBothCuts(s);
    TrimBothTrimmed(s);
    TrimEnd(TrimStart(s))
  }

  /** The length of the whitespace run `s` starts with. */
  function SpaceRun(s: string): (n: nat)
    ensures n <= |s|
    ensures n < |s| ==> !IsSpace(s[n])
  {
    if |s| > 0 && IsSpace(s[0]) then 1 + SpaceRun(s[1..]) else 0
  }

  lemma {:induction false} SpaceRunSpaces(s: string)
    ensures forall i :: 0 <= i < SpaceRun(s) ==> IsSpace(s[i])
    decreases |s|
  {
    if |s| > 0 && IsSpace(s[0]) {
      SpaceRunSpaces(s[1..]);
      assert forall i :: 1 <= i < SpaceRun(s) ==> s[i] == s[1..][i - 1];
    }
  }

  /** How many characters the collapse consumes at the front of `s`: the
      whole leading whitespace run, or the one visible character. */
  function HeadLen(s: string): (n: nat)
    requires s != []
    ensures 1 <= n <= |s|
    ensures IsSpace(s[0]) ==> n == |s| || !IsSpace(s[n])
  {
    if IsSpace(s[0]) then SpaceRun(s) else 1
  }

  /** What the collapse writes for those characters: one blank for a run of
      two or more, the character itself otherwise. */
  function Head(s: string): (h: string)
    requires s != []
    ensures |h| == 1 && (IsSpace(h[0]) <==> IsSpace(s[0]))
    ensures !IsSpace(s[0]) ==> h[0] == s[0]
  {
    if IsSpace(s[0]) && SpaceRun(s) >= 2 then " " else s[..1]
  }

  /** `re.sub(r"\s{2,}", " ", s)`: every maximal run of two or more
      whitespace characters becomes one blank; a single whitespace character
      is kept as it is. */
  function Collapse(s: string): string
    decreases |s|
  {
    if s == [] then [] else Head(s) + Collapse(s[HeadLen(s)..])
  }

  lemma CollapseStep(s: string)
    requires s != []
    ensures Collapse(s) == Head(s) + Collapse(s[HeadLen(s)..])
  {
  }

  lemma NoDoubleSpaceCons(h: string, rest: string)
    requires |h| == 1 && NoDoubleSpace(rest)
    requires IsSpace(h[0]) && rest != [] ==> !IsSpace(rest[0])
    ensures NoDoubleSpace(h + rest)
  {
    var r := h + rest;
    forall i | 0 <= i < |r| - 1
      ensures !(IsSpace(r[i]) && IsSpace(r[i + 1]))
    {
      if i > 0 {
        assert r[i] == rest[i - 1] && r[i + 1] == rest[i];
      }
    }
  }

  lemma ConsEnds(h: string, rest: string)
    requires h != []
    ensures (h + rest)[0] == h[0]
    ensures (h + rest)[|h + rest| - 1] == if rest == [] then h[|h| - 1] else rest[|rest| - 1]
  {
  }

  /** The collapsed text has no two whitespace characters in a row, is empty
      only for the empty text, and keeps a visible first or last character
      where it was. */
  lemma {:induction false} CollapseShape(s: string)
    ensures var r := Collapse(s);
      && NoDoubleSpace(r)
      && (r == [] <==> s == [])
      && (s != [] && !IsSpace(s[0]) ==> r[0] == s[0])
      && (s != [] && !IsSpace(s[|s| - 1]) ==> r[|r| - 1] == s[|s| - 1])
    decreases |s|
  {
    if s != [] {
      var k := HeadLen(s);
      var t := s[k..];
      CollapseStep(s);
      CollapseShape(t);
      if t != [] {
        assert t[0] == s[k] && t[|t| - 1] == s[|s| - 1];
      } else if !IsSpace(s[0]) {
        assert |s| == 1;
      } else {
        SpaceRunSpaces(s);
        assert IsSpace(s[|s| - 1]);
      }
      NoDoubleSpaceCons(Head(s), Collapse(t));
      ConsEnds(Head(s), Collapse(t));
    }
  }

  /** Collapsing a text with no whitespace at either end gives a normal
      text. */
  lemma CollapseTrimmed(t: string)
    requires Trimmed(t)
    ensures IsNormal(Collapse(t))
  {
    CollapseShape(t);
  }

  /** `_norm(s)`: strip, then collapse whitespace runs. */
  function Norm(s: string): (r: string)
    ensures IsNormal(r)
  {
    CollapseTrimmed(Strip(s));
    Collapse(Strip(s))
  }

  lemma ConcatStep(h: string, ra: string, rb: string, rab: string, ca: string, cab: string)
    requires cab == h + rab && ca == h + ra && rab == ra + rb
    ensures cab == ca + rb
  {
  }

  lemma {:induction false} VisibleAppend(a: string, b: string)
    ensures Visible(a + b) == Visible(a) + Visible(b)
    decreases |a|
  {
    if a == [] {
      assert a + b == b;
    } else {
      var h := if IsSpace(a[0]) then [] else [a[0]];
      assert (a + b)[0] == a[0];
      assert (a + b)[1..] == a[1..] + b;
      VisibleAppend(a[1..], b);
      ConcatStep(h, Visible(a[1..]), Visible(b), Visible(a[1..] + b), Visible(a), Visible(a + b));
    }
  }

  lemma {:induction false} AllSpaceInvisible(s: string)
    requires forall i :: 0 <= i < |s| ==> IsSpace(s[i])
    ensures Visible(s) == []
    decreases |s|
  {
    if s != [] {
      AllSpaceInvisible(s[1..]);
    }
  }

  lemma VisibleSplit(s: string, k: nat)
    requires k <= |s|
    ensures Visible(s) == Visible(s[..k]) + Visible(s[k..])
  {
    assert s == s[..k] + s[k..];
    VisibleAppend(s[..k], s[k..]);
  }

  lemma SpacePrefixInvisible(s: string, k: nat)
    requires k <= |s|
    requires forall i :: 0 <= i < k ==> IsSpace(s[i])
    ensures Visible(s[..k]) == []
  {
    assert forall i :: 0 <= i < k ==> s[..k][i] == s[i];
    AllSpaceInvisible(s[..k]);
  }

  lemma SpaceSuffixInvisible(s: string, k: nat)
    requires k <= |s|
    requires forall i :: k <= i < |s| ==> IsSpace(s[i])
    ensures Visible(s[k..]) == []
  {
    assert forall i :: 0 <= i < |s| - k ==> s[k..][i] == s[k + i];
    AllSpaceInvisible(s[k..]);
  }

  /** Stripping removes whitespace only. */
  lemma StripKeepsVisible(s: string)
    ensures Visible(Strip(s)) == Visible(s)
  {
    var t := TrimStart(s);
    var k := |s| - |t|;
    VisibleSplit(s, k);
    SpacePrefixInvisible(s, k);
    assert s[k..] == t;
    var r := TrimEnd(t);
    VisibleSplit(t, |r|);
    SpaceSuffixInvisible(t, |r|);
    assert t[..|r|] == r;
  }

  /** The characters the collapse consumes at the front and what it writes
      for them hold the same visible characters (none, or the one). */
  lemma HeadVisible(s: string)
    requires s != []
    ensures Visible(Head(s)) == Visible(s[..HeadLen(s)])
  {
    if IsSpace(s[0]) {
      AllSpaceInvisible(Head(s));
      SpaceRunSpaces(s);
      SpacePrefixInvisible(s, HeadLen(s));
    }
  }

  /** Collapsing runs removes whitespace only. */
  lemma {:induction false} CollapseKeepsVisible(s: string)
    ensures Visible(Collapse(s)) == Visible(s)
    decreases |s|
  {
    if s != [] {
      var k := HeadLen(s);
      CollapseStep(s);
      CollapseKeepsVisible(s[k..]);
      VisibleAppend(Head(s), Collapse(s[k..]));
      HeadVisible(s);
      VisibleSplit(s, k);
    }
  }

  /** Cutting between `a` and `b` does not split a whitespace run. */
  predicate SplitsRuns(a: string, b: string) {
    a == [] || b == [] || !IsSpace(a[|a| - 1]) || !IsSpace(b[0])
  }

  lemma {:induction false} SpaceRunAppend(a: string, b: string)
    requires a != [] && IsSpace(a[0]) && SplitsRuns(a, b)
    ensures SpaceRun(a + b) == SpaceRun(a)
    decreases |a|
  {
    var t := a[1..];
    assert (a + b)[0] == a[0];
    assert (a + b)[1..] == t + b;
    if t == [] {
      assert b == [] || !IsSpace(b[0]);
    } else if IsSpace(t[0]) {
      assert t[|t| - 1] == a[|a| - 1];
      SpaceRunAppend(t, b);
    } else {
      assert (t + b)[0] == t[0];
    }
  }

  /** When the cut does not split a run, the collapse treats the front of
      `a + b` exactly as the front of `a`, and the cut still splits no run
      after that front is consumed. */
  lemma HeadAppend(a: string, b: string)
    requires a != [] && SplitsRuns(a, b)
    ensures HeadLen(a + b) == HeadLen(a) && Head(a + b) == Head(a)
    ensures (a + b)[HeadLen(a)..] == a[HeadLen(a)..] + b
    ensures SplitsRuns(a[HeadLen(a)..], b)
  {
    var k := HeadLen(a);
    assert (a + b)[0] == a[0] && (a + b)[..1] == a[..1];
    if IsSpace(a[0]) {
      SpaceRunAppend(a, b);
    }
    if a[k..] != [] {
      assert a[k..][|a[k..]| - 1] == a[|a| - 1];
    }
  }

  lemma CollapseHeadAppend(a: string, b: string)
    requires a != [] && SplitsRuns(a, b)
    ensures Collapse(a + b) == Head(a) + Collapse(a[HeadLen(a)..] + b)
    ensures SplitsRuns(a[HeadLen(a)..], b)
  {
    HeadAppend(a, b);
    CollapseStep(a + b);
  }

  /** Runs do not cross a cut that a visible character borders, so the two
      sides collapse independently. */
  lemma {:induction false} CollapseAppend(a: string, b: string)
    requires SplitsRuns(a, b)
    ensures Collapse(a + b) == Collapse(a) + Collapse(b)
    decreases |a|
  {
    if a == [] {
      assert a + b == b;
    } else {
      var k := HeadLen(a);
      CollapseHeadAppend(a, b);
      CollapseStep(a);
      CollapseAppend(a[k..], b);
      ConcatStep(Head(a), Collapse(a[k..]), Collapse(b), Collapse(a[k..] + b), Collapse(a), Collapse(a + b));
    }
  }

  lemma {:induction false} SpaceRunAll(w: string)
    requires forall i :: 0 <= i < |w| ==> IsSpace(w[i])
    ensures SpaceRun(w) == |w|
    decreases |w|
  {
    if w != [] {
      assert forall i :: 0 <= i < |w[1..]| ==> w[1..][i] == w[i + 1];
      SpaceRunAll(w[1..]);
    }
  }

  /** A whitespace-only text collapses to one blank when it has two or
      more characters, and stays as it is otherwise. */
  lemma CollapseWhitespace(w: string)
    requires w != [] && forall i :: 0 <= i < |w| ==> IsSpace(w[i])
    ensures Collapse(w) == if |w| >= 2 then " " else w
  {
    SpaceRunAll(w);
    CollapseStep(w);
    assert w[|w|..] == [];
    if |w| == 1 {
      assert w[..1] == w;
    }
  }

  lemma ConcatAssoc(x: string, y: string, z: string, yz: string, all: string)
    requires all == x + yz && yz == y + z
    ensures all == x + y + z
  {
  }

  lemma CollapseThree(s: string, left: string, w: string, right: string)
    requires s == left + (w + right)
    requires SplitsRuns(left, w + right) && SplitsRuns(w, right)
    ensures Collapse(s) == Collapse(left) + Collapse(w) + Collapse(right)
  {
    CollapseAppend(left, w + right);
    CollapseAppend(w, right);
    ConcatAssoc(Collapse(left), Collapse(w), Collapse(right), Collapse(w + right), Collapse(s));
  }

  lemma GapParts(a: string, x: char, w: string, y: char, b: string)
    requires !IsSpace(x) && !IsSpace(y) && w != []
    ensures a + [x] + w + [y] + b == (a + [x]) + (w + ([y] + b))
    ensures SplitsRuns(a + [x], w + ([y] + b)) && SplitsRuns(w, [y] + b)
  {
    var left, right := a + [x], [y] + b;
    assert left[|left| - 1] == x && right[0] == y;
  }

  /** The whitespace `w` between two visible characters `x` and `y` becomes
      one blank when it is a run of two or more and is kept when it is a
      single character; the text on either side collapses on its own. */
  lemma CollapseGap(a: string, x: char, w: string, y: char, b: string)
    requires !IsSpace(x) && !IsSpace(y)
    requires w != [] && forall i :: 0 <= i < |w| ==> IsSpace(w[i])
    ensures Collapse(a + [x] + w + [y] + b) == Collapse(a + [x]) + (if |w| >= 2 then " " else w) + Collapse([y] + b)
  {
    GapParts(a, x, w, y, b);
    CollapseThree(a + [x] + w + [y] + b, a + [x], w, [y] + b);
    CollapseWhitespace(w);
  }

  /** `_norm` keeps words apart: inside a text that has no whitespace at
      either end, the whitespace between two visible characters becomes a
      single blank (or stays the single character it is), never nothing. */
  lemma NormGap(a: string, x: char, w: string, y: char, b: string)
    requires !IsSpace(x) && !IsSpace(y)
    requires w != [] && forall i :: 0 <= i < |w| ==> IsSpace(w[i])
    requires a == [] || !IsSpace(a[0])
    requires b == [] || !IsSpace(b[|b| - 1])
    ensures Norm(a + [x] + w + [y] + b) == Norm(a + [x]) + (if |w| >= 2 then " " else w) + Norm([y] + b)
  {
    var left, right := a + [x], [y] + b;
    var s := a + [x] + w + [y] + b;
    assert s == left + (w + right);
    assert left[0] == (if a == [] then x else a[0]) && left[|left| - 1] == x;
    assert right[0] == y && right[|right| - 1] == (if b == [] then y else b[|b| - 1]);
    assert s[0] == left[0] && s[|s| - 1] == right[|right| - 1];
    StripFixesTrimmed(s);
    StripFixesTrimmed(left);
    StripFixesTrimmed(right);
    CollapseGap(a, x, w, y, b);
  }

  /** `_norm` never loses or reorders a visible character. */
  lemma NormKeepsVisible(s: string)
    ensures Visible(Norm(s)) == Visible(s)
  {
    StripKeepsVisible(s);
    CollapseKeepsVisible(Strip(s));
  }

  /** A text without double whitespace is left alone by the collapse. */
  lemma {:induction false} CollapseFixesNoDoubleSpace(s: string)
    requires NoDoubleSpace(s)
    ensures Collapse(s) == s
    decreases |s|
  {
    if s != [] {
      assert NoDoubleSpace(s[1..]) by {
        forall i | 0 <= i < |s[1..]| - 1
          ensures !(IsSpace(s[1..][i]) && IsSpace(s[1..][i + 1]))
        {
          assert s[1..][i] == s[i + 1] && s[1..][i + 1] == s[i + 2];
        }
      }
      assert HeadLen(s) == 1 && Head(s) == s[..1] by {
        if IsSpace(s[0]) {
          assert SpaceRun(s) == 1 by {
            if |s| > 1 {
              assert !IsSpace(s[1]);
            }
          }
        }
      }
      CollapseStep(s);
      CollapseFixesNoDoubleSpace(s[1..]);
      assert s == s[..1] + s[1..];
    }
  }

  /** Stripping leaves a text alone that has no whitespace at either end. */
  lemma StripFixesTrimmed(s: string)
    requires Trimmed(s)
    ensures Strip(s) == s
  {
    assert TrimStart(s) == s;
  }

  /** `_norm` changes exactly the texts that are not already normal: it
      fixes every normal text, and its output is always normal. */
  lemma NormFixpoints(s: string)
    ensures Norm(s) == s <==> IsNormal(s)
  {
    if IsNormal(s) {
      StripFixesTrimmed(s);
      CollapseFixesNoDoubleSpace(s);
    }
  }

  /** Applying `_norm` twice is the same as applying it once. */
  lemma NormIdempotent(s: string)
    ensures Norm(Norm(s)) == Norm(s)
  {
    NormFixpoints(Norm(s));
  }

  /** Python's `str.lower()` on one character, for the Latin-1 range: ASCII
      capitals and the Latin-1 capitals other than the multiplication sign. */
  function LowerChar(c: char): char {
    if 'A' <= c <= 'Z' || ('\U{00C0}' <= c <= '\U{00DE}' && c != '\U{00D7}') then
      (c as int + 32) as char
    else
      c
  }

  /** `str.lower()`, character by character. */
  function Lower(s: string): (r: string)
    ensures |r| == |s|
    ensures forall i :: 0 <= i < |s| ==> r[i] == LowerChar(s[i])
  {
    seq(|s|, i requires 0 <= i < |s| => LowerChar(s[i]))
  }
}
