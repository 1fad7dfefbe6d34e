/**
 The description cleaner (`_clean_lines`) and the tail of
 `extract_description`: every paragraph is normalised, paragraphs that carry
 a footer, call-to-action or contact phrase are dropped, repeats are removed
 keeping the first occurrence, and what is left is joined with newlines and
 cut to 6000 characters.
 */
module Lines {
  import opened Common
  import opened Text

  /** `STOP_STRINGS`: phrases that mark a paragraph as site chrome rather
      than part of the property description. */
  const StopStrings: seq<string> := [
    "Ihre Anfrage", "Exposé anfordern", "Neueste Immobilien", "Teilen auf",
    "Datenschutz", "Impressum", "designed by wavepoint",
    "Ansprechpartner", "Kontaktieren Sie uns", "Zur Objektanfrage",
    "msi-hessen.de"
  ]

  /** The longest description handed on to the record. */
  const MaxDescription: nat := 6000

  /** Some stop phrase occurs in `t`, ignoring case. */
  predicate HasStopString(t: string) {
    exists k :: 0 <= k < |StopStrings| && Contains(Lower(t), Lower(StopStrings[k]))
  }

  /** A raw paragraph that the filters let through: non-empty as given, and
      after normalising free of stop phrases and of phone numbers or e-mail
      addresses (`contact` stands for the two contact regular expressions). */
  predicate Survives(t: string, contact: string -> bool) {
    t != "" && !HasStopString(Norm(t)) && !contact(Norm(t))
  }

  /** The normalised paragraphs that pass the filters, in input order and
      with repeats. */
  function Filtered(lines: seq<string>, contact: string -> bool): (r: seq<string>)
    ensures forall k :: 0 <= k < |r| ==> IsNormal(r[k]) && !HasStopString(r[k]) && !contact(r[k])
  {
    if lines == [] then []
    else
      var rest := Filtered(lines[..|lines| - 1], contact);
      var t := lines[|lines| - 1];
      if Survives(t, contact) then rest + [Norm(t)] else rest
  }

  /** The images under `g` of the elements of `xs` that `keep` accepts. */
  function KeptImages<T, U>(xs: seq<T>, keep: T -> bool, g: T -> U): seq<U> {
    if xs == [] then []
    else
      var rest := KeptImages(xs[..|xs| - 1], keep, g);
      if keep(xs[|xs| - 1]) then rest + [g(xs[|xs| - 1])] else rest
  }

  lemma {:induction false} KeptImagesMembers<T, U>(xs: seq<T>, keep: T -> bool, g: T -> U, x: U)
    ensures x in KeptImages(xs, keep, g) <==> exists i :: 0 <= i < |xs| && keep(xs[i]) && x == g(xs[i])
    decreases |xs|
  {
    if xs != [] {
      var init := xs[..|xs| - 1];
      KeptImagesMembers(init, keep, g, x);
      assert forall i :: 0 <= i < |init| ==> init[i] == xs[i];
    }
  }

  function SurvivesFn(contact: string -> bool): string -> bool {
    (t: string) => Survives(t, contact)
  }

  function NormFn(): string -> string {
    (t: string) => Norm(t)
  }

  lemma {:induction false} FilteredIsKeptImages(lines: seq<string>, contact: string -> bool)
    ensures Filtered(lines, contact) == KeptImages(lines, SurvivesFn(contact), NormFn())
    decreases |lines|
  {
    if lines != [] {
      FilteredIsKeptImages(lines[..|lines| - 1], contact);
    }
  }

  /** A line is kept by the filters exactly when it is the normal form of
      some input paragraph that survives them. */
  lemma FilteredMembers(lines: seq<string>, contact: string -> bool, x: string)
    ensures x in Filtered(lines, contact) <==> exists i :: 0 <= i < |lines| && Survives(lines[i], contact) && x == Norm(lines[i])
  {
    FilteredIsKeptImages(lines, contact);
    KeptImagesMembers(lines, SurvivesFn(contact), NormFn(), x);
    assert forall i :: 0 <= i < |lines| ==> SurvivesFn(contact)(lines[i]) == Survives(lines[i], contact) && NormFn()(lines[i]) == Norm(lines[i]);
  }

  /** The elements of `xs` with every repeat after the first removed. */
  function Dedup<T(==,!new)>(xs: seq<T>): (r: seq<T>)
    ensures Distinct(r)
    ensures forall x :: x in r <==> x in xs
  {
    if xs == [] then []
    else
      var init := xs[..|xs| - 1];
      var rest := Dedup(init);
      var x := xs[|xs| - 1];
      assert xs == init + [x];
      if x in rest then rest else rest + [x]
  }

  /** `_clean_lines(lines)`. */
  function CleanedLines(lines: seq<string>, contact: string -> bool): seq<string> {
    Dedup(Filtered(lines, contact))
  }

  /** `_clean_lines` as the loop it is written as, with the `seen` set. The
      output has no repeats, only normalised lines free of stop phrases and
      contact data, and exactly the lines of the input that survive. */
  method CleanLines(lines: seq<string>, contact: string -> bool) returns (out: seq<string>)
    ensures out == CleanedLines(lines, contact)
    ensures Distinct(out)
    ensures forall k :: 0 <= k < |out| ==> IsNormal(out[k]) && !HasStopString(out[k]) && !contact(out[k])
  {
    out := [];
    var seen: set<string> := {};
    for i := 0 to |lines|
      invariant out == Dedup(Filtered(lines[..i], contact))
      invariant forall x :: x in seen <==> x in out
    {
      assert lines[..i + 1][..i] == lines[..i];
      var t := lines[i];
      if t == "" {
        continue;
      }
      t := Norm(t);
      if HasStopString(t) {
        continue;
      }
      if contact(t) {
        continue;
      }
      ghost var f := Filtered(lines[..i], contact);
      assert Filtered(lines[..i + 1], contact) == f + [t];
      assert (f + [t])[..|f|] == f;
      if t !in seen {
        out := out + [t];
        seen := seen + {t};
      }
    }
    assert lines[..|lines|] == lines;
    CleanedLinesAreClean(lines, contact);
  }

  /** Python's `sep.join(ls)`. */
  function Join(ls: seq<string>, sep: string): string {
    if ls == [] then ""
    else if |ls| == 1 then ls[0]
    else ls[0] + sep + Join(ls[1..], sep)
  }

  /** The cleaned paragraphs joined by newlines, cut to the first 6000
      characters. */
  function Description(lines: seq<string>, contact: string -> bool): (d: string)
    ensures |d| <= MaxDescription
    ensures d <= Join(CleanedLines(lines, contact), "\n")
    ensures var whole := Join(CleanedLines(lines, contact), "\n");
      |d| == if |whole| <= MaxDescription then |whole| else MaxDescription
  {
    var whole := Join(CleanedLines(lines, contact), "\n");
    if |whole| <= MaxDescription then whole else whole[..MaxDescription]
  }

  lemma {:induction false} IndexOfSnoc<T>(p: seq<T>, z: T, x: T)
    requires x in p + [z]
    ensures IndexOf(p + [z], x) == if x in p then IndexOf(p, x) else |p|
    decreases |p|
  {
    if p != [] {
      assert (p + [z])[0] == p[0];
      assert (p + [z])[1..] == p[1..] + [z];
      if p[0] != x {
        IndexOfSnoc(p[1..], z, x);
      }
    }
  }

  /** Deduplication keeps the order in which elements are first seen: of two
      surviving elements, the one seen first in the input comes first. */
  lemma {:induction false} DedupKeepsFirstSeenOrder<T(!new)>(xs: seq<T>, x: T, y: T)
    requires x in xs && y in xs
    ensures x in Dedup(xs) && y in Dedup(xs)
    ensures IndexOf(Dedup(xs), x) < IndexOf(Dedup(xs), y) <==> IndexOf(xs, x) < IndexOf(xs, y)
    decreases |xs|
  {
    var p := xs[..|xs| - 1];
    var z := xs[|xs| - 1];
    assert xs == p + [z];
    var r' := Dedup(p);
    IndexOfSnoc(p, z, x);
    IndexOfSnoc(p, z, y);
    if z in r' {
      assert Dedup(xs) == r';
    } else {
      assert Dedup(xs) == r' + [z];
    }
    if x in p {
      IndexOfSnoc(r', z, x);
    }
    if y in p {
      IndexOfSnoc(r', z, y);
    }
    if x in p && y in p {
      DedupKeepsFirstSeenOrder(p, x, y);
    }
  }

  /** `_clean_lines` keeps first-seen order. */
  lemma CleanLinesFirstSeenOrder(lines: seq<string>, contact: string -> bool, x: string, y: string)
    requires x in CleanedLines(lines, contact) && y in CleanedLines(lines, contact)
    ensures var f := Filtered(lines, contact);
      IndexOf(CleanedLines(lines, contact), x) < IndexOf(CleanedLines(lines, contact), y)
      <==> IndexOf(f, x) < IndexOf(f, y)
  {
    DedupKeepsFirstSeenOrder(Filtered(lines, contact), x, y);
  }

  lemma {:induction false} FilteredFixesClean(xs: seq<string>, contact: string -> bool)
    requires "" !in xs
    requires forall k :: 0 <= k < |xs| ==> IsNormal(xs[k]) && !HasStopString(xs[k]) && !contact(xs[k])
    ensures Filtered(xs, contact) == xs
    decreases |xs|
  {
    if xs != [] {
      var p := xs[..|xs| - 1];
      var z := xs[|xs| - 1];
      assert xs == p + [z];
      FilteredFixesClean(p, contact);
      NormFixpoints(z);
      assert Norm(z) == z;
      assert Survives(z, contact);
    }
  }

  lemma {:induction false} DedupFixesDistinct<T(!new)>(xs: seq<T>)
    requires Distinct(xs)
    ensures Dedup(xs) == xs
    decreases |xs|
  {
    if xs != [] {
      var p := xs[..|xs| - 1];
      var z := xs[|xs| - 1];
      assert xs == p + [z];
      DedupFixesDistinct(p);
      assert z !in p;
    }
  }

  /** Lines that are already clean pass through `_clean_lines` unchanged. */
  lemma CleanLinesFixesClean(xs: seq<string>, contact: string -> bool)
    requires Distinct(xs) && "" !in xs
    requires forall k :: 0 <= k < |xs| ==> IsNormal(xs[k]) && !HasStopString(xs[k]) && !contact(xs[k])
    ensures CleanedLines(xs, contact) == xs
  {
    FilteredFixesClean(xs, contact);
    DedupFixesDistinct(xs);
  }

  /** Cleaning is idempotent whenever no blank line is left after the first
      pass. */
  lemma CleanLinesIdempotent(lines: seq<string>, contact: string -> bool)
    requires "" !in CleanedLines(lines, contact)
    ensures CleanedLines(CleanedLines(lines, contact), contact) == CleanedLines(lines, contact)
  {
    CleanedLinesAreClean(lines, contact);
    CleanLinesFixesClean(CleanedLines(lines, contact), contact);
  }

  lemma BlankNormalisesToEmpty()
    ensures Norm(" ") == ""
  {
    assert IsSpace(" "[0]) && " "[1..] == "";
    assert TrimStart(" ") == TrimStart("") == "";
    assert TrimEnd("") == "";
    assert Strip(" ") == "";
    assert Collapse("") == "";
  }

  lemma EmptyHasNoStopString()
    ensures !HasStopString("")
  {
    forall k | 0 <= k < |StopStrings| ensures !Contains(Lower(""), Lower(StopStrings[k])) {
      assert |StopStrings[k]| > 0;
    }
  }

  /** The emptiness test comes before normalising, so a paragraph of
      whitespace only survives as an empty line. */
  lemma BlankLineSurvives(contact: string -> bool)
    requires !contact("")
    ensures CleanedLines([" "], contact) == [""]
  {
    BlankNormalisesToEmpty();
    EmptyHasNoStopString();
    assert Survives(" ", contact);
    assert [" "][..0] == [];
    assert Filtered([" "], contact) == [""];
    assert Dedup([""]) == [""] by {
      assert [""][..0] == [];
    }
  }

  lemma LowerAppend(a: string, b: string)
    ensures Lower(a + b) == Lower(a) + Lower(b)
  {
  }

  lemma LowerPrefix(s: string, n: nat)
    requires n <= |s|
    ensures Lower(s[..n]) == Lower(s)[..n]
  {
  }

  /** An occurrence of `x` in `a + "\n" + b` lies within `a`, within `b`, or
      covers the newline. */
  lemma ContainsAcrossNewline(a: string, b: string, x: string)
    requires Contains(a + "\n" + b, x)
    ensures Contains(a, x) || Contains(b, x) || '\n' in x
  {
    var t := a + "\n" + b;
    var i :| 0 <= i <= |t| && x <= t[i..];
    if i + |x| <= |a| {
      assert x <= a[i..];
    } else if i > |a| {
      assert x <= b[i - |a| - 1..];
    } else {
      assert x[|a| - i] == t[|a|] == '\n';
    }
  }

  lemma ContainsInPrefix(t: string, n: nat, x: string)
    requires n <= |t| && Contains(t[..n], x)
    ensures Contains(t, x)
  {
    var i :| 0 <= i <= n && x <= t[..n][i..];
    assert x <= t[i..];
  }

  /** A newline-free text found in the lower-cased join of some lines is
      found in the lower-cased form of one of the lines. */
  lemma {:induction false} JoinContains(ls: seq<string>, x: string)
    requires '\n' !in x && x != []
    requires Contains(Lower(Join(ls, "\n")), x)
    ensures exists k :: 0 <= k < |ls| && Contains(Lower(ls[k]), x)
    decreases |ls|
  {
    if |ls| == 1 {
      assert Contains(Lower(ls[0]), x);
    } else {
      var rest := Join(ls[1..], "\n");
      LowerAppend(ls[0] + "\n", rest);
      LowerAppend(ls[0], "\n");
      assert Lower("\n") == "\n";
      ContainsAcrossNewline(Lower(ls[0]), Lower(rest), x);
      if !Contains(Lower(ls[0]), x) {
        JoinContains(ls[1..], x);
        var k :| 0 <= k < |ls[1..]| && Contains(Lower(ls[1..][k]), x);
        assert ls[1..][k] == ls[k + 1];
      }
    }
  }

  /** No stop phrase holds a line break: the first six, then the rest. */
  lemma EarlyStopStringsHaveNoNewline(k: nat)
    requires k < 6
    ensures '\n' !in StopStrings[k]
  {
  }

  lemma LateStopStringsHaveNoNewline(k: nat)
    requires 6 <= k < |StopStrings|
    ensures '\n' !in StopStrings[k]
  {
  }

  lemma LowerKeepsNewlineOut(s: string)
    requires '\n' !in s
    ensures '\n' !in Lower(s)
  {
    forall i | 0 <= i < |s| ensures Lower(s)[i] != '\n' {
      assert Lower(s)[i] == LowerChar(s[i]) && s[i] != '\n';
    }
  }

  lemma StopStringsHaveNoNewline(k: nat)
    requires k < |StopStrings|
    ensures '\n' !in Lower(StopStrings[k])
  {
    if k < 6 {
      EarlyStopStringsHaveNoNewline(k);
    } else {
      LateStopStringsHaveNoNewline(k);
    }
    LowerKeepsNewlineOut(StopStrings[k]);
  }

  /** Every cleaned line is normal and free of stop phrases and contact
      data. */
  lemma CleanedLinesAreClean(lines: seq<string>, contact: string -> bool)
    ensures forall j :: 0 <= j < |CleanedLines(lines, contact)| ==>
      var t := CleanedLines(lines, contact)[j]; IsNormal(t) && !HasStopString(t) && !contact(t)
  {
    var ls := CleanedLines(lines, contact);
    var f := Filtered(lines, contact);
    forall j | 0 <= j < |ls| ensures IsNormal(ls[j]) && !HasStopString(ls[j]) && !contact(ls[j]) {
      assert ls[j] in f;
      var m :| 0 <= m < |f| && f[m] == ls[j];
    }
  }

  /** A newline-free text found in the lower-cased description is found in
      the lower-cased form of one of the cleaned lines. */
  lemma DescriptionContains(lines: seq<string>, contact: string -> bool, x: string)
    requires '\n' !in x && x != []
    ensures Contains(Lower(Description(lines, contact)), x) ==>
      exists j :: 0 <= j < |CleanedLines(lines, contact)| && Contains(Lower(CleanedLines(lines, contact)[j]), x)
  {
    var whole := Join(CleanedLines(lines, contact), "\n");
    if Contains(Lower(Description(lines, contact)), x) {
      if |whole| > MaxDescription {
        LowerPrefix(whole, MaxDescription);
        ContainsInPrefix(Lower(whole), MaxDescription, x);
      }
      JoinContains(CleanedLines(lines, contact), x);
    }
  }

  /** Each of the joined lines occurs in the join. */
  lemma {:induction false} JoinHoldsLines(ls: seq<string>, sep: string, k: nat)
    requires k < |ls|
    ensures Contains(Join(ls, sep), ls[k])
    decreases |ls|
  {
    if |ls| == 1 {
      assert ls[k] <= Join(ls, sep)[0..];
    } else if k == 0 {
      assert ls[0] <= Join(ls, sep)[0..];
    } else {
      var rest := Join(ls[1..], sep);
      JoinHoldsLines(ls[1..], sep, k - 1);
      var i :| 0 <= i <= |rest| && ls[1..][k - 1] <= rest[i..];
      var off := |ls[0]| + |sep|;
      assert Join(ls, sep) == (ls[0] + sep) + rest;
      assert Join(ls, sep)[off + i..] == rest[i..];
    }
  }

  /** When the joined lines fit in 6000 characters nothing is cut: every
      cleaned line occurs in the description. */
  lemma DescriptionHoldsLines(lines: seq<string>, contact: string -> bool)
    requires |Join(CleanedLines(lines, contact), "\n")| <= MaxDescription
    ensures forall j :: 0 <= j < |CleanedLines(lines, contact)| ==>
      Contains(Description(lines, contact), CleanedLines(lines, contact)[j])
  {
    var ls := CleanedLines(lines, contact);
    assert Description(lines, contact) == Join(ls, "\n");
    forall j | 0 <= j < |ls| ensures Contains(Join(ls, "\n"), ls[j]) {
      JoinHoldsLines(ls, "\n", j);
    }
  }

  /** No stop phrase appears anywhere in the description, not even across
      the newline between two paragraphs or in the cut-off tail. */
  lemma DescriptionHasNoStopString(lines: seq<string>, contact: string -> bool)
    ensures !HasStopString(Description(lines, contact))
  {
    var ls := CleanedLines(lines, contact);
    var d := Description(lines, contact);
    CleanedLinesAreClean(lines, contact);
    forall k | 0 <= k < |StopStrings| ensures !Contains(Lower(d), Lower(StopStrings[k])) {
      var x := Lower(StopStrings[k]);
      StopStringsHaveNoNewline(k);
      assert x != [] by {
        assert |StopStrings[k]| > 0;
      }
      DescriptionContains(lines, contact, x);
      assert forall j :: 0 <= j < |ls| ==> !Contains(Lower(ls[j]), x);
    }
  }
}
