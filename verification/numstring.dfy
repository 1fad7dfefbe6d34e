/**
 `_normalize_numstring`: the rewrite that turns a German-style amount such
 as "479.000,00" into a dotted decimal such as "479000.00" before it is read
 as a number. Thousands separators are periods or one of the three thin
 spaces; the decimal separator is a comma.
 */
module NumString {
  import opened Common
  import opened Text

  /** The separators the scraper treats as thin spaces (`THIN_SPACES`):
      no-break space, narrow no-break space and thin space, in that order. */
  const NoBreakSpace: char := '\U{00A0}'
  const NarrowNoBreakSpace: char := '\U{202F}'
  const ThinSpace: char := '\U{2009}'

  predicate IsThin(c: char) {
    c == NoBreakSpace || c == NarrowNoBreakSpace || c == ThinSpace
  }

  /** ASCII decimal digit. */
  predicate IsDigit(c: char) {
    '0' <= c <= '9'
  }

  predicate AllDigits(s: string) {
    forall i :: 0 <= i < |s| ==> IsDigit(s[i])
  }

  /** The decimal digits of `s`, in order. */
  function Digits(s: string): string {
    if s == [] then [] else (if IsDigit(s[0]) then [s[0]] else []) + Digits(s[1..])
  }

  /** `s.replace(c, "")`: drops every `c` and keeps every other character
      in its order. */
  function RemoveChar(s: string, c: char): (r: string)
    ensures c !in r
    ensures c !in s ==> r == s
  {
    if s == [] then [] else (if s[0] == c then [] else [s[0]]) + RemoveChar(s[1..], c)
  }

  /** `s.replace(a, b)` for single characters. */
  function ReplaceChar(s: string, a: char, b: char): (r: string)
    ensures |r| == |s|
    ensures forall i :: 0 <= i < |s| ==> r[i] == (if s[i] == a then b else s[i])
  {
    seq(|s|, i requires 0 <= i < |s| => if s[i] == a then b else s[i])
  }

  /** `s.rsplit(c, 1)[-1]`: the longest suffix of `s` without `c`, which is
      everything after the last `c`, or all of `s` when it has none. */
  function AfterLast(s: string, c: char): (r: string)
    ensures |r| <= |s| && r == s[|s| - |r|..]
    ensures c !in r
    ensures |r| < |s| ==> s[|s| - |r| - 1] == c
  {
    if s == [] then []
    else if s[|s| - 1] == c then []
    else AfterLast(s[..|s| - 1], c) + [s[|s| - 1]]
  }

  /** The test on the last period group: `last.isdigit() and len(last) in (3, 6)`. */
  predicate IsThousandsGroup(g: string) {
    (|g| == 3 || |g| == 6) && AllDigits(g)
  }

  /** `for ch in THIN_SPACES: s = s.replace(ch, "")`. */
  function DropThinSpaces(s: string): string {
    RemoveChar(RemoveChar(RemoveChar(s, NoBreakSpace), NarrowNoBreakSpace), ThinSpace)
  }

  /** The text the separator rules look at: stripped, thin spaces removed. */
  function Cleaned(s: string): string {
    DropThinSpaces(Strip(s))
  }

  /** The separator rules, applied to the cleaned text `t`. */
  function Rewrite(t: string): string {
    if ',' in t && '.' in t then ReplaceChar(RemoveChar(t, '.'), ',', '.')
    else if ',' in t then ReplaceChar(t, ',', '.')
    else if '.' in t && IsThousandsGroup(AfterLast(t, '.')) then RemoveChar(t, '.')
    else t
  }

  /** `_normalize_numstring(s)`. */
  function NormalizeNumString(s: string): string {
    if s == "" then "" else Rewrite(Cleaned(s))
  }

  /** Removing one character never brings in another. */
  lemma {:induction false} RemoveCharKeepsAbsent(s: string, c: char, d: char)
    requires d !in s
    ensures d !in RemoveChar(s, c)
    decreases |s|
  {
    if s != [] {
      RemoveCharKeepsAbsent(s[1..], c, d);
    }
  }

  /** Removing the three thin spaces leaves none of them. */
  lemma DropThinSpacesNoThin(x: string)
    ensures var d := DropThinSpaces(x);
      NoBreakSpace !in d && NarrowNoBreakSpace !in d && ThinSpace !in d
  {
    var a := RemoveChar(x, NoBreakSpace);
    var b := RemoveChar(a, NarrowNoBreakSpace);
    RemoveCharKeepsAbsent(a, NarrowNoBreakSpace, NoBreakSpace);
    RemoveCharKeepsAbsent(b, ThinSpace, NoBreakSpace);
    RemoveCharKeepsAbsent(b, ThinSpace, NarrowNoBreakSpace);
  }

  /** The separator rules bring in no thin space and leave no comma. */
  lemma RewriteDropsSeparators(t: string)
    requires NoBreakSpace !in t && NarrowNoBreakSpace !in t && ThinSpace !in t
    ensures var r := Rewrite(t);
      ',' !in r && NoBreakSpace !in r && NarrowNoBreakSpace !in r && ThinSpace !in r
  {
    if ',' in t && '.' in t {
      var u := RemoveChar(t, '.');
      RemoveCharKeepsAbsent(t, '.', NoBreakSpace);
      RemoveCharKeepsAbsent(t, '.', NarrowNoBreakSpace);
      RemoveCharKeepsAbsent(t, '.', ThinSpace);
    } else if ',' !in t && '.' in t && IsThousandsGroup(AfterLast(t, '.')) {
      RemoveCharKeepsAbsent(t, '.', NoBreakSpace);
      RemoveCharKeepsAbsent(t, '.', NarrowNoBreakSpace);
      RemoveCharKeepsAbsent(t, '.', ThinSpace);
      RemoveCharKeepsAbsent(t, '.', ',');
    }
  }

  /** The empty text stays empty, and the result never holds a comma or any
      of the three thin spaces. */
  lemma NormalizeDropsSeparators(s: string)
    ensures s == "" ==> NormalizeNumString(s) == ""
    ensures ',' !in NormalizeNumString(s)
    ensures forall i :: 0 <= i < |NormalizeNumString(s)| ==> !IsThin(NormalizeNumString(s)[i])
  {
    if s != "" {
      DropThinSpacesNoThin(Strip(s));
      RewriteDropsSeparators(Cleaned(s));
    }
  }

  /** Periods without a comma: they are all removed exactly when the group
      after the last one is three or six digits long; otherwise the cleaned
      text is returned unchanged. */
  lemma PeriodsOnly(s: string)
    requires ',' !in Cleaned(s) && '.' in Cleaned(s)
    ensures '.' !in NormalizeNumString(s) <==> IsThousandsGroup(AfterLast(Cleaned(s), '.'))
    ensures IsThousandsGroup(AfterLast(Cleaned(s), '.')) ==> NormalizeNumString(s) == RemoveChar(Cleaned(s), '.')
    ensures !IsThousandsGroup(AfterLast(Cleaned(s), '.')) ==> NormalizeNumString(s) == Cleaned(s)
  {
  }

  // ---- digits survive the rewrite -------------------------------------------

  lemma {:induction false} DigitsAppend(a: string, b: string)
    ensures Digits(a + b) == Digits(a) + Digits(b)
    decreases |a|
  {
    if a == [] {
      assert a + b == b;
    } else {
      var h := if IsDigit(a[0]) then [a[0]] else [];
      assert (a + b)[0] == a[0];
      assert (a + b)[1..] == a[1..] + b;
      assert Digits(a + b) == h + Digits(a[1..] + b);
      assert Digits(a) == h + Digits(a[1..]);
      DigitsAppend(a[1..], b);
    }
  }

  /** Whitespace holds no digits, so the visible text has all of them. */
  lemma {:induction false} DigitsOfVisible(s: string)
    ensures Digits(Visible(s)) == Digits(s)
    decreases |s|
  {
    if s != [] {
      DigitsOfVisible(s[1..]);
      var head := if IsSpace(s[0]) then [] else [s[0]];
      DigitsAppend(head, Visible(s[1..]));
    }
  }

  lemma {:induction false} RemoveCharKeepsDigits(s: string, c: char)
    requires !IsDigit(c)
    ensures Digits(RemoveChar(s, c)) == Digits(s)
    decreases |s|
  {
    if s != [] {
      RemoveCharKeepsDigits(s[1..], c);
      var head := if s[0] == c then [] else [s[0]];
      DigitsAppend(head, RemoveChar(s[1..], c));
    }
  }

  lemma {:induction false} ReplaceCharKeepsDigits(s: string, a: char, b: char)
    requires !IsDigit(a) && !IsDigit(b)
    ensures Digits(ReplaceChar(s, a, b)) == Digits(s)
    decreases |s|
  {
    if s != [] {
      var r := ReplaceChar(s, a, b);
      assert r[1..] == ReplaceChar(s[1..], a, b);
      ReplaceCharKeepsDigits(s[1..], a, b);
    }
  }

  /** Stripping and removing thin spaces keep every digit. */
  lemma CleanedKeepsDigits(s: string)
    ensures Digits(Cleaned(s)) == Digits(s)
  {
    StripKeepsVisible(s);
    DigitsOfVisible(s);
    DigitsOfVisible(Strip(s));
    var a := RemoveChar(Strip(s), NoBreakSpace);
    var b := RemoveChar(a, NarrowNoBreakSpace);
    RemoveCharKeepsDigits(Strip(s), NoBreakSpace);
    RemoveCharKeepsDigits(a, NarrowNoBreakSpace);
    RemoveCharKeepsDigits(b, ThinSpace);
  }

  /** The rewrite only touches separators: the digits of the result are the
      digits of the input, in the same order. */
  lemma NormalizeKeepsDigits(s: string)
    ensures Digits(NormalizeNumString(s)) == Digits(s)
  {
    if s != "" {
      CleanedKeepsDigits(s);
      var t := Cleaned(s);
      if ',' in t && '.' in t {
        RemoveCharKeepsDigits(t, '.');
        ReplaceCharKeepsDigits(RemoveChar(t, '.'), ',', '.');
      } else if ',' in t {
        ReplaceCharKeepsDigits(t, ',', '.');
      } else if '.' in t && IsThousandsGroup(AfterLast(t, '.')) {
        RemoveCharKeepsDigits(t, '.');
      }
    }
  }

  // ---- every number of the euro-number shape is read as intended -----------

  /** One thousands group of `RE_EUR_NUMBER`: a separator (period or thin
      space) and three digits. */
  datatype Group = Group(sep: char, digits: string)

  /** The shape `RE_EUR_NUMBER` matches: one to three leading digits, any
      number of thousands groups, and optionally a comma with two decimals. */
  datatype EuroNumber = EuroNumber(lead: string, groups: seq<Group>, cents: Option<string>)

  predicate WellFormedGroup(g: Group) {
    (g.sep == '.' || IsThin(g.sep)) && |g.digits| == 3 && AllDigits(g.digits)
  }

  predicate WellFormedGroups(gs: seq<Group>) {
    forall i :: 0 <= i < |gs| ==> WellFormedGroup(gs[i])
  }

  predicate WellFormed(m: EuroNumber) {
    && 1 <= |m.lead| <= 3
    && AllDigits(m.lead)
    && WellFormedGroups(m.groups)
    && (m.cents.Some? ==> |m.cents.value| == 2 && AllDigits(m.cents.value))
  }

  /** Some thousands separator is a period. */
  predicate HasPeriod(gs: seq<Group>) {
    exists i :: 0 <= i < |gs| && gs[i].sep == '.'
  }

  /** How many groups at the end are separated by thin spaces. */
  function ThinTail(gs: seq<Group>): nat {
    if gs == [] || gs[|gs| - 1].sep == '.' then 0 else 1 + ThinTail(gs[..|gs| - 1])
  }

  function RenderGroups(gs: seq<Group>): string {
    if gs == [] then "" else RenderGroups(gs[..|gs| - 1]) + [gs[|gs| - 1].sep] + gs[|gs| - 1].digits
  }

  function CentsText(m: EuroNumber): string {
    match m.cents
    case None => ""
    case Some(c) => "," + c
  }

  /** The text of the number as it appears on a page. */
  function Render(m: EuroNumber): string {
    m.lead + RenderGroups(m.groups) + CentsText(m)
  }

  /** What is left of a group's separator once thin spaces are dropped. */
  function SepText(g: Group): string {
    if g.sep == '.' then "." else ""
  }

  /** The groups with the thin-space separators dropped. */
  function PeriodGroups(gs: seq<Group>): string {
    if gs == [] then "" else PeriodGroups(gs[..|gs| - 1]) + SepText(gs[|gs| - 1]) + gs[|gs| - 1].digits
  }

  function GroupDigits(gs: seq<Group>): string {
    if gs == [] then "" else GroupDigits(gs[..|gs| - 1]) + gs[|gs| - 1].digits
  }

  /** The digits of the last period group and of the thin-space groups behind it. */
  function TailDigits(gs: seq<Group>): string {
    if gs == [] then ""
    else if gs[|gs| - 1].sep == '.' then gs[|gs| - 1].digits
    else TailDigits(gs[..|gs| - 1]) + gs[|gs| - 1].digits
  }

  /** The amount the number denotes, as a dotted decimal without grouping. */
  function Amount(m: EuroNumber): string {
    m.lead + GroupDigits(m.groups) + match m.cents { case None => "" case Some(c) => "." + c }
  }

  lemma InitWellFormed(gs: seq<Group>)
    requires WellFormedGroups(gs) && gs != []
    ensures WellFormedGroups(gs[..|gs| - 1]) && WellFormedGroup(gs[|gs| - 1])
  {
    var init := gs[..|gs| - 1];
    forall i | 0 <= i < |init| ensures WellFormedGroup(init[i]) {
      assert init[i] == gs[i];
    }
  }

  lemma AllDigitsAppend(a: string, b: string)
    requires AllDigits(a) && AllDigits(b)
    ensures AllDigits(a + b)
  {
    forall k | 0 <= k < |a + b| ensures IsDigit((a + b)[k]) {
      if k < |a| {
        assert (a + b)[k] == a[k];
      } else {
        assert (a + b)[k] == b[k - |a|];
      }
    }
  }

  lemma {:induction false} RemoveCharAppend(x: string, y: string, c: char)
    ensures RemoveChar(x + y, c) == RemoveChar(x, c) + RemoveChar(y, c)
    decreases |x|
  {
    if x == [] {
      assert x + y == y;
    } else {
      assert (x + y)[0] == x[0];
      assert (x + y)[1..] == x[1..] + y;
      RemoveCharAppend(x[1..], y, c);
    }
  }

  lemma DropThinSpacesAppend(x: string, y: string)
    ensures DropThinSpaces(x + y) == DropThinSpaces(x) + DropThinSpaces(y)
  {
    var x1, y1 := RemoveChar(x, NoBreakSpace), RemoveChar(y, NoBreakSpace);
    RemoveCharAppend(x, y, NoBreakSpace);
    RemoveCharAppend(x1, y1, NarrowNoBreakSpace);
    RemoveCharAppend(RemoveChar(x1, NarrowNoBreakSpace), RemoveChar(y1, NarrowNoBreakSpace), ThinSpace);
  }

  /** A text without thin spaces is left alone. */
  lemma DropThinSpacesFree(x: string)
    requires forall i :: 0 <= i < |x| ==> !IsThin(x[i])
    ensures DropThinSpaces(x) == x
  {
    assert NoBreakSpace !in x && NarrowNoBreakSpace !in x && ThinSpace !in x;
  }

  lemma DropThinSpacesDigits(x: string)
    requires AllDigits(x)
    ensures DropThinSpaces(x) == x
  {
    DropThinSpacesFree(x);
  }

  lemma DropThinSpacesSeparator(c: char)
    requires c == '.' || IsThin(c)
    ensures DropThinSpaces([c]) == if c == '.' then "." else ""
  {
    if c == '.' {
      DropThinSpacesFree([c]);
    }
  }

  lemma {:induction false} DropThinRenderGroups(gs: seq<Group>)
    requires WellFormedGroups(gs)
    ensures DropThinSpaces(RenderGroups(gs)) == PeriodGroups(gs)
    decreases |gs|
  {
    if gs != [] {
      var init, g := gs[..|gs| - 1], gs[|gs| - 1];
      InitWellFormed(gs);
      DropThinRenderGroups(init);
      DropThinSpacesAppend(RenderGroups(init) + [g.sep], g.digits);
      DropThinSpacesAppend(RenderGroups(init), [g.sep]);
      DropThinSpacesDigits(g.digits);
      DropThinSpacesSeparator(g.sep);
    }
  }

  lemma RemoveSeparatorStep(p: string, sep: string, d: string, pd: string)
    requires RemoveChar(p, '.') == pd
    requires sep == "." || sep == ""
    requires '.' !in d
    ensures RemoveChar(p + sep + d, '.') == pd + d
  {
    RemoveCharAppend(p + sep, d, '.');
    RemoveCharAppend(p, sep, '.');
    if sep == "." {
      assert RemoveChar(sep, '.') == [] + RemoveChar(sep[1..], '.');
      assert sep[1..] == [];
    }
    assert RemoveChar(p + sep, '.') == pd;
  }

  /** Removing the periods from the groups leaves just their digits. */
  lemma {:induction false} PeriodGroupsDigits(gs: seq<Group>)
    requires WellFormedGroups(gs)
    ensures RemoveChar(PeriodGroups(gs), '.') == GroupDigits(gs)
    ensures AllDigits(GroupDigits(gs))
    decreases |gs|
  {
    if gs != [] {
      var init, g := gs[..|gs| - 1], gs[|gs| - 1];
      InitWellFormed(gs);
      PeriodGroupsDigits(init);
      DigitsHaveNoSeparator(g.digits);
      RemoveSeparatorStep(PeriodGroups(init), SepText(g), g.digits, GroupDigits(init));
      AllDigitsAppend(GroupDigits(init), g.digits);
    }
  }

  /** The groups hold no comma, and a period exactly when some separator is one. */
  lemma {:induction false} PeriodGroupsSeparators(gs: seq<Group>)
    requires WellFormedGroups(gs)
    ensures ',' !in PeriodGroups(gs)
    ensures '.' in PeriodGroups(gs) <==> HasPeriod(gs)
    decreases |gs|
  {
    if gs != [] {
      var init, g := gs[..|gs| - 1], gs[|gs| - 1];
      InitWellFormed(gs);
      PeriodGroupsSeparators(init);
      var sep := if g.sep == '.' then "." else "";
      assert PeriodGroups(gs) == PeriodGroups(init) + sep + g.digits;
      assert '.' !in g.digits && ',' !in g.digits;
      assert HasPeriod(gs) <==> HasPeriod(init) || g.sep == '.' by {
        if HasPeriod(init) {
          var i :| 0 <= i < |init| && init[i].sep == '.';
          assert gs[i] == init[i];
        }
        if HasPeriod(gs) && g.sep != '.' {
          var i :| 0 <= i < |gs| && gs[i].sep == '.';
          assert i < |init| && init[i] == gs[i];
        }
      }
    }
  }

  lemma AfterLastSnoc(s: string, d: char, c: char)
    requires d != c
    ensures AfterLast(s + [d], c) == AfterLast(s, c) + [d]
  {
    var z := s + [d];
    assert z[..|z| - 1] == s;
  }

  lemma {:induction false} AfterLastAppend(x: string, y: string, c: char)
    requires c !in y
    ensures AfterLast(x + y, c) == AfterLast(x, c) + y
    decreases |y|
  {
    if y == [] {
      assert x + y == x;
    } else {
      var y', last := y[..|y| - 1], y[|y| - 1];
      assert y == y' + [last];
      assert x + y == (x + y') + [last];
      AfterLastSnoc(x + y', last, c);
      AfterLastAppend(x, y', c);
    }
  }

  lemma Regroup(lead: string, p: string, sep: string, d: string)
    ensures lead + (p + sep + d) == (lead + p + sep) + d
  {
  }

  lemma AfterLastAtEnd(x: string, c: char)
    ensures AfterLast(x + [c], c) == []
  {
    assert (x + [c])[|x + [c]| - 1] == c;
  }

  lemma HasPeriodInit(gs: seq<Group>)
    requires HasPeriod(gs) && gs != [] && gs[|gs| - 1].sep != '.'
    ensures HasPeriod(gs[..|gs| - 1])
  {
    var init := gs[..|gs| - 1];
    var i :| 0 <= i < |gs| && gs[i].sep == '.';
    assert i < |init| && init[i] == gs[i];
  }

  /** After the last period come exactly the tail digits. */
  lemma {:induction false} AfterLastPeriodGroups(lead: string, gs: seq<Group>)
    requires '.' !in lead
    requires WellFormedGroups(gs) && HasPeriod(gs)
    ensures AfterLast(lead + PeriodGroups(gs), '.') == TailDigits(gs)
    decreases |gs|
  {
    var init, g := gs[..|gs| - 1], gs[|gs| - 1];
    var p := PeriodGroups(init);
    InitWellFormed(gs);
    DigitsHaveNoSeparator(g.digits);
    Regroup(lead, p, SepText(g), g.digits);
    AfterLastAppend(lead + p + SepText(g), g.digits, '.');
    if g.sep == '.' {
      AfterLastAtEnd(lead + p, '.');
    } else {
      HasPeriodInit(gs);
      assert lead + p + SepText(g) == lead + p;
      AfterLastPeriodGroups(lead, init);
    }
  }

  /** The tail digits are three per group from the last period on. */
  lemma {:induction false} TailDigitsShape(gs: seq<Group>)
    requires WellFormedGroups(gs) && gs != []
    ensures |TailDigits(gs)| == 3 * (ThinTail(gs) + 1) || !HasPeriod(gs)
    ensures AllDigits(TailDigits(gs))
    decreases |gs|
  {
    var init, g := gs[..|gs| - 1], gs[|gs| - 1];
    InitWellFormed(gs);
    if g.sep != '.' {
      if init != [] {
        TailDigitsShape(init);
        AllDigitsAppend(TailDigits(init), g.digits);
        if HasPeriod(gs) {
          assert HasPeriod(init) by {
            var i :| 0 <= i < |gs| && gs[i].sep == '.';
            assert i < |init| && init[i] == gs[i];
          }
        }
      } else {
        assert TailDigits(gs) == g.digits;
      }
    }
  }

  /** The first and last characters of a rendered number are digits, so
      stripping leaves it alone. */
  lemma RenderTrimmed(m: EuroNumber)
    requires WellFormed(m)
    ensures Strip(Render(m)) == Render(m)
  {
    var r := Render(m);
    assert r[0] == m.lead[0];
    var last := r[|r| - 1];
    assert IsDigit(last) by {
      if m.cents.Some? {
        assert last == m.cents.value[1];
      } else if m.groups != [] {
        InitWellFormed(m.groups);
        var g := m.groups[|m.groups| - 1];
        assert r == m.lead + RenderGroups(m.groups[..|m.groups| - 1]) + [g.sep] + g.digits;
        assert last == g.digits[2];
      } else {
        assert last == m.lead[|m.lead| - 1];
      }
    }
    StripFixesTrimmed(r);
  }

  lemma CentsNoThin(m: EuroNumber)
    requires WellFormed(m)
    ensures forall i :: 0 <= i < |CentsText(m)| ==> !IsThin(CentsText(m)[i])
    ensures '.' !in CentsText(m)
  {
    if m.cents.Some? {
      var ct := CentsText(m);
      forall i | 0 <= i < |ct| ensures !IsThin(ct[i]) && ct[i] != '.' {
        if i > 0 { assert ct[i] == m.cents.value[i - 1]; }
      }
    }
  }

  lemma CleanedOfParts(a: string, g: string, c: string)
    requires Strip(a + g + c) == a + g + c
    requires AllDigits(a)
    requires forall i :: 0 <= i < |c| ==> !IsThin(c[i])
    ensures Cleaned(a + g + c) == a + DropThinSpaces(g) + c
  {
    DropThinSpacesAppend(a + g, c);
    DropThinSpacesAppend(a, g);
    DropThinSpacesDigits(a);
    DropThinSpacesFree(c);
  }

  /** What the separator rules see of a rendered number: the leading digits,
      the groups with only their period separators, and the decimals. */
  lemma CleanedRender(m: EuroNumber)
    requires WellFormed(m)
    ensures Cleaned(Render(m)) == m.lead + PeriodGroups(m.groups) + CentsText(m)
  {
    RenderTrimmed(m);
    CentsNoThin(m);
    DropThinRenderGroups(m.groups);
    CleanedOfParts(m.lead, RenderGroups(m.groups), CentsText(m));
  }

  /** With a comma present, periods are dropped and the comma becomes the
      decimal point. */
  lemma CommaBranch(s: string)
    requires ',' in Cleaned(s)
    ensures NormalizeNumString(s) == ReplaceChar(RemoveChar(Cleaned(s), '.'), ',', '.')
  {
    assert s != "";
  }

  lemma RewriteCommaParts(lead: string, pg: string, gd: string, c: string)
    requires RemoveChar(pg, '.') == gd
    requires '.' !in lead && '.' !in c
    requires ',' !in lead && ',' !in gd && ',' !in c
    ensures ReplaceChar(RemoveChar(lead + pg + ("," + c), '.'), ',', '.') == lead + gd + ("." + c)
  {
    RemoveCharAppend(lead + pg, "," + c, '.');
    RemoveCharAppend(lead, pg, '.');
    assert RemoveChar(lead + pg + ("," + c), '.') == lead + gd + ("," + c);
    ReplaceCharAppend(lead + gd, "," + c, ',', '.');
    ReplaceCharAppend(lead, gd, ',', '.');
    ReplaceCharAppend(",", c, ',', '.');
    ReplaceCharAbsent(lead, ',', '.');
    ReplaceCharAbsent(gd, ',', '.');
    ReplaceCharAbsent(c, ',', '.');
    assert ReplaceChar(",", ',', '.') == ".";
  }

  lemma ReplaceCharAbsent(x: string, a: char, b: char)
    requires a !in x
    ensures ReplaceChar(x, a, b) == x
  {
  }

  lemma CommaBetween(a: string, b: string, c: string)
    ensures ',' in a + b + ("," + c)
  {
    assert (a + b + ("," + c))[|a| + |b|] == ',';
  }

  lemma ReadsWithCents(m: EuroNumber)
    requires WellFormed(m) && m.cents.Some?
    ensures NormalizeNumString(Render(m)) == Amount(m)
  {
    var c := m.cents.value;
    var pg, gd := PeriodGroups(m.groups), GroupDigits(m.groups);
    CleanedRender(m);
    PeriodGroupsDigits(m.groups);
    PeriodGroupsSeparators(m.groups);
    DigitsHaveNoSeparator(m.lead);
    DigitsHaveNoSeparator(gd);
    DigitsHaveNoSeparator(c);
    assert CentsText(m) == "," + c;
    CommaBetween(m.lead, pg, c);
    CommaBranch(Render(m));
    RewriteCommaParts(m.lead, pg, gd, c);
  }

  lemma DigitsHaveNoSeparator(x: string)
    requires AllDigits(x)
    ensures ',' !in x && '.' !in x
  {
  }

  /** Without a comma, the rules drop the periods exactly when the text
      after the last one is a thousands group. */
  lemma RewritePeriodParts(lead: string, pg: string, gd: string)
    requires ',' !in lead && '.' !in lead && ',' !in pg
    requires RemoveChar(pg, '.') == gd
    requires '.' in pg ==> IsThousandsGroup(AfterLast(lead + pg, '.'))
    ensures Rewrite(lead + pg) == lead + gd
  {
    assert ',' !in lead + pg;
    if '.' in pg {
      assert '.' in lead + pg;
      RemoveCharAppend(lead, pg, '.');
    } else {
      assert '.' !in lead + pg;
    }
  }

  /** The rules reach `_normalize_numstring`'s result through the cleaned text. */
  lemma NormalizeVia(s: string, t: string, r: string)
    requires s != "" && Cleaned(s) == t && Rewrite(t) == r
    ensures NormalizeNumString(s) == r
  {
  }

  lemma NoCentsText(m: EuroNumber, x: string)
    requires m.cents.None?
    ensures x + CentsText(m) == x
  {
    assert CentsText(m) == "";
  }

  lemma CleanedWithoutCents(m: EuroNumber)
    requires WellFormed(m) && m.cents.None?
    ensures Cleaned(Render(m)) == m.lead + PeriodGroups(m.groups)
  {
    CleanedRender(m);
    NoCentsText(m, m.lead + PeriodGroups(m.groups));
  }

  /** With at most one thin-space group behind the last period, what
      follows that period passes the three-or-six-digit test. */
  lemma LastPeriodGroup(m: EuroNumber)
    requires WellFormed(m) && HasPeriod(m.groups) && ThinTail(m.groups) <= 1
    ensures IsThousandsGroup(AfterLast(m.lead + PeriodGroups(m.groups), '.'))
  {
    DigitsHaveNoSeparator(m.lead);
    AfterLastPeriodGroups(m.lead, m.groups);
    TailDigitsShape(m.groups);
  }

  /** The pieces of a number without decimals, as the rules see them. */
  lemma WithoutCentsParts(m: EuroNumber)
    requires WellFormed(m) && m.cents.None?
    requires !HasPeriod(m.groups) || ThinTail(m.groups) <= 1
    ensures var pg := PeriodGroups(m.groups);
      && Cleaned(Render(m)) == m.lead + pg
      && ',' !in m.lead && '.' !in m.lead && ',' !in pg
      && RemoveChar(pg, '.') == GroupDigits(m.groups)
      && ('.' in pg ==> IsThousandsGroup(AfterLast(m.lead + pg, '.')))
  {
    CleanedWithoutCents(m);
    PeriodGroupsDigits(m.groups);
    PeriodGroupsSeparators(m.groups);
    DigitsHaveNoSeparator(m.lead);
    if HasPeriod(m.groups) {
      LastPeriodGroup(m);
    }
  }

  lemma ReadsWithoutCents(m: EuroNumber)
    requires WellFormed(m) && m.cents.None?
    requires !HasPeriod(m.groups) || ThinTail(m.groups) <= 1
    ensures NormalizeNumString(Render(m)) == Amount(m)
  {
    var pg, gd := PeriodGroups(m.groups), GroupDigits(m.groups);
    WithoutCentsParts(m);
    RewritePeriodParts(m.lead, pg, gd);
    assert Amount(m) == m.lead + gd + "";
    assert m.lead + gd + "" == m.lead + gd;
    assert Render(m) != "" by {
      assert |Render(m)| >= |m.lead|;
    }
    NormalizeVia(Render(m), m.lead + pg, m.lead + gd);
  }

  lemma ReplaceCharAppend(x: string, y: string, a: char, b: char)
    ensures ReplaceChar(x + y, a, b) == ReplaceChar(x, a, b) + ReplaceChar(y, a, b)
  {
  }

  /** `_normalize_numstring` reads every number of the `RE_EUR_NUMBER` shape
      as the amount it denotes: thousands separators vanish and the decimal
      comma becomes a period. Without decimals, at most one thin-space group
      may follow the last period (the three-or-six-digit rule). */
  lemma NormalizeReadsEuroNumber(m: EuroNumber)
    requires WellFormed(m)
    requires m.cents.Some? || !HasPeriod(m.groups) || ThinTail(m.groups) <= 1
    ensures NormalizeNumString(Render(m)) == Amount(m)
  {
    if m.cents.Some? {
      ReadsWithCents(m);
    } else {
      ReadsWithoutCents(m);
    }
  }
}
