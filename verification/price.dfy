/**
 The price cascade of `extract_price`: seven strategies are tried in a fixed
 order and the first one that finds a price wins. The DOM and JSON-LD
 strategies, the `Preis:` line regular expression, `clean_price_string` and
 the float conversion are parameters; what is modelled is the order in which
 their answers are consulted and which answer is returned.
 */
module Price {
  import opened Common

  /** What the strategies find on one page. `lines` is
      `page_text.splitlines()` and `euros` the euro amounts `RE_EUR_ANY`
      finds in the page text, in page order. */
  datatype Page = Page(
    nearObjectNumber: string,
    objectData: string,
    jsonLd: string,
    lines: seq<string>,
    dom: string,
    strictTop: string,
    euros: seq<string>)

  /** The first non-empty string of `cs`, or `""` when all are empty: the
      `p = strategy(); if p: return p` pattern. */
  function FirstNonEmpty(cs: seq<string>): (r: string)
    ensures r == "" <==> forall k :: 0 <= k < |cs| ==> cs[k] == ""
    ensures r != "" ==> exists i :: 0 <= i < |cs| && cs[i] == r && forall j :: 0 <= j < i ==> cs[j] == ""
  {
    if cs == [] then ""
    else if cs[0] != "" then cs[0]
    else
      var r := FirstNonEmpty(cs[1..]);
      assert forall k :: 1 <= k < |cs| ==> cs[k] == cs[1..][k - 1];
      r
  }

  /** The position of the first largest element by `key`: Python's `max`
      keeps the first of equal maxima. */
  function FirstMaxIndex(xs: seq<string>, key: string -> real): (i: nat)
    requires xs != []
    ensures i < |xs|
    ensures forall j :: 0 <= j < |xs| ==> key(xs[j]) <= key(xs[i])
    ensures forall j :: 0 <= j < i ==> key(xs[j]) < key(xs[i])
  {
    if |xs| == 1 then 0
    else
      var m := FirstMaxIndex(xs[..|xs| - 1], key);
      if key(xs[m]) < key(xs[|xs| - 1]) then |xs| - 1 else m
  }

  /** The last resort: the largest euro amount on the page, cleaned;
      `amount` stands for `to_float`. */
  function EuroFallback(euros: seq<string>, clean: string -> string, amount: string -> real): (r: string)
    ensures euros == [] ==> r == ""
    ensures euros != [] ==> exists i :: (0 <= i < |euros| && r == clean(euros[i]) &&
      (forall j :: 0 <= j < |euros| ==> amount(euros[j]) <= amount(euros[i])) &&
      (forall j :: 0 <= j < i ==> amount(euros[j]) < amount(euros[i])))
  {
    if euros == [] then "" else clean(euros[FirstMaxIndex(euros, amount)])
  }

  /** The first present answer of `ms`, if any. */
  function FirstSome(ms: seq<Option<string>>): (r: Option<string>)
    ensures r.None? <==> forall i :: 0 <= i < |ms| ==> ms[i].None?
    ensures r.Some? ==> exists i :: 0 <= i < |ms| && ms[i] == r && forall j :: 0 <= j < i ==> ms[j].None?
  {
    if ms == [] then None
    else if ms[0].Some? then ms[0]
    else
      var r := FirstSome(ms[1..]);
      assert forall k :: 1 <= k < |ms| ==> ms[k] == ms[1..][k - 1];
      r
  }

  /** What `lineMatch` finds on each line. */
  function LineMatches(lines: seq<string>, lineMatch: string -> Option<string>): (ms: seq<Option<string>>)
    ensures |ms| == |lines| && forall i :: 0 <= i < |ms| ==> ms[i] == lineMatch(lines[i])
  {
    seq(|lines|, i requires 0 <= i < |lines| => lineMatch(lines[i]))
  }

  /** The number group of `RE_PRICE_LINE` on the first line that matches;
      `lineMatch` stands for `RE_PRICE_LINE.search(ln.strip())` and its
      group 2, so the stripping of each line is part of it. */
  function FirstLineMatch(lines: seq<string>, lineMatch: string -> Option<string>): (r: Option<string>)
    ensures r.None? <==> forall i :: 0 <= i < |lines| ==> lineMatch(lines[i]).None?
    ensures r.Some? ==> exists i :: (0 <= i < |lines| && lineMatch(lines[i]) == r &&
      forall j :: 0 <= j < i ==> lineMatch(lines[j]).None?)
  {
    FirstSome(LineMatches(lines, lineMatch))
  }

  /** `extract_price` as written: the line scan returns the cleaned price
      of the first matching line even when cleaning leaves nothing. */
  function ExtractPriceAsWritten(page: Page, lineMatch: string -> Option<string>, clean: string -> string, amount: string -> real): (r: string)
    ensures page.nearObjectNumber != "" ==> r == page.nearObjectNumber
    ensures r == "" ==> page.nearObjectNumber == "" && page.objectData == "" && page.jsonLd == ""
  {
    if page.nearObjectNumber != "" then page.nearObjectNumber
    else if page.objectData != "" then page.objectData
    else if page.jsonLd != "" then page.jsonLd
    else if FirstLineMatch(page.lines, lineMatch).Some? then clean(FirstLineMatch(page.lines, lineMatch).value + " €")
    else if page.dom != "" then page.dom
    else if page.strictTop != "" then page.strictTop
    else EuroFallback(page.euros, clean, amount)
  }

  /** The price one match offers: the cleaned number group when there is
      one, nothing otherwise. */
  function Candidate(m: Option<string>, clean: string -> string): string {
    match m
    case Some(g) => clean(g + " €")
    case None => ""
  }

  function Candidates(ms: seq<Option<string>>, clean: string -> string): (cs: seq<string>)
    ensures |cs| == |ms| && forall i :: 0 <= i < |cs| ==> cs[i] == Candidate(ms[i], clean)
  {
    seq(|ms|, i requires 0 <= i < |ms| => Candidate(ms[i], clean))
  }

  /** The price one line offers. */
  function LineCandidate(line: string, lineMatch: string -> Option<string>, clean: string -> string): string {
    Candidate(lineMatch(line), clean)
  }

  function LineCandidates(lines: seq<string>, lineMatch: string -> Option<string>, clean: string -> string): (cs: seq<string>)
    ensures |cs| == |lines| && forall i :: 0 <= i < |cs| ==> cs[i] == LineCandidate(lines[i], lineMatch, clean)
  {
    Candidates(LineMatches(lines, lineMatch), clean)
  }

  /** The answers of the seven strategies in the order they are tried, the
      line scan yielding the first line whose price cleans to something. */
  function Strategies(page: Page, lineMatch: string -> Option<string>, clean: string -> string, amount: string -> real): seq<string> {
    [page.nearObjectNumber, page.objectData, page.jsonLd,
     FirstNonEmpty(LineCandidates(page.lines, lineMatch, clean)),
     page.dom, page.strictTop, EuroFallback(page.euros, clean, amount)]
  }

  /** `extract_price` with every strategy, the line scan included, passing
      on when it finds nothing: the first strategy with an answer decides,
      and the price is empty only when no strategy has one. */
  function ExtractPrice(page: Page, lineMatch: string -> Option<string>, clean: string -> string, amount: string -> real): (r: string)
    ensures var s := Strategies(page, lineMatch, clean, amount);
      && (r == "" <==> forall k :: 0 <= k < |s| ==> s[k] == "")
      && (r != "" ==> exists i :: 0 <= i < |s| && s[i] == r && forall j :: 0 <= j < i ==> s[j] == "")
  {
    FirstNonEmpty(Strategies(page, lineMatch, clean, amount))
  }

  lemma FirstNonEmptyCons(a: string, rest: seq<string>)
    ensures FirstNonEmpty([a] + rest) == if a != "" then a else FirstNonEmpty(rest)
  {
    assert ([a] + rest)[1..] == rest;
  }

  /** Seven answers tried in order. */
  lemma FirstNonEmptySeven(a: string, b: string, c: string, d: string, e: string, f: string, g: string)
    ensures FirstNonEmpty([a, b, c, d, e, f, g]) ==
      if a != "" then a else if b != "" then b else if c != "" then c
      else if d != "" then d else if e != "" then e else if f != "" then f else g
  {
    assert [a, b, c, d, e, f, g] == [a] + [b, c, d, e, f, g];
    assert [b, c, d, e, f, g] == [b] + [c, d, e, f, g];
    assert [c, d, e, f, g] == [c] + [d, e, f, g];
    assert [d, e, f, g] == [d] + [e, f, g];
    assert [e, f, g] == [e] + [f, g];
    assert [f, g] == [f] + [g];
    assert [g] == [g] + [];
    FirstNonEmptyCons(a, [b, c, d, e, f, g]);
    FirstNonEmptyCons(b, [c, d, e, f, g]);
    FirstNonEmptyCons(c, [d, e, f, g]);
    FirstNonEmptyCons(d, [e, f, g]);
    FirstNonEmptyCons(e, [f, g]);
    FirstNonEmptyCons(f, [g]);
    FirstNonEmptyCons(g, []);
  }

  /** The corrected function is the cascade of `if p: return p` tests, in
      the order of the source. */
  lemma ExtractPriceCascade(page: Page, lineMatch: string -> Option<string>, clean: string -> string, amount: string -> real)
    ensures var line := FirstNonEmpty(LineCandidates(page.lines, lineMatch, clean));
      ExtractPrice(page, lineMatch, clean, amount) ==
        if page.nearObjectNumber != "" then page.nearObjectNumber
        else if page.objectData != "" then page.objectData
        else if page.jsonLd != "" then page.jsonLd
        else if line != "" then line
        else if page.dom != "" then page.dom
        else if page.strictTop != "" then page.strictTop
        else EuroFallback(page.euros, clean, amount)
  {
    FirstNonEmptySeven(page.nearObjectNumber, page.objectData, page.jsonLd,
      FirstNonEmpty(LineCandidates(page.lines, lineMatch, clean)),
      page.dom, page.strictTop, EuroFallback(page.euros, clean, amount));
  }

  /** With no match at all, no candidate either. */
  lemma CandidatesNoMatch(ms: seq<Option<string>>, clean: string -> string)
    requires FirstSome(ms).None?
    ensures FirstNonEmpty(Candidates(ms, clean)) == ""
  {
    var cs := Candidates(ms, clean);
    forall i | 0 <= i < |cs| ensures cs[i] == "" {
      assert ms[i].None?;
    }
  }

  /** The first match's candidate, when it is not empty, is the first
      non-empty candidate. */
  lemma CandidatesFirstMatch(ms: seq<Option<string>>, clean: string -> string)
    requires FirstSome(ms).Some? && Candidate(FirstSome(ms), clean) != ""
    ensures FirstNonEmpty(Candidates(ms, clean)) == Candidate(FirstSome(ms), clean)
  {
    var cs := Candidates(ms, clean);
    var i :| 0 <= i < |ms| && ms[i] == FirstSome(ms) && forall j :: 0 <= j < i ==> ms[j].None?;
    forall j | 0 <= j < i ensures cs[j] == "" {
      assert ms[j].None?;
    }
    FirstNonEmptyAt(cs, i);
  }

  /** Without a matching line the line scan of the corrected function
      finds nothing. */
  lemma LineScanNoMatch(lines: seq<string>, lineMatch: string -> Option<string>, clean: string -> string)
    requires FirstLineMatch(lines, lineMatch).None?
    ensures FirstNonEmpty(LineCandidates(lines, lineMatch, clean)) == ""
  {
    CandidatesNoMatch(LineMatches(lines, lineMatch), clean);
  }

  /** When the first matching line's price cleans to something, the line
      scan of the corrected function returns it. */
  lemma LineScanFirstMatch(lines: seq<string>, lineMatch: string -> Option<string>, clean: string -> string)
    requires FirstLineMatch(lines, lineMatch).Some?
    requires clean(FirstLineMatch(lines, lineMatch).value + " €") != ""
    ensures FirstNonEmpty(LineCandidates(lines, lineMatch, clean)) == clean(FirstLineMatch(lines, lineMatch).value + " €")
  {
    CandidatesFirstMatch(LineMatches(lines, lineMatch), clean);
  }

  /** A non-empty element with only empty ones before it is the first
      non-empty one. */
  lemma FirstNonEmptyAt(cs: seq<string>, i: nat)
    requires i < |cs| && cs[i] != ""
    requires forall j :: 0 <= j < i ==> cs[j] == ""
    ensures FirstNonEmpty(cs) == cs[i]
  {
    var r := FirstNonEmpty(cs);
    var k :| 0 <= k < |cs| && cs[k] == r && forall j :: 0 <= j < k ==> cs[j] == "";
    assert !(k < i) && !(i < k);
  }

  /** The two agree on every page where the first matching line, if any,
      cleans to a price. */
  lemma AsWrittenAgrees(page: Page, lineMatch: string -> Option<string>, clean: string -> string, amount: string -> real)
    requires var m := FirstLineMatch(page.lines, lineMatch);
      m.Some? ==> clean(m.value + " €") != ""
    ensures ExtractPriceAsWritten(page, lineMatch, clean, amount) == ExtractPrice(page, lineMatch, clean, amount)
  {
    ExtractPriceCascade(page, lineMatch, clean, amount);
    if FirstLineMatch(page.lines, lineMatch).Some? {
      LineScanFirstMatch(page.lines, lineMatch, clean);
    } else {
      LineScanNoMatch(page.lines, lineMatch, clean);
    }
  }

  /** The flaw: when the first line that matches `RE_PRICE_LINE` carries
      no number that cleans to a price (a sentence ending in "Miete.", whose
      number group is the lone period), the function as written returns
      `""` and never consults the DOM strategy, though it found a price. */
  lemma LineScanHidesLaterStrategies(page: Page, lineMatch: string -> Option<string>, clean: string -> string, amount: string -> real)
    requires page.nearObjectNumber == "" && page.objectData == "" && page.jsonLd == ""
    requires FirstLineMatch(page.lines, lineMatch).Some? && clean(FirstLineMatch(page.lines, lineMatch).value + " €") == ""
    requires forall i :: 0 <= i < |page.lines| ==> LineCandidate(page.lines[i], lineMatch, clean) == ""
    requires page.dom != ""
    ensures ExtractPriceAsWritten(page, lineMatch, clean, amount) == ""
    ensures ExtractPrice(page, lineMatch, clean, amount) == page.dom
  {
    ExtractPriceCascade(page, lineMatch, clean, amount);
    var cs := LineCandidates(page.lines, lineMatch, clean);
    assert forall i :: 0 <= i < |cs| ==> cs[i] == "";
  }

  /** On a one-line page, the line scan sees just that line. */
  lemma SingleLineMatch(line: string, lineMatch: string -> Option<string>)
    ensures FirstLineMatch([line], lineMatch) == lineMatch(line)
  {
    var ms := LineMatches([line], lineMatch);
    assert ms == [lineMatch(line)];
    assert ms[1..] == [];
  }

  lemma OneLineScan(lines: seq<string>, lineMatch: string -> Option<string>, clean: string -> string)
    requires |lines| == 1
    requires lineMatch(lines[0]).Some?
    requires clean(lineMatch(lines[0]).value + " €") == ""
    ensures FirstLineMatch(lines, lineMatch).Some?
    ensures clean(FirstLineMatch(lines, lineMatch).value + " €") == ""
    ensures forall i :: 0 <= i < |lines| ==> LineCandidate(lines[i], lineMatch, clean) == ""
  {
    assert lines == [lines[0]];
    SingleLineMatch(lines[0], lineMatch);
  }

  /** A one-line page whose line matches without a usable number, with a
      DOM price and nothing from the first three strategies: the code as
      written returns "" and the corrected cascade the DOM price. */
  lemma OneLinePage(page: Page, lineMatch: string -> Option<string>, clean: string -> string, amount: string -> real)
    requires page.nearObjectNumber == "" && page.objectData == "" && page.jsonLd == ""
    requires |page.lines| == 1
    requires lineMatch(page.lines[0]).Some?
    requires clean(lineMatch(page.lines[0]).value + " €") == ""
    requires page.dom != ""
    ensures ExtractPriceAsWritten(page, lineMatch, clean, amount) == ""
    ensures ExtractPrice(page, lineMatch, clean, amount) == page.dom
  {
    OneLineScan(page.lines, lineMatch, clean);
    LineScanHidesLaterStrategies(page, lineMatch, clean, amount);
  }

  const RentSentence := "Objekt zur Miete."

  /** One such page: the text says "Objekt zur Miete." and the DOM strategy
      finds 1.250 €. */
  function RentPage(): Page {
    Page("", "", "", [RentSentence], "1.250 €", "", [])
  }

  /** On that page, with a `RE_PRICE_LINE` that reads the sentence's
      final period as the number group, the function as written finds no
      price. */
  lemma RentPageAsWritten(lineMatch: string -> Option<string>, clean: string -> string, amount: string -> real)
    requires lineMatch(RentSentence) == Some(".")
    requires clean(". €") == ""
    ensures ExtractPriceAsWritten(RentPage(), lineMatch, clean, amount) == ""
  {
    assert "." + " €" == ". €";
    OneLinePage(RentPage(), lineMatch, clean, amount);
  }

  /** On that page the corrected function finds the DOM price. */
  lemma RentPageCorrected(lineMatch: string -> Option<string>, clean: string -> string, amount: string -> real)
    requires lineMatch(RentSentence) == Some(".")
    requires clean(". €") == ""
    ensures ExtractPrice(RentPage(), lineMatch, clean, amount) == "1.250 €"
  {
    assert "." + " €" == ". €";
    OneLinePage(RentPage(), lineMatch, clean, amount);
  }
}
