/**
 `detect_category`: a detail page is filed under rent when its text matches
 the rent pattern, and under purchase otherwise.
 */
module Categories {

  const Rent := "Mieten"
  const Buy := "Kaufen"

  /** `detect_category(page_text)`. `rent` and `buy` stand for searches with
      `RE_MIETE` and `RE_KAUF`. The purchase test decides nothing: purchase
      is also the default. */
  function DetectCategory(pageText: string, rent: string -> bool, buy: string -> bool): (c: string)
    ensures c == Rent <==> rent(pageText)
    ensures c == Buy <==> !rent(pageText)
  {
    if rent(pageText) then Rent
    else if buy(pageText) then Buy
    else Buy
  }

  /** The purchase pattern never changes the outcome, so the category
      depends on the rent pattern alone. */
  lemma BuyPatternIsDead(pageText: string, rent: string -> bool, buy1: string -> bool, buy2: string -> bool)
    ensures DetectCategory(pageText, rent, buy1) == DetectCategory(pageText, rent, buy2)
  {
  }
}
