# msi_scraper: a Dafny model of the listing sync

`msi_v2_airtable_replace.py` scrapes property listings from a real-estate
web site and mirrors them, per category ("Kaufen" for sale, "Mieten" for
rent), into an Airtable table. This project models the pure decision logic
of that script and proves what it promises:

- **Text** — `_norm`, which strips a text and collapses whitespace runs.
- **NumString** — `_normalize_numstring`, which turns a German amount such as
  "479.000,00" into "479000.00".
- **Price** — the order of the seven strategies in `extract_price`, and the
  "largest euro amount" fallback.
- **Categories** — `detect_category`.
- **Lines** — `_clean_lines` and the join-and-cut tail of
  `extract_description`.
- **Records** — field values, `unique_key`, `make_record` and
  `sanitize_record_for_airtable`.
- **Sync** — the middle of `sync_category`. Remote and scraped records of one
  category are indexed by natural key, and the plan of creates, field-level
  updates and deletes is computed.
- **Batches** — the three lists are cut into requests of at most ten
  records. The requests are sent creates first, then updates, then deletes.
  The first refused request ends the run.
- **SyncExamples** — two concrete sync runs.

Python dicts are modelled with their insertion order (`Sync.Dict`): the order
of `to_create` and `to_delete_ids` follows it. A later assignment to a key
overwrites the value but keeps the key's position. A Python exception becomes
`None` of `Common.Option`: `unique_key` raises on a truthy number in
`Objektnummer` or `Webseite`.

Some parts are function parameters instead of code:

- the regular expressions (`RE_PHONE`/`RE_EMAIL`, `RE_MIETE`/`RE_KAUF`, the
  `RE_PRICE_LINE` group);
- the DOM, JSON-LD and strict-top price strategies;
- `clean_price_string`, `to_float` and `parse_price_to_number`;
- the `hash(json.dumps(...))` digest.

The proofs hold for every choice of them.

Three behaviours of the source are modelled as written and documented by
lemmas:

- `_clean_lines` tests for the empty string before normalising. A paragraph
  of whitespace only therefore survives as an empty line
  (`Lines.BlankLineSurvives`). In the script this input never arrives:
  `extract_description`, its only caller, hands it lines that are already
  `_norm`'ed and non-empty (lines 460-462 and 466-470). The lemma describes
  `_clean_lines` on its own.
- Two remote records of one category with the same key: the later one
  shadows the earlier one. The earlier record is then neither updated nor
  deleted, since `existing` keeps only the last (`Sync.IndexByLastWins`).
- The key of a scraped record is computed before sanitising
  (`Sync.Desired`).

## Model

| member | source | states |
|---|---|---|
| `Text.Norm` | msi_v2_airtable_replace.py:170-171 | the result has no whitespace at either end and no two adjacent whitespace characters |
| `Text.Collapse` | msi_v2_airtable_replace.py:171 | no contract of its own; `Text.CollapseShape`, `Text.CollapseAppend`, `Text.CollapseWhitespace` and `Text.CollapseGap` state what the substitution does |
| `Text.CollapseShape` | msi_v2_airtable_replace.py:171 | after the substitution no two whitespace characters are adjacent; the result is empty only for the empty text; a non-whitespace first or last character stays first or last |
| `Text.CollapseKeepsVisible` | msi_v2_airtable_replace.py:171 | the substitution removes whitespace only: the non-whitespace characters stay, in order |
| `Text.CollapseWhitespace` | msi_v2_airtable_replace.py:171 | a whitespace-only text of two or more characters becomes one blank; a single whitespace character is kept as it is |
| `Text.CollapseAppend` | msi_v2_airtable_replace.py:171 | a run of `\s` never crosses a cut next to a non-whitespace character, so the two sides are rewritten independently |
| `Text.CollapseGap` | msi_v2_airtable_replace.py:171 | whitespace between two non-whitespace characters becomes one blank when it is two or more characters long and is kept when it is one; the text on either side is rewritten on its own |
| `Text.NormGap` | msi_v2_airtable_replace.py:170-171 | `_norm` keeps words apart: in a text with no whitespace at either end, every gap between two words becomes exactly one blank (or its single whitespace character), never nothing |
| `Text.NormKeepsVisible` | msi_v2_airtable_replace.py:170-171 | `_norm` neither drops nor reorders any non-whitespace character |
| `Text.NormFixpoints` | msi_v2_airtable_replace.py:170-171 | `_norm` leaves a text unchanged exactly when the text is already trimmed and free of double whitespace |
| `Text.NormIdempotent` | msi_v2_airtable_replace.py:170-171 | applying `_norm` twice equals applying it once |
| `Categories.DetectCategory` | msi_v2_airtable_replace.py:173-176 | the category is "Mieten" exactly when the rent pattern matches, and "Kaufen" otherwise |
| `Categories.BuyPatternIsDead` | msi_v2_airtable_replace.py:173-176 | the purchase pattern never changes the category |
| `NumString.NormalizeNumString` | msi_v2_airtable_replace.py:181-194 | no contract of its own; `NumString.NormalizeDropsSeparators`, `NumString.PeriodsOnly`, `NumString.NormalizeKeepsDigits` and `NumString.NormalizeReadsEuroNumber` state what the rewrite does |
| `NumString.NormalizeDropsSeparators` | msi_v2_airtable_replace.py:181-188 | empty input gives ""; the output never holds a comma or any of the three thin spaces |
| `NumString.PeriodsOnly` | msi_v2_airtable_replace.py:189-193 | with periods and no comma, all periods are removed iff the group after the last one is 3 or 6 digits; otherwise the cleaned text is returned unchanged |
| `NumString.NormalizeKeepsDigits` | msi_v2_airtable_replace.py:181-194 | the digits of the output are the digits of the input, in order |
| `NumString.NormalizeReadsEuroNumber` | msi_v2_airtable_replace.py:181-194 | a number of the `RE_EUR_NUMBER` shape is rewritten to the plain decimal of the amount it denotes |
| `NumString.LastPeriodGroup` | msi_v2_airtable_replace.py:190-192 | with at most one thin-space group behind the last period of such a number, the text after that period is three or six digits, so the periods are removed |
| `Price.FirstNonEmpty` | msi_v2_airtable_replace.py:367-376 | the first strategy with a non-empty answer wins; the result is "" exactly when every answer is empty |
| `Price.FirstMaxIndex` | msi_v2_airtable_replace.py:397 | `max` picks an element of largest key, and the first of several equal maxima |
| `Price.EuroFallback` | msi_v2_airtable_replace.py:387-399 | with no euro amount the result is ""; otherwise it is the cleaned first largest amount |
| `Price.FirstLineMatch` | msi_v2_airtable_replace.py:377-380 | the number group of a matching line before which no line matches, and none exactly when no line matches |
| `Price.ExtractPriceAsWritten` | msi_v2_airtable_replace.py:367-399 | the cascade as written, with the early return of the line scan (see Findings) |
| `Price.ExtractPrice` | msi_v2_airtable_replace.py:367-399 | corrected cascade: the result is the answer of the first strategy that has one, and "" only when none has |
| `Price.ExtractPriceCascade` | msi_v2_airtable_replace.py:367-399 | the corrected cascade tries the strategies in the source's order: object number, object data, JSON-LD, price line, DOM, strict top, largest amount |
| `Price.LineScanFirstMatch` | msi_v2_airtable_replace.py:377-380 | when the first matching line's price cleans to something, the corrected line scan returns that price |
| `Price.LineScanNoMatch` | msi_v2_airtable_replace.py:377-380 | when no line matches, the corrected line scan finds nothing |
| `Price.AsWrittenAgrees` | msi_v2_airtable_replace.py:377-380 | the code as written and the corrected cascade agree whenever the first matching line cleans to a price |
| `Price.LineScanHidesLaterStrategies` | msi_v2_airtable_replace.py:377-383 | a matching line without a usable number makes the code as written return "" although the DOM strategy has a price |
| `Price.OneLinePage` | msi_v2_airtable_replace.py:377-383 | on a page whose only line matches without a usable number, the code as written returns "" and the corrected cascade returns the DOM price |
| `Price.RentPageAsWritten` | msi_v2_airtable_replace.py:377-380 | on a page whose text says "Objekt zur Miete.", with the price-line match reading the final period as the number, the code as written returns "" |
| `Price.RentPageCorrected` | msi_v2_airtable_replace.py:381-383 | on the same page the corrected cascade returns the DOM price "1.250 €" |
| `Lines.Filtered` | msi_v2_airtable_replace.py:408-415 | every line kept is normalised and holds neither a stop phrase (case-insensitive) nor contact data |
| `Lines.FilteredMembers` | msi_v2_airtable_replace.py:408-415 | a line is kept exactly when it is the normal form of a non-empty input paragraph that passes both filters |
| `Lines.CleanedLines` | msi_v2_airtable_replace.py:407-420 | no contract of its own; `Lines.CleanLines`, `Lines.CleanedLinesAreClean`, `Lines.FilteredMembers` and `Lines.CleanLinesFirstSeenOrder` state what `_clean_lines` returns |
| `Lines.Dedup` | msi_v2_airtable_replace.py:416-418 | the output has no duplicates and holds exactly the elements of the input |
| `Lines.CleanLines` | msi_v2_airtable_replace.py:407-420 | the loop with its `seen` set computes the cleaned lines: no duplicates, each normal, no stop phrase, no contact data |
| `Lines.DedupKeepsFirstSeenOrder` | msi_v2_airtable_replace.py:416-418 | two lines appear in the output in the order of their first occurrences in the input |
| `Lines.CleanLinesFirstSeenOrder` | msi_v2_airtable_replace.py:407-420 | `_clean_lines` orders its output by first occurrence among the filtered lines |
| `Lines.CleanedLinesAreClean` | msi_v2_airtable_replace.py:407-420 | every cleaned line is normal and free of stop phrases and contact data |
| `Lines.CleanLinesFixesClean` | msi_v2_airtable_replace.py:407-420 | lines that are already distinct, non-empty, normal and clean pass through unchanged |
| `Lines.CleanLinesIdempotent` | msi_v2_airtable_replace.py:407-420 | cleaning the cleaned lines again changes nothing, provided no blank line survived |
| `Lines.BlankLineSurvives` | msi_v2_airtable_replace.py:409-412 | a paragraph of one space survives as an empty line, because the emptiness test comes before `_norm` |
| `Lines.Description` | msi_v2_airtable_replace.py:472-473 | the description is a prefix of the cleaned lines joined by newlines, the whole join when it is at most 6000 characters long and its first 6000 characters otherwise |
| `Lines.DescriptionHoldsLines` | msi_v2_airtable_replace.py:472-473 | when the join is not cut, every cleaned line occurs in the description |
| `Lines.DescriptionContains` | msi_v2_airtable_replace.py:472-473 | any newline-free text found in the description is found in one cleaned line |
| `Lines.DescriptionHasNoStopString` | msi_v2_airtable_replace.py:472-473 | no stop phrase occurs in the description, not even across a joining newline or at the cut |
| `Records.KeyText` | msi_v2_airtable_replace.py:627-630 | `(v or "").strip()` is trimmed; it raises exactly on a truthy number |
| `Records.UniqueKey` | msi_v2_airtable_replace.py:626-633 | no contract of its own; `Records.UniqueKeyPriority`, `Records.KeyRoundTrip` and `Records.KeyFollowsObjectNumber` state which key is chosen and that keys do not collide |
| `Records.KeyRoundTrip` | msi_v2_airtable_replace.py:626-633 | keys of the three kinds read back as the key they were made from, so they never collide |
| `Records.UniqueKeyPriority` | msi_v2_airtable_replace.py:626-633 | the key is "obj:" and the trimmed object number when that is non-empty, else "url:" and the trimmed address when that is non-empty, else the digest key; it raises exactly on a number in a consulted field |
| `Records.KeyFollowsObjectNumber` | msi_v2_airtable_replace.py:626-629 | records with the same non-empty object number share their key whatever their other fields hold |
| `Records.Sanitize` | msi_v2_airtable_replace.py:568-573 | `Preis` is dropped exactly when it is None or ""; every other field is kept with its value |
| `Records.SanitizeAsSeenByGet` | msi_v2_airtable_replace.py:568-573 | through `get`, sanitising only turns an empty-string price into None |
| `Records.SanitizeIdempotent` | msi_v2_airtable_replace.py:568-573 | sanitising twice equals sanitising once |
| `Records.SanitizeKeepsNamedKey` | msi_v2_airtable_replace.py:568-573 | sanitising never changes an object-number or web-address key |
| `Records.MakeRecord` | msi_v2_airtable_replace.py:638-649 | a built record has exactly the eight fields of the table |
| `Records.MadeRecordKey` | msi_v2_airtable_replace.py:638-649 | `unique_key` never raises on a built record; its key follows the three-level priority on the row's fields |
| `Records.SanitizedRecord` | msi_v2_airtable_replace.py:638-649 | a built and sanitised record has a price exactly when the label parsed, and keeps its category |
| `Sync.Put` | msi_v2_airtable_replace.py:662 | `d[k] = v` keeps the dict well formed and sets exactly that entry |
| `Sync.IndexBy` | msi_v2_airtable_replace.py:659-668 | indexing fails exactly when some selected record's key raises; otherwise every selected record's key is in the index |
| `Sync.IndexByLastWins` | msi_v2_airtable_replace.py:659-668 | each entry of the index is the last selected record with that key |
| `Sync.Existing` | msi_v2_airtable_replace.py:659-662 | no contract of its own; it is `Sync.IndexBy` of the remote records of the category; `Sync.ExistingInCategory` and `Sync.IndexByLastWins` state what it holds |
| `Sync.ExistingInCategory` | msi_v2_airtable_replace.py:659-662 | every stored record of `existing` is a remote record labelled with the category |
| `Sync.Desired` | msi_v2_airtable_replace.py:664-668 | no contract of its own; it is `Sync.IndexBy` of the scraped rows of the category, sanitised after keying; `Sync.DesiredInCategory` and `Sync.IndexByLastWins` state what it holds |
| `Sync.DesiredInCategory` | msi_v2_airtable_replace.py:664-668 | every record of `desired` carries the category label |
| `Sync.Reconcile` | msi_v2_airtable_replace.py:670-681 | no contract of its own; `Sync.ReconcileCreates`, `Sync.ReconcileUpdates`, `Sync.ReconcileDeletes` and `Sync.ReconcileKeeps` state the plan it computes |
| `Sync.FieldDiff` | msi_v2_airtable_replace.py:674 | the diff only holds desired fields |
| `Sync.FieldDiffExact` | msi_v2_airtable_replace.py:674 | a field is in the diff exactly when its stored value differs from the desired one, and it carries the desired value |
| `Sync.FieldDiffEmpty` | msi_v2_airtable_replace.py:674-676 | the diff is empty exactly when the stored record agrees on every desired field |
| `Sync.DiffThenMergeAgrees` | msi_v2_airtable_replace.py:674-676 | once the diff is merged into the stored record, every desired field agrees, no other field changes, and a second diff is empty |
| `Sync.CreatesCount` | msi_v2_airtable_replace.py:670-679 | one create per desired key that is not found remotely |
| `Sync.DeletesCount` | msi_v2_airtable_replace.py:681 | one delete per remote key that is not kept |
| `Sync.UpdatesCount` | msi_v2_airtable_replace.py:671-676 | at most one update per key on both sides |
| `Sync.ReconcileCreates` | msi_v2_airtable_replace.py:670-679 | the records created are exactly the desired records whose key is not in `existing`, one per such key |
| `Sync.ReconcileDeletes` | msi_v2_airtable_replace.py:677-681 | the ids deleted are exactly those of the remote records whose key is not desired, one per such key |
| `Sync.ReconcileUpdates` | msi_v2_airtable_replace.py:671-677 | for a key on both sides, an update is sent iff some desired field differs, to that record's id and carrying exactly the differing fields |
| `Sync.ReconcileKeeps` | msi_v2_airtable_replace.py:677-681 | with unique remote ids, a key on both sides is never deleted |
| `Sync.SyncCategory` | msi_v2_airtable_replace.py:654-681 | no contract of its own; `Sync.SyncIgnoresOtherCategories`, `Sync.SyncStaysInCategory`, `Sync.SyncFailsOnlyOnKey` and `Sync.SyncKeepsScrapedListings` state what the plan of one category is |
| `Sync.SyncIgnoresOtherCategories` | msi_v2_airtable_replace.py:659-668 | records of other categories, remote or scraped, have no influence on the plan |
| `Sync.SyncStaysInCategory` | msi_v2_airtable_replace.py:659-681 | created records carry the label; updated and deleted ids belong to remote records of the category; no update changes the category field |
| `Sync.SyncFailsOnlyOnKey` | msi_v2_airtable_replace.py:659-668 | `sync_category` raises exactly when `unique_key` raises on a record of the category |
| `Sync.SyncKeepsScrapedListings` | msi_v2_airtable_replace.py:670-681 | with unique remote ids, a listing that is still scraped is never deleted |
| `SyncExamples.PriceChangeIsOneUpdate` | msi_v2_airtable_replace.py:659-681 | a listing whose price changed gives one update carrying only `Preis`, and no create or delete |
| `SyncExamples.VanishedListingIsDeleted` | msi_v2_airtable_replace.py:659-681 | a listing no longer scraped gives exactly one delete of its record id |
| `Batches.Chunks` | msi_v2_airtable_replace.py:577-578 | every batch is non-empty and holds at most ten records |
| `Batches.ChunksFlatten` | msi_v2_airtable_replace.py:577-578 | the batches in order are the list itself: nothing is lost, repeated or reordered |
| `Batches.ChunksCount` | msi_v2_airtable_replace.py:577 | the number of batches is the least that holds every element: ceil(len / 10) |
| `Batches.ChunksAreSlices` | msi_v2_airtable_replace.py:577-578 | batch k is the slice `xs[k*n : k*n+n]`, cut at the end of the list |
| `Batches.AllButLastFull` | msi_v2_airtable_replace.py:577-578 | every batch but the last is full |
| `Batches.SplitBatches` | msi_v2_airtable_replace.py:577-578 | the `range(0, len, 10)` loop produces exactly these batches |
| `Batches.Issued` | msi_v2_airtable_replace.py:597-602 | the requests made are a prefix of the planned ones; all but the last were accepted, and either all were made or the last was refused |
| `Batches.AllAcceptedAllIssued` | msi_v2_airtable_replace.py:575-602 | when the table accepts every request, every request is made |
| `Batches.Requests` | msi_v2_airtable_replace.py:684-689 | no contract of its own; `Batches.RequestsCarryPlan`, `Batches.RequestAt` and `Batches.DeletesOnlyAfterWrites` state which calls are made and in what order |
| `Batches.PickedBatches` | msi_v2_airtable_replace.py:575-602 | calls whose payloads are the batches, one for one, deliver exactly the batches run together |
| `Batches.DeliveredCreates` | msi_v2_airtable_replace.py:575-583 | the records carried by the create calls, read in order, are the plan's records to create |
| `Batches.DeliveredUpdates` | msi_v2_airtable_replace.py:585-593 | the updates carried by the update calls, read in order, are the plan's updates |
| `Batches.DeliveredDeletes` | msi_v2_airtable_replace.py:595-602 | the ids carried by the delete calls, read in order, are the plan's ids to delete |
| `Batches.RequestAt` | msi_v2_airtable_replace.py:684-689 | call k is a create batch among the first ceil(creates / 10) calls, an update batch among the next ceil(updates / 10), a delete batch after that, and carries between one and ten items |
| `Batches.RequestsCarryPlan` | msi_v2_airtable_replace.py:684-689 | read back, the calls deliver exactly the records to create, the updates and the ids to delete, each in order; their kinds never go backwards from create to update to delete; each call carries between one and ten items |
| `Batches.DeletesOnlyAfterWrites` | msi_v2_airtable_replace.py:684-689 | a delete request is made only after every create and update request was made and accepted |

## Left out

- HTTP fetching, headless rendering and DOM traversal are left out. The DOM, JSON-LD, object-data and strict-top price strategies are parameters: their answers are fields of `Price.Page`.
- `page_text.splitlines()` and the `RE_EUR_ANY` scan are not modelled. Their results are the `lines` and `euros` fields of `Price.Page`.
- Regular expressions are abstract predicates and matchers: `RE_PHONE`/`RE_EMAIL`, `RE_MIETE`/`RE_KAUF`, `RE_PRICE_LINE` and `RE_EUR_NUMBER`.
- `Price.FirstLineMatch`: the `ln.strip()` before the `RE_PRICE_LINE` search is part of the matcher parameter. The regular expression is abstract anyway, so the composition loses nothing.
- `clean_price_string`, `to_float` and `parse_price_to_number` are parameters. They are floating point and locale formatting.
- Python's `hash()` in `unique_key` is an uninterpreted `digest` function. It is not stable between runs.
- The Airtable REST calls are not modelled: listing with pagination, the schema check (`airtable_existing_fields`), the sleeps between batches, CSV writing and the `run` loop. Whether the table accepts a request is the parameter `ok` of `Batches.Issued`.
- `NumString.IsDigit`: `str.isdigit` is modelled on ASCII digits only. Python also accepts other Unicode digits.
- `Text.LowerChar`: `str.lower` is modelled for ASCII and Latin-1 only. The stop phrases lie in that range, but page text is lowercased too, and there the model can miss a stop phrase that Python finds. An example is U+212A KELVIN SIGN, which Python lowercases to "k". The paragraph "\u212Aontaktieren Sie uns" is dropped by the script (line 413) but kept by `Lines.Filtered`. Other capitals outside Latin-1 give the same gap.
- `Records.Value` has no booleans or nested values. The scraped records hold only strings and floats, and the table is expected to hold the same.
- `NumString.NormalizeReadsEuroNumber` excludes one shape: a number without decimals whose last period is followed by two or more thin-space groups. An example is "1.234 567 890": the text after the last period is nine digits long, so the periods are kept.
- `Lines.CleanLinesIdempotent` requires that no blank line survived the first pass. A whitespace-only paragraph survives as "" and is dropped on a second pass (see `Lines.BlankLineSurvives`).
- `Sync.ReconcileKeeps` and `Sync.SyncKeepsScrapedListings` assume that remote record ids are distinct, as the table guarantees.
- The `allowed_fields` argument of `sanitize_record_for_airtable` is ignored by the source, so it is absent from `Records.Sanitize`.

## Findings

| source | as written | input that shows it | evidently intended | confidence | as-written member | corrected member |
|---|---|---|---|---|---|---|
| msi_v2_airtable_replace.py:377-380 | the line scan returns `clean_price_string(m.group(2) + " €")` for the first line that `RE_PRICE_LINE` matches, even when that is "" | a page whose text has the line "Objekt zur Miete." (the number group accepts the lone period; `clean_price_string(". €")` is "") and whose DOM strategy finds "1.250 €" | like every other strategy, an empty answer passes on: to the next matching line, then to the DOM, strict-top and largest-amount strategies | medium; not executed | `Price.ExtractPriceAsWritten` (shown by `Price.RentPageAsWritten` and `Price.LineScanHidesLaterStrategies`) | `Price.ExtractPrice` (proved by `Price.FirstNonEmpty`, `Price.ExtractPriceCascade` and `Price.RentPageCorrected`) |
