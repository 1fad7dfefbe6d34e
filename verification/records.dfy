/**
 Airtable records as the sync sees them: a field map with string, number or
 missing values; the natural key that identifies a listing across runs
 (`unique_key`); the record built from a scraped row (`make_record`); and
 the clean-up applied before a record is sent (`sanitize_record_for_airtable`).
 */
module Records {
  import opened Common
  import opened Text

  /** A field value: JSON null (or an absent field), a string, or a number.
      Python's float and int compare equal when their values agree, so both
      are one `Num`. */
  datatype Value = Null | Str(s: string) | Num(x: real)

  type Fields = map<string, Value>

  const TitleField := "Titel"
  const CategoryField := "Kategorie"
  const WebsiteField := "Webseite"
  const ObjectNumberField := "Objektnummer"
  const DescriptionField := "Beschreibung"
  const ImageField := "Bild"
  const PriceField := "Preis"
  const LocationField := "Standort"

  /** `fields.get(name)`: `None` for a missing field. */
  function Get(f: Fields, name: string): Value {
    if name in f then f[name] else Null
  }

  /** Python truthiness of a value. */
  predicate Truthy(v: Value) {
    match v
    case Null => false
    case Str(s) => s != ""
    case Num(x) => x != 0.0
  }

  /** `(fields.get(name) or "").strip()`. A truthy number has no `strip`,
      so Python raises; that is `None` here. */
  function KeyText(f: Fields, name: string): (r: Option<string>)
    ensures r.None? <==> Get(f, name).Num? && Truthy(Get(f, name))
    ensures r.Some? ==> Trimmed(r.value)
    ensures Get(f, name).Str? ==> r == Some(Strip(Get(f, name).s))
  {
    match Get(f, name)
    case Null => Some("")
    case Str(s) => Some(Strip(s))
    case Num(x) => if x != 0.0 then None else Some("")
  }

  /** `unique_key(fields)`: the object number if there is one, else the web
      address, else a digest of the whole record. `digest` stands for the
      decimal text of `hash(json.dumps(fields, sort_keys=True))`. `None`
      means that `unique_key` raises. */
  function UniqueKey(f: Fields, digest: Fields -> string): Option<string> {
    var obj :- KeyText(f, ObjectNumberField);
    if obj != "" then Some("obj:" + obj)
    else
      var url :- KeyText(f, WebsiteField);
      if url != "" then Some("url:" + url)
      else Some("hash:" + digest(f))
  }

  /** The three kinds of natural key. */
  datatype NaturalKey = ByObject(obj: string) | ByUrl(url: string) | ByHash(digest: string)

  function KeyString(nk: NaturalKey): string {
    match nk
    case ByObject(o) => "obj:" + o
    case ByUrl(u) => "url:" + u
    case ByHash(h) => "hash:" + h
  }

  /** Reads a key string back into its kind and payload. */
  function ParseKey(k: string): (r: Option<NaturalKey>)
    ensures r.Some? ==> KeyString(r.value) == k
  {
    if "obj:" <= k then Some(ByObject(k[4..]))
    else if "url:" <= k then Some(ByUrl(k[4..]))
    else if "hash:" <= k then Some(ByHash(k[5..]))
    else None
  }

  /** Every key string reads back as the key it was made from, so keys of
      different kinds never coincide. */
  lemma KeyRoundTrip(nk: NaturalKey)
    ensures ParseKey(KeyString(nk)) == Some(nk)
  {
    match nk
    case ByObject(o) =>
      assert ("obj:" + o)[4..] == o;
    case ByUrl(u) =>
      assert ("url:" + u)[0] == 'u';
      assert ("url:" + u)[4..] == u;
    case ByHash(h) =>
      assert ("hash:" + h)[0] == 'h';
      assert ("hash:" + h)[5..] == h;
  }

  /** The priority of `unique_key`: a non-empty object number decides the
      key; without one a non-empty web address decides it; only a record
      with neither falls back to the digest. The key is absent exactly when
      Python raises on a number in one of the two fields consulted. */
  lemma UniqueKeyPriority(f: Fields, digest: Fields -> string)
    ensures var obj, url := KeyText(f, ObjectNumberField), KeyText(f, WebsiteField);
      && (UniqueKey(f, digest).None? <==> obj.None? || (obj == Some("") && url.None?))
      && (obj.Some? && obj.value != "" ==> ParseKey(UniqueKey(f, digest).value) == Some(ByObject(obj.value)))
      && (obj == Some("") && url.Some? && url.value != "" ==> ParseKey(UniqueKey(f, digest).value) == Some(ByUrl(url.value)))
      && (obj == Some("") && url == Some("") ==> ParseKey(UniqueKey(f, digest).value) == Some(ByHash(digest(f))))
  {
    var obj, url := KeyText(f, ObjectNumberField), KeyText(f, WebsiteField);
    if obj.Some? && obj.value != "" {
      KeyRoundTrip(ByObject(obj.value));
    } else if obj.Some? && url.Some? && url.value != "" {
      KeyRoundTrip(ByUrl(url.value));
    } else if obj.Some? && url.Some? {
      KeyRoundTrip(ByHash(digest(f)));
    }
  }

  /** Two records with the same non-empty object number have the same key,
      whatever their other fields hold. */
  lemma KeyFollowsObjectNumber(f: Fields, g: Fields, digest: Fields -> string)
    requires Get(f, ObjectNumberField) == Get(g, ObjectNumberField)
    requires KeyText(f, ObjectNumberField).Some? && KeyText(f, ObjectNumberField).value != ""
    ensures UniqueKey(f, digest) == UniqueKey(g, digest) == Some("obj:" + KeyText(f, ObjectNumberField).value)
  {
  }

  /** `sanitize_record_for_airtable(record)`: a `Preis` that is `None` or
      the empty string is dropped; every other field, and a real price, is
      kept as it is. The allowed-fields argument is ignored by the source. */
  function Sanitize(f: Fields): (r: Fields)
    ensures forall k :: k != PriceField ==> (k in r <==> k in f)
    ensures forall k :: k in r ==> k in f && r[k] == f[k]
    ensures PriceField in r <==> PriceField in f && f[PriceField] != Null && f[PriceField] != Str("")
  {
    if PriceField in f && (f[PriceField] == Null || f[PriceField] == Str("")) then f - {PriceField} else f
  }

  /** Seen through `fields.get`, sanitising changes only an empty-string
      price, which becomes `None`. */
  lemma SanitizeAsSeenByGet(f: Fields, name: string)
    ensures Get(Sanitize(f), name) == if name == PriceField && Get(f, name) == Str("") then Null else Get(f, name)
  {
  }

  /** Sanitising twice is sanitising once. */
  lemma SanitizeIdempotent(f: Fields)
    ensures Sanitize(Sanitize(f)) == Sanitize(f)
  {
  }

  /** Sanitising never changes a key that comes from the object number or
      the web address; only a digest key can move, since it covers the
      dropped price. */
  lemma SanitizeKeepsNamedKey(f: Fields, digest: Fields -> string)
    requires UniqueKey(f, digest).Some?
    requires !("hash:" <= UniqueKey(f, digest).value)
    ensures UniqueKey(Sanitize(f), digest) == UniqueKey(f, digest)
  {
    SanitizeAsSeenByGet(f, ObjectNumberField);
    SanitizeAsSeenByGet(f, WebsiteField);
  }

  /** A scraped listing, as `parse_detail` leaves it. */
  datatype Row = Row(
    title: string, category: string, url: string, objectNumber: string,
    description: string, image: string, priceLabel: string, location: string)

  /** `make_record(row)`. `parsePrice` stands for `parse_price_to_number`,
      whose result is a float or `None`. */
  function MakeRecord(row: Row, parsePrice: string -> Option<real>): (f: Fields)
    ensures f.Keys == {TitleField, CategoryField, WebsiteField, ObjectNumberField, DescriptionField, ImageField, PriceField, LocationField}
  {
    map[
      TitleField := Str(row.title),
      CategoryField := Str(row.category),
      WebsiteField := Str(row.url),
      ObjectNumberField := Str(row.objectNumber),
      DescriptionField := Str(row.description),
      ImageField := Str(row.image),
      PriceField := (match parsePrice(row.priceLabel) case Some(x) => Num(x) case None => Null),
      LocationField := Str(row.location)
    ]
  }

  /** A built record always has a key: its object number, else its web
      address, else the digest. `unique_key` never raises on it. */
  lemma MadeRecordKey(row: Row, parsePrice: string -> Option<real>, digest: Fields -> string)
    ensures var f := MakeRecord(row, parsePrice);
      UniqueKey(f, digest) ==
        if Strip(row.objectNumber) != "" then Some("obj:" + Strip(row.objectNumber))
        else if Strip(row.url) != "" then Some("url:" + Strip(row.url))
        else Some("hash:" + digest(f))
  {
    var f := MakeRecord(row, parsePrice);
    assert Get(f, ObjectNumberField) == Str(row.objectNumber);
    assert Get(f, WebsiteField) == Str(row.url);
  }

  /** Sanitising a built record drops its price exactly when the label did
      not parse, and keeps the category it was built with. */
  lemma SanitizedRecord(row: Row, parsePrice: string -> Option<real>)
    ensures var s := Sanitize(MakeRecord(row, parsePrice));
      && (PriceField in s <==> parsePrice(row.priceLabel).Some?)
      && Get(s, CategoryField) == Str(row.category)
  {
    var f := MakeRecord(row, parsePrice);
    assert f[PriceField] == (match parsePrice(row.priceLabel) case Some(x) => Num(x) case None => Null);
    assert f[CategoryField] == Str(row.category);
  }
}
