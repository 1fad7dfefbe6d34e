/**
 Two concrete runs of the reconciliation: a price change on a listing that
 is already in the table, and a listing that has left the site.
 */
module SyncExamples {
  import opened Common
  import opened Text
  import opened Records
  import opened Sync
  import opened Categories

  function Listing(obj: string, price: real): Fields {
    map[ObjectNumberField := Str(obj), CategoryField := Str(Buy), PriceField := Num(price)]
  }

  lemma ListingKey(obj: string, price: real, digest: Fields -> string)
    requires obj != "" && Trimmed(obj)
    ensures UniqueKey(Listing(obj, price), digest) == Some("obj:" + obj)
    ensures InCategory(Listing(obj, price), Buy)
  {
    StripFixesTrimmed(obj);
    assert Get(Listing(obj, price), ObjectNumberField) == Str(obj);
  }

  /** Indexing one in-category record with a key gives a one-entry dict. */
  lemma IndexOne<T, V>(x: T, keep: T -> bool, key: T -> Option<string>, val: T -> V, k: string)
    requires keep(x) && key(x) == Some(k)
    ensures IndexBy([x], keep, key, val) == Some(Dict([k], map[k := val(x)]))
  {
    assert [x][..0] == [];
    assert IndexBy([], keep, key, val) == Some(Dict([], map[]));
    assert Put(Dict([], map[]), k, val(x)) == Dict([k], map[k := val(x)]);
  }

  /** One stored and one scraped record under the same key whose fields
      differ: the plan is that one update. */
  lemma ReconcileOneKey(k: string, r: Remote, f: Fields)
    requires FieldDiff(f, r.fields) != map[]
    ensures var e, d := Dict([k], map[k := r]), Dict([k], map[k := f]);
      WellFormed(e) && WellFormed(d) &&
      Reconcile(e, d) == Plan([], [Update(r.id, FieldDiff(f, r.fields))], [])
  {
    var e, d := Dict([k], map[k := r]), Dict([k], map[k := f]);
    assert [k][1..] == [];
    assert KeySet([k]) == {k};
    assert WellFormed(e) && WellFormed(d);
    assert Creates(d.order, d.entries, e.entries) == [];
    assert Updates(d.order[1..], d.entries, e.entries) == [];
    assert d.entries.Keys * e.entries.Keys == {k};
    assert Deletes(e.order, e.entries, {k}) == [];
  }

  /** The sync reconciles the two indexes it builds. */
  lemma SyncOfIndexes(remotes: seq<Remote>, rows: seq<Fields>, cat: string, digest: Fields -> string, e: Dict<Remote>, d: Dict<Fields>)
    requires Existing(remotes, cat, digest) == Some(e) && Desired(rows, cat, digest) == Some(d)
    ensures WellFormed(e) && WellFormed(d)
    ensures SyncCategory(remotes, rows, cat, digest) == Some(Reconcile(e, d))
  {
  }

  /** One stored listing indexes under its object number. */
  lemma ListingExisting(id: string, obj: string, price: real, digest: Fields -> string)
    requires obj != "" && Trimmed(obj)
    ensures Existing([Remote(id, Listing(obj, price))], Buy, digest)
         == Some(Dict(["obj:" + obj], map["obj:" + obj := Remote(id, Listing(obj, price))]))
  {
    ListingKey(obj, price, digest);
    IndexOne(Remote(id, Listing(obj, price)), RemoteInCategory(Buy), RemoteKey(digest), AsIs(), "obj:" + obj);
  }

  lemma ListingSanitized(obj: string, price: real)
    ensures Sanitize(Listing(obj, price)) == Listing(obj, price)
  {
    assert Listing(obj, price)[PriceField] == Num(price);
  }

  /** One scraped listing indexes under its object number, unchanged by
      sanitising. */
  lemma ListingDesired(obj: string, price: real, digest: Fields -> string)
    requires obj != "" && Trimmed(obj)
    ensures Desired([Listing(obj, price)], Buy, digest)
         == Some(Dict(["obj:" + obj], map["obj:" + obj := Listing(obj, price)]))
  {
    ListingKey(obj, price, digest);
    ListingSanitized(obj, price);
    IndexOne(Listing(obj, price), RowInCategory(Buy), RowKey(digest), Sanitizer(), "obj:" + obj);
  }

  lemma PriceChangeDiff()
    ensures FieldDiff(Listing("4220", 479000.0), Listing("4220", 450000.0)) == map[PriceField := Num(479000.0)]
    ensures FieldDiff(Listing("4220", 479000.0), Listing("4220", 450000.0)) != map[]
  {
    assert PriceField in map[PriceField := Num(479000.0)];
  }

  /** Listing 4220 is stored at 450000 and now scraped at 479000: one update
      to its record carrying only the new price, nothing created or
      deleted. */
  lemma PriceChangeIsOneUpdate(digest: Fields -> string)
    ensures SyncCategory([Remote("rec4220", Listing("4220", 450000.0))], [Listing("4220", 479000.0)], Buy, digest)
         == Some(Plan([], [Update("rec4220", map[PriceField := Num(479000.0)])], []))
  {
    var stored := Remote("rec4220", Listing("4220", 450000.0));
    var scraped := Listing("4220", 479000.0);
    assert Trimmed("4220");
    assert "obj:" + "4220" == "obj:4220";
    ListingExisting("rec4220", "4220", 450000.0, digest);
    ListingDesired("4220", 479000.0, digest);
    PriceChangeDiff();
    assert stored.fields == Listing("4220", 450000.0);
    SyncOfIndexes([stored], [scraped], Buy, digest,
      Dict(["obj:4220"], map["obj:4220" := stored]), Dict(["obj:4220"], map["obj:4220" := scraped]));
    ReconcileOneKey("obj:4220", stored, scraped);
  }

  /** A stored record with nothing scraped: the plan is its deletion. */
  lemma ReconcileOnlyStored(k: string, r: Remote)
    ensures var e := Dict([k], map[k := r]); var d: Dict<Fields> := Dict([], map[]);
      WellFormed(e) && WellFormed(d) &&
      Reconcile(e, d) == Plan([], [], [r.id])
  {
    var e := Dict([k], map[k := r]);
    var d: Dict<Fields> := Dict([], map[]);
    assert [k][1..] == [];
    assert KeySet([k]) == {k};
    assert WellFormed(e) && WellFormed(d);
    assert d.entries.Keys * e.entries.Keys == {};
    assert Deletes(e.order, e.entries, {}) == [r.id];
  }

  /** Listing 9999 is stored but no longer scraped: its record is the one
      deletion. */
  lemma VanishedListingIsDeleted(digest: Fields -> string)
    ensures SyncCategory([Remote("rec9999", Listing("9999", 250000.0))], [], Buy, digest)
         == Some(Plan([], [], ["rec9999"]))
  {
    var stored := Remote("rec9999", Listing("9999", 250000.0));
    assert Trimmed("9999");
    assert "obj:" + "9999" == "obj:9999";
    ListingExisting("rec9999", "9999", 250000.0, digest);
    assert Desired([], Buy, digest) == Some(Dict([], map[]));
    SyncOfIndexes([stored], [], Buy, digest, Dict(["obj:9999"], map["obj:9999" := stored]), Dict([], map[]));
    ReconcileOnlyStored("obj:9999", stored);
  }
}
