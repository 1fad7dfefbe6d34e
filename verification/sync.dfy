/**
 The reconciliation at the heart of `sync_category`: the remote records of
 one category and the scraped records of the same category are each indexed
 by natural key, and the difference becomes a plan of records to create,
 field-level updates to send and record ids to delete, so that afterwards
 the remote table mirrors the scrape for that category.
 */
module Sync {
  import opened Common
  import opened Records

  /** A record as listed by the remote table: its id and its fields. */
  datatype Remote = Remote(id: string, fields: Fields)

  /** A Python dict with string keys: the keys in insertion order, and the
      entries. Overwriting a key keeps its original position. */
  datatype Dict<V> = Dict(order: seq<string>, entries: map<string, V>)

  function KeySet(ks: seq<string>): set<string> {
    set k | k in ks
  }

  predicate WellFormed<V>(d: Dict<V>) {
    Distinct(d.order) && d.entries.Keys == KeySet(d.order)
  }

  /** `d[k] = v`. */
  function Put<V>(d: Dict<V>, k: string, v: V): (r: Dict<V>)
    requires WellFormed(d)
    ensures WellFormed(r)
    ensures r.entries == d.entries[k := v]
  {
    if k in d.entries then Dict(d.order, d.entries[k := v])
    else
      var r := Dict(d.order + [k], d.entries[k := v]);
      assert KeySet(r.order) == KeySet(d.order) + {k};
      r
  }

  /** The elements of `xs` that satisfy `p`, in order. */
  function Filter<T>(xs: seq<T>, p: T -> bool): (r: seq<T>)
    ensures |r| <= |xs|
    ensures forall x :: x in r ==> x in xs && p(x)
  {
    if xs == [] then []
    else
      var rest := Filter(xs[..|xs| - 1], p);
      var x := xs[|xs| - 1];
      if p(x) then rest + [x] else rest
  }

  /** Some element selected by `keep` has key `k` and value `v`, and no
      later selected element has key `k`: a later assignment overwrites an
      earlier one. */
  ghost predicate LastWith<T, V>(xs: seq<T>, keep: T -> bool, key: T -> Option<string>, val: T -> V, k: string, v: V) {
    exists i :: 0 <= i < |xs| && keep(xs[i]) && key(xs[i]) == Some(k) && val(xs[i]) == v &&
      forall j :: i < j < |xs| && keep(xs[j]) ==> key(xs[j]) != Some(k)
  }

  /** The loop `for x in xs: if keep(x): d[key(x)] = val(x)`, starting from
      an empty dict; `None` when computing some selected key raises. */
  function IndexBy<T, V>(xs: seq<T>, keep: T -> bool, key: T -> Option<string>, val: T -> V): (r: Option<Dict<V>>)
    ensures r.Some? <==> forall i :: 0 <= i < |xs| && keep(xs[i]) ==> key(xs[i]).Some?
    ensures r.Some? ==> WellFormed(r.value)
    ensures r.Some? ==> forall i :: 0 <= i < |xs| && keep(xs[i]) ==> key(xs[i]).value in r.value.entries
  {
    if xs == [] then Some(Dict([], map[]))
    else
      var init := xs[..|xs| - 1];
      var x := xs[|xs| - 1];
      assert forall i :: 0 <= i < |init| ==> init[i] == xs[i];
      var rest := IndexBy(init, keep, key, val);
      if rest.None? then None
      else if !keep(x) then rest
      else if key(x).None? then None
      else Some(Put(rest.value, key(x).value, val(x)))
  }

  lemma LastWithExtend<T, V>(init: seq<T>, x: T, keep: T -> bool, key: T -> Option<string>, val: T -> V, k: string, v: V)
    requires LastWith(init, keep, key, val, k, v)
    requires !(keep(x) && key(x) == Some(k))
    ensures LastWith(init + [x], keep, key, val, k, v)
  {
    var xs := init + [x];
    var i :| 0 <= i < |init| && keep(init[i]) && key(init[i]) == Some(k) && val(init[i]) == v &&
      forall j :: i < j < |init| && keep(init[j]) ==> key(init[j]) != Some(k);
    assert xs[i] == init[i];
    assert forall j :: i < j < |xs| - 1 ==> xs[j] == init[j];
  }

  lemma LastWithNew<T, V>(init: seq<T>, x: T, keep: T -> bool, key: T -> Option<string>, val: T -> V)
    requires keep(x) && key(x).Some?
    ensures LastWith(init + [x], keep, key, val, key(x).value, val(x))
  {
    assert (init + [x])[|init|] == x;
  }

  /** Each entry of the index comes from the last selected element with
      that key: a later assignment overwrites an earlier one. */
  lemma {:induction false} IndexByLastWins<T, V>(xs: seq<T>, keep: T -> bool, key: T -> Option<string>, val: T -> V)
    requires IndexBy(xs, keep, key, val).Some?
    ensures var d := IndexBy(xs, keep, key, val).value;
      forall k :: k in d.entries ==> LastWith(xs, keep, key, val, k, d.entries[k])
    decreases |xs|
  {
    if xs != [] {
      var init := xs[..|xs| - 1];
      var x := xs[|xs| - 1];
      assert xs == init + [x];
      var rest := IndexBy(init, keep, key, val).value;
      var d := IndexBy(xs, keep, key, val).value;
      IndexByLastWins(init, keep, key, val);
      forall k | k in d.entries ensures LastWith(xs, keep, key, val, k, d.entries[k]) {
        if keep(x) && k == key(x).value {
          LastWithNew(init, x, keep, key, val);
        } else {
          LastWithExtend(init, x, keep, key, val, k, rest.entries[k]);
        }
      }
    }
  }

  predicate InCategory(f: Fields, cat: string) {
    Get(f, CategoryField) == Str(cat)
  }

  function RemoteInCategory(cat: string): Remote -> bool {
    (r: Remote) => InCategory(r.fields, cat)
  }

  function RemoteKey(digest: Fields -> string): Remote -> Option<string> {
    (r: Remote) => UniqueKey(r.fields, digest)
  }

  function RowInCategory(cat: string): Fields -> bool {
    (f: Fields) => InCategory(f, cat)
  }

  function RowKey(digest: Fields -> string): Fields -> Option<string> {
    (f: Fields) => UniqueKey(f, digest)
  }

  function AsIs(): Remote -> Remote {
    (r: Remote) => r
  }

  function Sanitizer(): Fields -> Fields {
    (f: Fields) => Sanitize(f)
  }

  /** `existing`: the remote records of the category, by key. */
  function Existing(remotes: seq<Remote>, cat: string, digest: Fields -> string): Option<Dict<Remote>> {
    IndexBy(remotes, RemoteInCategory(cat), RemoteKey(digest), AsIs())
  }

  /** `desired`: the sanitised scraped records of the category, by the key
      of the record before sanitising. */
  function Desired(rows: seq<Fields>, cat: string, digest: Fields -> string): Option<Dict<Fields>> {
    IndexBy(rows, RowInCategory(cat), RowKey(digest), Sanitizer())
  }

  /** `{fld: val for fld, val in fields.items() if old.get(fld) != val}`, where `old` is the stored record. */
  function FieldDiff(desired: Fields, stored: Fields): (diff: Fields)
    ensures diff.Keys <= desired.Keys
  {
    map fld | fld in desired && Get(stored, fld) != desired[fld] :: desired[fld]
  }

  datatype Update = Update(id: string, fields: Fields)

  /** What one call sends: records to create, partial records to update by
      id, and ids to delete. */
  datatype Plan = Plan(create: seq<Fields>, update: seq<Update>, delete: seq<string>)

  function Creates(ks: seq<string>, desired: map<string, Fields>, existing: map<string, Remote>): seq<Fields>
    requires KeySet(ks) <= desired.Keys
  {
    if ks == [] then []
    else
      assert KeySet(ks[1..]) <= KeySet(ks);
      (if ks[0] in existing then [] else [desired[ks[0]]]) + Creates(ks[1..], desired, existing)
  }

  function Updates(ks: seq<string>, desired: map<string, Fields>, existing: map<string, Remote>): seq<Update>
    requires KeySet(ks) <= desired.Keys
  {
    if ks == [] then []
    else
      var k := ks[0];
      assert KeySet(ks[1..]) <= KeySet(ks);
      (if k in existing && FieldDiff(desired[k], existing[k].fields) != map[]
       then [Update(existing[k].id, FieldDiff(desired[k], existing[k].fields))]
       else [])
      + Updates(ks[1..], desired, existing)
  }

  function Deletes(ks: seq<string>, existing: map<string, Remote>, keep: set<string>): seq<string>
    requires KeySet(ks) <= existing.Keys
  {
    if ks == [] then []
    else
      assert KeySet(ks[1..]) <= KeySet(ks);
      (if ks[0] in keep then [] else [existing[ks[0]].id]) + Deletes(ks[1..], existing, keep)
  }

  /** The plan for one category from the two indexes: walk the desired keys
      in order, creating or diffing, and mark every desired key found
      remotely as kept; then delete, in remote order, every remote key not
      kept. */
  function Reconcile(e: Dict<Remote>, d: Dict<Fields>): Plan
    requires WellFormed(e) && WellFormed(d)
  {
    var keep := d.entries.Keys * e.entries.Keys;
    Plan(Creates(d.order, d.entries, e.entries),
         Updates(d.order, d.entries, e.entries),
         Deletes(e.order, e.entries, keep))
  }

  /** `sync_category(scraped_rows, label)` up to the network calls; `None`
      when `unique_key` raises on a record of the category. */
  function SyncCategory(remotes: seq<Remote>, rows: seq<Fields>, cat: string, digest: Fields -> string): Option<Plan> {
    var e :- Existing(remotes, cat, digest);
    var d :- Desired(rows, cat, digest);
    Some(Reconcile(e, d))
  }

  // ---------------------------------------------------------------------
  // The field-level diff

  /** A field is in the diff exactly when the remote value differs from the
      desired one, and it carries the desired value. */
  lemma FieldDiffExact(desired: Fields, stored: Fields)
    ensures forall fld :: fld in FieldDiff(desired, stored) <==> fld in desired && Get(stored, fld) != desired[fld]
    ensures forall fld :: fld in FieldDiff(desired, stored) ==> FieldDiff(desired, stored)[fld] == desired[fld]
  {
  }

  /** The diff is empty exactly when the remote record already agrees with
      every desired field. */
  lemma FieldDiffEmpty(desired: Fields, stored: Fields)
    ensures FieldDiff(desired, stored) == map[] <==> forall fld :: fld in desired ==> Get(stored, fld) == desired[fld]
  {
    if FieldDiff(desired, stored) == map[] {
      forall fld | fld in desired ensures Get(stored, fld) == desired[fld] {
        assert fld !in FieldDiff(desired, stored);
      }
    } else {
      var fld :| fld in FieldDiff(desired, stored);
    }
  }

  /** Applying the diff as the remote table does (the sent fields replace
      the stored ones) brings the record in line with every desired field,
      leaves every other field alone, and a second diff is then empty. */
  lemma DiffThenMergeAgrees(desired: Fields, stored: Fields)
    ensures var merged := stored + FieldDiff(desired, stored);
      && (forall fld :: fld in desired ==> Get(merged, fld) == desired[fld])
      && (forall fld :: fld !in desired ==> Get(merged, fld) == Get(stored, fld))
      && FieldDiff(desired, merged) == map[]
  {
    var merged := stored + FieldDiff(desired, stored);
    forall fld | fld in desired ensures Get(merged, fld) == desired[fld] {
      if fld !in FieldDiff(desired, stored) {
        assert Get(stored, fld) == desired[fld];
      }
    }
    FieldDiffEmpty(desired, merged);
  }

  // ---------------------------------------------------------------------
  // Creates, updates and deletes

  lemma KeySetCons(ks: seq<string>)
    requires ks != [] && Distinct(ks)
    ensures KeySet(ks) == {ks[0]} + KeySet(ks[1..])
    ensures ks[0] !in KeySet(ks[1..])
    ensures Distinct(ks[1..])
  {
    assert ks == [ks[0]] + ks[1..];
  }

  lemma CardAddOne(a: set<string>, x: string, e: set<string>)
    requires x !in a
    ensures |({x} + a) - e| == |a - e| + (if x in e then 0 else 1)
  {
    if x in e {
      assert ({x} + a) - e == a - e;
    } else {
      assert ({x} + a) - e == {x} + (a - e);
    }
  }

  lemma CardAddOneBoth(a: set<string>, x: string, e: set<string>)
    requires x !in a
    ensures |({x} + a) * e| == |a * e| + (if x in e then 1 else 0)
  {
    if x in e {
      assert ({x} + a) * e == {x} + (a * e);
    } else {
      assert ({x} + a) * e == a * e;
    }
  }

  lemma {:induction false} CreatesCount(ks: seq<string>, desired: map<string, Fields>, existing: map<string, Remote>)
    requires KeySet(ks) <= desired.Keys && Distinct(ks)
    ensures |Creates(ks, desired, existing)| == |KeySet(ks) - existing.Keys|
    decreases |ks|
  {
    if ks != [] {
      KeySetCons(ks);
      CreatesCount(ks[1..], desired, existing);
      CardAddOne(KeySet(ks[1..]), ks[0], existing.Keys);
    }
  }

  lemma {:induction false} CreatesMembers(ks: seq<string>, desired: map<string, Fields>, existing: map<string, Remote>)
    requires KeySet(ks) <= desired.Keys
    ensures forall f :: f in Creates(ks, desired, existing) <==> exists k :: k in ks && k !in existing && desired[k] == f
    decreases |ks|
  {
    if ks != [] {
      assert KeySet(ks[1..]) <= KeySet(ks);
      CreatesMembers(ks[1..], desired, existing);
      assert forall k :: k in ks <==> k == ks[0] || k in ks[1..];
    }
  }

  lemma {:induction false} DeletesCount(ks: seq<string>, existing: map<string, Remote>, keep: set<string>)
    requires KeySet(ks) <= existing.Keys && Distinct(ks)
    ensures |Deletes(ks, existing, keep)| == |KeySet(ks) - keep|
    decreases |ks|
  {
    if ks != [] {
      KeySetCons(ks);
      DeletesCount(ks[1..], existing, keep);
      CardAddOne(KeySet(ks[1..]), ks[0], keep);
    }
  }

  lemma {:induction false} DeletesMembers(ks: seq<string>, existing: map<string, Remote>, keep: set<string>)
    requires KeySet(ks) <= existing.Keys
    ensures forall id :: id in Deletes(ks, existing, keep) <==> exists k :: k in ks && k !in keep && existing[k].id == id
    decreases |ks|
  {
    if ks != [] {
      assert KeySet(ks[1..]) <= KeySet(ks);
      DeletesMembers(ks[1..], existing, keep);
      assert forall k :: k in ks <==> k == ks[0] || k in ks[1..];
    }
  }

  lemma {:induction false} UpdatesMembers(ks: seq<string>, desired: map<string, Fields>, existing: map<string, Remote>)
    requires KeySet(ks) <= desired.Keys
    ensures forall u :: u in Updates(ks, desired, existing) <==>
      exists k :: k in ks && k in existing && u == Update(existing[k].id, FieldDiff(desired[k], existing[k].fields)) && u.fields != map[]
    decreases |ks|
  {
    if ks != [] {
      assert KeySet(ks[1..]) <= KeySet(ks);
      UpdatesMembers(ks[1..], desired, existing);
      assert forall k :: k in ks <==> k == ks[0] || k in ks[1..];
    }
  }

  lemma {:induction false} UpdatesCount(ks: seq<string>, desired: map<string, Fields>, existing: map<string, Remote>)
    requires KeySet(ks) <= desired.Keys && Distinct(ks)
    ensures |Updates(ks, desired, existing)| <= |KeySet(ks) * existing.Keys|
    decreases |ks|
  {
    if ks != [] {
      KeySetCons(ks);
      UpdatesCount(ks[1..], desired, existing);
      CardAddOneBoth(KeySet(ks[1..]), ks[0], existing.Keys);
    }
  }

  /** One create per desired key that is not found remotely, carrying that
      key's record, and nothing else. */
  lemma ReconcileCreates(e: Dict<Remote>, d: Dict<Fields>)
    requires WellFormed(e) && WellFormed(d)
    ensures var p := Reconcile(e, d);
      && |p.create| == |d.entries.Keys - e.entries.Keys|
      && forall f :: f in p.create <==> exists k :: k in d.entries && k !in e.entries && d.entries[k] == f
  {
    CreatesCount(d.order, d.entries, e.entries);
    CreatesMembers(d.order, d.entries, e.entries);
  }

  /** One delete per remote key that is not desired, carrying that
      record's id, and nothing else. */
  lemma ReconcileDeletes(e: Dict<Remote>, d: Dict<Fields>)
    requires WellFormed(e) && WellFormed(d)
    ensures var p := Reconcile(e, d);
      && |p.delete| == |e.entries.Keys - d.entries.Keys|
      && forall id :: id in p.delete <==> exists k :: k in e.entries && k !in d.entries && e.entries[k].id == id
  {
    var keep := d.entries.Keys * e.entries.Keys;
    assert Reconcile(e, d).delete == Deletes(e.order, e.entries, keep);
    DeletesCount(e.order, e.entries, keep);
    DeletesMembers(e.order, e.entries, keep);
    assert e.entries.Keys - keep == e.entries.Keys - d.entries.Keys;
    assert forall k :: k in e.entries ==> (k !in keep <==> k !in d.entries);
  }

  /** `u` is the update for key `k`, found on both sides: the remote
      record's id and the non-empty diff. */
  predicate IsDiffUpdate(e: Dict<Remote>, d: Dict<Fields>, k: string, u: Update) {
    && k in d.entries && k in e.entries
    && u.id == e.entries[k].id
    && u.fields == FieldDiff(d.entries[k], e.entries[k].fields)
    && u.fields != map[]
  }

  /** For a key on both sides, an update is sent exactly when some desired
      field differs from the remote value, it goes to that record's id and
      carries exactly the differing fields; every update is of this kind,
      and there is at most one per shared key. */
  lemma ReconcileUpdates(e: Dict<Remote>, d: Dict<Fields>)
    requires WellFormed(e) && WellFormed(d)
    ensures var p := Reconcile(e, d);
      && |p.update| <= |d.entries.Keys * e.entries.Keys|
      && (forall k :: k in d.entries && k in e.entries ==>
            var diff := FieldDiff(d.entries[k], e.entries[k].fields);
            (Update(e.entries[k].id, diff) in p.update <==> exists fld :: fld in d.entries[k] && Get(e.entries[k].fields, fld) != d.entries[k][fld]))
      && (forall u :: u in p.update ==> exists k :: IsDiffUpdate(e, d, k, u))
  {
    UpdatesCount(d.order, d.entries, e.entries);
    UpdatesMembers(d.order, d.entries, e.entries);
    forall k | k in d.entries && k in e.entries
      ensures var diff := FieldDiff(d.entries[k], e.entries[k].fields);
        Update(e.entries[k].id, diff) in Reconcile(e, d).update <==> exists fld :: fld in d.entries[k] && Get(e.entries[k].fields, fld) != d.entries[k][fld]
    {
      FieldDiffEmpty(d.entries[k], e.entries[k].fields);
    }
    forall u | u in Reconcile(e, d).update ensures exists k :: IsDiffUpdate(e, d, k, u) {
      var k :| k in d.order && k in e.entries && u == Update(e.entries[k].id, FieldDiff(d.entries[k], e.entries[k].fields)) && u.fields != map[];
      assert IsDiffUpdate(e, d, k, u);
    }
  }

  /** A key found on both sides is never deleted, provided remote ids are
      unique. */
  lemma ReconcileKeeps(e: Dict<Remote>, d: Dict<Fields>, k: string)
    requires WellFormed(e) && WellFormed(d)
    requires forall a, b :: a in e.entries && b in e.entries && a != b ==> e.entries[a].id != e.entries[b].id
    requires k in d.entries && k in e.entries
    ensures e.entries[k].id !in Reconcile(e, d).delete
  {
    ReconcileDeletes(e, d);
  }

  // ---------------------------------------------------------------------
  // The category partition

  lemma {:induction false} IndexByFilter<T, V>(xs: seq<T>, keep: T -> bool, key: T -> Option<string>, val: T -> V)
    ensures IndexBy(Filter(xs, keep), keep, key, val) == IndexBy(xs, keep, key, val)
    decreases |xs|
  {
    if xs != [] {
      var init := xs[..|xs| - 1];
      var x := xs[|xs| - 1];
      var f := Filter(init, keep);
      IndexByFilter(init, keep, key, val);
      if keep(x) {
        assert Filter(xs, keep) == f + [x];
        assert (f + [x])[..|f|] == f;
      }
    }
  }

  /** Records of other categories, remote or scraped, have no influence on
      the plan: two inputs that agree on their records of the category get
      the same plan, wherever the other records sit. */
  lemma SyncIgnoresOtherCategories(remotes1: seq<Remote>, rows1: seq<Fields>, remotes2: seq<Remote>, rows2: seq<Fields>,
                                   cat: string, digest: Fields -> string)
    requires Filter(remotes1, RemoteInCategory(cat)) == Filter(remotes2, RemoteInCategory(cat))
    requires Filter(rows1, RowInCategory(cat)) == Filter(rows2, RowInCategory(cat))
    ensures SyncCategory(remotes1, rows1, cat, digest) == SyncCategory(remotes2, rows2, cat, digest)
  {
    IndexByFilter(remotes1, RemoteInCategory(cat), RemoteKey(digest), AsIs());
    IndexByFilter(remotes2, RemoteInCategory(cat), RemoteKey(digest), AsIs());
    IndexByFilter(rows1, RowInCategory(cat), RowKey(digest), Sanitizer());
    IndexByFilter(rows2, RowInCategory(cat), RowKey(digest), Sanitizer());
  }

  /** Every stored record of the index is a remote record of the
      category. */
  lemma ExistingInCategory(remotes: seq<Remote>, cat: string, digest: Fields -> string)
    requires Existing(remotes, cat, digest).Some?
    ensures var e := Existing(remotes, cat, digest).value;
      forall k :: k in e.entries ==> exists i :: 0 <= i < |remotes| && remotes[i] == e.entries[k] && InCategory(remotes[i].fields, cat)
  {
    var e := Existing(remotes, cat, digest).value;
    IndexByLastWins(remotes, RemoteInCategory(cat), RemoteKey(digest), AsIs());
    forall k | k in e.entries ensures exists i :: 0 <= i < |remotes| && remotes[i] == e.entries[k] && InCategory(remotes[i].fields, cat) {
      assert LastWith(remotes, RemoteInCategory(cat), RemoteKey(digest), AsIs(), k, e.entries[k]);
    }
  }

  /** Every desired record of the index names the category. */
  lemma DesiredInCategory(rows: seq<Fields>, cat: string, digest: Fields -> string)
    requires Desired(rows, cat, digest).Some?
    ensures var d := Desired(rows, cat, digest).value;
      forall k :: k in d.entries ==> Get(d.entries[k], CategoryField) == Str(cat)
  {
    var d := Desired(rows, cat, digest).value;
    IndexByLastWins(rows, RowInCategory(cat), RowKey(digest), Sanitizer());
    forall k | k in d.entries ensures Get(d.entries[k], CategoryField) == Str(cat) {
      assert LastWith(rows, RowInCategory(cat), RowKey(digest), Sanitizer(), k, d.entries[k]);
      var i :| 0 <= i < |rows| && RowInCategory(cat)(rows[i]) && Sanitizer()(rows[i]) == d.entries[k];
      SanitizeAsSeenByGet(rows[i], CategoryField);
    }
  }

  /** Everything the plan touches lies in the category: created records
      carry the label, updates and deletes go to remote records of the
      category, and an update never changes the category field. */
  lemma SyncStaysInCategory(remotes: seq<Remote>, rows: seq<Fields>, cat: string, digest: Fields -> string)
    requires SyncCategory(remotes, rows, cat, digest).Some?
    ensures var p := SyncCategory(remotes, rows, cat, digest).value;
      && (forall f :: f in p.create ==> Get(f, CategoryField) == Str(cat))
      && (forall u :: u in p.update ==> CategoryField !in u.fields && exists i :: 0 <= i < |remotes| && remotes[i].id == u.id && InCategory(remotes[i].fields, cat))
      && (forall id :: id in p.delete ==> exists i :: 0 <= i < |remotes| && remotes[i].id == id && InCategory(remotes[i].fields, cat))
  {
    var e := Existing(remotes, cat, digest).value;
    var d := Desired(rows, cat, digest).value;
    var p := Reconcile(e, d);
    assert SyncCategory(remotes, rows, cat, digest).value == p;
    ExistingInCategory(remotes, cat, digest);
    DesiredInCategory(rows, cat, digest);
    ReconcileCreates(e, d);
    ReconcileUpdates(e, d);
    ReconcileDeletes(e, d);
    forall u | u in p.update ensures CategoryField !in u.fields {
      var k :| IsDiffUpdate(e, d, k, u);
      FieldDiffExact(d.entries[k], e.entries[k].fields);
    }
  }

  /** `sync_category` raises exactly when `unique_key` raises on a remote or
      scraped record of the category. */
  lemma SyncFailsOnlyOnKey(remotes: seq<Remote>, rows: seq<Fields>, cat: string, digest: Fields -> string)
    ensures SyncCategory(remotes, rows, cat, digest).None? <==>
      (exists i :: 0 <= i < |remotes| && InCategory(remotes[i].fields, cat) && UniqueKey(remotes[i].fields, digest).None?) ||
      (exists i :: 0 <= i < |rows| && InCategory(rows[i], cat) && UniqueKey(rows[i], digest).None?)
  {
    var e := Existing(remotes, cat, digest);
    var d := Desired(rows, cat, digest);
    assert e.Some? <==> forall i :: 0 <= i < |remotes| && RemoteInCategory(cat)(remotes[i]) ==> RemoteKey(digest)(remotes[i]).Some?;
    assert d.Some? <==> forall i :: 0 <= i < |rows| && RowInCategory(cat)(rows[i]) ==> RowKey(digest)(rows[i]).Some?;
  }

  /** With unique remote ids, a listing that is still scraped is never
      deleted. */
  lemma SyncKeepsScrapedListings(remotes: seq<Remote>, rows: seq<Fields>, cat: string, digest: Fields -> string, k: string)
    requires forall i, j :: 0 <= i < j < |remotes| ==> remotes[i].id != remotes[j].id
    requires SyncCategory(remotes, rows, cat, digest).Some?
    requires k in Existing(remotes, cat, digest).value.entries && k in Desired(rows, cat, digest).value.entries
    ensures Existing(remotes, cat, digest).value.entries[k].id !in SyncCategory(remotes, rows, cat, digest).value.delete
  {
    var e := Existing(remotes, cat, digest).value;
    var d := Desired(rows, cat, digest).value;
    IndexByLastWins(remotes, RemoteInCategory(cat), RemoteKey(digest), AsIs());
    forall a, b | a in e.entries && b in e.entries && a != b ensures e.entries[a].id != e.entries[b].id {
      assert LastWith(remotes, RemoteInCategory(cat), RemoteKey(digest), AsIs(), a, e.entries[a]);
      assert LastWith(remotes, RemoteInCategory(cat), RemoteKey(digest), AsIs(), b, e.entries[b]);
      var i :| 0 <= i < |remotes| && RemoteKey(digest)(remotes[i]) == Some(a) && AsIs()(remotes[i]) == e.entries[a];
      var j :| 0 <= j < |remotes| && RemoteKey(digest)(remotes[j]) == Some(b) && AsIs()(remotes[j]) == e.entries[b];
      assert i != j;
    }
    ReconcileKeeps(e, d, k);
  }
}
