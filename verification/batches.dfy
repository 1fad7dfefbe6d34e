/**
 How a plan reaches the remote table: each of the three lists is cut into
 batches of at most ten records (`rows[i:i+10]` in `airtable_batch_create`,
 `airtable_batch_update` and `airtable_batch_delete`), the batches are sent
 creates first, then updates, then deletes, and the first batch the table
 refuses raises and ends the run.
 */
module Batches {
  import opened Records
  import opened Sync

  /** The most records the table accepts in one request. */
  const BatchSize: nat := 10

  function Min(a: int, b: int): int {
    if a <= b then a else b
  }

  /** `[xs[i:i+n] for i in range(0, len(xs), n)]`. */
  function Chunks<T>(xs: seq<T>, n: nat): (cs: seq<seq<T>>)
    requires n > 0
    ensures forall k :: 0 <= k < |cs| ==> 0 < |cs[k]| <= n
    decreases |xs|
  {
    if xs == [] then []
    else if |xs| <= n then [xs]
    else [xs[..n]] + Chunks(xs[n..], n)
  }

  function Flatten<T>(cs: seq<seq<T>>): seq<T> {
    if cs == [] then [] else cs[0] + Flatten(cs[1..])
  }

  /** The batches, sent one after the other, are the list itself: nothing
      is lost, repeated or reordered. */
  lemma {:induction false} ChunksFlatten<T>(xs: seq<T>, n: nat)
    requires n > 0
    ensures Flatten(Chunks(xs, n)) == xs
    decreases |xs|
  {
    if |xs| > n {
      var cs := Chunks(xs, n);
      assert cs[1..] == Chunks(xs[n..], n);
      ChunksFlatten(xs[n..], n);
      assert xs == xs[..n] + xs[n..];
    } else if xs != [] {
      assert Chunks(xs, n)[1..] == [];
    }
  }

  lemma MulStep(c: int, n: int)
    ensures (c + 1) * n == c * n + n
  {
  }

  /** There are `ceil(len(xs) / n)` batches: just enough to hold every
      element. */
  lemma {:induction false} ChunksCount<T>(xs: seq<T>, n: nat)
    requires n > 0
    ensures var c := |Chunks(xs, n)|;
      |xs| <= c * n && (c == 0 || (c - 1) * n < |xs|)
    decreases |xs|
  {
    if |xs| > n {
      var c := |Chunks(xs[n..], n)|;
      ChunksCount(xs[n..], n);
      MulStep(c, n);
      MulStep(c - 1, n);
    }
  }

  /** Slice `j` of the list after its first `n` elements is slice `j + 1`
      of the list. */
  lemma ShiftedSlice<T>(xs: seq<T>, n: nat, j: nat)
    requires n < |xs| && j * n < |xs| - n
    ensures (j + 1) * n < |xs|
    ensures xs[n..][j * n .. Min(j * n + n, |xs| - n)] == xs[(j + 1) * n .. Min((j + 1) * n + n, |xs|)]
  {
    MulStep(j, n);
    var m := j * n;
    var hi := Min(m + n, |xs| - n);
    assert Min(m + n + n, |xs|) == hi + n;
    assert xs[n..][m .. hi] == xs[m + n .. hi + n];
  }

  lemma LaterSlice<T>(xs: seq<T>, n: nat, c: seq<T>, k: nat)
    requires 0 < n < |xs| && k > 0 && (k - 1) * n < |xs| - n
    requires c == xs[n..][(k - 1) * n .. Min((k - 1) * n + n, |xs| - n)]
    ensures k * n < |xs| && c == xs[k * n .. Min(k * n + n, |xs|)]
  {
    ShiftedSlice(xs, n, k - 1);
  }

  /** Batch `k` is the slice `xs[k*n : k*n+n]`, cut short at the end of the
      list. */
  lemma {:induction false} ChunksAreSlices<T>(xs: seq<T>, n: nat)
    requires n > 0
    ensures var cs := Chunks(xs, n);
      forall k :: 0 <= k < |cs| ==> k * n < |xs| && cs[k] == xs[k * n .. Min(k * n + n, |xs|)]
    decreases |xs|
  {
    var cs := Chunks(xs, n);
    if |xs| > n {
      var rs := Chunks(xs[n..], n);
      ChunksAreSlices(xs[n..], n);
      assert cs == [xs[..n]] + rs;
      forall k | 0 <= k < |cs|
        ensures k * n < |xs| && cs[k] == xs[k * n .. Min(k * n + n, |xs|)]
      {
        if k == 0 {
          assert k * n == 0;
        } else {
          LaterSlice(xs, n, rs[k - 1], k);
        }
      }
    } else if xs != [] {
      assert cs == [xs];
      assert 0 * n == 0;
    }
  }

  /** Every batch but the last is full. */
  lemma AllButLastFull<T>(xs: seq<T>, n: nat)
    requires n > 0
    ensures var cs := Chunks(xs, n);
      forall k :: 0 <= k < |cs| - 1 ==> |cs[k]| == n
  {
    var cs := Chunks(xs, n);
    ChunksAreSlices(xs, n);
    forall k | 0 <= k < |cs| - 1 ensures |cs[k]| == n {
      MulStep(k, n);
      assert (k + 1) * n < |xs|;
    }
  }

  /** Cutting the list from position `i` on starts with the slice up to
      `j`, the end of batch that begins at `i`. */
  lemma ChunksFrom<T>(xs: seq<T>, n: nat, i: nat, j: nat)
    requires n > 0 && i < |xs| && j == Min(i + n, |xs|)
    ensures Chunks(xs[i..], n) == [xs[i..j]] + Chunks(xs[j..], n)
  {
    if |xs[i..]| > n {
      assert xs[i..][..n] == xs[i..j];
      assert xs[i..][n..] == xs[j..];
    } else {
      assert xs[i..] == xs[i..j] && xs[j..] == [];
    }
  }

  lemma AppendStep<T>(cs: seq<T>, c: T, rest: seq<T>, from: seq<T>, all: seq<T>)
    requires cs + from == all && from == [c] + rest
    ensures (cs + [c]) + rest == all
  {
  }

  /** The batching loop as written: the slice start steps through
      `range(0, len(xs), n)`. */
  method SplitBatches<T>(xs: seq<T>, n: nat) returns (cs: seq<seq<T>>)
    requires n > 0
    ensures cs == Chunks(xs, n)
    ensures Flatten(cs) == xs
    ensures forall k :: 0 <= k < |cs| ==> 0 < |cs[k]| <= n
  {
    cs := [];
    var i := 0;
    assert xs[0..] == xs;
    while i < |xs|
      invariant 0 <= i <= |xs|
      invariant cs + Chunks(xs[i..], n) == Chunks(xs, n)
      decreases |xs| - i
    {
      var j := Min(i + n, |xs|);
      ChunksFrom(xs, n, i, j);
      AppendStep(cs, xs[i..j], Chunks(xs[j..], n), Chunks(xs[i..], n), Chunks(xs, n));
      cs := cs + [xs[i..j]];
      i := j;
    }
    assert xs[i..] == [];
    assert cs + [] == cs;
    ChunksFlatten(xs, n);
  }

  /** One REST call: a POST of new records, a PATCH of partial records or a
      DELETE of record ids. */
  datatype Request = CreateBatch(records: seq<Fields>) | UpdateBatch(updates: seq<Update>) | DeleteBatch(ids: seq<string>)

  function CreateRequests(cs: seq<seq<Fields>>): (r: seq<Request>)
    ensures |r| == |cs| && forall k :: 0 <= k < |r| ==> r[k] == CreateBatch(cs[k])
  {
    seq(|cs|, k requires 0 <= k < |cs| => CreateBatch(cs[k]))
  }

  function UpdateRequests(cs: seq<seq<Update>>): (r: seq<Request>)
    ensures |r| == |cs| && forall k :: 0 <= k < |r| ==> r[k] == UpdateBatch(cs[k])
  {
    seq(|cs|, k requires 0 <= k < |cs| => UpdateBatch(cs[k]))
  }

  function DeleteRequests(cs: seq<seq<string>>): (r: seq<Request>)
    ensures |r| == |cs| && forall k :: 0 <= k < |r| ==> r[k] == DeleteBatch(cs[k])
  {
    seq(|cs|, k requires 0 <= k < |cs| => DeleteBatch(cs[k]))
  }

  /** The calls of the tail of `sync_category`, in the order they are made.
      An empty list makes no call. */
  function Requests(p: Plan): seq<Request> {
    CreateRequests(Chunks(p.create, BatchSize))
    + UpdateRequests(Chunks(p.update, BatchSize))
    + DeleteRequests(Chunks(p.delete, BatchSize))
  }

  /** The calls actually made when `ok` tells which the table accepts:
      everything up to and including the first refused call, after which
      `raise_for_status` ends the run. */
  function Issued(reqs: seq<Request>, ok: Request -> bool): (r: seq<Request>)
    ensures r <= reqs
    ensures forall k :: 0 <= k < |r| - 1 ==> ok(r[k])
    ensures r == reqs || (r != [] && !ok(r[|r| - 1]))
  {
    if reqs == [] then []
    else if !ok(reqs[0]) then [reqs[0]]
    else [reqs[0]] + Issued(reqs[1..], ok)
  }

  /** When every call is accepted, every call is made. */
  lemma {:induction false} AllAcceptedAllIssued(reqs: seq<Request>, ok: Request -> bool)
    requires forall k :: 0 <= k < |reqs| ==> ok(reqs[k])
    ensures Issued(reqs, ok) == reqs
    decreases |reqs|
  {
    if reqs != [] {
      AllAcceptedAllIssued(reqs[1..], ok);
    }
  }

  /** The records a call carries when it creates, else nothing. */
  function CreatePayload(r: Request): seq<Fields> {
    if r.CreateBatch? then r.records else []
  }

  function UpdatePayload(r: Request): seq<Update> {
    if r.UpdateBatch? then r.updates else []
  }

  function DeletePayload(r: Request): seq<string> {
    if r.DeleteBatch? then r.ids else []
  }

  /** How many records or ids a call carries. */
  function Size(r: Request): nat {
    match r
    case CreateBatch(records) => |records|
    case UpdateBatch(updates) => |updates|
    case DeleteBatch(ids) => |ids|
  }

  /** Creates come first, updates second, deletes last. */
  function Rank(r: Request): nat {
    match r
    case CreateBatch(_) => 0
    case UpdateBatch(_) => 1
    case DeleteBatch(_) => 2
  }

  /** What the table receives of one kind: the payloads that `pick` reads
      off the calls, in the order the calls are made. */
  function Picked<T>(reqs: seq<Request>, pick: Request -> seq<T>): seq<T> {
    if reqs == [] then [] else pick(reqs[0]) + Picked(reqs[1..], pick)
  }

  lemma {:induction false} PickedAppend<T>(xs: seq<Request>, ys: seq<Request>, pick: Request -> seq<T>)
    ensures Picked(xs + ys, pick) == Picked(xs, pick) + Picked(ys, pick)
    decreases |xs|
  {
    if xs == [] {
      assert xs + ys == ys;
    } else {
      assert (xs + ys)[1..] == xs[1..] + ys;
      PickedAppend(xs[1..], ys, pick);
    }
  }

  /** Calls whose payloads are the batches `cs`, one for one, deliver
      exactly the batches run together. */
  lemma {:induction false} PickedBatches<T>(reqs: seq<Request>, cs: seq<seq<T>>, pick: Request -> seq<T>)
    requires |reqs| == |cs| && forall k :: 0 <= k < |reqs| ==> pick(reqs[k]) == cs[k]
    ensures Picked(reqs, pick) == Flatten(cs)
    decreases |reqs|
  {
    if reqs != [] {
      PickedBatches(reqs[1..], cs[1..], pick);
    }
  }

  /** Calls that carry nothing of a kind deliver nothing of it. */
  lemma {:induction false} PickedNothing<T>(reqs: seq<Request>, pick: Request -> seq<T>)
    requires forall k :: 0 <= k < |reqs| ==> pick(reqs[k]) == []
    ensures Picked(reqs, pick) == []
    decreases |reqs|
  {
    if reqs != [] {
      PickedNothing(reqs[1..], pick);
    }
  }

  lemma PickedThree<T>(c: seq<Request>, u: seq<Request>, d: seq<Request>, pick: Request -> seq<T>)
    ensures Picked(c + u + d, pick) == Picked(c, pick) + Picked(u, pick) + Picked(d, pick)
  {
    PickedAppend(c + u, d, pick);
    PickedAppend(c, u, pick);
  }

  /** The records of the create calls of a plan are its records to create,
      in order. */
  lemma DeliveredCreates(p: Plan)
    ensures Picked(Requests(p), CreatePayload) == p.create
  {
    var cs := Chunks(p.create, BatchSize);
    var c, u, d := CreateRequests(cs), UpdateRequests(Chunks(p.update, BatchSize)), DeleteRequests(Chunks(p.delete, BatchSize));
    PickedThree(c, u, d, CreatePayload);
    ChunksFlatten(p.create, BatchSize);
    PickedBatches(c, cs, CreatePayload);
    PickedNothing(u, CreatePayload);
    PickedNothing(d, CreatePayload);
  }

  /** The updates of the update calls of a plan are its updates, in
      order. */
  lemma DeliveredUpdates(p: Plan)
    ensures Picked(Requests(p), UpdatePayload) == p.update
  {
    var us := Chunks(p.update, BatchSize);
    var c, u, d := CreateRequests(Chunks(p.create, BatchSize)), UpdateRequests(us), DeleteRequests(Chunks(p.delete, BatchSize));
    PickedThree(c, u, d, UpdatePayload);
    ChunksFlatten(p.update, BatchSize);
    PickedNothing(c, UpdatePayload);
    PickedBatches(u, us, UpdatePayload);
    PickedNothing(d, UpdatePayload);
  }

  /** The ids of the delete calls of a plan are its ids to delete, in
      order. */
  lemma DeliveredDeletes(p: Plan)
    ensures Picked(Requests(p), DeletePayload) == p.delete
  {
    var ds := Chunks(p.delete, BatchSize);
    var c, u, d := CreateRequests(Chunks(p.create, BatchSize)), UpdateRequests(Chunks(p.update, BatchSize)), DeleteRequests(ds);
    PickedThree(c, u, d, DeletePayload);
    ChunksFlatten(p.delete, BatchSize);
    PickedNothing(c, DeletePayload);
    PickedNothing(u, DeletePayload);
    PickedBatches(d, ds, DeletePayload);
  }

  /** Call `k` of a plan: a create batch among the first calls, an update
      batch among the next, a delete batch after that; the kind ranks rise
      with the position and the batch is within the size limit. */
  lemma RequestAt(p: Plan, k: nat)
    requires k < |Requests(p)|
    ensures var nc := |Chunks(p.create, BatchSize)|;
      var nu := nc + |Chunks(p.update, BatchSize)|;
      && Rank(Requests(p)[k]) == (if k < nc then 0 else if k < nu then 1 else 2)
      && 0 < Size(Requests(p)[k]) <= BatchSize
  {
    var cs, us, ds := Chunks(p.create, BatchSize), Chunks(p.update, BatchSize), Chunks(p.delete, BatchSize);
    var c, u, d := CreateRequests(cs), UpdateRequests(us), DeleteRequests(ds);
    var r := Requests(p);
    if k < |c| {
      assert r[k] == c[k];
    } else if k < |c| + |u| {
      assert r[k] == u[k - |c|];
    } else {
      assert r[k] == d[k - |c| - |u|];
    }
  }

  /** The whole plan reaches the table in batches: all records to create,
      then all updates, then all ids to delete, each call carrying between
      one and `BatchSize` of them. */
  lemma RequestsCarryPlan(p: Plan)
    ensures var r := Requests(p);
      && Picked(r, CreatePayload) == p.create
      && Picked(r, UpdatePayload) == p.update
      && Picked(r, DeletePayload) == p.delete
      && (forall i, j :: 0 <= i < j < |r| ==> Rank(r[i]) <= Rank(r[j]))
      && (forall k :: 0 <= k < |r| ==> 0 < Size(r[k]) <= BatchSize)
  {
    DeliveredCreates(p);
    DeliveredUpdates(p);
    DeliveredDeletes(p);
    var r := Requests(p);
    forall i, j | 0 <= i < j < |r| ensures Rank(r[i]) <= Rank(r[j]) {
      RequestAt(p, i);
      RequestAt(p, j);
    }
    forall k | 0 <= k < |r| ensures 0 < Size(r[k]) <= BatchSize {
      RequestAt(p, k);
    }
  }

  /** A delete call is made only after every create and every update call
      has been made and accepted: a refused write never leaves the category
      with records deleted. */
  lemma DeletesOnlyAfterWrites(p: Plan, ok: Request -> bool)
    requires exists k :: 0 <= k < |Issued(Requests(p), ok)| && Issued(Requests(p), ok)[k].DeleteBatch?
    ensures var r := Requests(p);
      var writes := |Chunks(p.create, BatchSize)| + |Chunks(p.update, BatchSize)|;
      writes <= |Issued(r, ok)| && forall k :: 0 <= k < writes ==> Issued(r, ok)[k] == r[k] && ok(r[k])
  {
    var r := Requests(p);
    var s := Issued(r, ok);
    var writes := |Chunks(p.create, BatchSize)| + |Chunks(p.update, BatchSize)|;
    var k :| 0 <= k < |s| && s[k].DeleteBatch?;
    assert s[k] == r[k];
    assert k >= writes;
    forall j | 0 <= j < writes ensures s[j] == r[j] && ok(r[j]) {
      assert j < k <= |s| - 1;
    }
  }
}
