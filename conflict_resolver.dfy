/** Last-write-wins conflict resolution between copies of a transaction
    (src/lib/data-sync-conflict-resolver.ts). The class there holds only
    static methods, so they are free functions here; `resolveBatch` keeps
    its loop and is a method proved against the reference function `Batch`. */
module ConflictResolver {
  import opened Wrappers
  import opened Types

  /** The copy `tx` flagged as the outcome of a resolution step: `{ ...tx, conflictResolved: true }`. */
  function MarkResolved(tx: Transaction): Transaction {
    tx.(conflictResolved := Some(true))
  }

  /** `a` and `b` agree on every field but `conflictResolved`. */
  predicate SameExceptFlag(a: Transaction, b: Transaction) {
    a.id == b.id && a.timestamp == b.timestamp && a.data == b.data
  }

  function Max(a: int, b: int): int {
    if a < b then b else a
  }

  // ---------------------------------------------------------------------
  // resolve

  /** The copy with the strictly later timestamp wins; a tie goes to the local copy. */
  function Resolve(serverTx: Transaction, localTx: Transaction): (r: Transaction)
    ensures r.conflictResolved == Some(true)
    ensures r.timestamp == Max(serverTx.timestamp, localTx.timestamp)
    ensures serverTx.timestamp > localTx.timestamp ==> SameExceptFlag(r, serverTx)
    ensures serverTx.timestamp <= localTx.timestamp ==> SameExceptFlag(r, localTx)
  {
    if serverTx.timestamp > localTx.timestamp then MarkResolved(serverTx) else MarkResolved(localTx)
  }

  /** Only the timestamps decide which side wins: copies with the same
      timestamps pick the same side, whatever their other fields. */
  lemma ResolveConsultsOnlyTimestamps(s: Transaction, l: Transaction, s': Transaction, l': Transaction)
    requires s.timestamp == s'.timestamp && l.timestamp == l'.timestamp
    ensures (Resolve(s, l) == MarkResolved(s) && Resolve(s', l') == MarkResolved(s'))
         || (Resolve(s, l) == MarkResolved(l) && Resolve(s', l') == MarkResolved(l'))
  {
  }

  /** Away from a tie the rule is symmetric: swapping the roles changes nothing. */
  lemma ResolveSymmetricUnlessTie(a: Transaction, b: Transaction)
    requires a.timestamp != b.timestamp
    ensures Resolve(a, b) == Resolve(b, a)
  {
  }

  /** Resolving the winner again against either original copy keeps the winner. */
  lemma ResolveIdempotent(s: Transaction, l: Transaction)
    ensures Resolve(Resolve(s, l), l) == Resolve(s, l)
    ensures Resolve(s, Resolve(s, l)) == Resolve(s, l)
  {
  }

  /** Three copies reconcile to the same winner however the pairwise steps are grouped. */
  lemma ResolveAssociative(a: Transaction, b: Transaction, c: Transaction)
    ensures Resolve(Resolve(a, b), c) == Resolve(a, Resolve(b, c))
  {
  }

  // ---------------------------------------------------------------------
  // manualOverride

  /** The override fields of the nested `data` record. Array-valued fields
      (`items`, `discounts`) cannot be overridden in this model. */
  datatype DataPatch = DataPatch(
    amount: Option<int>,
    paymentMethod: Option<PaymentMethod>,
    cashierId: Option<string>,
    storeId: Option<string>,
    customerInfo: Option<CustomerInfo>,
    subtotal: Option<int>,
    tax: Option<int>,
    total: Option<int>)

  /** A `Partial<Transaction>`: `None` is a field the override omits. */
  datatype TxPatch = TxPatch(
    id: Option<string>,
    timestamp: Option<int>,
    conflictResolved: Option<bool>,
    data: Option<DataPatch>)

  const NoDataChange: DataPatch := DataPatch(None, None, None, None, None, None, None, None)
  const NoChange: TxPatch := TxPatch(None, None, None, None)

  /** `after` holds the override's value when it gives one, and `before` otherwise. */
  predicate Overrides<T(==)>(patch: Option<T>, before: T, after: T) {
    if patch.Some? then after == patch.value else after == before
  }

  /** The same for a field that is itself optional: an override sets it, an omission keeps it. */
  predicate OverridesOptional<T(==)>(patch: Option<T>, before: Option<T>, after: Option<T>) {
    if patch.Some? then after == patch else after == before
  }

  /** Deep merge of the optional customer record, key by key. */
  function MergeCustomer(base: Option<CustomerInfo>, patch: Option<CustomerInfo>): (r: Option<CustomerInfo>)
    ensures patch.None? ==> r == base
    ensures patch.Some? ==>
      var b := base.GetOr(CustomerInfo(None, None, None));
      && r.Some?
      && OverridesOptional(patch.value.id, b.id, r.value.id)
      && OverridesOptional(patch.value.name, b.name, r.value.name)
      && OverridesOptional(patch.value.email, b.email, r.value.email)
  {
    match patch
    case None => base
    case Some(p) =>
      var b := base.GetOr(CustomerInfo(None, None, None));
      Some(CustomerInfo(
        if p.id.Some? then p.id else b.id,
        if p.name.Some? then p.name else b.name,
        if p.email.Some? then p.email else b.email))
  }

  function MergeData(d: TxData, p: DataPatch): TxData {
    TxData(
      p.amount.GetOr(d.amount),
      d.items,
      p.paymentMethod.GetOr(d.paymentMethod),
      p.cashierId.GetOr(d.cashierId),
      p.storeId.GetOr(d.storeId),
      MergeCustomer(d.customerInfo, p.customerInfo),
      d.discounts,
      if p.subtotal.Some? then p.subtotal else d.subtotal,
      if p.tax.Some? then p.tax else d.tax,
      if p.total.Some? then p.total else d.total)
  }

  /** `merge({}, finalTx, manualData, { conflictResolved: true })`: a fresh
      record where every field the override gives wins, every omitted field
      (nested ones included) keeps `finalTx`'s value, and the flag is forced on. */
  function ManualOverride(finalTx: Transaction, manualData: TxPatch): (r: Transaction)
    ensures r.conflictResolved == Some(true)
    ensures Overrides(manualData.id, finalTx.id, r.id)
    ensures Overrides(manualData.timestamp, finalTx.timestamp, r.timestamp)
    ensures manualData.data.None? ==> r.data == finalTx.data
    ensures r.data.items == finalTx.data.items && r.data.discounts == finalTx.data.discounts
    ensures manualData.data.Some? ==>
      var p := manualData.data.value;
      && Overrides(p.amount, finalTx.data.amount, r.data.amount)
      && Overrides(p.paymentMethod, finalTx.data.paymentMethod, r.data.paymentMethod)
      && Overrides(p.cashierId, finalTx.data.cashierId, r.data.cashierId)
      && Overrides(p.storeId, finalTx.data.storeId, r.data.storeId)
      && r.data.customerInfo == MergeCustomer(finalTx.data.customerInfo, p.customerInfo)
      && OverridesOptional(p.subtotal, finalTx.data.subtotal, r.data.subtotal)
      && OverridesOptional(p.tax, finalTx.data.tax, r.data.tax)
      && OverridesOptional(p.total, finalTx.data.total, r.data.total)
  {
    Transaction(
      manualData.id.GetOr(finalTx.id),
      manualData.timestamp.GetOr(finalTx.timestamp),
      Some(true),
      match manualData.data
      case None => finalTx.data
      case Some(p) => MergeData(finalTx.data, p))
  }

  /** An empty override changes nothing but the flag, nested `data` included. */
  lemma ManualOverrideNoChange(tx: Transaction)
    ensures ManualOverride(tx, NoChange) == MarkResolved(tx)
    ensures ManualOverride(tx, NoChange.(data := Some(NoDataChange))) == MarkResolved(tx)
  {
  }

  /** The override's own `conflictResolved` never shows: the flag is forced on last. */
  lemma ManualOverrideIgnoresFlag(tx: Transaction, patch: TxPatch, flag: Option<bool>)
    ensures ManualOverride(tx, patch.(conflictResolved := flag)) == ManualOverride(tx, patch)
  {
  }

  /** The first override value a later override omits survives it; `q` wins where both give one. */
  function ThenOption<T>(p: Option<T>, q: Option<T>): Option<T> {
    if q.Some? then q else p
  }

  /** The override that has the effect of applying `p` and then `q`. */
  function ThenPatch(p: TxPatch, q: TxPatch): TxPatch {
    TxPatch(
      ThenOption(p.id, q.id),
      ThenOption(p.timestamp, q.timestamp),
      ThenOption(p.conflictResolved, q.conflictResolved),
      match (p.data, q.data)
      case (_, None) => p.data
      case (None, _) => q.data
      case (Some(a), Some(b)) => Some(DataPatch(
        ThenOption(a.amount, b.amount),
        ThenOption(a.paymentMethod, b.paymentMethod),
        ThenOption(a.cashierId, b.cashierId),
        ThenOption(a.storeId, b.storeId),
        MergeCustomer(a.customerInfo, b.customerInfo),
        ThenOption(a.subtotal, b.subtotal),
        ThenOption(a.tax, b.tax),
        ThenOption(a.total, b.total))))
  }

  /** Merging customer records is associative, so successive overrides compose. */
  lemma MergeCustomerAssociative(base: Option<CustomerInfo>, p: Option<CustomerInfo>, q: Option<CustomerInfo>)
    ensures MergeCustomer(MergeCustomer(base, p), q) == MergeCustomer(base, MergeCustomer(p, q))
  {
  }

  /** Two successive manual overrides equal one override with the combined patch. */
  lemma ManualOverrideCompose(tx: Transaction, p: TxPatch, q: TxPatch)
    ensures ManualOverride(ManualOverride(tx, p), q) == ManualOverride(tx, ThenPatch(p, q))
  {
    if p.data.Some? && q.data.Some? {
      MergeCustomerAssociative(tx.data.customerInfo, p.data.value.customerInfo, q.data.value.customerInfo);
    }
  }

  /** Applying the same override twice is the same as applying it once. */
  lemma ManualOverrideIdempotent(tx: Transaction, p: TxPatch)
    ensures ManualOverride(ManualOverride(tx, p), p) == ManualOverride(tx, p)
  {
    ManualOverrideCompose(tx, p, p);
    if p.data.Some? {
      var c := p.data.value.customerInfo;
      assert MergeCustomer(c, c) == c;
    }
  }

  // ---------------------------------------------------------------------
  // resolveBatch

  /** The ids occurring in a list of transactions. */
  function Ids(txs: seq<Transaction>): set<string> {
    set i | 0 <= i < |txs| :: txs[i].id
  }

  lemma {:induction false} IdsAppend(a: seq<Transaction>, b: seq<Transaction>)
    ensures Ids(a + b) == Ids(a) + Ids(b)
  {
    forall id | id in Ids(a) + Ids(b) ensures id in Ids(a + b) {
      if id in Ids(a) {
        var i :| 0 <= i < |a| && a[i].id == id;
        assert (a + b)[i].id == id;
      } else {
        var i :| 0 <= i < |b| && b[i].id == id;
        assert (a + b)[|a| + i].id == id;
      }
    }
  }

  lemma {:induction false} IdsBound(txs: seq<Transaction>)
    ensures |Ids(txs)| <= |txs|
  {
    if txs != [] {
      var init := txs[..|txs| - 1];
      IdsBound(init);
      IdsAppend(init, [txs[|txs| - 1]]);
      assert init + [txs[|txs| - 1]] == txs;
      assert Ids([txs[|txs| - 1]]) == {txs[|txs| - 1].id};
    }
  }

  /** The position `Array.prototype.findIndex` reports for `id`: its first occurrence. */
  function FirstIndexOf(txs: seq<Transaction>, id: string): (k: nat)
    requires id in Ids(txs)
    ensures k < |txs| && txs[k].id == id
    ensures forall j :: 0 <= j < k ==> txs[j].id != id
    decreases |txs|
  {
    if txs[0].id == id then 0
    else
      var i :| 0 <= i < |txs| && txs[i].id == id;
      assert txs[1..][i - 1].id == id;
      1 + FirstIndexOf(txs[1..], id)
  }

  /** The last entry carrying `id`, if any. */
  function LastWithId(txs: seq<Transaction>, id: string): (r: Option<Transaction>)
    ensures r.None? <==> id !in Ids(txs)
    ensures r.Some? ==> r.value.id == id
    ensures r.Some? ==> exists k :: 0 <= k < |txs| && txs[k] == r.value && forall j :: k < j < |txs| ==> txs[j].id != id
    decreases |txs|
  {
    if txs == [] then None
    else
      var init, x := txs[..|txs| - 1], txs[|txs| - 1];
      IdsAppend(init, [x]);
      assert init + [x] == txs;
      if x.id == id then Some(x) else
      var r := LastWithId(init, id);
      assert Ids([x]) == {x.id};
      r
  }

  /** The entries of `local` whose id is not in `seen`, in their original order. */
  function LocalOnly(local: seq<Transaction>, seen: set<string>): (r: seq<Transaction>)
    ensures |r| <= |local|
    ensures forall i :: 0 <= i < |r| ==> r[i].id !in seen && r[i] in local
    decreases |local|
  {
    if local == [] then []
    else
      var rest, x := LocalOnly(local[..|local| - 1], seen), local[|local| - 1];
      if x.id in seen then rest else rest + [x]
  }

  /** No local entry with an unseen id is dropped. */
  lemma {:induction false} LocalOnlyComplete(local: seq<Transaction>, seen: set<string>, x: Transaction)
    requires x in local && x.id !in seen
    ensures x in LocalOnly(local, seen)
    decreases |local|
  {
    var init := local[..|local| - 1];
    if x != local[|local| - 1] {
      assert x in init;
      LocalOnlyComplete(init, seen, x);
    }
  }

  /** Every transaction of `txs` flagged as resolved, in order. */
  function MarkAll(txs: seq<Transaction>): (r: seq<Transaction>)
    ensures |r| == |txs|
    ensures forall j :: 0 <= j < |r| ==> r[j] == MarkResolved(txs[j])
  {
    seq(|txs|, j requires 0 <= j < |txs| => MarkResolved(txs[j]))
  }

  /** What `resolveBatch` leaves at remote position `i`: only the first remote
      entry with a given id is ever replaced, by resolving it against the last
      local entry with that id; any other remote entry passes through untouched. */
  function Slot(local: seq<Transaction>, remote: seq<Transaction>, i: nat): Transaction
    requires i < |remote|
  {
    var id := remote[i].id;
    var lt := LastWithId(local, id);
    assert id in Ids(remote);
    if lt.Some? && FirstIndexOf(remote, id) == i then Resolve(remote[i], lt.value) else remote[i]
  }

  /** Reference definition of `resolveBatch(local, remote)`: the remote list,
      slot by slot, followed by the flagged local entries whose id no remote
      entry has. */
  function Batch(local: seq<Transaction>, remote: seq<Transaction>): seq<Transaction> {
    Slots(local, remote) + MarkAll(LocalOnly(local, Ids(remote)))
  }

  /** The remote positions of the output, slot by slot. */
  function Slots(local: seq<Transaction>, remote: seq<Transaction>): (r: seq<Transaction>)
    ensures |r| == |remote|
    ensures forall i :: 0 <= i < |remote| ==> r[i] == Slot(local, remote, i)
  {
    seq(|remote|, i requires 0 <= i < |remote| => Slot(local, remote, i))
  }

  /** The length and the ids of the output, position by position. */
  lemma BatchShape(local: seq<Transaction>, remote: seq<Transaction>)
    ensures |Batch(local, remote)| == |remote| + |LocalOnly(local, Ids(remote))|
    ensures forall i :: 0 <= i < |remote| ==> Batch(local, remote)[i].id == remote[i].id
    ensures forall j :: |remote| <= j < |Batch(local, remote)| ==>
      Batch(local, remote)[j].id !in Ids(remote) && Batch(local, remote)[j].conflictResolved == Some(true)
  {
    var b := Batch(local, remote);
    forall i | 0 <= i < |remote| ensures b[i].id == remote[i].id {
      assert b[i] == Slot(local, remote, i);
    }
  }

  /** Appending `x` to the local list changes only the slot that `x` replaces. */
  lemma SlotSnoc(local: seq<Transaction>, remote: seq<Transaction>, x: Transaction, i: nat)
    requires i < |remote|
    ensures Slot(local + [x], remote, i) ==
      if x.id == remote[i].id && FirstIndexOf(remote, x.id) == i then Resolve(remote[i], x) else Slot(local, remote, i)
  {
    var local' := local + [x];
    assert local'[..|local'| - 1] == local;
    assert remote[i].id in Ids(remote);
  }

  /** Appending `x` to the local list appends it to the local-only entries exactly when its id is unseen. */
  lemma LocalOnlySnoc(local: seq<Transaction>, seen: set<string>, x: Transaction)
    ensures LocalOnly(local + [x], seen) == if x.id in seen then LocalOnly(local, seen) else LocalOnly(local, seen) + [x]
  {
    var local' := local + [x];
    assert local'[..|local'| - 1] == local;
  }

  /** One step of the source's loop: a local entry whose id the remote list
      has overwrites the first remote slot with that id; any other is appended. */
  lemma {:induction false} BatchStep(local: seq<Transaction>, remote: seq<Transaction>, x: Transaction)
    ensures x.id in Ids(remote) ==>
      var k := FirstIndexOf(remote, x.id);
      Batch(local + [x], remote) == Batch(local, remote)[k := Resolve(remote[k], x)]
    ensures x.id !in Ids(remote) ==>
      Batch(local + [x], remote) == Batch(local, remote) + [MarkResolved(x)]
  {
    var ids := Ids(remote);
    var h, h' := Slots(local, remote), Slots(local + [x], remote);
    var t, t' := MarkAll(LocalOnly(local, ids)), MarkAll(LocalOnly(local + [x], ids));
    LocalOnlySnoc(local, ids, x);
    if x.id in ids {
      var k := FirstIndexOf(remote, x.id);
      var v := Resolve(remote[k], x);
      forall i | 0 <= i < |remote| ensures h'[i] == h[k := v][i] {
        SlotSnoc(local, remote, x, i);
      }
      assert h' == h[k := v];
      assert t' == t;
      assert (h + t)[k := v] == h[k := v] + t;
    } else {
      forall i | 0 <= i < |remote| ensures h'[i] == h[i] {
        SlotSnoc(local, remote, x, i);
      }
      assert h' == h;
      assert t' == t + [MarkResolved(x)];
      assert h + t' == (h + t) + [MarkResolved(x)];
    }
  }

  /** `resolveBatch` as the source runs it: copy `remote`, then walk `local`,
      overwriting in place at `findIndex` or pushing a flagged copy. */
  method ResolveBatch(local: seq<Transaction>, remote: seq<Transaction>) returns (merged: seq<Transaction>)
    ensures merged == Batch(local, remote)
  {
    merged := remote;
    var processedIds := Ids(remote);
    assert merged == Batch([], remote) by {
      assert LocalOnly([], processedIds) == [];
      forall i | 0 <= i < |remote| ensures Batch([], remote)[i] == remote[i] {
        assert Batch([], remote)[i] == Slot([], remote, i);
      }
    }
    for n := 0 to |local|
      invariant merged == Batch(local[..n], remote)
    {
      var localTx := local[n];
      assert local[..n + 1] == local[..n] + [localTx];
      BatchStep(local[..n], remote, localTx);
      BatchShape(local[..n], remote);
      if localTx.id in processedIds {
        var remoteTx := remote[FirstIndexOf(remote, localTx.id)];
        var resolvedTx := Resolve(remoteTx, localTx);
        var k := FirstIndexOf(remote, localTx.id);
        assert merged[k].id == localTx.id;
        var index := FirstIndexOf(merged, localTx.id);
        assert index == k;
        merged := merged[index := resolvedTx];
      } else {
        merged := merged + [MarkResolved(localTx)];
      }
    }
    assert local[..|local|] == local;
  }

  /** A remote entry whose id no local entry has stays exactly as it was,
      flag included: the source never sets `conflictResolved` on it. */
  lemma BatchRemotePassThrough(local: seq<Transaction>, remote: seq<Transaction>, i: nat)
    requires i < |remote| && remote[i].id !in Ids(local)
    ensures i < |Batch(local, remote)| && Batch(local, remote)[i] == remote[i]
  {
    assert Batch(local, remote)[i] == Slot(local, remote, i);
  }

  /** The first remote entry with an id some local entry shares is resolved
      against the last such local entry. */
  lemma BatchResolvesFirstRemote(local: seq<Transaction>, remote: seq<Transaction>, i: nat)
    requires i < |remote| && remote[i].id in Ids(local)
    requires forall j :: 0 <= j < i ==> remote[j].id != remote[i].id
    ensures LastWithId(local, remote[i].id).Some?
    ensures i < |Batch(local, remote)|
    ensures Batch(local, remote)[i] == Resolve(remote[i], LastWithId(local, remote[i].id).value)
  {
    assert remote[i].id in Ids(remote);
    assert Batch(local, remote)[i] == Slot(local, remote, i);
  }

  /** A later remote duplicate of an id is never replaced. */
  lemma BatchLaterRemoteDuplicateUntouched(local: seq<Transaction>, remote: seq<Transaction>, i: nat, j: nat)
    requires i < j < |remote| && remote[i].id == remote[j].id
    ensures j < |Batch(local, remote)| && Batch(local, remote)[j] == remote[j]
  {
    assert remote[j].id in Ids(remote);
    assert Batch(local, remote)[j] == Slot(local, remote, j);
  }

  /** After the remote positions come the flagged local-only entries, in local order. */
  lemma BatchLocalOnlyTail(local: seq<Transaction>, remote: seq<Transaction>)
    ensures |remote| <= |Batch(local, remote)|
    ensures Batch(local, remote)[|remote|..] == MarkAll(LocalOnly(local, Ids(remote)))
  {
  }

  lemma {:induction false} LocalOnlyIds(local: seq<Transaction>, seen: set<string>)
    ensures Ids(LocalOnly(local, seen)) == Ids(local) - seen
    decreases |local|
  {
    if local != [] {
      var init, x := local[..|local| - 1], local[|local| - 1];
      LocalOnlyIds(init, seen);
      assert init + [x] == local;
      IdsAppend(init, [x]);
      assert Ids([x]) == {x.id};
      if x.id !in seen {
        IdsAppend(LocalOnly(init, seen), [x]);
      }
    }
  }

  lemma MarkAllIds(txs: seq<Transaction>)
    ensures Ids(MarkAll(txs)) == Ids(txs)
  {
    var m := MarkAll(txs);
    forall id | id in Ids(txs) ensures id in Ids(m) {
      var i :| 0 <= i < |txs| && txs[i].id == id;
      assert m[i].id == id;
    }
  }

  /** No id is lost or invented: the output carries exactly the ids of both inputs. */
  lemma BatchIds(local: seq<Transaction>, remote: seq<Transaction>)
    ensures Ids(Batch(local, remote)) == Ids(local) + Ids(remote)
  {
    var head := seq(|remote|, i requires 0 <= i < |remote| => Slot(local, remote, i));
    var tail := MarkAll(LocalOnly(local, Ids(remote)));
    assert Batch(local, remote) == head + tail;
    IdsAppend(head, tail);
    BatchShape(local, remote);
    assert Ids(head) == Ids(remote) by {
      forall id | id in Ids(remote) ensures id in Ids(head) {
        var i :| 0 <= i < |remote| && remote[i].id == id;
        assert head[i] == Batch(local, remote)[i];
      }
      forall i | 0 <= i < |head| ensures head[i].id in Ids(remote) {
        assert head[i] == Batch(local, remote)[i];
      }
    }
    MarkAllIds(LocalOnly(local, Ids(remote)));
    LocalOnlyIds(local, Ids(remote));
  }

  /** The output is at least as long as the union of the input ids. */
  lemma BatchCoversUnion(local: seq<Transaction>, remote: seq<Transaction>)
    ensures |Ids(local) + Ids(remote)| <= |Batch(local, remote)|
  {
    BatchIds(local, remote);
    IdsBound(Batch(local, remote));
  }

  /** Not every output entry is flagged as resolved: a remote-only entry keeps
      whatever flag it had, so "every element has conflictResolved = true" is
      not a theorem of the source. */
  lemma BatchMayLeaveEntryUnflagged(tx: Transaction)
    requires tx.conflictResolved.None?
    ensures Batch([], [tx]) == [tx]
    ensures Batch([], [tx])[0].conflictResolved != Some(true)
  {
    assert Batch([], [tx])[0] == Slot([], [tx], 0);
  }

  /** With two local copies of one remote id, the later local copy decides the slot. */
  lemma BatchDuplicateLocalLastWins(a: Transaction, b: Transaction, rt: Transaction)
    requires a.id == rt.id && b.id == rt.id
    ensures Batch([a, b], [rt]) == [Resolve(rt, b)]
  {
    assert [a, b][..1] == [a];
    assert Ids([rt]) == {rt.id} by {
      assert [rt][0].id == rt.id;
    }
    assert LastWithId([a, b], rt.id) == Some(b);
    assert LocalOnly([a, b], Ids([rt])) == [];
    assert Batch([a, b], [rt])[0] == Slot([a, b], [rt], 0);
  }

  /** Local-only duplicates are not merged with each other: both are appended. */
  lemma BatchKeepsLocalOnlyDuplicates(a: Transaction, b: Transaction)
    requires a.id == b.id
    ensures Batch([a, b], []) == [MarkResolved(a), MarkResolved(b)]
  {
    assert [a, b][..1] == [a];
    assert Ids([]) == {};
    assert LocalOnly([a, b], {}) == [a, b];
    assert Batch([a, b], []) == MarkAll([a, b]);
  }

  /** Two local and two remote copies sharing one id give three entries:
      the shared id resolved in the remote slot, the remote-only entry as it
      was, and the local-only entry flagged at the end. */
  lemma BatchThreeIds(d: TxData)
    ensures
      var local := [Transaction("1", 1620000000000, None, d), Transaction("2", 1619999999999, None, d)];
      var remote := [Transaction("1", 1619999999999, None, d), Transaction("3", 1620000000000, None, d)];
      Batch(local, remote) == [MarkResolved(local[0]), remote[1], MarkResolved(local[1])]
  {
    var local := [Transaction("1", 1620000000000, None, d), Transaction("2", 1619999999999, None, d)];
    var remote := [Transaction("1", 1619999999999, None, d), Transaction("3", 1620000000000, None, d)];
    assert local[..1] == [local[0]];
    assert Ids(remote) == {"1", "3"} by {
      assert remote[0].id == "1" && remote[1].id == "3";
    }
    assert "1" != "2" && "3" != "2" && "1" != "3";
    assert LocalOnly(local, Ids(remote)) == [local[1]];
    assert LastWithId(local, "1") == Some(local[0]);
    assert LastWithId(local, "3") == None;
    var b := Batch(local, remote);
    assert b[0] == Slot(local, remote, 0);
    assert b[1] == Slot(local, remote, 1);
  }
}
