/** The failed-sync ledger (src/lib/sync-recovery.ts). The `failed_syncs`
    table, keyed by transaction id, is a map field; the clock and the server
    lookup are parameters. The `data` column is the JSON text of the payload,
    which this model takes to parse back to the payload that was written. */
module FailureLedger {
  import opened Wrappers
  import opened Types
  import ConflictResolver

  /** `24 * 60 * 60 * 1000`. */
  const MillisPerDay: int := 86400000

  /** The age in days `cleanup` uses when called without an argument. */
  const DefaultCleanupDays: int := 30

  /** The error raised by reading `changes` from an undefined value. */
  const ChangesOfUndefined: string := "Cannot read properties of undefined (reading 'changes')"

  /** One row of `failed_syncs`, without its key. */
  datatype FailedRecord = FailedRecord(timestamp: int, data: TxData, error: string, retryCount: nat)

  type Table = map<string, FailedRecord>

  /** A row as `getFailedSyncs` reports it: the transaction shape plus `error` and `retryCount`. */
  datatype FailedSync = FailedSync(id: string, timestamp: int, data: TxData, error: string, retryCount: nat) {
    /** The row used as a transaction (it carries no `conflictResolved`). */
    function AsTransaction(): Transaction {
      Transaction(id, timestamp, None, data)
    }
  }

  /** An entry of the `failed` list of `retryAllFailedSyncs`. */
  datatype FailedEntry = FailedEntry(id: string, error: string)

  /** The outcome of the server lookup for one id: a copy, none (`null`), or a thrown error. */
  type Lookup = Result<Option<Transaction>, string>

  function Row(id: string, rec: FailedRecord): FailedSync {
    FailedSync(id, rec.timestamp, rec.data, rec.error, rec.retryCount)
  }

  /** The ids of a list of rows. */
  function RowIds(rows: seq<FailedSync>): set<string> {
    if rows == [] then {} else RowIds(rows[..|rows| - 1]) + {rows[|rows| - 1].id}
  }

  /** An id no row carries is not among the row ids. */
  lemma {:induction false} RowIdsAbsent(rows: seq<FailedSync>, id: string)
    requires forall i :: 0 <= i < |rows| ==> rows[i].id != id
    ensures id !in RowIds(rows)
  {
    if rows != [] {
      RowIdsAbsent(rows[..|rows| - 1], id);
    }
  }

  /** `rows` lists table `t`: one row per record, each row its record, no id twice. */
  ghost predicate Lists(rows: seq<FailedSync>, t: Table) {
    && |rows| == |t|
    && RowIds(rows) == t.Keys
    && (forall i :: 0 <= i < |rows| ==> rows[i].id in t && rows[i] == Row(rows[i].id, t[rows[i].id]))
    && (forall i, j :: 0 <= i < j < |rows| ==> rows[i].id != rows[j].id)
  }

  /** INSERT OR REPLACE: one record for `tx.id`, fresh counter, every other record as it was. */
  function Logged(t: Table, tx: Transaction, error: string): (r: Table)
    ensures r.Keys == t.Keys + {tx.id}
    ensures r[tx.id] == FailedRecord(tx.timestamp, tx.data, error, 0)
    ensures forall id :: id in t && id != tx.id ==> r[id] == t[id]
  {
    t[tx.id := FailedRecord(tx.timestamp, tx.data, error, 0)]
  }

  /** UPDATE ... SET retry_count = retry_count + 1, error = ?: no change when the id is absent. */
  function Bumped(t: Table, id: string, error: string): (r: Table)
    ensures r.Keys == t.Keys
    ensures id in t ==> r[id] == t[id].(retryCount := t[id].retryCount + 1, error := error)
    ensures forall k :: k in t && k != id ==> r[k] == t[k]
  {
    if id in t then t[id := t[id].(retryCount := t[id].retryCount + 1, error := error)] else t
  }

  /** The table after one retry of `id` with lookup outcome `fetched`: lookup
      and resolve succeed, so the row goes; or the lookup throws, so it is bumped. */
  function Retried(t: Table, id: string, fetched: Lookup): (r: Table)
    ensures fetched.Success? ==> r.Keys == t.Keys - {id} && forall k :: k in r ==> r[k] == t[k]
    ensures fetched.Failure? ==> r == Bumped(t, id, fetched.error)
  {
    match fetched
    case Success(_) => t - {id}
    case Failure(e) => Bumped(t, id, e)
  }

  /** The table after retrying every id of `t` once with `lookup`, each independently. */
  function RetriedAll(t: Table, lookup: string -> Lookup): (r: Table)
    ensures forall id :: id in r <==> id in t && lookup(id).Failure?
    ensures forall id :: id in r ==>
      r[id] == t[id].(retryCount := t[id].retryCount + 1, error := lookup(id).error)
  {
    map id | id in t && lookup(id).Failure? :: t[id].(retryCount := t[id].retryCount + 1, error := lookup(id).error)
  }

  /** The same after only the ids in `done` have been retried. */
  function RetriedSome(t: Table, lookup: string -> Lookup, done: set<string>): Table {
    map id | id in t && (id !in done || lookup(id).Failure?) ::
      if id in done then t[id].(retryCount := t[id].retryCount + 1, error := lookup(id).error) else t[id]
  }

  /** The placeholder server lookup as written: it always finds nothing. */
  function FetchServerTransaction(id: string): (r: Lookup)
    ensures r == Success(None)
  {
    Success(None)
  }

  /** `Date.now() - olderThanDays * 24 * 60 * 60 * 1000`. */
  function Cutoff(now: int, olderThanDays: int): int {
    now - olderThanDays * MillisPerDay
  }

  /** The ids DELETE ... WHERE timestamp < cutoff removes. */
  function Expired(t: Table, cutoff: int): (r: set<string>)
    ensures forall id :: id in r <==> id in t && t[id].timestamp < cutoff
  {
    set id | id in t && t[id].timestamp < cutoff
  }

  /** The records that survive the cutoff, unchanged. */
  function Cleaned(t: Table, cutoff: int): (r: Table)
    ensures forall id :: id in r <==> id in t && cutoff <= t[id].timestamp
    ensures forall id :: id in r ==> r[id] == t[id]
  {
    map id | id in t && cutoff <= t[id].timestamp :: t[id]
  }

  class SyncRecovery {
    var table: Table

    /** Opens the ledger over the rows already stored at the database path
        (`map[]` for the default in-memory database): `CREATE TABLE IF NOT
        EXISTS` keeps an existing table as it is. */
    constructor (initial: Table)
      ensures table == initial
    {
      table := initial;
    }

    /** Records a failed sync, replacing any earlier record for the same id. */
    method LogFailedSync(transaction: Transaction, error: string)
      modifies this
      ensures table == Logged(old(table), transaction, error)
    {
      table := table[transaction.id := FailedRecord(transaction.timestamp, transaction.data, error, 0)];
    }

    /** SELECT * in an order the storage picks: every record exactly once. */
    method GetFailedSyncs() returns (rows: seq<FailedSync>)
      ensures Lists(rows, table)
    {
      rows := [];
      var remaining := table.Keys;
      while remaining != {}
        invariant remaining <= table.Keys
        invariant |rows| + |remaining| == |table|
        invariant forall i :: 0 <= i < |rows| ==>
          rows[i].id in table && rows[i].id !in remaining && rows[i] == Row(rows[i].id, table[rows[i].id])
        invariant forall i, j :: 0 <= i < j < |rows| ==> rows[i].id != rows[j].id
        invariant RowIds(rows) == table.Keys - remaining
        decreases remaining
      {
        var id :| id in remaining;
        ghost var before := rows;
        rows := rows + [Row(id, table[id])];
        remaining := remaining - {id};
        assert rows[..|rows| - 1] == before;
        assert forall i :: 0 <= i < |before| ==> rows[i] == before[i];
      }
    }

    /** Retries one transaction given the lookup outcome `fetched`. On success
        the row is deleted (the resolved copy is computed and then unused, as
        in the source); on failure the row's counter goes up by one, its error
        is overwritten, and the error is raised again. */
    method RetryFailedSync(transaction: Transaction, fetched: Lookup) returns (outcome: Outcome<string>)
      modifies this
      ensures table == Retried(old(table), transaction.id, fetched)
      ensures outcome == if fetched.Success? then Pass else Fail(fetched.error)
    {
      match fetched
      case Success(serverTx) =>
        if serverTx.Some? {
          var resolved := ConflictResolver.Resolve(serverTx.value, transaction);
        }
        table := table - {transaction.id};
        outcome := Pass;
      case Failure(e) =>
        if transaction.id in table {
          table := table[transaction.id := table[transaction.id].(retryCount := table[transaction.id].retryCount + 1, error := e)];
        }
        outcome := Fail(e);
    }

    /** Retries every record read, once each; one failure never stops the rest.
        `successful` and `failed` partition the ids that were read. */
    method RetryAllFailedSyncs(lookup: string -> Lookup) returns (successful: seq<string>, failed: seq<FailedEntry>)
      modifies this
      ensures forall id :: id in successful <==> id in old(table) && lookup(id).Success?
      ensures forall e :: e in failed <==> e.id in old(table) && lookup(e.id).Failure? && e.error == lookup(e.id).error
      ensures forall i, j :: 0 <= i < j < |successful| ==> successful[i] != successful[j]
      ensures forall i, j :: 0 <= i < j < |failed| ==> failed[i].id != failed[j].id
      ensures |successful| + |failed| == |old(table)|
      ensures table == RetriedAll(old(table), lookup)
    {
      var rows := GetFailedSyncs();
      ghost var t0 := table;
      assert Lists(rows, t0);
      ghost var done: set<string> := {};
      successful, failed := [], [];
      for n := 0 to |rows|
        invariant done == RowIds(rows[..n])
        invariant table == RetriedSome(t0, lookup, done)
        invariant successful == Successes(rows[..n], lookup)
        invariant failed == Failures(rows[..n], lookup)
      {
        var sync := rows[n];
        RetryAllStep(rows, t0, lookup, n, done);
        var outcome := RetryFailedSync(sync.AsTransaction(), lookup(sync.id));
        if outcome.Pass? {
          successful := successful + [sync.id];
        } else {
          failed := failed + [FailedEntry(sync.id, outcome.error)];
        }
        done := done + {sync.id};
      }
      assert rows[..|rows|] == rows;
      RetriedSomeAll(t0, lookup);
      RetryAllReport(rows, t0, lookup);
    }

    /** Deletes the records older than `olderThanDays` days before `now` and returns how many went. */
    method Cleanup(olderThanDays: int, now: int) returns (deleted: nat)
      modifies this
      ensures table == Cleaned(old(table), Cutoff(now, olderThanDays))
      ensures deleted == |Expired(old(table), Cutoff(now, olderThanDays))|
    {
      var cutoffTime := Cutoff(now, olderThanDays);
      var doomed := set id | id in table && table[id].timestamp < cutoffTime;
      table := map id | id in table && cutoffTime <= table[id].timestamp :: table[id];
      deleted := |doomed|;
    }

    /** `cleanup()` with its default argument of 30 days. */
    method CleanupDefault(now: int) returns (deleted: nat)
      modifies this
      ensures table == Cleaned(old(table), Cutoff(now, DefaultCleanupDays))
      ensures deleted == |Expired(old(table), Cutoff(now, DefaultCleanupDays))|
    {
      deleted := Cleanup(DefaultCleanupDays, now);
    }

    /** `cleanup` as written: the DELETE commits, and then the count is read
        as `changes` off the value the promisified `run` resolves to. The
        sqlite3 driver passes its callback only the error and puts the count
        on the callback's `this`, so that value is `undefined`, and the read
        throws after the rows are already gone. */
    method CleanupAsWritten(olderThanDays: int, now: int) returns (r: Result<nat, string>)
      modifies this
      ensures table == Cleaned(old(table), Cutoff(now, olderThanDays))
      ensures r == Failure(ChangesOfUndefined)
    {
      var cutoffTime := Cutoff(now, olderThanDays);
      table := map id | id in table && cutoffTime <= table[id].timestamp :: table[id];
      r := Failure(ChangesOfUndefined);
    }
  }

  /** The ids of `rows` whose lookup does not throw, in row order. */
  function Successes(rows: seq<FailedSync>, lookup: string -> Lookup): seq<string> {
    if rows == [] then []
    else
      var last := rows[|rows| - 1];
      Successes(rows[..|rows| - 1], lookup) + (if lookup(last.id).Success? then [last.id] else [])
  }

  /** The ids of `rows` whose lookup throws, with the error, in row order. */
  function Failures(rows: seq<FailedSync>, lookup: string -> Lookup): seq<FailedEntry> {
    if rows == [] then []
    else
      var last := rows[|rows| - 1];
      Failures(rows[..|rows| - 1], lookup) + (if lookup(last.id).Failure? then [FailedEntry(last.id, lookup(last.id).error)] else [])
  }

  /** Over rows with distinct ids, the two lists report each row exactly once, split by its lookup outcome. */
  lemma {:induction false} ReportedRows(rows: seq<FailedSync>, lookup: string -> Lookup)
    requires forall i, j :: 0 <= i < j < |rows| ==> rows[i].id != rows[j].id
    ensures Reported(Successes(rows, lookup), Failures(rows, lookup), RowIds(rows), lookup)
    ensures |Successes(rows, lookup)| + |Failures(rows, lookup)| == |rows|
  {
    if rows != [] {
      var init, id := rows[..|rows| - 1], rows[|rows| - 1].id;
      assert forall i :: 0 <= i < |init| ==> init[i] == rows[i];
      ReportedRows(init, lookup);
      RowIdsAbsent(init, id);
      ReportedStep(Successes(init, lookup), Failures(init, lookup), RowIds(init), lookup, id);
    }
  }

  /** Over a listing of `t`, the two lists partition its ids by lookup outcome, none twice. */
  lemma RetryAllReport(rows: seq<FailedSync>, t: Table, lookup: string -> Lookup)
    requires Lists(rows, t)
    ensures forall id :: id in Successes(rows, lookup) <==> id in t && lookup(id).Success?
    ensures forall e :: e in Failures(rows, lookup) <==> e.id in t && lookup(e.id).Failure? && e.error == lookup(e.id).error
    ensures forall i, j :: 0 <= i < j < |Successes(rows, lookup)| ==> Successes(rows, lookup)[i] != Successes(rows, lookup)[j]
    ensures forall i, j :: 0 <= i < j < |Failures(rows, lookup)| ==> Failures(rows, lookup)[i].id != Failures(rows, lookup)[j].id
    ensures |Successes(rows, lookup)| + |Failures(rows, lookup)| == |t|
  {
    ReportedRows(rows, lookup);
  }

  /** One pass of the retry-all loop: the next row's id is new, so retrying it
      extends the partially retried table by it, and the prefix grows by that row. */
  lemma RetryAllStep(rows: seq<FailedSync>, t0: Table, lookup: string -> Lookup, n: nat, done: set<string>)
    requires Lists(rows, t0) && n < |rows|
    requires done == RowIds(rows[..n])
    ensures rows[..n + 1][..n] == rows[..n] && rows[..n + 1][n] == rows[n]
    ensures done + {rows[n].id} == RowIds(rows[..n + 1])
    ensures Retried(RetriedSome(t0, lookup, done), rows[n].id, lookup(rows[n].id)) == RetriedSome(t0, lookup, done + {rows[n].id})
    ensures Successes(rows[..n + 1], lookup) ==
      Successes(rows[..n], lookup) + (if lookup(rows[n].id).Success? then [rows[n].id] else [])
    ensures Failures(rows[..n + 1], lookup) ==
      Failures(rows[..n], lookup) + (if lookup(rows[n].id).Failure? then [FailedEntry(rows[n].id, lookup(rows[n].id).error)] else [])
  {
    var id := rows[n].id;
    assert rows[..n + 1][..n] == rows[..n];
    assert forall i :: 0 <= i < n ==> rows[..n][i] == rows[i];
    RowIdsAbsent(rows[..n], id);
    RetriedSomeStep(t0, lookup, done, id);
  }

  /** Retrying one more id extends the partially retried table by that id. */
  lemma RetriedSomeStep(t: Table, lookup: string -> Lookup, done: set<string>, id: string)
    requires id in t && id !in done
    ensures Retried(RetriedSome(t, lookup, done), id, lookup(id)) == RetriedSome(t, lookup, done + {id})
  {
  }

  /** Once every id has been retried, the partial table is the full one. */
  lemma RetriedSomeAll(t: Table, lookup: string -> Lookup)
    ensures RetriedSome(t, lookup, t.Keys) == RetriedAll(t, lookup)
  {
  }

  /** The result lists report exactly the ids of `done`, split by their lookup outcome, none twice. */
  ghost predicate Reported(successful: seq<string>, failed: seq<FailedEntry>, done: set<string>, lookup: string -> Lookup) {
    && (forall id :: id in successful <==> id in done && lookup(id).Success?)
    && (forall e :: e in failed <==> e.id in done && lookup(e.id).Failure? && e.error == lookup(e.id).error)
    && (forall i, j :: 0 <= i < j < |successful| ==> successful[i] != successful[j])
    && (forall i, j :: 0 <= i < j < |failed| ==> failed[i].id != failed[j].id)
  }

  /** Reporting one more id keeps the lists exact. */
  lemma ReportedStep(successful: seq<string>, failed: seq<FailedEntry>, done: set<string>, lookup: string -> Lookup, id: string)
    requires Reported(successful, failed, done, lookup) && id !in done
    ensures lookup(id).Success? ==> Reported(successful + [id], failed, done + {id}, lookup)
    ensures lookup(id).Failure? ==> Reported(successful, failed + [FailedEntry(id, lookup(id).error)], done + {id}, lookup)
  {
  }

  // ---------------------------------------------------------------------
  // Properties of the ledger operations

  /** Logging adds a row only for a new id; a known id keeps the row count. */
  lemma LoggedSize(t: Table, tx: Transaction, error: string)
    ensures |Logged(t, tx, error)| == if tx.id in t then |t| else |t| + 1
  {
    var r := Logged(t, tx, error);
    if tx.id in t {
      assert r.Keys == t.Keys;
    } else {
      assert r.Keys == t.Keys + {tx.id};
    }
  }

  /** A second failure for the same id replaces the first: the error is the
      new one and the retry counter is back at 0. */
  lemma LoggedTwiceReplaces(t: Table, first: Transaction, second: Transaction, e1: string, e2: string)
    requires first.id == second.id
    ensures Logged(Logged(t, first, e1), second, e2) == Logged(t, second, e2)
    ensures |Logged(Logged(t, first, e1), second, e2)| == |Logged(t, first, e1)|
  {
    LoggedSize(Logged(t, first, e1), second, e2);
  }

  /** What is logged reads back: the listing holds exactly one row for the id,
      with the logged timestamp, payload and error and a zero counter. */
  lemma LoggedReadsBack(rows: seq<FailedSync>, t: Table, tx: Transaction, error: string)
    requires Lists(rows, Logged(t, tx, error))
    ensures exists i :: 0 <= i < |rows| && rows[i] == FailedSync(tx.id, tx.timestamp, tx.data, error, 0)
    ensures forall i :: 0 <= i < |rows| && rows[i].id == tx.id ==> rows[i] == FailedSync(tx.id, tx.timestamp, tx.data, error, 0)
  {
    RowIdsPresent(rows, tx.id);
  }

  /** An id among the row ids is carried by some row. */
  lemma {:induction false} RowIdsPresent(rows: seq<FailedSync>, id: string)
    requires id in RowIds(rows)
    ensures exists i :: 0 <= i < |rows| && rows[i].id == id
  {
    var init := rows[..|rows| - 1];
    if id != rows[|rows| - 1].id {
      RowIdsPresent(init, id);
      var i :| 0 <= i < |init| && init[i].id == id;
      assert rows[i].id == id;
    }
  }

  /** A failed retry of an id with no row changes nothing. */
  lemma RetriedAbsentUnchanged(t: Table, id: string, fetched: Lookup)
    requires id !in t
    ensures Retried(t, id, fetched) == t
  {
  }

  /** With the placeholder lookup, a retry always takes the success path and
      deletes exactly the row of that id. */
  lemma StubRetryDeletes(t: Table, id: string)
    ensures Retried(t, id, FetchServerTransaction(id)) == t - {id}
    ensures |Retried(t, id, FetchServerTransaction(id))| == if id in t then |t| - 1 else |t|
  {
    var r := t - {id};
    if id in t {
      assert r.Keys == t.Keys - {id};
    } else {
      assert r.Keys == t.Keys;
    }
  }

  /** With the placeholder lookup, retrying everything empties the ledger. */
  lemma StubRetryAllDrains(t: Table)
    ensures RetriedAll(t, FetchServerTransaction) == map[]
  {
  }

  /** Cleanup splits the table: a record is either deleted or kept, never
      both, and the deleted count plus the kept rows is the old row count. */
  lemma CleanupPartition(t: Table, cutoff: int)
    ensures Expired(t, cutoff) !! Cleaned(t, cutoff).Keys
    ensures Expired(t, cutoff) + Cleaned(t, cutoff).Keys == t.Keys
    ensures |Expired(t, cutoff)| + |Cleaned(t, cutoff)| == |t|
  {
    var gone, kept := Expired(t, cutoff), Cleaned(t, cutoff).Keys;
    assert gone + kept == t.Keys;
    assert |gone + kept| == |gone| + |kept|;
  }

  /** A second cleanup with the same clock and age deletes nothing. */
  lemma CleanupIdempotent(t: Table, cutoff: int)
    ensures Cleaned(Cleaned(t, cutoff), cutoff) == Cleaned(t, cutoff)
    ensures Expired(Cleaned(t, cutoff), cutoff) == {}
    ensures |Expired(Cleaned(t, cutoff), cutoff)| == 0
  {
  }

  /** A record 31 days old goes and a current one stays under `cleanup(30)`. */
  lemma CleanupThirtyDays(oldTx: Transaction, newTx: Transaction, now: int)
    requires oldTx.id != newTx.id
    requires oldTx.timestamp == now - 31 * MillisPerDay && newTx.timestamp == now
    ensures
      var t := Logged(Logged(map[], oldTx, "Old error"), newTx, "New error");
      && Expired(t, Cutoff(now, 30)) == {oldTx.id}
      && |Expired(t, Cutoff(now, 30))| == 1
      && Cleaned(t, Cutoff(now, 30)).Keys == {newTx.id}
  {
  }

  /** Two failures for one id leave one row, with the later error and a zero counter. */
  method RelogScenario(tx: Transaction) returns (rows: seq<FailedSync>)
    ensures |rows| == 1
    ensures rows[0] == FailedSync(tx.id, tx.timestamp, tx.data, "refused", 0)
  {
    var ledger := new SyncRecovery(map[]);
    ledger.LogFailedSync(tx, "timeout");
    ledger.LogFailedSync(tx, "refused");
    rows := ledger.GetFailedSyncs();
    assert ledger.table.Keys == {tx.id};
    assert rows[0].id in ledger.table;
  }
}
