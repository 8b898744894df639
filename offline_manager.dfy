/** The offline transaction queue (src/lib/offline-manager.ts): a FIFO list
    mirrored to a key-value store under `tx_queue` after every mutation. The
    store is a field of the object; a stored value is the serialized list,
    which this model takes to read back as the very list that was written. */
module OfflineQueue {
  import opened Wrappers
  import opened Types

  /** The storage key of the mirrored queue. */
  const QueueKey: string := "tx_queue"

  /** The message of the error the placeholder server call throws. */
  const FetchServerDataError: string := "fetchServerData must be implemented"

  /** The key-value store; each value is a serialized list of transactions. */
  type Storage = map<string, seq<Transaction>>

  class OfflineManager {
    var queue: seq<Transaction>
    var storage: Storage

    /** The mirror holds exactly the queue. */
    ghost predicate Mirrored()
      reads this
    {
      QueueKey in storage && storage[QueueKey] == queue
    }

    /** Object invariant: the queue is mirrored, or nothing was ever stored and the queue is empty. */
    ghost predicate Valid()
      reads this
    {
      Mirrored() || (QueueKey !in storage && queue == [])
    }

    /** Starts from whatever the store holds under `tx_queue`, or from an empty queue. */
    constructor (initial: Storage)
      ensures storage == initial
      ensures queue == if QueueKey in initial then initial[QueueKey] else []
      ensures Valid()
    {
      queue := [];
      storage := initial;
      new;
      LoadQueue();
    }

    /** Replaces the queue by the stored list when one is present; otherwise keeps it. */
    method LoadQueue()
      modifies this`queue
      ensures queue == if QueueKey in storage then storage[QueueKey] else old(queue)
    {
      if QueueKey in storage {
        queue := storage[QueueKey];
      }
    }

    /** Overwrites the mirror with the queue; every other key is left alone. */
    method SaveQueue()
      modifies this`storage
      ensures storage == old(storage)[QueueKey := queue]
      ensures Mirrored()
    {
      storage := storage[QueueKey := queue];
    }

    /** Appends at the back (FIFO) and persists before returning. */
    method AddToQueue(transaction: Transaction)
      modifies this
      ensures queue == old(queue) + [transaction]
      ensures |queue| == |old(queue)| + 1
      ensures storage == old(storage)[QueueKey := queue]
      ensures Mirrored() && Valid()
    {
      queue := queue + [transaction];
      SaveQueue();
    }

    /** A fresh array holding the queue: later changes to the queue do not
        change it. Under the object invariant it is also what a reload from
        the store would give. */
    method GetQueue() returns (snapshot: array<Transaction>)
      requires Valid()
      ensures fresh(snapshot)
      ensures snapshot[..] == queue
      ensures QueueKey in storage ==> storage[QueueKey] == snapshot[..]
    {
      snapshot := new Transaction[|queue|](i reads this requires 0 <= i < |queue| => queue[i]);
    }

    /** Empties the queue and stores the empty list. */
    method ClearQueue()
      modifies this
      ensures queue == []
      ensures storage == old(storage)[QueueKey := []]
      ensures Mirrored() && Valid()
    {
      queue := [];
      SaveQueue();
    }

    /** The placeholder server call: it always throws. */
    method FetchServerData() returns (r: Result<seq<Transaction>, string>)
      ensures r == Failure(FetchServerDataError)
    {
      r := Failure(FetchServerDataError);
    }

    /** `sync` awaits the server call before anything else, so it always fails
        with that call's error; neither the queue nor the store is touched
        (it has no modifies clause). */
    method Sync() returns (r: Result<seq<Transaction>, string>)
      ensures r.Failure? && r.error == FetchServerDataError
    {
      var server := FetchServerData();
      match server
      case Failure(e) =>
        r := Failure(e);
      case Success(_) =>
        assert false;
    }
  }

  /** Enqueuing T1 then T2 on an empty store yields [T1, T2], in the queue and in the store. */
  method FifoOrder(t1: Transaction, t2: Transaction) returns (q: seq<Transaction>, stored: seq<Transaction>)
    ensures q == [t1, t2]
    ensures stored == [t1, t2]
  {
    var m := new OfflineManager(map[]);
    m.AddToQueue(t1);
    m.AddToQueue(t2);
    var snapshot := m.GetQueue();
    q := snapshot[..];
    stored := m.storage[QueueKey];
  }

  /** A snapshot taken before an enqueue still shows the old queue afterwards. */
  method SnapshotIsolation(m: OfflineManager, tx: Transaction) returns (before: array<Transaction>, after: array<Transaction>)
    requires m.Valid()
    modifies m
    ensures before[..] == old(m.queue)
    ensures after[..] == old(m.queue) + [tx]
  {
    before := m.GetQueue();
    m.AddToQueue(tx);
    after := m.GetQueue();
  }
}
