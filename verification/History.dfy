/** internal/storage/history.go: the history manager, its writer and its lastIndex cache. */
module History {
  import opened MachineInts
  import opened Tables
  import BatchWriter

  type Events = seq<BatchWriter.Event<StoredMessage>>
  type WriterState = BatchWriter.State<StoredMessage, HistoryDb>

  /** What a flush works on: the messages table and the in-memory cache. */
  datatype HistoryDb = HistoryDb(rows: seq<Row>, lastIndex: map<string, uint64>)

  const WRITE_BATCH_SIZE: nat := 50

  function SetLast(cache: map<string, uint64>, room: string, index: uint64): map<string, uint64> {
    if room !in cache || index > cache[room] then cache[room := index] else cache
  }

  function CacheAfter(cache: map<string, uint64>, m: StoredMessage): map<string, uint64> {
    if m.chainIndex.Some? && m.body.roomID != "" then SetLast(cache, m.body.roomID, m.chainIndex.value) else cache
  }

  /** What GetLastIndex leaves: a missing entry is filled from the table if that has an index. */
  function Filled(db: HistoryDb, room: string, fault: bool): HistoryDb {
    if room in db.lastIndex || fault || LatestIndex(db.rows, room).Err? then db
    else db.(lastIndex := db.lastIndex[room := LatestIndex(db.rows, room).value])
  }

  /** SaveEnvelope and, since INSERT OR IGNORE reports success even when it ignores, the cache update. */
  function Save(db: HistoryDb, m: StoredMessage): Option<HistoryDb> {
    Some(HistoryDb(InsertOrIgnore(db.rows, m), CacheAfter(db.lastIndex, m)))
  }

  function Configured(capacity: nat, faults: nat -> bool): BatchWriter.Config<StoredMessage, HistoryDb> {
    BatchWriter.Config(capacity, WRITE_BATCH_SIZE, Save, faults)
  }

  class HistoryManager {
    const capacity: nat
    var writeQ: seq<StoredMessage>
    var batch: seq<StoredMessage>
    var stopRequested: bool
    var phase: BatchWriter.Phase
    var lastIndex: map<string, uint64>
    var processed: nat
    var results: seq<BatchWriter.Delivery>
    ghost var accepted: seq<StoredMessage>

    constructor (writeQSize: nat)
      ensures capacity == writeQSize && writeQ == [] && batch == [] && lastIndex == map[]
      ensures !stopRequested && phase == BatchWriter.Running
      ensures processed == 0 && results == [] && accepted == []
    {
      capacity := writeQSize;
      writeQ, batch, stopRequested, phase, lastIndex := [], [], false, BatchWriter.Running, map[];
      processed, results, accepted := 0, [], [];
    }

    ghost function View(store: Store): WriterState
      reads this, store
    {
      BatchWriter.State(accepted, processed, batch, writeQ, stopRequested, phase,
                        HistoryDb(store.messages, lastIndex), results)
    }

    method EnqueueEnvelope(m: StoredMessage) returns (ok: bool)
      modifies this`writeQ, this`accepted
      ensures ok == (|old(writeQ)| < capacity)
      ensures writeQ == if ok then old(writeQ) + [m] else old(writeQ)
      ensures accepted == if ok then old(accepted) + [m] else old(accepted)
    {
      ok := |writeQ| < capacity;
      if ok {
        writeQ, accepted := writeQ + [m], accepted + [m];
      }
    }

    method SetLastIndex(room: string, index: uint64)
      modifies this`lastIndex
      ensures lastIndex.Keys == old(lastIndex).Keys + {room}
      ensures lastIndex[room] == if room in old(lastIndex) then Max(old(lastIndex)[room], index) else index
      ensures forall other :: other in old(lastIndex) && other != room ==> lastIndex[other] == old(lastIndex)[other]
    {
      if room !in lastIndex || index > lastIndex[room] {
        lastIndex := lastIndex[room := index];
      }
    }

    /**
     * The cached index if there is one, otherwise the table's, which is then cached: the operations on
     * the map. The lock around them never lets the second case return (CacheLock).
     */
    method GetLastIndex(room: string, store: Store, fault: bool) returns (r: Result<uint64>)
      modifies this`lastIndex
      ensures HistoryDb(store.messages, lastIndex) == Filled(old(HistoryDb(store.messages, lastIndex)), room, fault)
      ensures room in old(lastIndex) ==> r == Ok(old(lastIndex)[room]) && lastIndex == old(lastIndex)
      ensures room !in old(lastIndex) ==>
                && r == (if fault then Err(ErrQuery) else LatestIndex(store.messages, room))
                && lastIndex == if r.Ok? then old(lastIndex)[room := r.value] else old(lastIndex)
    {
      if room in lastIndex {
        return Ok(lastIndex[room]);
      }
      r := store.GetLatestChainIndex(room, fault);
      if !fault {
        LatestIndexIsUnique(store.messages, room, r);
      }
      if r.Ok? {
        SetLastIndex(room, r.value);
      }
    }

    /** One turn of the flush loop; `rest` is what is left of the batch after it. */
    method WriteOne(store: Store, faults: nat -> bool, m: StoredMessage, ghost rest: seq<StoredMessage>)
      modifies this`processed, this`results, this`lastIndex, store`messages
      ensures View(store).(batch := rest)
              == BatchWriter.FlushOne(Configured(capacity, faults), old(View(store)).(batch := [m] + rest))
    {
      var ok := store.SaveEnvelope(m, faults(processed));
      if ok && m.chainIndex.Some? && m.body.roomID != "" {
        SetLastIndex(m.body.roomID, m.chainIndex.value);
        assert lastIndex == SetLast(old(lastIndex), m.body.roomID, m.chainIndex.value);
      }
      results := results + [BatchWriter.Sent(processed, ok), BatchWriter.Closed(processed)];
      processed := processed + 1;
    }

    /** The flush closure of writeWorker. */
    method Flush(store: Store, faults: nat -> bool)
      modifies this, store`messages
      ensures View(store) == BatchWriter.Flush(Configured(capacity, faults), old(View(store)))
    {
      ghost var c := Configured(capacity, faults);
      var i := 0;
      while i < |batch|
        invariant 0 <= i <= |batch| && batch == old(batch)
        invariant BatchWriter.Flush(c, View(store).(batch := batch[i..])) == BatchWriter.Flush(c, old(View(store)))
      {
        assert batch[i..] == [batch[i]] + batch[i + 1..];
        WriteOne(store, faults, batch[i], batch[i + 1..]);
        i := i + 1;
      }
      batch := [];
    }

    predicate Ready(e: BatchWriter.Event<StoredMessage>)
      reads this
    {
      BatchWriter.CaseReady(phase, |writeQ| > 0, stopRequested, e)
    }

    /** The receive case, in the main loop and in the drain. */
    method ReceiveRequest(store: Store, faults: nat -> bool)
      requires writeQ != []
      modifies this, store`messages
      ensures View(store) == BatchWriter.Take(Configured(capacity, faults), old(View(store)))
    {
      batch, writeQ := batch + [writeQ[0]], writeQ[1..];
      if |batch| >= WRITE_BATCH_SIZE {
        Flush(store, faults);
      }
    }

    method TakeStep(store: Store, faults: nat -> bool, e: BatchWriter.Event<StoredMessage>)
      requires Ready(e)
      modifies this, store`messages
      ensures View(store) == BatchWriter.Step(Configured(capacity, faults), old(View(store)), e)
      ensures e.Timer? || e.DrainDone? ==> batch == [] && processed == old(processed) + |old(batch)|
    {
      BatchWriter.FlushFrame(Configured(capacity, faults), View(store));
      match e
      case Enqueue(m) => var _ := EnqueueEnvelope(m);
      case Receive => ReceiveRequest(store, faults);
      case Timer => Flush(store, faults);
      case Stop => stopRequested := true;
      case BeginDrain => phase := BatchWriter.Draining;
      case DrainReceive => ReceiveRequest(store, faults);
      case DrainDone => Flush(store, faults); phase := BatchWriter.Done;
    }

    /**
     * writeWorker beside the goroutines that enqueue and stop, driven by a schedule: at each
     * point it proposes a case of the select statement, which is taken if it is ready. Whatever
     * the schedule, the outcome is one that the step system of BatchWriter reaches.
     */
    method WriteWorker(store: Store, faults: nat -> bool, schedule: Events) returns (taken: Events)
      modifies this, store`messages
      ensures BatchWriter.Reaches(Configured(capacity, faults), old(View(store)), taken, View(store))
    {
      ghost var c := Configured(capacity, faults);
      taken := [];
      var i := 0;
      while i < |schedule|
        invariant 0 <= i <= |schedule|
        invariant BatchWriter.Reaches(c, old(View(store)), taken, View(store))
      {
        if Ready(schedule[i]) {
          ghost var before := View(store);
          TakeStep(store, faults, schedule[i]);
          OneMore(c, old(View(store)), taken, before, schedule[i]);
          taken := taken + [schedule[i]];
        }
        i := i + 1;
      }
    }
  }

  lemma {:induction false} OneMore(
    c: BatchWriter.Config<StoredMessage, HistoryDb>, s: WriterState, events: Events, t: WriterState,
    e: BatchWriter.Event<StoredMessage>)
    requires BatchWriter.Reaches(c, s, events, t) && BatchWriter.Enabled(t, e)
    ensures BatchWriter.Reaches(c, s, events + [e], BatchWriter.Step(c, t, e))
    decreases |events|
  {
    if events == [] {
      assert (events + [e])[1..] == [];
    } else {
      OneMore(c, BatchWriter.Step(c, s, events[0]), events[1..], t, e);
      assert (events + [e])[1..] == events[1..] + [e];
    }
  }

  // ---------- the cache against the table ----------

  /** The cache does not run ahead of the table. */
  predicate Bounded(db: HistoryDb, room: string) {
    room in db.lastIndex ==>
      LatestIndex(db.rows, room).Ok? && db.lastIndex[room] <= LatestIndex(db.rows, room).value
  }

  /** The room's largest column is not negative: every index is below 2^63. */
  predicate InRange(db: HistoryDb, room: string) {
    LatestChain(db.rows, room).Some? ==> 0 <= LatestChain(db.rows, room).value
  }

  lemma LatestAfterInsert(rows: seq<Row>, m: StoredMessage, room: string)
    ensures LatestChain(InsertOrIgnore(rows, m), room)
            == if Storable(m) && m.body.roomID == room then Larger(LatestChain(rows, room), Column(m.chainIndex))
               else LatestChain(rows, room)
  {
    var after := InsertOrIgnore(rows, m);
    if Inserts(rows, m) {
      assert after[..|rows|] == rows;
    } else if Storable(m) && m.body.roomID == room {
      assert Holds(rows, room, ToInt64(m.chainIndex.value));
    }
  }

  /**
   * Saving an indexed message keeps the cache bounded exactly when its row really is stored and
   * below 2^63 (or the room was empty), or when a larger index was stored before.
   */
  lemma SaveKeepsBoundExactly(db: HistoryDb, m: StoredMessage)
    requires m.chainIndex.Some? && m.body.roomID != ""
    requires Bounded(db, m.body.roomID) && InRange(db, m.body.roomID)
    ensures Bounded(Save(db, m).value, m.body.roomID)
            <==> || (Storable(m) && (m.chainIndex.value < TWO_63 || LatestIndex(db.rows, m.body.roomID).Err?))
                 || (LatestIndex(db.rows, m.body.roomID).Ok?
                     && m.chainIndex.value <= LatestIndex(db.rows, m.body.roomID).value)
  {
    LatestAfterInsert(db.rows, m, m.body.roomID);
  }

  /** A message without a signature is reported saved, moves the cache, and is not in the table. */
  lemma IgnoredRowMovesCache(m: StoredMessage)
    requires m.body.roomID != "" && m.chainIndex.Some? && m.body.signature.None?
    ensures var db := Save(HistoryDb([], map[]), m).value;
            && db.rows == [] && db.lastIndex == map[m.body.roomID := m.chainIndex.value]
            && !Bounded(db, m.body.roomID)
  {
  }

  /**
   * No index, or one below 2^63 and nothing missing. Of what a client enqueues this is what carries
   * a signature (Chat.OfferedIsWellFormedIfSigned).
   */
  predicate WellFormed(m: StoredMessage) {
    m.chainIndex.Some? ==> Storable(m) && m.chainIndex.value < TWO_63
  }

  function DirectDb(capacity: nat, faults: nat -> bool, db0: HistoryDb, requests: seq<StoredMessage>): HistoryDb {
    BatchWriter.Direct(Configured(capacity, faults), db0, requests).db
  }

  lemma SaveStaysBounded(db: HistoryDb, m: StoredMessage, room: string)
    requires WellFormed(m) && Bounded(db, room) && InRange(db, room)
    ensures Bounded(Save(db, m).value, room) && InRange(Save(db, m).value, room)
  {
    LatestAfterInsert(db.rows, m, room);
  }

  /** The cache is the table's largest index: absent when there is none, equal to it otherwise. */
  predicate Matches(db: HistoryDb, room: string) {
    LatestIndex(db.rows, room) == if room in db.lastIndex then Ok(db.lastIndex[room]) else Err(ErrNoRows)
  }

  lemma SaveStillMatches(db: HistoryDb, m: StoredMessage, room: string)
    requires room != "" && WellFormed(m) && Matches(db, room) && InRange(db, room)
    ensures Matches(Save(db, m).value, room) && InRange(Save(db, m).value, room)
  {
    LatestAfterInsert(db.rows, m, room);
  }

  /** The requests whose write does not fail. */
  function Unfailed(faults: nat -> bool, requests: seq<StoredMessage>): seq<StoredMessage> {
    if requests == [] then []
    else
      var n := |requests| - 1;
      Unfailed(faults, requests[..n]) + if faults(n) then [] else [requests[n]]
  }

  lemma {:induction false} NoneFailed(faults: nat -> bool, requests: seq<StoredMessage>)
    requires forall n: nat :: !faults(n)
    ensures Unfailed(faults, requests) == requests
  {
    if requests != [] {
      var n := |requests| - 1;
      NoneFailed(faults, requests[..n]);
      assert !faults(n) && requests[..n] + [requests[n]] == requests;
    }
  }

  /** One more request of the direct writer. */
  lemma DirectOneMore(capacity: nat, faults: nat -> bool, db0: HistoryDb, requests: seq<StoredMessage>)
    requires requests != []
    ensures var n := |requests| - 1;
            var before := DirectDb(capacity, faults, db0, requests[..n]).rows;
            DirectDb(capacity, faults, db0, requests).rows
            == if faults(n) then before else InsertOrIgnore(before, requests[n])
  {
  }

  lemma UnfailedOneMore(faults: nat -> bool, rows: seq<Row>, requests: seq<StoredMessage>)
    requires requests != []
    ensures var n := |requests| - 1;
            var before := InsertAll(rows, Unfailed(faults, requests[..n]));
            InsertAll(rows, Unfailed(faults, requests))
            == if faults(n) then before else InsertOrIgnore(before, requests[n])
  {
    var n := |requests| - 1;
    var kept := Unfailed(faults, requests[..n]);
    if faults(n) {
      assert kept + [] == kept;
    } else {
      assert (kept + [requests[n]])[..|kept|] == kept;
    }
  }

  /** The direct writer is a plain fold of INSERT OR IGNORE over the requests whose write does not fail. */
  lemma {:induction false} DirectIsInsertAll(
    capacity: nat, faults: nat -> bool, db0: HistoryDb, requests: seq<StoredMessage>)
    ensures DirectDb(capacity, faults, db0, requests).rows == InsertAll(db0.rows, Unfailed(faults, requests))
  {
    if requests != [] {
      DirectIsInsertAll(capacity, faults, db0, requests[..|requests| - 1]);
      DirectOneMore(capacity, faults, db0, requests);
      UnfailedOneMore(faults, db0.rows, requests);
    }
  }

  /**
   * Any run of the worker leaves the table that saving the processed envelopes one by one would, all but
   * those whose write fails.
   */
  lemma TableIsFoldOfSaves(
    capacity: nat, faults: nat -> bool, db0: HistoryDb, events: Events, t: WriterState)
    requires BatchWriter.Reaches(Configured(capacity, faults), BatchWriter.Initial(db0), events, t)
    ensures t.processed <= |t.accepted|
    ensures t.db.rows == InsertAll(db0.rows, Unfailed(faults, t.accepted[..t.processed]))
  {
    BatchWriter.BatchingRefinesDirectWriting(Configured(capacity, faults), db0, events, t);
    DirectIsInsertAll(capacity, faults, db0, t.accepted[..t.processed]);
  }

  /**
   * A timer leaves nothing of what was received unsaved: the table is the fold of SaveEnvelope over
   * every accepted request but those still queued, less those whose write fails, and each is reported a
   * success exactly if its write does not fail.
   */
  lemma TimerStoresEverything(
    capacity: nat, faults: nat -> bool, db0: HistoryDb, events: Events, s: WriterState)
    requires BatchWriter.Reaches(Configured(capacity, faults), BatchWriter.Initial(db0), events, s)
    requires s.phase == BatchWriter.Running
    ensures BatchWriter.Enabled(s, BatchWriter.Event<StoredMessage>.Timer)
    ensures var t := BatchWriter.Step(Configured(capacity, faults), s, BatchWriter.Timer);
            var n := |s.accepted| - |s.queue|;
            && t.batch == [] && n >= 0 && t.processed == n
            && t.db.rows == InsertAll(db0.rows, Unfailed(faults, s.accepted[..n]))
            && |t.log| == 2 * n
            && forall k :: 0 <= k < n ==>
                 t.log[2 * k] == BatchWriter.Sent(k, !faults(k)) && t.log[2 * k + 1] == BatchWriter.Closed(k)
  {
    BatchWriter.TimerWritesBatch(Configured(capacity, faults), db0, events, s);
    DirectIsInsertAll(capacity, faults, db0, s.accepted[..|s.accepted| - |s.queue|]);
  }

  /** The 50th request of a batch has all of it saved; up to the 49th neither table nor cache is touched. */
  lemma FiftiethRequestIsSaved(
    capacity: nat, faults: nat -> bool, db0: HistoryDb, events: Events, s: WriterState)
    requires BatchWriter.Reaches(Configured(capacity, faults), BatchWriter.Initial(db0), events, s)
    requires BatchWriter.Enabled(s, BatchWriter.Event<StoredMessage>.Receive)
    ensures |s.batch| < 50
    ensures var t := BatchWriter.Step(Configured(capacity, faults), s, BatchWriter.Receive);
            if |s.batch| < 49 then t.db == s.db && t.log == s.log && |t.batch| == |s.batch| + 1
            else && t.batch == []
                 && t.processed == |s.accepted| - |s.queue| + 1 <= |s.accepted|
                 && t.db.rows == InsertAll(db0.rows, Unfailed(faults, s.accepted[..t.processed]))
  {
    var c := Configured(capacity, faults);
    BatchWriter.ReceiveWritesFullBatches(c, db0, events, s, BatchWriter.Receive);
    BatchWriter.ReachesInv(c, db0, events, s);
    BatchWriter.StepKeepsInv(c, db0, s, BatchWriter.Receive);
    var t := BatchWriter.Step(c, s, BatchWriter.Receive);
    DirectIsInsertAll(capacity, faults, db0, t.accepted[..t.processed]);
  }

  /**
   * Nothing accepted is lost: after a faultless drain the table has an index if and only if it had
   * it before or some storable accepted message carries it.
   */
  lemma DrainedTableHoldsEverything(
    capacity: nat, faults: nat -> bool, db0: HistoryDb, events: Events, s: WriterState, later: Events, t: WriterState,
    room: string, chain: int64)
    requires forall n: nat :: !faults(n)
    requires BatchWriter.Reaches(Configured(capacity, faults), BatchWriter.Initial(db0), events, s)
    requires BatchWriter.Enabled(s, BatchWriter.Event<StoredMessage>.DrainDone)
    requires BatchWriter.Reaches(Configured(capacity, faults),
                                 BatchWriter.Step(Configured(capacity, faults), s, BatchWriter.DrainDone), later, t)
    ensures db0.rows <= t.db.rows
    ensures Holds(t.db.rows, room, chain) <==> Holds(db0.rows, room, chain) || Offers(s.accepted, room, chain)
  {
    BatchWriter.DrainServesEveryone(Configured(capacity, faults), db0, events, s, later, t);
    DirectIsInsertAll(capacity, faults, db0, s.accepted);
    NoneFailed(faults, s.accepted);
    MergeAddsExactlyTheMissing(db0.rows, s.accepted, room, chain);
  }

  /** Faults or not, every row the writer leaves was there before or was enqueued. */
  lemma {:induction false} WrittenRowsWereEnqueued(
    capacity: nat, faults: nat -> bool, db0: HistoryDb, requests: seq<StoredMessage>, r: Row)
    requires r in DirectDb(capacity, faults, db0, requests).rows && r !in db0.rows
    ensures exists k :: 0 <= k < |requests| && requests[k].body == r.body && Column(requests[k].chainIndex) == r.chain
  {
    if requests != [] {
      var n := |requests| - 1;
      var before := DirectDb(capacity, faults, db0, requests[..n]);
      assert r in before.rows || r == NewRow(before.rows, requests[n]);
      if r in before.rows {
        WrittenRowsWereEnqueued(capacity, faults, db0, requests[..n], r);
        var k :| 0 <= k < n && requests[..n][k].body == r.body && Column(requests[..n][k].chainIndex) == r.chain;
        assert requests[k] == requests[..n][k];
      }
    }
  }

  lemma {:induction false} WriterKeepsConsistent(
    capacity: nat, faults: nat -> bool, db0: HistoryDb, requests: seq<StoredMessage>)
    requires Consistent(db0.rows)
    ensures Consistent(DirectDb(capacity, faults, db0, requests).rows)
  {
    if requests != [] {
      var n := |requests| - 1;
      WriterKeepsConsistent(capacity, faults, db0, requests[..n]);
      InsertKeepsConsistent(DirectDb(capacity, faults, db0, requests[..n]).rows, requests[n]);
    }
  }
}
