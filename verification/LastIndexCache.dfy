/**
 * The lastIndex cache against the table, over whole runs: steps of the writer and of the goroutines
 * around it, interleaved with everything else that touches cache or table, namely the lookups of
 * GetLastIndex and the direct saves of a catch-up. What the lock around the cache adds to this is in
 * CacheLock: a lookup that fills the cache is the last thing that happens to it.
 */
module LastIndexCache {
  import opened MachineInts
  import opened Tables
  import opened History
  import BatchWriter

  datatype CacheEvent =
    | Worker(event: BatchWriter.Event<StoredMessage>)
    | Lookup(room: string, fault: bool)
    | DirectSave(message: StoredMessage, fault: bool)

  predicate Possible(s: WriterState, e: CacheEvent) {
    e.Worker? ==> BatchWriter.Enabled(s, e.event)
  }

  function CacheStep(capacity: nat, faults: nat -> bool, s: WriterState, e: CacheEvent): WriterState
    requires Possible(s, e)
  {
    match e
    case Worker(event) => BatchWriter.Step(Configured(capacity, faults), s, event)
    case Lookup(room, fault) => s.(db := Filled(s.db, room, fault))
    case DirectSave(m, fault) => if fault then s else s.(db := s.db.(rows := InsertOrIgnore(s.db.rows, m)))
  }

  /** A lookup caches the table's largest index for a room that has one and no entry, and nothing otherwise. */
  lemma LookupCachesExactly(capacity: nat, faults: nat -> bool, s: WriterState, room: string, fault: bool)
    ensures var t := CacheStep(capacity, faults, s, Lookup(room, fault));
            && t == s.(db := t.db) && t.db.rows == s.db.rows
            && (room in s.db.lastIndex || fault || (forall x: int64 :: !Holds(s.db.rows, room, x)) ==> t == s)
            && forall x: uint64 :: room !in s.db.lastIndex && !fault && IsLatest(s.db.rows, room, Ok(x)) ==>
                 t.db.lastIndex == s.db.lastIndex[room := x]
  {
    forall x: uint64 | IsLatest(s.db.rows, room, Ok(x)) ensures LatestIndex(s.db.rows, room) == Ok(x) {
      LatestIndexIsUnique(s.db.rows, room, Ok(x));
    }
    LatestIndexIsUnique(s.db.rows, room, LatestIndex(s.db.rows, room));
  }

  ghost predicate CacheReaches(
    capacity: nat, faults: nat -> bool, s: WriterState, events: seq<CacheEvent>, t: WriterState)
    decreases |events|
  {
    if events == [] then s == t
    else
      && Possible(s, events[0])
      && CacheReaches(capacity, faults, CacheStep(capacity, faults, s, events[0]), events[1..], t)
  }

  // ---------- the cache never falls ----------

  predicate Grows(before: map<string, uint64>, after: map<string, uint64>, room: string) {
    room in before ==> room in after && before[room] <= after[room]
  }

  lemma {:induction false} FlushGrows(capacity: nat, faults: nat -> bool, s: WriterState, room: string)
    ensures Grows(s.db.lastIndex, BatchWriter.Flush(Configured(capacity, faults), s).db.lastIndex, room)
    decreases |s.batch|
  {
    if s.batch != [] {
      var next := BatchWriter.FlushOne(Configured(capacity, faults), s);
      assert Grows(s.db.lastIndex, next.db.lastIndex, room);
      FlushGrows(capacity, faults, next, room);
    }
  }

  lemma StepGrows(capacity: nat, faults: nat -> bool, s: WriterState, e: CacheEvent, room: string)
    requires Possible(s, e)
    ensures Grows(s.db.lastIndex, CacheStep(capacity, faults, s, e).db.lastIndex, room)
  {
    if e.Worker? {
      FlushGrows(capacity, faults, s, room);
      if s.queue != [] {
        FlushGrows(capacity, faults, s.(batch := s.batch + [s.queue[0]], queue := s.queue[1..]), room);
      }
    }
  }

  /** lastIndex[room] never decreases, whatever is enqueued, looked up or saved, and whatever fails. */
  lemma {:induction false} CacheNeverDecreases(
    capacity: nat, faults: nat -> bool, s: WriterState, events: seq<CacheEvent>, t: WriterState, room: string)
    requires CacheReaches(capacity, faults, s, events, t)
    ensures Grows(s.db.lastIndex, t.db.lastIndex, room)
    decreases |events|
  {
    if events != [] {
      StepGrows(capacity, faults, s, events[0], room);
      CacheNeverDecreases(capacity, faults, CacheStep(capacity, faults, s, events[0]), events[1..], t, room);
    }
  }

  /** Messages without a room name never get into the cache, and neither does any room without an index. */
  lemma {:induction false} FlushCachesOnlyNamed(capacity: nat, faults: nat -> bool, s: WriterState)
    ensures "" in BatchWriter.Flush(Configured(capacity, faults), s).db.lastIndex ==> "" in s.db.lastIndex
    decreases |s.batch|
  {
    if s.batch != [] {
      FlushCachesOnlyNamed(capacity, faults, BatchWriter.FlushOne(Configured(capacity, faults), s));
    }
  }

  /** However the run goes, only a lookup caches a room without a name. */
  lemma {:induction false} NamelessRoomIsNotCached(
    capacity: nat, faults: nat -> bool, s: WriterState, events: seq<CacheEvent>, t: WriterState)
    requires CacheReaches(capacity, faults, s, events, t) && "" !in s.db.lastIndex
    requires forall i :: 0 <= i < |events| && events[i].Lookup? ==> events[i].room != ""
    ensures "" !in t.db.lastIndex
    decreases |events|
  {
    if events != [] {
      var e := events[0];
      FlushCachesOnlyNamed(capacity, faults, s);
      if s.queue != [] {
        FlushCachesOnlyNamed(capacity, faults, s.(batch := s.batch + [s.queue[0]], queue := s.queue[1..]));
      }
      NamelessRoomIsNotCached(capacity, faults, CacheStep(capacity, faults, s, e), events[1..], t);
    }
  }

  // ---------- the cache against the table ----------

  /** Everything waiting to be written is well formed. */
  ghost predicate Pending(s: WriterState) {
    && (forall i :: 0 <= i < |s.batch| ==> WellFormed(s.batch[i]))
    && (forall i :: 0 <= i < |s.queue| ==> WellFormed(s.queue[i]))
  }

  /** Enqueued messages are well formed; directly saved ones have an index below 2^63, if they are stored. */
  predicate Tame(e: CacheEvent) {
    match e
    case Worker(event) => event.Enqueue? ==> WellFormed(event.request)
    case Lookup(_, _) => true
    case DirectSave(m, _) => Storable(m) && m.chainIndex.Some? ==> m.chainIndex.value < TWO_63
  }

  /** The cache is within the table; with `exact`, it is the table's largest index. */
  ghost predicate Agrees(db: HistoryDb, room: string, exact: bool) {
    Bounded(db, room) && InRange(db, room) && (exact ==> Matches(db, room))
  }

  lemma SaveAgrees(db: HistoryDb, m: StoredMessage, room: string, exact: bool)
    requires WellFormed(m) && Agrees(db, room, exact) && (exact ==> room != "")
    ensures Agrees(Save(db, m).value, room, exact)
  {
    SaveStaysBounded(db, m, room);
    if exact {
      SaveStillMatches(db, m, room);
    }
  }

  lemma {:induction false} FlushAgrees(
    capacity: nat, faults: nat -> bool, s: WriterState, room: string, exact: bool)
    requires forall i :: 0 <= i < |s.batch| ==> WellFormed(s.batch[i])
    requires Agrees(s.db, room, exact) && (exact ==> room != "")
    ensures Agrees(BatchWriter.Flush(Configured(capacity, faults), s).db, room, exact)
    decreases |s.batch|
  {
    if s.batch != [] {
      var next := BatchWriter.FlushOne(Configured(capacity, faults), s);
      SaveAgrees(s.db, s.batch[0], room, exact);
      assert next.db == s.db || next.db == Save(s.db, s.batch[0]).value;
      FlushAgrees(capacity, faults, next, room, exact);
    }
  }

  lemma WorkerAgrees(
    capacity: nat, faults: nat -> bool, s: WriterState, e: BatchWriter.Event<StoredMessage>, room: string, exact: bool)
    requires BatchWriter.Enabled(s, e) && Tame(Worker(e)) && Pending(s)
    requires Agrees(s.db, room, exact) && (exact ==> room != "")
    ensures var t := BatchWriter.Step(Configured(capacity, faults), s, e);
            Pending(t) && Agrees(t.db, room, exact)
  {
    var c := Configured(capacity, faults);
    if e.Receive? || e.DrainReceive? {
      var t := s.(batch := s.batch + [s.queue[0]], queue := s.queue[1..]);
      assert Pending(t);
      FlushAgrees(capacity, faults, t, room, exact);
      BatchWriter.FlushFrame(c, t);
    } else if e.Timer? || e.DrainDone? {
      FlushAgrees(capacity, faults, s, room, exact);
      BatchWriter.FlushFrame(c, s);
    }
  }

  lemma LookupAgrees(db: HistoryDb, lookedUp: string, fault: bool, room: string, exact: bool)
    requires Agrees(db, room, exact)
    ensures Agrees(Filled(db, lookedUp, fault), room, exact)
  {
  }

  lemma DirectSaveAgrees(db: HistoryDb, m: StoredMessage, room: string)
    requires Storable(m) && m.chainIndex.Some? ==> m.chainIndex.value < TWO_63
    requires Agrees(db, room, false)
    ensures Agrees(db.(rows := InsertOrIgnore(db.rows, m)), room, false)
  {
    LatestAfterInsert(db.rows, m, room);
  }

  lemma StepAgrees(
    capacity: nat, faults: nat -> bool, s: WriterState, e: CacheEvent, room: string, exact: bool)
    requires Possible(s, e) && Tame(e) && Pending(s)
    requires Agrees(s.db, room, exact) && (exact ==> room != "" && !e.DirectSave?)
    ensures Pending(CacheStep(capacity, faults, s, e))
    ensures Agrees(CacheStep(capacity, faults, s, e).db, room, exact)
  {
    match e
    case Worker(event) => WorkerAgrees(capacity, faults, s, event, room, exact);
    case Lookup(lookedUp, fault) => LookupAgrees(s.db, lookedUp, fault, room, exact);
    case DirectSave(m, _) => DirectSaveAgrees(s.db, m, room);
  }

  lemma {:induction false} RunAgrees(
    capacity: nat, faults: nat -> bool, s: WriterState, events: seq<CacheEvent>, t: WriterState, room: string,
    exact: bool)
    requires CacheReaches(capacity, faults, s, events, t) && Pending(s)
    requires forall i :: 0 <= i < |events| ==> Tame(events[i]) && (exact ==> !events[i].DirectSave?)
    requires Agrees(s.db, room, exact) && (exact ==> room != "")
    ensures Pending(t) && Agrees(t.db, room, exact)
    decreases |events|
  {
    if events != [] {
      StepAgrees(capacity, faults, s, events[0], room, exact);
      RunAgrees(capacity, faults, CacheStep(capacity, faults, s, events[0]), events[1..], t, room, exact);
    }
  }

  /** Over every interleaving, lastIndex[room] never exceeds the table's largest index of the room. */
  lemma CacheNeverExceedsTable(
    capacity: nat, faults: nat -> bool, db0: HistoryDb, events: seq<CacheEvent>, t: WriterState, room: string)
    requires CacheReaches(capacity, faults, BatchWriter.Initial(db0), events, t)
    requires forall i :: 0 <= i < |events| ==> Tame(events[i])
    requires Bounded(db0, room) && InRange(db0, room)
    ensures Bounded(t.db, room)
  {
    RunAgrees(capacity, faults, BatchWriter.Initial(db0), events, t, room, false);
  }

  /**
   * For a named room that starts empty and is written only through the worker, with any lookups in
   * between, the cache is exactly the table's largest index: absent when there is none.
   */
  lemma CacheEqualsTable(
    capacity: nat, faults: nat -> bool, db0: HistoryDb, events: seq<CacheEvent>, t: WriterState, room: string)
    requires CacheReaches(capacity, faults, BatchWriter.Initial(db0), events, t)
    requires forall i :: 0 <= i < |events| ==> Tame(events[i]) && !events[i].DirectSave?
    requires room != "" && room !in db0.lastIndex && LatestIndex(db0.rows, room).Err?
    ensures Matches(t.db, room)
  {
    RunAgrees(capacity, faults, BatchWriter.Initial(db0), events, t, room, true);
  }

  /** A direct save leaves the cache behind the table, and a lookup does not catch it up. */
  lemma CatchUpLeavesCacheBehind(room: string, m: StoredMessage)
    requires Storable(m) && m.body.roomID == room && m.chainIndex == Some(5)
    ensures var rows := [Row(1, Some(0), m.body)];
            var s := BatchWriter.Initial(HistoryDb(rows, map[room := 0]));
            var t := CacheStep(1, _ => false, CacheStep(1, _ => false, s, DirectSave(m, false)), Lookup(room, false));
            Matches(s.db, room) && t.db.lastIndex[room] == 0 && LatestIndex(t.db.rows, room) == Ok(5)
  {
    var rows := [Row(1, Some(0), m.body)];
    assert LatestChain(rows, room) == Some(0) by {
      assert rows[..0] == [];
    }
    assert !Holds(rows, room, 5);
    LatestAfterInsert(rows, m, room);
  }
}
