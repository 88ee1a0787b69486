/**
 * The read-write lock around lastIndex (history.go:166-190). GetLastIndex calls setLastIndex, which
 * takes the lock for writing, while it still holds it for reading; this is what comes of that.
 *
 * Any number of goroutines take any number of steps. As the documentation of sync.RWMutex has it, a
 * writer waits until no reader is left, and a reader does not get in beside a writer, nor while a
 * writer waits for readers.
 */
module CacheLock {
  import opened MachineInts
  import opened Tables
  import opened History

  /** Away: neither holds the lock nor waits for it. `inside`: waiting to write with the read lock held. */
  datatype Goroutine =
    | Away
    | Looking(room: string)
    | Waiting(room: string, index: uint64, inside: bool)
    | Writing(room: string, index: uint64)
  {
    predicate Reads() {
      Looking? || (Waiting? && inside)
    }
  }

  datatype Locked = Locked(goroutines: seq<Goroutine>, db: HistoryDb)
  {
    predicate NoReader() {
      forall i :: 0 <= i < |goroutines| ==> !goroutines[i].Reads()
    }

    predicate NoneWaits() {
      forall i :: 0 <= i < |goroutines| ==> !goroutines[i].Waiting?
    }

    predicate NoWriter() {
      forall i :: 0 <= i < |goroutines| ==> !goroutines[i].Writing?
    }
  }

  /**
   * Lookup and Answer are the two halves of GetLastIndex, Update, Acquire and Assign the three parts
   * of setLastIndex; SaveRow is a SaveEnvelope, which takes no lock.
   */
  datatype LockEvent =
    | Lookup(who: nat, room: string)
    | Answer(who: nat, fault: bool)
    | Update(who: nat, room: string, index: uint64)
    | Acquire(who: nat)
    | Assign(who: nat)
    | SaveRow(message: StoredMessage)

  predicate Granted(s: Locked, e: LockEvent) {
    match e
    case Lookup(i, _) => i < |s.goroutines| && s.goroutines[i].Away? && s.NoWriter() && (s.NoReader() || s.NoneWaits())
    case Answer(i, _) => i < |s.goroutines| && s.goroutines[i].Looking?
    case Update(i, _, _) => i < |s.goroutines| && s.goroutines[i].Away?
    case Acquire(i) => i < |s.goroutines| && s.goroutines[i].Waiting? && s.NoWriter() && s.NoReader()
    case Assign(i) => i < |s.goroutines| && s.goroutines[i].Writing?
    case SaveRow(_) => true
  }

  /** GetLastIndex has to fill the cache. */
  predicate Fills(db: HistoryDb, room: string, fault: bool) {
    room !in db.lastIndex && !fault && LatestIndex(db.rows, room).Ok?
  }

  function LockStep(s: Locked, e: LockEvent): Locked
    requires Granted(s, e)
  {
    match e
    case Lookup(i, room) => s.(goroutines := s.goroutines[i := Looking(room)])
    case Answer(i, fault) =>
      var room := s.goroutines[i].room;
      s.(goroutines := s.goroutines[i := if Fills(s.db, room, fault)
                                         then Waiting(room, LatestIndex(s.db.rows, room).value, true)
                                         else Away])
    case Update(i, room, index) => s.(goroutines := s.goroutines[i := Waiting(room, index, false)])
    case Acquire(i) =>
      s.(goroutines := s.goroutines[i := Writing(s.goroutines[i].room, s.goroutines[i].index)])
    case Assign(i) =>
      Locked(s.goroutines[i := Away],
             s.db.(lastIndex := SetLast(s.db.lastIndex, s.goroutines[i].room, s.goroutines[i].index)))
    case SaveRow(m) => s.(db := s.db.(rows := InsertOrIgnore(s.db.rows, m)))
  }

  ghost predicate LockReaches(s: Locked, events: seq<LockEvent>, t: Locked)
    decreases |events|
  {
    if events == [] then s == t
    else Granted(s, events[0]) && LockReaches(LockStep(s, events[0]), events[1..], t)
  }

  // ---------- mutual exclusion ----------

  /** A writer is alone: no reader and no second writer. */
  ghost predicate Exclusive(s: Locked) {
    forall i, j :: 0 <= i < |s.goroutines| && 0 <= j < |s.goroutines| && s.goroutines[i].Writing? ==>
      !s.goroutines[j].Reads() && (s.goroutines[j].Writing? ==> i == j)
  }

  lemma {:induction false} RunsStayExclusive(s: Locked, events: seq<LockEvent>, t: Locked)
    requires Exclusive(s) && LockReaches(s, events, t)
    ensures Exclusive(t)
    decreases |events|
  {
    if events != [] {
      RunsStayExclusive(LockStep(s, events[0]), events[1..], t);
    }
  }

  // ---------- a filling lookup ----------

  ghost predicate Stuck(s: Locked, i: nat) {
    i < |s.goroutines| && s.goroutines[i].Waiting? && s.goroutines[i].inside
  }

  /** What is left to happen: nobody gets in, nobody who waits gets on, and the cache stays as it is. */
  ghost predicate Frozen(s: Locked, t: Locked) {
    && t.db.lastIndex == s.db.lastIndex
    && |t.goroutines| == |s.goroutines|
    && forall j :: 0 <= j < |s.goroutines| ==>
         && (s.goroutines[j].Waiting? ==> t.goroutines[j] == s.goroutines[j])
         && (s.goroutines[j].Away? ==> t.goroutines[j].Away? || t.goroutines[j].Waiting?)
         && (t.goroutines[j].Looking? ==> t.goroutines[j] == s.goroutines[j])
  }

  lemma StuckStepIsFrozen(s: Locked, i: nat, e: LockEvent)
    requires Exclusive(s) && Stuck(s, i) && Granted(s, e)
    ensures Stuck(LockStep(s, e), i) && Exclusive(LockStep(s, e)) && Frozen(s, LockStep(s, e))
  {
    assert s.goroutines[i].Reads();
  }

  /**
   * A lookup that has to fill the cache waits for its own read lock: it never returns, no update of
   * the cache, the worker's included, is ever carried out again, and no later lookup begins.
   */
  lemma {:induction false} FillFreezesCache(s: Locked, i: nat, events: seq<LockEvent>, t: Locked)
    requires Exclusive(s) && Stuck(s, i) && LockReaches(s, events, t)
    ensures Stuck(t, i) && Frozen(s, t)
    decreases |events|
  {
    if events != [] {
      StuckStepIsFrozen(s, i, events[0]);
      FillFreezesCache(LockStep(s, events[0]), i, events[1..], t);
    }
  }

  /** While nobody reads or writes, an update goes through and sets the room's entry to the larger index. */
  lemma UpdateGoesThrough(s: Locked, i: nat, room: string, index: uint64) returns (t: Locked)
    requires i < |s.goroutines| && s.goroutines[i].Away? && s.NoReader() && s.NoWriter()
    ensures LockReaches(s, [Update(i, room, index), Acquire(i), Assign(i)], t)
    ensures t.goroutines == s.goroutines && t.db.rows == s.db.rows
    ensures room in t.db.lastIndex
    ensures t.db.lastIndex[room] == if room in s.db.lastIndex then Max(s.db.lastIndex[room], index) else index
    ensures forall other :: other != room ==>
              && (other in t.db.lastIndex <==> other in s.db.lastIndex)
              && (other in s.db.lastIndex ==> t.db.lastIndex[other] == s.db.lastIndex[other])
  {
    var waiting := LockStep(s, Update(i, room, index));
    var writing := LockStep(waiting, Acquire(i));
    t := LockStep(writing, Assign(i));
    assert LockReaches(writing, [Assign(i)], t);
    assert [Acquire(i), Assign(i)][1..] == [Assign(i)];
    assert LockReaches(waiting, [Acquire(i), Assign(i)], t);
    assert [Update(i, room, index), Acquire(i), Assign(i)][1..] == [Acquire(i), Assign(i)];
  }

  ghost predicate CanReturn(s: Locked, i: nat) {
    exists events, t :: LockReaches(s, events, t) && i < |t.goroutines| && t.goroutines[i].Away?
  }

  /**
   * In every reachable state, a lookup that has reached the cache returns if and only if it does not
   * have to fill it: the room is cached, the query fails, or the table has no index for it.
   */
  lemma LookupReturnsExactly(
    db0: HistoryDb, n: nat, events: seq<LockEvent>, s: Locked, i: nat, fault: bool)
    requires LockReaches(Locked(seq(n, _ => Away), db0), events, s)
    requires i < |s.goroutines| && s.goroutines[i].Looking?
    ensures CanReturn(LockStep(s, Answer(i, fault)), i) <==> !Fills(s.db, s.goroutines[i].room, fault)
  {
    RunsStayExclusive(Locked(seq(n, _ => Away), db0), events, s);
    var t := LockStep(s, Answer(i, fault));
    if Fills(s.db, s.goroutines[i].room, fault) {
      assert Stuck(t, i) && Exclusive(t);
      if CanReturn(t, i) {
        var more, u :| LockReaches(t, more, u) && i < |u.goroutines| && u.goroutines[i].Away?;
        FillFreezesCache(t, i, more, u);
      }
    } else {
      assert LockReaches(t, [], t);
    }
  }

  /**
   * The failing input: a program that starts on a table with an index for the room, as after any
   * earlier session, and asks for it before its worker has written there.
   */
  lemma FirstLookupAfterRestartFreezes(rows: seq<Row>, room: string, n: nat, more: seq<LockEvent>, u: Locked)
    requires n > 0 && LatestIndex(rows, room).Ok?
    requires var start := Locked(seq(n, _ => Away), HistoryDb(rows, map[]));
             LockReaches(start, [Lookup(0, room), Answer(0, false)] + more, u)
    ensures Stuck(u, 0) && u.db.lastIndex == map[]
  {
    var start := Locked(seq(n, _ => Away), HistoryDb(rows, map[]));
    var events := [Lookup(0, room), Answer(0, false)] + more;
    var looking := LockStep(start, Lookup(0, room));
    var waiting := LockStep(looking, Answer(0, false));
    assert events[1..] == [Answer(0, false)] + more && events[1..][1..] == more;
    assert LockReaches(looking, events[1..], u) && LockReaches(waiting, more, u);
    FillFreezesCache(waiting, 0, more, u);
  }
}
