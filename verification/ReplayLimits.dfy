/**
 * The two queries against their documentation, and how far a replay that is limited to the first
 * rows brings the lead: exactly when it is past everything stored, and what the next send meets
 * when it is not.
 */
module ReplayLimits {
  import opened MachineInts
  import opened Ratchets
  import opened Windows
  import opened Sessions
  import opened Tables
  import opened CatchUpCodec
  import opened CatchUp
  import opened Chat
  import opened Join
  import opened EndToEnd
  import Paging

  // ---------- the queries ----------

  function Last<T>(s: seq<T>, limit: nat): seq<T> {
    if |s| <= limit then s else s[|s| - limit..]
  }

  /** The latest messages of a room are what GetLatestMessages returns exactly when they are all of it. */
  lemma LatestAreReturnedExactly(rows: seq<Row>, room: string, limit: nat)
    requires Consistent(rows) && limit > 0
    ensures LatestMessages(rows, room, limit) == ScannedAll(Last(Select(rows, InRoom(room)), limit))
            <==> |Select(rows, InRoom(room))| <= limit
  {
    var all := Select(rows, InRoom(room));
    if |all| > limit {
      var first, last := ScannedAll(First(all, limit)), ScannedAll(Last(all, limit));
      SelectedOnce(rows, InRoom(room), 0, |all| - limit);
      assert first[0] == Scanned(all[0]) && last[0] == Scanned(all[|all| - limit]);
    }
  }

  /** The documented condition of GetMessagesSinceChainIndex. */
  function ChainedAfter(room: string, since: int64): Row -> bool {
    (r: Row) => r.body.roomID == room && r.chain.Some? && r.chain.value > since
  }

  /** What a query without limit, or with a positive one, takes of its rows. */
  function Limited(rows: seq<Row>, limit: int): seq<Row> {
    if limit <= 0 then rows else First(rows, limit)
  }

  lemma FirstOfQuery(rows: seq<Row>, wanted: Row -> bool)
    requires Select(rows, wanted) != []
    ensures Select(rows, wanted)[0] in rows && wanted(Select(rows, wanted)[0])
  {
    assert Select(rows, wanted)[0] in Select(rows, wanted);
    SelectMembers(rows, wanted, Select(rows, wanted)[0]);
  }

  /** A row at the index asked from comes first. */
  lemma AskedIndexComesFirst(rows: seq<Row>, room: string, from: int64)
    requires Holds(rows, room, from)
    ensures var selected := Select(rows, ChainedSince(room, from));
            selected != [] && selected[0].chain == Some(from)
  {
    var selected := Select(rows, ChainedSince(room, from));
    var i :| 0 <= i < |rows| && rows[i].body.roomID == room && rows[i].chain == Some(from);
    SelectMembers(rows, ChainedSince(room, from), rows[i]);
    assert Ordered(selected) by {
      SelectIsCorrect(rows, ChainedSince(room, from));
    }
    FirstOfQuery(rows, ChainedSince(room, from));
  }

  /** The query selects `>=`; that is the documented `>` exactly when the room has no row at that index. */
  lemma SinceIsAfterExactly(rows: seq<Row>, room: string, since: uint64, limit: int)
    ensures MessagesSince(rows, room, since, limit)
            == ScannedAll(Limited(Select(rows, ChainedAfter(room, ToInt64(since))), limit))
            <==> !Holds(rows, room, ToInt64(since))
  {
    var from := ToInt64(since);
    if Holds(rows, room, from) {
      var documented := Limited(Select(rows, ChainedAfter(room, from)), limit);
      AskedIndexComesFirst(rows, room, from);
      assert MessagesSince(rows, room, since, limit)[0].chainIndex == Some(since);
      if documented != [] {
        FirstOfQuery(rows, ChainedAfter(room, from));
        assert ScannedAll(documented)[0].chainIndex != Some(since);
      }
    } else {
      forall r | r in rows ensures ChainedSince(room, from)(r) == ChainedAfter(room, from)(r) {
        var i :| 0 <= i < |rows| && rows[i] == r;
      }
      SelectAgrees(rows, ChainedSince(room, from), ChainedAfter(room, from));
    }
  }

  // ---------- where the lead ends up ----------

  /** The lead is past every index the table has for the room. */
  ghost predicate PastTable(w: Window, rows: seq<Row>, room: string) {
    forall x: int64 :: Holds(rows, room, x) ==> x < w.high
  }

  /** The window after replaying the first `limit` rows from a fresh pair of ratchets. */
  function Replayed(origin: Origin, rows: seq<Row>, room: string, limit: nat): Window {
    WindowAfter(Fresh(origin.start), LatestMessages(rows, room, limit))
  }

  ghost predicate HasChain(all: seq<Row>, x: int64) {
    exists i :: 0 <= i < |all| && all[i].chain == Some(x)
  }

  lemma RoomHasChain(rows: seq<Row>, room: string, x: int64)
    ensures Holds(rows, room, x) <==> HasChain(Select(rows, InRoom(room)), x)
  {
    var all := Select(rows, InRoom(room));
    if Holds(rows, room, x) {
      var i :| 0 <= i < |rows| && rows[i].body.roomID == room && rows[i].chain == Some(x);
      SelectMembers(rows, InRoom(room), rows[i]);
    }
    if HasChain(all, x) {
      var i :| 0 <= i < |all| && all[i].chain == Some(x);
      assert all[i] in all;
      SelectMembers(rows, InRoom(room), all[i]);
    }
  }

  lemma RoomIsOrdered(p: Primitives, c: Codecs, origin: Origin, room: string, rows: seq<Row>)
    requires Consistent(rows) && ReadableTable(p, c, origin, room, rows)
    ensures StrictlyChained(Select(rows, InRoom(room)))
  {
    LatestIsReadableRun(p, c, origin, room, rows, 0);
    ChainedRowsIncrease(rows, room, 0);
  }

  /** A row of a readable table's room. */
  lemma RoomRowAt(p: Primitives, c: Codecs, origin: Origin, room: string, rows: seq<Row>, i: nat)
    requires ReadableTable(p, c, origin, room, rows) && i < |Select(rows, InRoom(room))|
    ensures var r := Select(rows, InRoom(room))[i];
            r in rows && Readable(p, c, origin, Scanned(r)) && r.chain.Some? && origin.start <= r.chain.value
  {
    SelectMembers(rows, InRoom(room), Select(rows, InRoom(room))[i]);
    assert Readable(p, c, origin, Scanned(Select(rows, InRoom(room))[i]));
  }

  /** Where the lead stands after the rows `all` of a room have been replayed up to a limit. */
  function LeadAfter(origin: Origin, all: seq<Row>, limit: nat): int
    requires StrictlyChained(all)
  {
    if all == [] || limit == 0 then origin.start
    else if |all| <= limit then all[|all| - 1].chain.value + 1
    else all[limit - 1].chain.value + 1
  }

  /** The last of the messages returned. */
  lemma LastReturned(rows: seq<Row>, room: string, limit: nat)
    ensures var all, msgs := Select(rows, InRoom(room)), LatestMessages(rows, room, limit);
            && |msgs| == (if |all| <= limit then |all| else limit)
            && (msgs != [] ==> msgs[|msgs| - 1] == Scanned(all[|msgs| - 1]))
  {
  }

  lemma ReplayedLead(p: Primitives, c: Codecs, origin: Origin, room: string, rows: seq<Row>, limit: nat)
    requires Consistent(rows) && ReadableTable(p, c, origin, room, rows)
    ensures StrictlyChained(Select(rows, InRoom(room)))
    ensures Replayed(origin, rows, room, limit).high == LeadAfter(origin, Select(rows, InRoom(room)), limit)
  {
    var k := |LatestMessages(rows, room, limit)|;
    RoomIsOrdered(p, c, origin, room, rows);
    LastReturned(rows, room, limit);
    if k > 0 {
      RoomRowAt(p, c, origin, room, rows, k - 1);
    }
  }

  /** A replay brings the lead past everything stored exactly when the limit does not cut it short. */
  lemma LeadIsPastTableExactly(p: Primitives, c: Codecs, origin: Origin, room: string, rows: seq<Row>, limit: nat)
    requires Consistent(rows) && ReadableTable(p, c, origin, room, rows) && limit > 0
    ensures PastTable(Replayed(origin, rows, room, limit), rows, room) <==> |Select(rows, InRoom(room))| <= limit
  {
    var all, w := Select(rows, InRoom(room)), Replayed(origin, rows, room, limit);
    ReplayedLead(p, c, origin, room, rows, limit);
    if |all| > limit {
      var x := all[limit].chain.value;
      assert HasChain(all, x) && x >= w.high;
      RoomHasChain(rows, room, x);
    } else {
      forall x: int64 | Holds(rows, room, x) ensures x < w.high {
        RoomHasChain(rows, room, x);
      }
    }
  }

  // ---------- the next send ----------

  lemma SaidIsDropped(
    p: Primitives, c: Codecs, origin: Origin, here: Location, rows: seq<Row>, w: Window, e: ChatEvent)
    requires e.Say? && origin.start <= w.high < TWO_64
    ensures var m := Said(p, c, origin, here, w, e);
            && m.chainIndex == Some(w.high)
            && m.body.payload == Some(c.printChat(ChatMessage(w.high, p.seal(KeyAt(p, origin, w.high), e.text))))
            && (InsertOrIgnore(rows, m) == rows <==> Holds(rows, here.roomID, ToInt64(w.high)))
  {
  }

  /** The index of the first row that the replay leaves out is the one right behind those it covers. */
  predicate CutInside(rows: seq<Row>, room: string, limit: nat) {
    var all := Select(rows, InRoom(room));
    && 0 < limit < |all|
    && all[limit - 1].chain.Some? && all[limit].chain.Some?
    && all[limit].chain.value == all[limit - 1].chain.value + 1
  }

  /** The stored message carries this index and opens under its key. */
  predicate OpensAt(p: Primitives, c: Codecs, origin: Origin, m: StoredMessage, index: nat)
    requires origin.start <= index
  {
    && m.chainIndex == Some(index) && ParsedChat(c, m.body.payload).Value?
    && p.open(KeyAt(p, origin, index), ParsedChat(c, m.body.payload).value.ciphertext).Some?
  }

  /** The first row that a replay cut inside leaves out: its message opens under the key of the lead's index. */
  lemma CutRowOpensAtLead(p: Primitives, c: Codecs, origin: Origin, room: string, rows: seq<Row>, limit: nat)
    requires Consistent(rows) && ReadableTable(p, c, origin, room, rows) && CutInside(rows, room, limit)
    ensures var r, lead := Select(rows, InRoom(room))[limit], Replayed(origin, rows, room, limit).high;
            && r in rows && origin.start <= lead && OpensAt(p, c, origin, Scanned(r), lead)
  {
    ReplayedLead(p, c, origin, room, rows, limit);
    RoomRowAt(p, c, origin, room, rows, limit - 1);
    RoomRowAt(p, c, origin, room, rows, limit);
  }

  /**
   * After a replay of the first `limit` rows the next send is dropped by the table, as a second message
   * with a stored index, exactly when the first row left out is adjacent to the last one covered. It
   * is then sealed under the key and nonce with which that row's message opens.
   */
  lemma NextSendIsDroppedExactly(
    p: Primitives, c: Codecs, origin: Origin, here: Location, rows: seq<Row>, limit: nat, e: ChatEvent)
    requires Consistent(rows) && ReadableTable(p, c, origin, here.roomID, rows) && limit > 0
    requires e.Say?
    ensures origin.start <= Replayed(origin, rows, here.roomID, limit).high < TWO_64
    ensures var w := Replayed(origin, rows, here.roomID, limit);
            var m := Said(p, c, origin, here, w, e);
            && (InsertOrIgnore(rows, m) == rows <==> CutInside(rows, here.roomID, limit))
            && (CutInside(rows, here.roomID, limit) ==>
                  var r := Select(rows, InRoom(here.roomID))[limit];
                  r in rows && OpensAt(p, c, origin, Scanned(r), w.high))
            && m.chainIndex == Some(w.high)
            && m.body.payload == Some(c.printChat(ChatMessage(w.high, p.seal(KeyAt(p, origin, w.high), e.text))))
  {
    var all, w := Select(rows, InRoom(here.roomID)), Replayed(origin, rows, here.roomID, limit);
    ReplayedLead(p, c, origin, here.roomID, rows, limit);
    forall i | 0 <= i < |all| ensures origin.start <= all[i].chain.value {
      RoomRowAt(p, c, origin, here.roomID, rows, i);
    }
    LeadIsHeldExactly(origin, here.roomID, rows, limit, all);
    SaidIsDropped(p, c, origin, here, rows, w, e);
    if CutInside(rows, here.roomID, limit) {
      CutRowOpensAtLead(p, c, origin, here.roomID, rows, limit);
    }
  }

  lemma LeadIsHeldExactly(origin: Origin, room: string, rows: seq<Row>, limit: nat, all: seq<Row>)
    requires all == Select(rows, InRoom(room)) && StrictlyChained(all) && limit > 0
    requires forall i :: 0 <= i < |all| ==> origin.start <= all[i].chain.value
    ensures var lead := LeadAfter(origin, all, limit);
            && origin.start <= lead < TWO_64
            && (Holds(rows, room, ToInt64(lead)) <==> CutInside(rows, room, limit))
  {
    assert all != [] ==> origin.start <= all[(if |all| <= limit then |all| else limit) - 1].chain.value;
    var x := ToInt64(LeadAfter(origin, all, limit));
    RoomHasChain(rows, room, x);
    if CutInside(rows, room, limit) {
      assert all[limit].chain == Some(x);
    }
    if HasChain(all, x) {
      var i :| 0 <= i < |all| && all[i].chain == Some(x);
      assert |all| > limit ==> i == limit;
    }
  }

  // ---------- joiners ----------

  /**
   * A first join that goes through leaves the newcomer past everything in the answering member's
   * table if and only if the room has at most 100 rows there. What it sends next is a second message
   * under a stored index, and lost in that table, exactly if the 101st stored index is adjacent to the
   * 100th.
   */
  lemma NewcomerIsCaughtUpExactly(
    p: Primitives, c: Codecs, v: Verifier, key: Bytes, here: Location, theirs: seq<Row>, mine: seq<Row>,
    peers: map<string, User>, arrivals: nat -> Arrival, attempt: nat, at: nat -> Conditions, faults: nat -> bool,
    e: ChatEvent)
    requires c.Lawful() && Consistent(theirs) && Consistent(mine) && NoRowsOf(here.roomID, mine)
    requires c.Frameable(MessagesSince(theirs, here.roomID, 0, HELP_LIMIT))
    requires ReadableTable(p, c, Origin(0, key), here.roomID, theirs)
    requires forall k: nat :: !at(k).writeFails
    requires attempt < 5 && arrivals(attempt) == Response(Answer(c, theirs, here.roomID, key))
    requires forall k :: 0 <= k < attempt ==> arrivals(k) == Timeout
    requires e.Say?
    ensures var r := Joining(p, c, v, here.roomID, peers, mine, NoRows, arrivals, at, false, faults);
            r.outcome == Joined ==>
              && r.standing.Some? && r.standing.value.origin == Origin(0, key)
              && var w := r.standing.value.window;
                 && (PastTable(w, theirs, here.roomID) <==> |Select(theirs, InRoom(here.roomID))| <= 100)
                 && (InsertOrIgnore(theirs, Said(p, c, Origin(0, key), here, w, e)) == theirs
                     <==> CutInside(theirs, here.roomID, 100))
  {
    FirstJoinShowsTheirHistory(p, c, v, key, here.roomID, theirs, mine, peers, arrivals, attempt, at, faults);
    LeadIsPastTableExactly(p, c, Origin(0, key), here.roomID, theirs, HELP_LIMIT);
    NextSendIsDroppedExactly(p, c, Origin(0, key), here, theirs, HELP_LIMIT, e);
  }

  /** A later join that goes through likewise, about one's own table and its first 200 rows. */
  lemma RejoinerIsCaughtUpExactly(
    p: Primitives, c: Codecs, v: Verifier, origin: Origin, here: Location, rows: seq<Row>, peers: map<string, User>,
    arrivals: nat -> Arrival, at: nat -> Conditions, faults: nat -> bool, e: ChatEvent)
    requires Consistent(rows) && ReadableTable(p, c, origin, here.roomID, rows) && e.Say?
    ensures var auth := Found(origin.start, origin.master);
            var r := Joining(p, c, v, here.roomID, peers, rows, auth, arrivals, at, false, faults);
            r.outcome == Joined ==>
              && r.standing.Some? && r.standing.value.origin == origin && OnChain(origin, r.standing.value.window)
              && var w := r.standing.value.window;
                 && (PastTable(w, rows, here.roomID) <==> |Select(rows, InRoom(here.roomID))| <= 200)
                 && (InsertOrIgnore(rows, Said(p, c, origin, here, w, e)) == rows
                     <==> CutInside(rows, here.roomID, 200))
  {
    LaterJoinShowsOwnHistory(p, c, v, origin, here.roomID, rows, peers, arrivals, at, faults);
    LeadIsPastTableExactly(p, c, origin, here.roomID, rows, REPLAY_LIMIT);
    NextSendIsDroppedExactly(p, c, origin, here, rows, REPLAY_LIMIT, e);
  }

  // ---------- an instance ----------

  /** The row of the message with index `i` in a room where everything was stored. */
  function SpokenRow(p: Primitives, c: Codecs, key: Bytes, here: Location, i: nat): Row
    requires i < TWO_63
  {
    Row(i + 1, Some(i),
        Body(here.roomID, here.serverID, MSG_TYPE_CHAT, "", 0, Some([]),
             Some(c.printChat(ChatMessage(i, p.seal(KeyAt(p, Origin(0, key), i), []))))))
  }

  /** A room in which the indices 0 to n - 1 are stored. */
  function SpokenRoom(p: Primitives, c: Codecs, key: Bytes, here: Location, n: nat): seq<Row>
    requires n <= TWO_63
  {
    seq(n, i requires 0 <= i < n => SpokenRow(p, c, key, here, i))
  }

  lemma SpokenRowIsReadable(p: Primitives, c: Codecs, key: Bytes, here: Location, i: nat)
    requires p.Lawful() && c.Lawful() && i < TWO_63
    ensures Readable(p, c, Origin(0, key), Scanned(SpokenRow(p, c, key, here, i)))
  {
    var cm := ChatMessage(i, p.seal(KeyAt(p, Origin(0, key), i), []));
    assert c.parseChat(c.printChat(cm)) == Value(cm);
    assert p.open(KeyAt(p, Origin(0, key), i), cm.ciphertext) == Some([]);
  }

  /** In a table that holds one room in chain order, the query returns the table. */
  lemma OrderedRoomIsSelected(p: Primitives, c: Codecs, origin: Origin, room: string, rows: seq<Row>)
    requires Consistent(rows) && StrictlyChained(rows) && forall r :: r in rows ==> r.body.roomID == room
    requires ReadableTable(p, c, origin, room, rows)
    ensures Select(rows, InRoom(room)) == rows
  {
    RoomIsOrdered(p, c, origin, room, rows);
    forall r ensures r in Select(rows, InRoom(room)) <==> r in rows {
      SelectMembers(rows, InRoom(room), r);
    }
    Paging.SameRowsSameList(Select(rows, InRoom(room)), rows);
  }

  lemma SpokenRoomIsOrdered(p: Primitives, c: Codecs, key: Bytes, here: Location, n: nat)
    requires n <= TWO_63
    ensures Consistent(SpokenRoom(p, c, key, here, n)) && StrictlyChained(SpokenRoom(p, c, key, here, n))
    ensures forall r :: r in SpokenRoom(p, c, key, here, n) ==> r.body.roomID == here.roomID
  {
  }

  lemma SpokenRoomIsReadable(p: Primitives, c: Codecs, key: Bytes, here: Location, n: nat)
    requires p.Lawful() && c.Lawful() && n <= TWO_63
    ensures Consistent(SpokenRoom(p, c, key, here, n))
    ensures ReadableTable(p, c, Origin(0, key), here.roomID, SpokenRoom(p, c, key, here, n))
    ensures Select(SpokenRoom(p, c, key, here, n), InRoom(here.roomID)) == SpokenRoom(p, c, key, here, n)
  {
    var rows := SpokenRoom(p, c, key, here, n);
    SpokenRoomIsOrdered(p, c, key, here, n);
    forall r | r in rows ensures Readable(p, c, Origin(0, key), Scanned(r)) {
      var i :| 0 <= i < n && rows[i] == r;
      SpokenRowIsReadable(p, c, key, here, i);
    }
    OrderedRoomIsSelected(p, c, Origin(0, key), here.roomID, rows);
  }

  /**
   * The failing input: with more than `limit` consecutive messages stored, the replay of the first
   * `limit` leaves the lead at a stored index, and the next send is dropped.
   */
  lemma LongRoomsAreCutShort(
    p: Primitives, c: Codecs, key: Bytes, here: Location, n: nat, limit: nat, e: ChatEvent)
    requires p.Lawful() && c.Lawful() && 0 < limit < n <= TWO_63 && e.Say?
    ensures var rows := SpokenRoom(p, c, key, here, n);
            var w := Replayed(Origin(0, key), rows, here.roomID, limit);
            && Consistent(rows) && ReadableTable(p, c, Origin(0, key), here.roomID, rows)
            && w.high == limit && Holds(rows, here.roomID, w.high) && !PastTable(w, rows, here.roomID)
            && InsertOrIgnore(rows, Said(p, c, Origin(0, key), here, w, e)) == rows
  {
    var rows := SpokenRoom(p, c, key, here, n);
    SpokenRoomIsReadable(p, c, key, here, n);
    ReplayedLead(p, c, Origin(0, key), here.roomID, rows, limit);
    LeadIsPastTableExactly(p, c, Origin(0, key), here.roomID, rows, limit);
    NextSendIsDroppedExactly(p, c, Origin(0, key), here, rows, limit, e);
    assert rows[limit].chain == Some(limit);
  }
}
