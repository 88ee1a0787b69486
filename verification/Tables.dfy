/**
 * internal/storage: the messages and peers tables (storage.go), with the SQL statements of
 * history.go and peer_manager.go replaced by what they mean on rows.
 */
module Tables {
  import opened MachineInts

  /** A nil byte slice is None: it is bound as NULL. */
  datatype Body = Body(
    roomID: string, serverID: string, msgType: string, senderID: string,
    timestamp: int64, signature: Option<Bytes>, payload: Option<Bytes>)

  datatype StoredMessage = StoredMessage(id: nat, chainIndex: Option<uint64>, body: Body)

  /** A row of the messages table; `chain` is the signed column. */
  datatype Row = Row(id: nat, chain: Option<int64>, body: Body)

  function Column(chainIndex: Option<uint64>): Option<int64> {
    match chainIndex
    case None => None
    case Some(u) => Some(ToInt64(u))
  }

  /** rows.Scan and the conversions after it. */
  function Scanned(r: Row): StoredMessage {
    StoredMessage(r.id, match r.chain case None => None case Some(i) => Some(ToUint64(i)), r.body)
  }

  function ScannedAll(rows: seq<Row>): seq<StoredMessage> {
    seq(|rows|, i requires 0 <= i < |rows| => Scanned(rows[i]))
  }

  // ---------- INSERT OR IGNORE ----------

  /** The NOT NULL columns that a caller can leave NULL. */
  predicate Storable(m: StoredMessage) {
    m.body.signature.Some? && m.body.payload.Some?
  }

  /** Some row of this room already has this chain index. */
  predicate Holds(rows: seq<Row>, room: string, chain: int64) {
    exists i :: 0 <= i < |rows| && rows[i].body.roomID == room && rows[i].chain == Some(chain)
  }

  predicate Conflicts(rows: seq<Row>, m: StoredMessage) {
    m.chainIndex.Some? && Holds(rows, m.body.roomID, ToInt64(m.chainIndex.value))
  }

  predicate Inserts(rows: seq<Row>, m: StoredMessage) {
    Storable(m) && !Conflicts(rows, m)
  }

  /** AUTOINCREMENT; an ignored insert may use up ids as well, so tables may start with gaps. */
  function NextId(rows: seq<Row>): nat {
    if rows == [] then 1 else rows[|rows| - 1].id + 1
  }

  function NewRow(rows: seq<Row>, m: StoredMessage): Row {
    Row(NextId(rows), Column(m.chainIndex), m.body)
  }

  function InsertOrIgnore(rows: seq<Row>, m: StoredMessage): seq<Row> {
    if Inserts(rows, m) then rows + [NewRow(rows, m)] else rows
  }

  function InsertAll(rows: seq<Row>, msgs: seq<StoredMessage>): seq<Row> {
    if msgs == [] then rows
    else InsertOrIgnore(InsertAll(rows, msgs[..|msgs| - 1]), msgs[|msgs| - 1])
  }

  ghost predicate IdsIncrease(rows: seq<Row>) {
    forall i, j :: 0 <= i < j < |rows| ==> rows[i].id < rows[j].id
  }

  /** uq_room_chain, NOT NULL, and ids that grow in order of insertion. */
  ghost predicate Consistent(rows: seq<Row>) {
    && IdsIncrease(rows)
    && (forall i :: 0 <= i < |rows| ==> rows[i].body.signature.Some? && rows[i].body.payload.Some?)
    && (forall i, j :: 0 <= i < j < |rows| && rows[i].body.roomID == rows[j].body.roomID && rows[i].chain.Some?
                       ==> rows[i].chain != rows[j].chain)
  }

  lemma InsertKeepsConsistent(rows: seq<Row>, m: StoredMessage)
    requires Consistent(rows)
    ensures Consistent(InsertOrIgnore(rows, m))
  {
    var after := InsertOrIgnore(rows, m);
    forall i, j | 0 <= i < j < |after| && after[i].body.roomID == after[j].body.roomID && after[i].chain.Some?
      ensures after[i].chain != after[j].chain
    {
      assert after[i] == rows[i];
    }
  }

  // ---------- merging a list of messages ----------

  lemma {:induction false} InsertAllKeepsRows(rows: seq<Row>, msgs: seq<StoredMessage>)
    requires Consistent(rows)
    ensures rows <= InsertAll(rows, msgs)
    ensures Consistent(InsertAll(rows, msgs))
  {
    if msgs != [] {
      InsertAllKeepsRows(rows, msgs[..|msgs| - 1]);
      InsertKeepsConsistent(InsertAll(rows, msgs[..|msgs| - 1]), msgs[|msgs| - 1]);
    }
  }

  /** Some storable message of the list carries this index for this room. */
  predicate Offers(msgs: seq<StoredMessage>, room: string, chain: int64) {
    exists k :: 0 <= k < |msgs| && Storable(msgs[k]) && msgs[k].body.roomID == room
                && Column(msgs[k].chainIndex) == Some(chain)
  }

  lemma OffersSplits(init: seq<StoredMessage>, last: StoredMessage, room: string, chain: int64)
    ensures Offers(init + [last], room, chain)
            <==> Offers(init, room, chain)
                 || (Storable(last) && last.body.roomID == room && Column(last.chainIndex) == Some(chain))
  {
    var msgs := init + [last];
    assert msgs[|init|] == last;
    if Offers(init, room, chain) {
      var k :| 0 <= k < |init| && Storable(init[k]) && init[k].body.roomID == room
               && Column(init[k].chainIndex) == Some(chain);
      assert msgs[k] == init[k];
    }
  }

  lemma HoldsAfterInsert(rows: seq<Row>, m: StoredMessage, room: string, chain: int64)
    ensures Holds(InsertOrIgnore(rows, m), room, chain)
            <==> Holds(rows, room, chain)
                 || (Storable(m) && m.body.roomID == room && Column(m.chainIndex) == Some(chain))
  {
    var after := InsertOrIgnore(rows, m);
    if Holds(rows, room, chain) {
      var i :| 0 <= i < |rows| && rows[i].body.roomID == room && rows[i].chain == Some(chain);
      assert after[i] == rows[i];
    }
    if Inserts(rows, m) {
      assert after[|rows|] == NewRow(rows, m);
    }
    if Storable(m) && Conflicts(rows, m) && m.body.roomID == room && Column(m.chainIndex) == Some(chain) {
      assert Holds(rows, room, chain);
    }
  }

  /** A merge keeps every existing row in place and adds exactly the missing indices. */
  lemma {:induction false} MergeAddsExactlyTheMissing(
    rows: seq<Row>, msgs: seq<StoredMessage>, room: string, chain: int64)
    ensures rows <= InsertAll(rows, msgs)
    ensures Holds(InsertAll(rows, msgs), room, chain) <==> Holds(rows, room, chain) || Offers(msgs, room, chain)
  {
    if msgs == [] {
    } else {
      var init, last := msgs[..|msgs| - 1], msgs[|msgs| - 1];
      MergeAddsExactlyTheMissing(rows, init, room, chain);
      HoldsAfterInsert(InsertAll(rows, init), last, room, chain);
      OffersSplits(init, last, room, chain);
      assert msgs == init + [last];
    }
  }

  /** Every row is an old one or one of the messages. */
  lemma {:induction false} MergedRowsComeFrom(rows: seq<Row>, msgs: seq<StoredMessage>, i: nat)
    requires i < |InsertAll(rows, msgs)|
    ensures i < |rows| ==> InsertAll(rows, msgs)[i] == rows[i]
    ensures i >= |rows| ==>
              exists k :: 0 <= k < |msgs| && Storable(msgs[k]) && InsertAll(rows, msgs)[i].body == msgs[k].body
                          && InsertAll(rows, msgs)[i].chain == Column(msgs[k].chainIndex)
  {
    if msgs != [] {
      var init, last := msgs[..|msgs| - 1], msgs[|msgs| - 1];
      var before := InsertAll(rows, init);
      if i < |before| {
        MergedRowsComeFrom(rows, init, i);
        if i >= |rows| {
          var k :| 0 <= k < |init| && Storable(init[k]) && before[i].body == init[k].body
                   && before[i].chain == Column(init[k].chainIndex);
          assert msgs[k] == init[k];
        }
      } else {
        assert msgs[|msgs| - 1] == last;
        MergeAddsExactlyTheMissing(rows, init, "", 0);
      }
    }
  }

  lemma {:induction false} InsertAllPrefix(rows: seq<Row>, msgs: seq<StoredMessage>, n: nat)
    requires n <= |msgs|
    ensures InsertAll(rows, msgs[..n]) <= InsertAll(rows, msgs)
    decreases |msgs|
  {
    if n == |msgs| {
      assert msgs[..n] == msgs;
    } else {
      assert msgs[..|msgs| - 1][..n] == msgs[..n];
      InsertAllPrefix(rows, msgs[..|msgs| - 1], n);
    }
  }

  /** The first storable message with an index the table does not hold yet gets the row. */
  lemma FirstOfferIsStored(rows: seq<Row>, msgs: seq<StoredMessage>, k: nat) returns (r: Row)
    requires k < |msgs| && Storable(msgs[k]) && msgs[k].chainIndex.Some?
    requires !Holds(rows, msgs[k].body.roomID, ToInt64(msgs[k].chainIndex.value))
    requires !Offers(msgs[..k], msgs[k].body.roomID, ToInt64(msgs[k].chainIndex.value))
    ensures r in InsertAll(rows, msgs) && r.body == msgs[k].body && r.chain == Column(msgs[k].chainIndex)
  {
    var before, upTo := InsertAll(rows, msgs[..k]), msgs[..k + 1];
    assert upTo[..k] == msgs[..k] && upTo[k] == msgs[k];
    MergeAddsExactlyTheMissing(rows, msgs[..k], msgs[k].body.roomID, ToInt64(msgs[k].chainIndex.value));
    r := NewRow(before, msgs[k]);
    assert InsertAll(rows, upTo)[|before|] == r;
    InsertAllPrefix(rows, msgs, k + 1);
    assert InsertAll(rows, msgs)[|before|] == r;
  }

  /** Nothing is inserted: every message is unstorable or already there. */
  lemma {:induction false} NothingToInsert(rows: seq<Row>, msgs: seq<StoredMessage>)
    requires forall k :: 0 <= k < |msgs| ==> !Inserts(rows, msgs[k])
    ensures InsertAll(rows, msgs) == rows
  {
    if msgs != [] {
      NothingToInsert(rows, msgs[..|msgs| - 1]);
    }
  }

  /**
   * Replaying a merge changes nothing exactly when each storable message carries a chain index:
   * rows without one are not covered by the unique index and are inserted again.
   */
  lemma MergeIsIdempotent(rows: seq<Row>, msgs: seq<StoredMessage>)
    ensures InsertAll(InsertAll(rows, msgs), msgs) == InsertAll(rows, msgs)
            <==> forall k :: 0 <= k < |msgs| && Storable(msgs[k]) ==> msgs[k].chainIndex.Some?
  {
    var once := InsertAll(rows, msgs);
    if forall k :: 0 <= k < |msgs| && Storable(msgs[k]) ==> msgs[k].chainIndex.Some? {
      forall k | 0 <= k < |msgs| ensures !Inserts(once, msgs[k]) {
        if Storable(msgs[k]) {
          var room, chain := msgs[k].body.roomID, ToInt64(msgs[k].chainIndex.value);
          assert Offers(msgs, room, chain);
          MergeAddsExactlyTheMissing(rows, msgs, room, chain);
        }
      }
      NothingToInsert(once, msgs);
    } else {
      var k :| 0 <= k < |msgs| && Storable(msgs[k]) && msgs[k].chainIndex.None?;
      UnindexedAlwaysInserted(once, msgs, k, |msgs|);
      assert msgs[..|msgs|] == msgs;
    }
  }

  lemma {:induction false} UnindexedAlwaysInserted(rows: seq<Row>, msgs: seq<StoredMessage>, k: nat, n: nat)
    requires k < n <= |msgs| && Storable(msgs[k]) && msgs[k].chainIndex.None?
    ensures |InsertAll(rows, msgs[..n])| > |rows|
    decreases n
  {
    var prefix := msgs[..n];
    assert prefix[..n - 1] == msgs[..n - 1];
    if k < n - 1 {
      UnindexedAlwaysInserted(rows, msgs, k, n - 1);
    } else {
      MergeAddsExactlyTheMissing(rows, prefix[..n - 1], "", 0);
    }
  }

  // ---------- SELECT ... ORDER BY ----------

  /**
   * Rows with a chain index first and by it, then the others by timestamp. On rows that all have
   * one it is ORDER BY chain_index; ties, possible only without one, fall to the order of insertion.
   */
  predicate Precedes(a: Row, b: Row) {
    match (a.chain, b.chain)
    case (Some(x), Some(y)) => x <= y
    case (Some(_), None) => true
    case (None, Some(_)) => false
    case (None, None) => a.body.timestamp <= b.body.timestamp
  }

  function Place(sorted: seq<Row>, r: Row): seq<Row> {
    if sorted == [] then [r]
    else
      var n := |sorted| - 1;
      if Precedes(sorted[n], r) then sorted + [r] else Place(sorted[..n], r) + [sorted[n]]
  }

  /** SELECT * WHERE wanted ORDER BY Precedes. */
  function Select(rows: seq<Row>, wanted: Row -> bool): seq<Row> {
    if rows == [] then []
    else
      var n := |rows| - 1;
      if wanted(rows[n]) then Place(Select(rows[..n], wanted), rows[n]) else Select(rows[..n], wanted)
  }

  ghost predicate Ordered(rows: seq<Row>) {
    forall i, j :: 0 <= i < j < |rows| ==> Precedes(rows[i], rows[j])
  }

  lemma {:induction false} PlaceKeepsRows(sorted: seq<Row>, r: Row)
    ensures multiset(Place(sorted, r)) == multiset(sorted) + multiset{r}
    ensures |Place(sorted, r)| == |sorted| + 1
  {
    if sorted != [] {
      var n := |sorted| - 1;
      assert sorted == sorted[..n] + [sorted[n]];
      if !Precedes(sorted[n], r) {
        PlaceKeepsRows(sorted[..n], r);
      }
    }
  }

  lemma {:induction false} PlaceKeepsOrder(sorted: seq<Row>, r: Row)
    requires Ordered(sorted)
    ensures Ordered(Place(sorted, r))
  {
    if sorted != [] {
      var n := |sorted| - 1;
      if !Precedes(sorted[n], r) {
        var placed := Place(sorted[..n], r);
        PlaceKeepsOrder(sorted[..n], r);
        PlaceKeepsRows(sorted[..n], r);
        forall i | 0 <= i < |placed| ensures Precedes(placed[i], sorted[n]) {
          assert placed[i] in multiset(placed);
          assert placed[i] == r || placed[i] in sorted[..n];
        }
      }
    }
  }

  /** A query returns, in order, each wanted row as often as the table has it, and no other. */
  lemma {:induction false} SelectIsCorrect(rows: seq<Row>, wanted: Row -> bool)
    ensures Ordered(Select(rows, wanted))
    ensures forall r :: multiset(Select(rows, wanted))[r] == if wanted(r) then multiset(rows)[r] else 0
    ensures |Select(rows, wanted)| <= |rows|
  {
    if rows != [] {
      var n := |rows| - 1;
      SelectIsCorrect(rows[..n], wanted);
      assert rows == rows[..n] + [rows[n]];
      if wanted(rows[n]) {
        PlaceKeepsOrder(Select(rows[..n], wanted), rows[n]);
        PlaceKeepsRows(Select(rows[..n], wanted), rows[n]);
      }
    }
  }

  lemma SelectMembers(rows: seq<Row>, wanted: Row -> bool, r: Row)
    ensures r in Select(rows, wanted) <==> r in rows && wanted(r)
  {
    SelectIsCorrect(rows, wanted);
    assert r in Select(rows, wanted) <==> multiset(Select(rows, wanted))[r] > 0;
    assert r in rows <==> multiset(rows)[r] > 0;
  }

  function InRoom(room: string): Row -> bool {
    (r: Row) => r.body.roomID == room
  }

  function ChainedSince(room: string, since: int64): Row -> bool {
    (r: Row) => r.body.roomID == room && r.chain.Some? && r.chain.value >= since
  }

  function First<T>(s: seq<T>, limit: nat): seq<T> {
    if |s| <= limit then s else s[..limit]
  }

  ghost predicate StrictlyChained(rows: seq<Row>) {
    && (forall i :: 0 <= i < |rows| ==> rows[i].chain.Some?)
    && (forall i, j :: 0 <= i < j < |rows| ==> rows[i].chain.value < rows[j].chain.value)
  }

  /** With the unique index in force, chain-indexed rows of a room come in strictly increasing order. */
  lemma ChainedRowsIncrease(rows: seq<Row>, room: string, since: int64)
    requires Consistent(rows)
    ensures StrictlyChained(Select(rows, ChainedSince(room, since)))
  {
    var out := Select(rows, ChainedSince(room, since));
    forall i | 0 <= i < |out| ensures out[i].chain.Some? {
      SelectMembers(rows, ChainedSince(room, since), out[i]);
      assert out[i] in out;
    }
    forall i, j | 0 <= i < j < |out| ensures out[i].chain.value < out[j].chain.value {
      SelectedPairIncreases(rows, room, since, i, j);
    }
  }

  lemma SelectedPairIncreases(rows: seq<Row>, room: string, since: int64, i: nat, j: nat)
    requires Consistent(rows)
    requires i < j < |Select(rows, ChainedSince(room, since))|
    ensures var a, b := Select(rows, ChainedSince(room, since))[i], Select(rows, ChainedSince(room, since))[j];
            a.chain.Some? && b.chain.Some? && a.chain.value < b.chain.value
  {
    var wanted := ChainedSince(room, since);
    var out := Select(rows, wanted);
    var a, b := out[i], out[j];
    assert a in out && b in out;
    SelectMembers(rows, wanted, a);
    SelectMembers(rows, wanted, b);
    SelectedOnce(rows, wanted, i, j);
    DifferentRowsDifferentChains(rows, a, b);
    assert Precedes(a, b) by {
      SelectIsCorrect(rows, wanted);
    }
  }

  lemma SelectedOnce(rows: seq<Row>, wanted: Row -> bool, i: nat, j: nat)
    requires Consistent(rows) && i < j < |Select(rows, wanted)|
    ensures Select(rows, wanted)[i] != Select(rows, wanted)[j]
  {
    SelectIsCorrect(rows, wanted);
    OnceInTable(rows, Select(rows, wanted)[i]);
    CountedOnce(Select(rows, wanted), i, j);
  }

  lemma DifferentRowsDifferentChains(rows: seq<Row>, a: Row, b: Row)
    requires Consistent(rows) && a in rows && b in rows && a != b
    requires a.body.roomID == b.body.roomID && a.chain.Some?
    ensures a.chain != b.chain
  {
    var i :| 0 <= i < |rows| && rows[i] == a;
    var j :| 0 <= j < |rows| && rows[j] == b;
  }

  lemma CountedOnce(out: seq<Row>, i: nat, j: nat)
    requires i < j < |out| && multiset(out)[out[i]] <= 1
    ensures out[i] != out[j]
  {
    assert out == out[..j] + out[j..];
    assert out[..j][i] == out[i] && out[j..][0] == out[j];
    assert multiset(out[..j])[out[i]] >= 1 && multiset(out[j..])[out[j]] >= 1;
  }

  /** A row sits in a consistent table once. */
  lemma {:induction false} OnceInTable(rows: seq<Row>, r: Row)
    requires IdsIncrease(rows)
    ensures multiset(rows)[r] <= 1
  {
    if rows != [] {
      var n := |rows| - 1;
      OnceInTable(rows[..n], r);
      assert rows == rows[..n] + [rows[n]];
      assert rows[n] !in rows[..n];
      assert multiset(rows[..n])[rows[n]] == 0;
    }
  }

  /** The smaller indices of the room. */
  ghost function SmallerChains(rows: seq<Row>, room: string, chain: int64): set<int> {
    set x: int64 | 0 <= x < chain && Holds(rows, room, x)
  }

  lemma {:induction false} IncreasingWithin(chained: seq<Row>, chains: set<int>)
    requires StrictlyChained(chained)
    requires forall i :: 0 <= i < |chained| ==> chained[i].chain.value in chains
    ensures |chained| <= |chains|
    decreases |chained|
  {
    if chained != [] {
      var n := |chained| - 1;
      IncreasingWithin(chained[..n], chains - {chained[n].chain.value});
    }
  }

  /** A row of the query has at most as many rows before it as the room has smaller indices. */
  lemma RowsBefore(rows: seq<Row>, room: string, i: nat)
    requires Consistent(rows) && i < |Select(rows, ChainedSince(room, 0))|
    ensures Select(rows, ChainedSince(room, 0))[i].chain.Some?
    ensures i <= |SmallerChains(rows, room, Select(rows, ChainedSince(room, 0))[i].chain.value)|
  {
    var all := Select(rows, ChainedSince(room, 0));
    ChainedRowsIncrease(rows, room, 0);
    var smaller := SmallerChains(rows, room, all[i].chain.value);
    forall j | 0 <= j < i ensures all[..i][j].chain.value in smaller {
      SelectMembers(rows, ChainedSince(room, 0), all[j]);
      var k :| 0 <= k < |rows| && rows[k] == all[j];
    }
    IncreasingWithin(all[..i], smaller);
  }

  // ---------- SELECT chain_index ... DESC LIMIT 1 ----------

  function Larger(a: Option<int64>, b: Option<int64>): Option<int64> {
    if a.None? || (b.Some? && a.value < b.value) then b else a
  }

  /** The largest chain index of the room: attained, and bounding every other. */
  function LatestChain(rows: seq<Row>, room: string): (latest: Option<int64>)
    ensures latest.Some? ==> Holds(rows, room, latest.value)
    ensures forall c: int64 :: Holds(rows, room, c) ==> latest.Some? && c <= latest.value
  {
    if rows == [] then None
    else
      var n := |rows| - 1;
      var rest := LatestChain(rows[..n], room);
      assert forall c: int64 :: Holds(rows, room, c) ==>
               Holds(rows[..n], room, c) || (rows[n].body.roomID == room && rows[n].chain == Some(c));
      assert forall c: int64 :: Holds(rows[..n], room, c) ==> Holds(rows, room, c) by {
        forall c: int64 | Holds(rows[..n], room, c) ensures Holds(rows, room, c) {
          var i :| 0 <= i < n && rows[..n][i].body.roomID == room && rows[..n][i].chain == Some(c);
          assert rows[i] == rows[..n][i];
        }
      }
      if rows[n].body.roomID == room then Larger(rest, rows[n].chain) else rest
  }

  // ---------- peers ----------

  datatype User = User(
    peerID: string, username: string, color: string,
    dilithiumPub: Option<Bytes>, kyberPub: Option<Bytes>, libp2pPub: Option<Bytes>)

  /** The NOT NULL key columns. */
  predicate HasKeys(u: User) {
    u.dilithiumPub.Some? && u.kyberPub.Some? && u.libp2pPub.Some?
  }

  datatype DbError = ErrNoRows | ErrQuery

  datatype Result<+T> = Ok(value: T) | Err(error: DbError)

  /** The database handle. `fault` says whether the engine fails a statement. */
  class Store {
    var messages: seq<Row>
    var peers: map<string, User>

    constructor ()
      ensures messages == [] && peers == map[]
    {
      messages, peers := [], map[];
    }

    method SaveEnvelope(m: StoredMessage, fault: bool) returns (ok: bool)
      modifies this`messages
      ensures ok == !fault
      ensures messages == if fault then old(messages) else InsertOrIgnore(old(messages), m)
    {
      if fault {
        return false;
      }
      if Inserts(messages, m) {
        messages := messages + [NewRow(messages, m)];
      }
      return true;
    }

    /** The row loop shared by both message queries. */
    method ScanRows(rows: seq<Row>) returns (out: seq<StoredMessage>)
      ensures out == ScannedAll(rows)
    {
      out := [];
      var i := 0;
      while i < |rows|
        invariant 0 <= i <= |rows|
        invariant out == ScannedAll(rows[..i])
      {
        out := out + [Scanned(rows[i])];
        i := i + 1;
      }
      assert rows[..i] == rows;
    }

    method GetMessagesSinceChainIndex(room: string, since: uint64, limit: int, fault: bool)
      returns (r: Result<seq<StoredMessage>>)
      ensures r == if fault then Err(ErrQuery) else Ok(MessagesSince(messages, room, since, limit))
    {
      if fault {
        return Err(ErrQuery);
      }
      var rows := Select(messages, ChainedSince(room, ToInt64(since)));
      var out := ScanRows(if limit <= 0 then rows else First(rows, limit));
      return Ok(out);
    }

    method GetLatestMessages(room: string, limit: nat, fault: bool)
      returns (r: Result<seq<StoredMessage>>)
      ensures r == if fault then Err(ErrQuery) else Ok(LatestMessages(messages, room, limit))
    {
      if fault {
        return Err(ErrQuery);
      }
      var out := ScanRows(First(Select(messages, InRoom(room)), limit));
      return Ok(out);
    }

    method GetLatestChainIndex(room: string, fault: bool) returns (r: Result<uint64>)
      ensures if fault then r == Err(ErrQuery) else IsLatest(messages, room, r)
    {
      if fault {
        return Err(ErrQuery);
      }
      LatestIndexIsUnique(messages, room, LatestIndex(messages, room));
      return LatestIndex(messages, room);
    }

    method SaveUser(u: User, fault: bool) returns (ok: bool)
      modifies this`peers
      ensures ok == (!fault && u.dilithiumPub.Some? && u.kyberPub.Some? && u.libp2pPub.Some?)
      ensures peers == if ok then old(peers)[u.peerID := u] else old(peers)
    {
      ok := !fault && HasKeys(u);
      if ok {
        peers := peers[u.peerID := u];
      }
    }

    /** A missing peer is no error: the user comes back nil. */
    method GetUserByID(peerID: string, fault: bool) returns (r: Result<Option<User>>)
      ensures r == if fault then Err(ErrQuery) else Ok(UserOf(peers, peerID))
    {
      if fault {
        return Err(ErrQuery);
      }
      return Ok(UserOf(peers, peerID));
    }
  }

  function MessagesSince(rows: seq<Row>, room: string, since: uint64, limit: int): seq<StoredMessage> {
    var selected := Select(rows, ChainedSince(room, ToInt64(since)));
    ScannedAll(if limit <= 0 then selected else First(selected, limit))
  }

  function LatestMessages(rows: seq<Row>, room: string, limit: nat): seq<StoredMessage> {
    ScannedAll(First(Select(rows, InRoom(room)), limit))
  }

  function LatestIndex(rows: seq<Row>, room: string): Result<uint64> {
    match LatestChain(rows, room)
    case None => Err(ErrNoRows)
    case Some(i) => Ok(ToUint64(i))
  }

  /** An index that some row of the room has and no row exceeds, or no rows when the room has none. */
  ghost predicate IsLatest(rows: seq<Row>, room: string, r: Result<uint64>) {
    || (r == Err(ErrNoRows) && forall c: int64 :: !Holds(rows, room, c))
    || (r.Ok? && Holds(rows, room, ToInt64(r.value))
        && forall c: int64 :: Holds(rows, room, c) ==> c <= ToInt64(r.value))
  }

  lemma LatestIndexIsUnique(rows: seq<Row>, room: string, r: Result<uint64>)
    ensures IsLatest(rows, room, r) <==> r == LatestIndex(rows, room)
  {
    var latest := LatestChain(rows, room);
    assert latest.Some? ==> Holds(rows, room, latest.value);
  }

  function UserOf(peers: map<string, User>, peerID: string): Option<User> {
    if peerID in peers then Some(peers[peerID]) else None
  }

  // ---------- what the two message queries return ----------

  /** The chain index of a message, as the column orders it. */
  function ColumnOf(m: StoredMessage): int64
    requires m.chainIndex.Some?
  {
    ToInt64(m.chainIndex.value)
  }

  /** The messages of rows in strictly increasing chain order. */
  lemma ScannedIncrease(rows: seq<Row>)
    requires StrictlyChained(rows)
    ensures forall i :: 0 <= i < |rows| ==>
              ScannedAll(rows)[i].chainIndex.Some? && ColumnOf(ScannedAll(rows)[i]) == rows[i].chain.value
  {
  }

  /**
   * GetMessagesSinceChainIndex returns messages of the room with the index asked for or a larger one,
   * in strictly increasing order, and no more than a positive limit.
   */
  lemma MessagesSinceAreWanted(rows: seq<Row>, room: string, since: uint64, limit: int)
    requires Consistent(rows)
    ensures var out := MessagesSince(rows, room, since, limit);
            && (forall i :: 0 <= i < |out| ==>
                  && out[i].chainIndex.Some? && ColumnOf(out[i]) >= ToInt64(since)
                  && exists r :: r in rows && r.body.roomID == room && out[i] == Scanned(r))
            && (forall i, j :: 0 <= i < j < |out| ==> ColumnOf(out[i]) < ColumnOf(out[j]))
            && (limit > 0 ==> |out| <= limit)
  {
    var all, out := Select(rows, ChainedSince(room, ToInt64(since))), MessagesSince(rows, room, since, limit);
    ChainedRowsIncrease(rows, room, ToInt64(since));
    ScannedIncrease(all);
    forall i | 0 <= i < |out|
      ensures out[i] == Scanned(all[i]) && all[i] in rows && ChainedSince(room, ToInt64(since))(all[i])
    {
      SelectMembers(rows, ChainedSince(room, ToInt64(since)), all[i]);
    }
  }

  /** And it leaves out a wanted row only when a positive limit is reached by rows with smaller indices. */
  lemma WantedRowsAreReturned(rows: seq<Row>, room: string, since: uint64, limit: int, r: Row)
    requires Consistent(rows)
    requires r in rows && r.body.roomID == room && r.chain.Some? && r.chain.value >= ToInt64(since)
    ensures var out := MessagesSince(rows, room, since, limit);
            || Scanned(r) in out
            || (0 < limit == |out| && forall i :: 0 <= i < |out| ==>
                                        out[i].chainIndex.Some? && ColumnOf(out[i]) < r.chain.value)
  {
    var all, out := Select(rows, ChainedSince(room, ToInt64(since))), MessagesSince(rows, room, since, limit);
    ChainedRowsIncrease(rows, room, ToInt64(since));
    ScannedIncrease(all);
    SelectMembers(rows, ChainedSince(room, ToInt64(since)), r);
    var k :| 0 <= k < |all| && all[k] == r;
    if k < |out| {
      assert out[k] == Scanned(r);
    } else {
      assert forall i :: 0 <= i < |out| ==> out[i] == ScannedAll(all)[i];
    }
  }

  /**
   * GetLatestMessages: as many of the room's rows as the limit allows, those with an index first and
   * by it, then the others by time.
   */
  lemma LatestMessagesExactly(rows: seq<Row>, room: string, limit: nat)
    ensures var all, out := Select(rows, InRoom(room)), LatestMessages(rows, room, limit);
            && |out| == (if |all| <= limit then |all| else limit)
            && (forall i :: 0 <= i < |out| ==> out[i] == Scanned(all[i]))
            && (forall r :: r in all <==> r in rows && r.body.roomID == room)
            && forall i, j :: 0 <= i < j < |all| ==>
                 && (all[j].chain.Some? ==> all[i].chain.Some? && all[i].chain.value <= all[j].chain.value)
                 && (all[i].chain.None? ==> all[i].body.timestamp <= all[j].body.timestamp)
  {
    var all := Select(rows, InRoom(room));
    SelectIsCorrect(rows, InRoom(room));
    forall r ensures r in all <==> r in rows && r.body.roomID == room {
      SelectMembers(rows, InRoom(room), r);
    }
    assert forall i, j :: 0 <= i < j < |all| ==> Precedes(all[i], all[j]);
  }
}
