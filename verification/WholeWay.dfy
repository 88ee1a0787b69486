/**
 * The whole way: what a member says and hears, stored by its batching writer, answered to a
 * newcomer, merged into the newcomer's table and replayed.
 */
module WholeWay {
  import opened MachineInts
  import opened Ratchets
  import opened Windows
  import opened Sessions
  import opened Tables
  import opened CatchUpCodec
  import opened CatchUp
  import opened Chat
  import opened Join
  import opened EndToEnd
  import BatchWriter
  import History

  /** A member's session under the room key, from the window in which it enters its receive loop. */
  function MemberChat(
    p: Primitives, c: Codecs, key: Bytes, here: Location, w: Window, chats: seq<ChatEvent>): ChatState
    requires w.floor <= w.high
  {
    ChatRun(p, c, Origin(0, key), here, ChatState(w, true, [], [], []), chats)
  }

  /**
   * What the member's writer accepted for the room was offered by this session, all indices are
   * below 2^63, and what the table held before is readable: nothing, an earlier session's history,
   * or the rows of a catch-up.
   */
  ghost predicate Feeds(
    p: Primitives, c: Codecs, key: Bytes, here: Location, w: Window, chats: seq<ChatEvent>,
    rows0: seq<Row>, requests: seq<StoredMessage>)
  {
    && w.floor <= w.high
    && MemberChat(p, c, key, here, w, chats).window.high <= TWO_63
    && Consistent(rows0) && ReadableTable(p, c, Origin(0, key), here.roomID, rows0)
    && forall k :: 0 <= k < |requests| && requests[k].body.roomID == here.roomID
                   ==> requests[k] in MemberChat(p, c, key, here, w, chats).offered
  }

  /** Who said it: the member itself, or the sender named in what arrived. */
  function Speaker(e: ChatEvent): string {
    match e
    case Say(me, _, _, _, _) => me.peerID
    case Hear(env, _) => env.sender.peerID
  }

  /** `m` comes from something said or heard in this session: `text`, said by `sender`. */
  ghost predicate WasSaid(
    c: Codecs, here: Location, chats: seq<ChatEvent>, m: StoredMessage, text: Bytes, sender: string)
  {
    exists i :: 0 <= i < |chats| && CameFrom(c, here, chats[i], m, text) && Speaker(chats[i]) == sender
  }

  /** `m` was in the table before. */
  ghost predicate WasStored(rows0: seq<Row>, m: StoredMessage) {
    exists r :: r in rows0 && Scanned(r) == m
  }

  lemma MemberIsFaithful(
    p: Primitives, c: Codecs, key: Bytes, here: Location, w: Window, chats: seq<ChatEvent>)
    requires p.Lawful() && c.Lawful() && w.floor <= w.high
    requires MemberChat(p, c, key, here, w, chats).window.high <= TWO_63
    ensures FaithfulHistory(p, c, Origin(0, key), here, MemberChat(p, c, key, here, w, chats))
    ensures var chat := MemberChat(p, c, key, here, w, chats);
            forall j, m, text :: 0 <= j < |chat.offered| && SameMessage(m, chat.offered[j]) && text == chat.texts[j] ==>
              WasSaid(c, here, chats, m, text, m.body.senderID)
  {
    var sources := HistoryIsFaithful(p, c, Origin(0, key), here, ChatState(w, true, [], [], []), chats);
    var chat := MemberChat(p, c, key, here, w, chats);
    forall j, m, text | 0 <= j < |chat.offered| && SameMessage(m, chat.offered[j]) && text == chat.texts[j]
      ensures WasSaid(c, here, chats, m, text, m.body.senderID)
    {
      assert CameFrom(c, here, chats[sources[j]], chat.offered[j], chat.texts[j]);
      assert CameFrom(c, here, chats[sources[j]], m, text);
    }
  }

  /** The request behind a row that was not there before is one the session offered. */
  lemma NewRowWasOffered(
    chat: ChatState, room: string, capacity: nat, faults: nat -> bool, db0: History.HistoryDb,
    requests: seq<StoredMessage>, r: Row) returns (j: nat)
    requires forall k :: 0 <= k < |requests| && requests[k].body.roomID == room ==> requests[k] in chat.offered
    requires r in History.DirectDb(capacity, faults, db0, requests).rows && r !in db0.rows && r.body.roomID == room
    ensures j < |chat.offered| && SameMessage(Scanned(r), chat.offered[j])
  {
    History.WrittenRowsWereEnqueued(capacity, faults, db0, requests, r);
    var k :| 0 <= k < |requests| && requests[k].body == r.body && Column(requests[k].chainIndex) == r.chain;
    j :| 0 <= j < |chat.offered| && chat.offered[j] == requests[k];
    ColumnRoundTrip(r, chat.offered[j]);
  }

  /**
   * Whatever the writer's faults, the member's table is readable, and each row of the room was
   * there before or holds a message its session offered.
   */
  lemma WrittenTableIsReadable(
    p: Primitives, c: Codecs, key: Bytes, here: Location, w: Window, chats: seq<ChatEvent>,
    capacity: nat, faults: nat -> bool, db0: History.HistoryDb, requests: seq<StoredMessage>)
    requires p.Lawful() && c.Lawful() && Feeds(p, c, key, here, w, chats, db0.rows, requests)
    ensures var rows := History.DirectDb(capacity, faults, db0, requests).rows;
            && Consistent(rows) && ReadableTable(p, c, Origin(0, key), here.roomID, rows)
            && forall r :: r in rows && r.body.roomID == here.roomID ==>
                 || r in db0.rows
                 || exists j :: 0 <= j < |MemberChat(p, c, key, here, w, chats).offered|
                                && SameMessage(Scanned(r), MemberChat(p, c, key, here, w, chats).offered[j])
  {
    var chat := MemberChat(p, c, key, here, w, chats);
    var rows := History.DirectDb(capacity, faults, db0, requests).rows;
    MemberIsFaithful(p, c, key, here, w, chats);
    History.WriterKeepsConsistent(capacity, faults, db0, requests);
    forall r | r in rows && r.body.roomID == here.roomID
      ensures Readable(p, c, Origin(0, key), Scanned(r))
      ensures r in db0.rows || exists j :: 0 <= j < |chat.offered| && SameMessage(Scanned(r), chat.offered[j])
    {
      if r !in db0.rows {
        var j := NewRowWasOffered(chat, here.roomID, capacity, faults, db0, requests, r);
        SameMessageSameText(p, c, Origin(0, key), chat.offered[j], Scanned(r));
      }
    }
  }

  /** What a newcomer is shown of a written table was said by the member's session, or stored before it. */
  lemma ShownWasSaidOrStored(
    p: Primitives, c: Codecs, key: Bytes, here: Location, w: Window, chats: seq<ChatEvent>,
    capacity: nat, faults: nat -> bool, db0: History.HistoryDb, requests: seq<StoredMessage>, i: nat, text: Bytes)
    requires p.Lawful() && c.Lawful() && Feeds(p, c, key, here, w, chats, db0.rows, requests)
    requires var rows := History.DirectDb(capacity, faults, db0, requests).rows;
             var sent := LatestMessages(rows, here.roomID, HELP_LIMIT);
             i < |sent| && Readable(p, c, Origin(0, key), sent[i]) && text == TextOf(p, c, Origin(0, key), sent[i])
    ensures var rows := History.DirectDb(capacity, faults, db0, requests).rows;
            var sent := LatestMessages(rows, here.roomID, HELP_LIMIT);
            WasSaid(c, here, chats, sent[i], text, sent[i].body.senderID) || WasStored(db0.rows, sent[i])
  {
    var chat := MemberChat(p, c, key, here, w, chats);
    var rows := History.DirectDb(capacity, faults, db0, requests).rows;
    var r := RowBehind(rows, here.roomID, HELP_LIMIT, i);
    MemberIsFaithful(p, c, key, here, w, chats);
    if r !in db0.rows {
      var j := NewRowWasOffered(chat, here.roomID, capacity, faults, db0, requests, r);
      SameMessageSameText(p, c, Origin(0, key), Scanned(r), chat.offered[j]);
      assert text == chat.texts[j];
    }
  }

  /** The sender displayed with a message that is not suspect is the one stored with it. */
  lemma DisplayedSenderIsStored(
    p: Primitives, c: Codecs, v: Verifier, origin: Origin, msgs: seq<StoredMessage>, shown: seq<Shown>,
    peers: map<string, User>, at: nat -> Conditions, faults: nat -> bool, i: nat)
    requires ReadableRun(p, c, origin, msgs) && Displays(p, c, origin, shown, msgs, peers, faults) && i < |msgs|
    requires !Suspect(v, peers, msgs[i].body, at(i))
    ensures shown[i].sender.peerID == msgs[i].body.senderID && shown[i].content == TextOf(p, c, origin, msgs[i])
  {
  }

  /**
   * End to end. A member chats in a room under the master key, hearing and saying anything with
   * indices below 2^63, in a first session or a later one; its writer stores that in any batches and
   * with any faults; a newcomer joins, and the first thing to arrive is this member's answer. If no
   * answered message is suspect, the newcomer sees, complete and in chain order, what the answer
   * holds: each text under the name of its sender, and either typed or displayed as that sender's at
   * the member's, or stored there before. If one is suspect, it does not join.
   */
  lemma WhatIsSaidIsReadAfterJoining(
    p: Primitives, c: Codecs, v: Verifier, key: Bytes, here: Location, w: Window, chats: seq<ChatEvent>,
    capacity: nat, writeFaults: nat -> bool, db0: History.HistoryDb, events: History.Events, t: History.WriterState,
    mine: seq<Row>, peers: map<string, User>, arrivals: nat -> Arrival, attempt: nat, at: nat -> Conditions,
    readFaults: nat -> bool)
    requires p.Lawful() && c.Lawful() && Feeds(p, c, key, here, w, chats, db0.rows, t.accepted)
    requires BatchWriter.Reaches(History.Configured(capacity, writeFaults), BatchWriter.Initial(db0), events, t)
    requires Consistent(mine) && NoRowsOf(here.roomID, mine)
    requires c.Frameable(MessagesSince(t.db.rows, here.roomID, 0, HELP_LIMIT))
    requires attempt < 5 && arrivals(attempt) == Response(Answer(c, t.db.rows, here.roomID, key))
    requires forall k :: 0 <= k < attempt ==> arrivals(k) == Timeout
    requires forall k: nat :: !at(k).writeFails
    ensures var sent := LatestMessages(t.db.rows, here.roomID, 100);
            var r := Joining(p, c, v, here.roomID, peers, mine, NoRows, arrivals, at, false, readFaults);
            && ReadableRun(p, c, Origin(0, key), sent)
            && (r.outcome == Joined <==> forall k :: 0 <= k < |sent| ==> !Suspect(v, peers, sent[k].body, at(k)))
            && (r.outcome != Joined ==> r.outcome == JoinFailed && r.shown == [] && r.standing == None)
            && (r.outcome == Joined ==>
                  && r.standing == Some(Standing(Origin(0, key), WindowAfter(Fresh(0), sent)))
                  && Displays(p, c, Origin(0, key), r.shown, sent, peers, readFaults)
                  && forall i :: 0 <= i < |sent| ==>
                       && r.shown[i].sender.peerID == sent[i].body.senderID
                       && (|| WasSaid(c, here, chats, sent[i], r.shown[i].content, r.shown[i].sender.peerID)
                           || WasStored(db0.rows, sent[i])))
  {
    BatchWriter.BatchingRefinesDirectWriting(History.Configured(capacity, writeFaults), db0, events, t);
    var requests := t.accepted[..t.processed];
    assert Feeds(p, c, key, here, w, chats, db0.rows, requests);
    WrittenTableIsReadable(p, c, key, here, w, chats, capacity, writeFaults, db0, requests);
    FirstJoinShowsTheirHistory(
      p, c, v, key, here.roomID, t.db.rows, mine, peers, arrivals, attempt, at, readFaults);
    var sent := LatestMessages(t.db.rows, here.roomID, HELP_LIMIT);
    var r := Joining(p, c, v, here.roomID, peers, mine, NoRows, arrivals, at, false, readFaults);
    if r.outcome == Joined {
      forall i | 0 <= i < |sent|
        ensures r.shown[i].sender.peerID == sent[i].body.senderID
        ensures || WasSaid(c, here, chats, sent[i], r.shown[i].content, r.shown[i].sender.peerID)
                || WasStored(db0.rows, sent[i])
      {
        DisplayedSenderIsStored(p, c, v, Origin(0, key), sent, r.shown, peers, at, readFaults, i);
        ShownWasSaidOrStored(p, c, key, here, w, chats, capacity, writeFaults, db0, requests, i, r.shown[i].content);
      }
    }
  }

  // ---------- and nothing said is missing ----------

  /** An index with fewer than HELP_LIMIT smaller ones stored is in the answer. */
  lemma LowRowsAreAnswered(
    p: Primitives, c: Codecs, origin: Origin, room: string, rows: seq<Row>, r: Row) returns (i: nat)
    requires Consistent(rows) && ReadableTable(p, c, origin, room, rows)
    requires r in rows && r.body.roomID == room && r.chain.Some?
    requires |SmallerChains(rows, room, r.chain.value)| < HELP_LIMIT
    ensures i < |LatestMessages(rows, room, HELP_LIMIT)| && LatestMessages(rows, room, HELP_LIMIT)[i] == Scanned(r)
  {
    var all := Select(rows, InRoom(room));
    LatestIsReadableRun(p, c, origin, room, rows, HELP_LIMIT);
    SelectMembers(rows, InRoom(room), r);
    i :| 0 <= i < |all| && all[i] == r;
    RowsBefore(rows, room, i);
  }

  lemma DrainedIsDirect(
    capacity: nat, faults: nat -> bool, db0: History.HistoryDb, events: History.Events, s: History.WriterState,
    later: History.Events, t: History.WriterState)
    requires BatchWriter.Reaches(History.Configured(capacity, faults), BatchWriter.Initial(db0), events, s)
    requires BatchWriter.Enabled(s, BatchWriter.Event<StoredMessage>.DrainDone)
    requires BatchWriter.Reaches(History.Configured(capacity, faults),
                                 BatchWriter.Step(History.Configured(capacity, faults), s, BatchWriter.DrainDone),
                                 later, t)
    ensures t.db == History.DirectDb(capacity, faults, db0, s.accepted)
  {
    BatchWriter.DrainServesEveryone(History.Configured(capacity, faults), db0, events, s, later, t);
  }

  /** The first accepted message with an index is in the answer, as it was accepted. */
  lemma FirstAcceptedIsAnswered(
    p: Primitives, c: Codecs, key: Bytes, here: Location, w: Window, chats: seq<ChatEvent>,
    capacity: nat, faults: nat -> bool, db0: History.HistoryDb, requests: seq<StoredMessage>, k: nat)
    returns (i: nat)
    requires p.Lawful() && c.Lawful() && Feeds(p, c, key, here, w, chats, db0.rows, requests)
    requires forall n: nat :: !faults(n)
    requires k < |requests| && requests[k].body.roomID == here.roomID
    requires Storable(requests[k]) && requests[k].chainIndex.Some?
    requires !Holds(db0.rows, here.roomID, ToInt64(requests[k].chainIndex.value))
    requires !Offers(requests[..k], here.roomID, ToInt64(requests[k].chainIndex.value))
    requires |SmallerChains(History.DirectDb(capacity, faults, db0, requests).rows, here.roomID,
                            ToInt64(requests[k].chainIndex.value))| < 100
    ensures var rows := History.DirectDb(capacity, faults, db0, requests).rows;
            && Consistent(rows) && ReadableTable(p, c, Origin(0, key), here.roomID, rows)
            && i < |LatestMessages(rows, here.roomID, HELP_LIMIT)|
            && SameMessage(LatestMessages(rows, here.roomID, HELP_LIMIT)[i], requests[k])
            && Readable(p, c, Origin(0, key), requests[k])
            && Readable(p, c, Origin(0, key), LatestMessages(rows, here.roomID, HELP_LIMIT)[i])
            && TextOf(p, c, Origin(0, key), LatestMessages(rows, here.roomID, HELP_LIMIT)[i])
               == TextOf(p, c, Origin(0, key), requests[k])
  {
    var rows := History.DirectDb(capacity, faults, db0, requests).rows;
    History.DirectIsInsertAll(capacity, faults, db0, requests);
    History.NoneFailed(faults, requests);
    WrittenTableIsReadable(p, c, key, here, w, chats, capacity, faults, db0, requests);
    var r := FirstOfferIsStored(db0.rows, requests, k);
    i := LowRowsAreAnswered(p, c, Origin(0, key), here.roomID, rows, r);
    ColumnRoundTrip(r, requests[k]);
    SameMessageSameText(p, c, Origin(0, key), Scanned(r), requests[k]);
  }

  /**
   * After a faultless drain, each accepted message of the room that is the first with its index is
   * displayed to a newcomer with its text and sender, as long as fewer than 100 smaller indices are stored.
   */
  lemma EveryAcceptedMessageIsDisplayed(
    p: Primitives, c: Codecs, v: Verifier, key: Bytes, here: Location, w: Window, chats: seq<ChatEvent>,
    capacity: nat, faults: nat -> bool, db0: History.HistoryDb, events: History.Events, s: History.WriterState,
    later: History.Events, t: History.WriterState,
    mine: seq<Row>, peers: map<string, User>, arrivals: nat -> Arrival, attempt: nat, at: nat -> Conditions,
    readFaults: nat -> bool, k: nat) returns (i: nat)
    requires p.Lawful() && c.Lawful() && Feeds(p, c, key, here, w, chats, db0.rows, s.accepted)
    requires forall n: nat :: !faults(n)
    requires BatchWriter.Reaches(History.Configured(capacity, faults), BatchWriter.Initial(db0), events, s)
    requires BatchWriter.Enabled(s, BatchWriter.Event<StoredMessage>.DrainDone)
    requires BatchWriter.Reaches(History.Configured(capacity, faults),
                                 BatchWriter.Step(History.Configured(capacity, faults), s, BatchWriter.DrainDone),
                                 later, t)
    requires Consistent(mine) && NoRowsOf(here.roomID, mine)
    requires c.Frameable(MessagesSince(t.db.rows, here.roomID, 0, HELP_LIMIT))
    requires forall n: nat :: !at(n).writeFails
    requires attempt < 5 && arrivals(attempt) == Response(Answer(c, t.db.rows, here.roomID, key))
    requires forall n :: 0 <= n < attempt ==> arrivals(n) == Timeout
    requires var sent := LatestMessages(t.db.rows, here.roomID, HELP_LIMIT);
             forall n :: 0 <= n < |sent| ==> !Suspect(v, peers, sent[n].body, at(n))
    requires k < |s.accepted| && s.accepted[k].body.roomID == here.roomID
    requires Storable(s.accepted[k]) && s.accepted[k].chainIndex.Some?
    requires !Holds(db0.rows, here.roomID, ToInt64(s.accepted[k].chainIndex.value))
    requires !Offers(s.accepted[..k], here.roomID, ToInt64(s.accepted[k].chainIndex.value))
    requires |SmallerChains(t.db.rows, here.roomID, ToInt64(s.accepted[k].chainIndex.value))| < 100
    ensures var r := Joining(p, c, v, here.roomID, peers, mine, NoRows, arrivals, at, false, readFaults);
            && r.outcome == Joined && Readable(p, c, Origin(0, key), s.accepted[k])
            && i < |r.shown| && r.shown[i].content == TextOf(p, c, Origin(0, key), s.accepted[k])
            && r.shown[i].sender.peerID == s.accepted[k].body.senderID
            && r.shown[i].timestamp == s.accepted[k].body.timestamp
            && i < |LatestMessages(t.db.rows, here.roomID, HELP_LIMIT)|
            && SameMessage(LatestMessages(t.db.rows, here.roomID, HELP_LIMIT)[i], s.accepted[k])
  {
    DrainedIsDirect(capacity, faults, db0, events, s, later, t);
    i := FirstAcceptedIsAnswered(p, c, key, here, w, chats, capacity, faults, db0, s.accepted, k);
    FirstJoinShowsTheirHistory(
      p, c, v, key, here.roomID, t.db.rows, mine, peers, arrivals, attempt, at, readFaults);
    DisplayedSenderIsStored(
      p, c, v, Origin(0, key), LatestMessages(t.db.rows, here.roomID, HELP_LIMIT),
      Joining(p, c, v, here.roomID, peers, mine, NoRows, arrivals, at, false, readFaults).shown,
      peers, at, readFaults, i);
  }

  // ---------- an instance ----------

  /** The message queued for the first thing said in a room. */
  function FirstSaid(p: Primitives, c: Codecs, key: Bytes, here: Location, e: ChatEvent): StoredMessage
    requires e.Say?
  {
    Said(p, c, Origin(0, key), here, Fresh(0), e)
  }

  lemma FirstSaidIsOffered(p: Primitives, c: Codecs, key: Bytes, here: Location, e: ChatEvent)
    requires e.Say? && e.delivered
    ensures MemberChat(p, c, key, here, Fresh(0), [e])
            == ChatState(Window(0, 1), true, [], [FirstSaid(p, c, key, here, e)], [e.text])
  {
    var chats := [e];
    var start := ChatState(Fresh(0), true, [], [], []);
    assert chats[..0] == [];
    assert ChatRun(p, c, Origin(0, key), here, start, chats[..0]) == start;
    assert [] + [FirstSaid(p, c, key, here, e)] == [FirstSaid(p, c, key, here, e)];
  }

  function NoFaults(n: nat): bool {
    false
  }

  /** Stop, drain and finish around one request. */
  lemma OneRequestIsWritten(m: StoredMessage) returns (s: History.WriterState, t: History.WriterState)
    requires Storable(m)
    ensures var c := History.Configured(1, NoFaults);
            && BatchWriter.Reaches(c, BatchWriter.Initial(History.HistoryDb([], map[])),
                                   [BatchWriter.Enqueue(m), BatchWriter.Receive, BatchWriter.Stop,
                                    BatchWriter.BeginDrain], s)
            && BatchWriter.Enabled(s, BatchWriter.Event<StoredMessage>.DrainDone)
            && t == BatchWriter.Step(c, s, BatchWriter.DrainDone)
    ensures s.accepted == t.accepted == [m] && t.db.rows == [NewRow([], m)]
  {
    var c := History.Configured(1, NoFaults);
    var s0: History.WriterState := BatchWriter.Initial(History.HistoryDb([], map[]));
    var s1 := BatchWriter.Step(c, s0, BatchWriter.Enqueue(m));
    var s2 := BatchWriter.Step(c, s1, BatchWriter.Receive);
    var s3 := BatchWriter.Step(c, s2, BatchWriter.Stop);
    s := BatchWriter.Step(c, s3, BatchWriter.BeginDrain);
    t := BatchWriter.Step(c, s, BatchWriter.DrainDone);
    var e4: History.Events := [BatchWriter.BeginDrain];
    var e3: History.Events := [BatchWriter.Stop, BatchWriter.BeginDrain];
    var e2: History.Events := [BatchWriter.Receive, BatchWriter.Stop, BatchWriter.BeginDrain];
    var e1: History.Events := [BatchWriter.Enqueue(m), BatchWriter.Receive, BatchWriter.Stop, BatchWriter.BeginDrain];
    assert e4[1..] == [] && e3[1..] == e4 && e2[1..] == e3 && e1[1..] == e2;
    assert BatchWriter.Reaches(c, s, [], s);
    assert BatchWriter.Reaches(c, s3, e4, s);
    assert BatchWriter.Reaches(c, s2, e3, s);
    assert BatchWriter.Reaches(c, s1, e2, s);
    assert s.batch == [m] && s.queue == [] && s.db.rows == [];
    assert BatchWriter.Flush(c, s) == BatchWriter.FlushOne(c, s);
  }

  lemma OneRequestIsDrained(m: StoredMessage, s: History.WriterState, t: History.WriterState)
    requires BatchWriter.Reaches(History.Configured(1, NoFaults), BatchWriter.Initial(History.HistoryDb([], map[])),
                                 [BatchWriter.Enqueue(m), BatchWriter.Receive, BatchWriter.Stop,
                                  BatchWriter.BeginDrain], s)
    requires BatchWriter.Enabled(s, BatchWriter.Event<StoredMessage>.DrainDone)
    requires t == BatchWriter.Step(History.Configured(1, NoFaults), s, BatchWriter.DrainDone)
    ensures BatchWriter.Reaches(History.Configured(1, NoFaults), BatchWriter.Initial(History.HistoryDb([], map[])),
                                [BatchWriter.Enqueue(m), BatchWriter.Receive, BatchWriter.Stop,
                                 BatchWriter.BeginDrain, BatchWriter.DrainDone], t)
  {
    var begun := [BatchWriter.Enqueue(m), BatchWriter.Receive, BatchWriter.Stop, BatchWriter.BeginDrain];
    History.OneMore(History.Configured(1, NoFaults), BatchWriter.Initial(History.HistoryDb([], map[])), begun, s,
                    BatchWriter.DrainDone);
    assert begun + [BatchWriter.DrainDone]
           == [BatchWriter.Enqueue(m), BatchWriter.Receive, BatchWriter.Stop, BatchWriter.BeginDrain,
               BatchWriter.DrainDone];
  }

  /** A table with this one row answers this one message. */
  lemma OneRowIsAnswered(row: Row, room: string)
    requires row.body.roomID == room && row.chain.Some? && 0 <= row.chain.value
    ensures MessagesSince([row], room, 0, HELP_LIMIT) == [Scanned(row)] == LatestMessages([row], room, HELP_LIMIT)
  {
    var rows := [row];
    assert rows[..0] == [];
    assert Select(rows[..0], ChainedSince(room, 0)) == [] && Select(rows[..0], InRoom(room)) == [];
    assert Select(rows, ChainedSince(room, 0)) == [row] == Select(rows, InRoom(room));
  }

  /** What the first thing said meets on its way. */
  lemma FirstSaidPasses(p: Primitives, c: Codecs, key: Bytes, here: Location, e: ChatEvent)
    requires e.Say? && e.delivered
    requires |c.marshal(FirstSaid(p, c, key, here, e).(id := 1))| <= c.maxSlice
    ensures var m := FirstSaid(p, c, key, here, e);
            var rows := [NewRow([], m)];
            && LatestMessages(rows, here.roomID, HELP_LIMIT) == MessagesSince(rows, here.roomID, 0, HELP_LIMIT)
            && |LatestMessages(rows, here.roomID, HELP_LIMIT)| == 1
            && c.Frameable(MessagesSince(rows, here.roomID, 0, HELP_LIMIT))
            && LatestMessages(rows, here.roomID, HELP_LIMIT)[0].body == m.body
            && SmallerChains(rows, here.roomID, 0) == {}
  {
    var m := FirstSaid(p, c, key, here, e);
    var row := NewRow([], m);
    OneRowIsAnswered(row, here.roomID);
    assert Scanned(row) == m.(id := 1);
  }

  lemma FirstSaidFeeds(p: Primitives, c: Codecs, key: Bytes, here: Location, e: ChatEvent)
    requires e.Say? && e.delivered
    ensures Feeds(p, c, key, here, Fresh(0), [e], [], [FirstSaid(p, c, key, here, e)])
  {
    FirstSaidIsOffered(p, c, key, here, e);
  }

  /**
   * The hypotheses of the whole way can all be met: for any primitives, codecs and signatures that
   * work, the first thing said in a room reaches a newcomer who knows the sender.
   */
  lemma FirstWordReachesNewcomer(
    p: Primitives, c: Codecs, v: Verifier, key: Bytes, here: Location, e: ChatEvent,
    peers: map<string, User>, at: nat -> Conditions)
    returns (t: History.WriterState, i: nat)
    requires p.Lawful() && c.Lawful() && e.Say? && e.delivered
    requires |c.marshal(FirstSaid(p, c, key, here, e).(id := 1))| <= c.maxSlice
    requires !Suspect(v, peers, FirstSaid(p, c, key, here, e).body, at(0))
    requires forall n: nat :: !at(n).writeFails
    ensures BatchWriter.Reaches(History.Configured(1, NoFaults), BatchWriter.Initial(History.HistoryDb([], map[])),
                                [BatchWriter.Enqueue(FirstSaid(p, c, key, here, e)), BatchWriter.Receive,
                                 BatchWriter.Stop, BatchWriter.BeginDrain, BatchWriter.DrainDone], t)
    ensures var arrivals := (_: nat) => Response(Answer(c, t.db.rows, here.roomID, key));
            var r := Joining(p, c, v, here.roomID, peers, [], NoRows, arrivals, at, false, NoFaults);
            && t.accepted == [FirstSaid(p, c, key, here, e)] && r.outcome == Joined
            && i < |r.shown| && r.shown[i].content == e.text && r.shown[i].sender.peerID == e.me.peerID
            && r.shown[i].timestamp == e.timestamp
  {
    var m := FirstSaid(p, c, key, here, e);
    var s: History.WriterState;
    s, t := OneRequestIsWritten(m);
    OneRequestIsDrained(m, s, t);
    FirstSaidPasses(p, c, key, here, e);
    FirstSaidFeeds(p, c, key, here, e);
    i := EveryAcceptedMessageIsDisplayed(
      p, c, v, key, here, Fresh(0), [e], 1, NoFaults, History.HistoryDb([], map[]),
      [BatchWriter.Enqueue(m), BatchWriter.Receive, BatchWriter.Stop, BatchWriter.BeginDrain], s,
      [], t, [], peers, (_: nat) => Response(Answer(c, t.db.rows, here.roomID, key)), 0, at, NoFaults, 0);
    SaidIsFaithful(p, c, Origin(0, key), here, Fresh(0), e);
  }
}
