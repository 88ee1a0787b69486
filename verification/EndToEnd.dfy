/** From a member's table, through the catch-up payload and the joiner's own table, to what the joiner sees. */
module EndToEnd {
  import opened MachineInts
  import opened Ratchets
  import opened Windows
  import opened WrapAround
  import opened Sessions
  import opened Tables
  import opened CatchUpCodec
  import opened CatchUp
  import opened Chat
  import opened Join

  // ---------- replaying readable messages ----------

  /** Readable messages in strictly increasing chain order. */
  ghost predicate ReadableRun(p: Primitives, c: Codecs, origin: Origin, msgs: seq<StoredMessage>) {
    && (forall i :: 0 <= i < |msgs| ==> Readable(p, c, origin, msgs[i]))
    && (forall i, j :: 0 <= i < j < |msgs| ==> msgs[i].chainIndex.value < msgs[j].chainIndex.value)
  }

  ghost predicate SendersKnown(msgs: seq<StoredMessage>, peers: map<string, User>, faults: nat -> bool) {
    forall i :: 0 <= i < |msgs| ==> faults(i) || msgs[i].body.senderID in peers
  }

  /** The window after messages that were all ahead of the lead, the last one at `last`. */
  function WindowAfter(w: Window, msgs: seq<StoredMessage>): Window {
    if msgs == [] then w
    else
      var last := IndexOrZero(msgs[|msgs| - 1]);
      Window(Max(w.floor, last - 8), last + 1)
  }

  /** The sender that is shown: the peer of that id, or, if the lookup fails, an unknown user with that id. */
  ghost predicate ShownSender(peers: map<string, User>, senderID: string, fault: bool, sender: User) {
    && (!fault ==> senderID in peers && sender == peers[senderID])
    && (fault ==> sender == User(senderID, "Unknown", "", None, None, None))
  }

  /** `shown` displays exactly these messages, in this order, with their texts and senders. */
  ghost predicate Displays(
    p: Primitives, c: Codecs, origin: Origin, shown: seq<Shown>, msgs: seq<StoredMessage>, peers: map<string, User>,
    faults: nat -> bool)
    requires forall i :: 0 <= i < |msgs| ==> Readable(p, c, origin, msgs[i])
  {
    && |shown| == |msgs|
    && forall i :: 0 <= i < |msgs| ==>
         && shown[i].content == TextOf(p, c, origin, msgs[i])
         && shown[i].timestamp == msgs[i].body.timestamp
         && ShownSender(peers, msgs[i].body.senderID, faults(i), shown[i].sender)
  }

  /** A readable message at or ahead of the lead fits, and yields its text. */
  lemma ReadableYieldsText(p: Primitives, c: Codecs, origin: Origin, w: Window, m: StoredMessage)
    requires w.Ordered() && origin.start <= w.floor
    requires Readable(p, c, origin, m) && w.high <= m.chainIndex.value
    ensures Returns(w, m.chainIndex.value) && Landed(w, m.chainIndex.value) == w.Receive(m.chainIndex.value)
    ensures Yielded(p, origin, w, ParsedChat(c, m.body.payload).value) == Plain(TextOf(p, c, origin, m))
  {
    LandedInWindow(w, m.chainIndex.value);
    YieldedInWindow(p, origin, w, ParsedChat(c, m.body.payload).value);
  }

  lemma ReadableIsShown(
    p: Primitives, c: Codecs, origin: Origin, r: Replay, m: StoredMessage, peers: map<string, User>, fault: bool)
    requires r.window.Ordered() && origin.start <= r.window.floor
    requires Readable(p, c, origin, m) && r.window.high <= m.chainIndex.value
    requires fault || m.body.senderID in peers
    ensures ReplayOne(p, c, origin, r, m, peers, fault)
            == r.(window := r.window.Receive(m.chainIndex.value),
                  shown := r.shown + [Shown(SenderFor(peers, m.body.senderID, fault).value, m.body.timestamp,
                                            TextOf(p, c, origin, m))])
  {
    ReadableYieldsText(p, c, origin, r.window, m);
  }

  lemma DisplaysOneMore(
    p: Primitives, c: Codecs, origin: Origin, shown: seq<Shown>, x: Shown, msgs: seq<StoredMessage>,
    peers: map<string, User>, faults: nat -> bool)
    requires msgs != [] && forall i :: 0 <= i < |msgs| ==> Readable(p, c, origin, msgs[i])
    requires Displays(p, c, origin, shown, msgs[..|msgs| - 1], peers, faults)
    requires var n := |msgs| - 1;
             && ShownSender(peers, msgs[n].body.senderID, faults(n), x.sender)
             && x.timestamp == msgs[n].body.timestamp && x.content == TextOf(p, c, origin, msgs[n])
    ensures Displays(p, c, origin, shown + [x], msgs, peers, faults)
  {
    var n := |msgs| - 1;
    forall i | 0 <= i < |msgs|
      ensures (shown + [x])[i].content == TextOf(p, c, origin, msgs[i])
      ensures (shown + [x])[i].timestamp == msgs[i].body.timestamp
      ensures ShownSender(peers, msgs[i].body.senderID, faults(i), (shown + [x])[i].sender)
    {
      if i < n {
        assert msgs[..n][i] == msgs[i];
      }
    }
  }

  /** All but the last message of a run, and the window in which the last one arrives. */
  lemma RunWithoutLast(p: Primitives, c: Codecs, origin: Origin, w: Window, msgs: seq<StoredMessage>)
    requires w.Ordered() && ReadableRun(p, c, origin, msgs)
    requires msgs != [] && w.high <= msgs[0].chainIndex.value
    ensures var n := |msgs| - 1;
            && ReadableRun(p, c, origin, msgs[..n])
            && (n > 0 ==> msgs[..n][0] == msgs[0])
            && WindowAfter(w, msgs[..n]).Ordered()
            && WindowAfter(w, msgs[..n]).high <= msgs[n].chainIndex.value
            && WindowAfter(w, msgs) == WindowAfter(w, msgs[..n]).Receive(msgs[n].chainIndex.value)
  {
    var n := |msgs| - 1;
    assert Readable(p, c, origin, msgs[n]);
    if n > 0 {
      assert msgs[..n][n - 1] == msgs[n - 1] && Readable(p, c, origin, msgs[n - 1]);
    }
  }

  /** The replay never meets a message it cannot show, and ends right behind the last index. */
  lemma {:induction false} ReplayShowsEverything(
    p: Primitives, c: Codecs, origin: Origin, w: Window, msgs: seq<StoredMessage>, peers: map<string, User>,
    faults: nat -> bool)
    requires w.Ordered() && origin.start <= w.floor
    requires ReadableRun(p, c, origin, msgs) && SendersKnown(msgs, peers, faults)
    requires msgs != [] ==> w.high <= msgs[0].chainIndex.value
    ensures var r := ReplayAll(p, c, origin, w, msgs, peers, faults);
            && r.status == Finished
            && r.window == WindowAfter(w, msgs)
            && Displays(p, c, origin, r.shown, msgs, peers, faults)
  {
    if msgs != [] {
      var n := |msgs| - 1;
      RunWithoutLast(p, c, origin, w, msgs);
      ReplayShowsEverything(p, c, origin, w, msgs[..n], peers, faults);
      var r := ReplayAll(p, c, origin, w, msgs[..n], peers, faults);
      var m := msgs[n];
      ReadableIsShown(p, c, origin, r, m, peers, faults(n));
      DisplaysOneMore(p, c, origin, r.shown,
                      Shown(SenderFor(peers, m.body.senderID, faults(n)).value, m.body.timestamp,
                            TextOf(p, c, origin, m)),
                      msgs, peers, faults);
    }
  }

  /** The first message whose sender is looked up and absent, or the end. */
  function FirstUnknown(msgs: seq<StoredMessage>, peers: map<string, User>, faults: nat -> bool): (n: nat)
    ensures n <= |msgs|
    ensures forall i :: 0 <= i < n ==> faults(i) || msgs[i].body.senderID in peers
    ensures n < |msgs| ==> !faults(n) && msgs[n].body.senderID !in peers
  {
    if msgs == [] then 0
    else
      var last := |msgs| - 1;
      var n := FirstUnknown(msgs[..last], peers, faults);
      if n == last && (faults(last) || msgs[last].body.senderID in peers) then last + 1 else n
  }

  lemma RunPrefix(p: Primitives, c: Codecs, origin: Origin, msgs: seq<StoredMessage>, n: nat)
    requires ReadableRun(p, c, origin, msgs) && n <= |msgs|
    ensures ReadableRun(p, c, origin, msgs[..n])
  {
    forall i | 0 <= i < n ensures Readable(p, c, origin, msgs[..n][i]) {
      assert Readable(p, c, origin, msgs[i]);
    }
  }

  lemma AbsentSenderIsFatal(
    p: Primitives, c: Codecs, origin: Origin, r: Replay, m: StoredMessage, peers: map<string, User>)
    requires r.window.Ordered() && origin.start <= r.window.floor
    requires Readable(p, c, origin, m) && r.window.high <= m.chainIndex.value
    requires m.body.senderID !in peers
    ensures var t := ReplayOne(p, c, origin, r, m, peers, false);
            t.status == NilSender && t.shown == r.shown
  {
    ReadableYieldsText(p, c, origin, r.window, m);
  }

  /** The replay dies at a last message whose sender is absent. */
  lemma AbsentLastSender(
    p: Primitives, c: Codecs, origin: Origin, w: Window, msgs: seq<StoredMessage>, peers: map<string, User>,
    faults: nat -> bool)
    requires w.Ordered() && origin.start <= w.floor && ReadableRun(p, c, origin, msgs)
    requires msgs != [] && w.high <= msgs[0].chainIndex.value
    requires SendersKnown(msgs[..|msgs| - 1], peers, faults)
    requires !faults(|msgs| - 1) && msgs[|msgs| - 1].body.senderID !in peers
    ensures ReadableRun(p, c, origin, msgs[..|msgs| - 1])
    ensures var r := ReplayAll(p, c, origin, w, msgs, peers, faults);
            r.status == NilSender && Displays(p, c, origin, r.shown, msgs[..|msgs| - 1], peers, faults)
  {
    var n := |msgs| - 1;
    RunWithoutLast(p, c, origin, w, msgs);
    ReplayShowsEverything(p, c, origin, w, msgs[..n], peers, faults);
    AbsentSenderIsFatal(p, c, origin, ReplayAll(p, c, origin, w, msgs[..n], peers, faults), msgs[n], peers);
  }

  /**
   * How a replay of readable messages ahead of the lead ends, with no assumption on the senders: it
   * finishes if and only if each sender is known or its lookup fails; otherwise it dies at the first
   * absent one, having shown exactly the messages before it.
   */
  lemma ReplayEndsExactly(
    p: Primitives, c: Codecs, origin: Origin, w: Window, msgs: seq<StoredMessage>, peers: map<string, User>,
    faults: nat -> bool)
    requires w.Ordered() && origin.start <= w.floor && ReadableRun(p, c, origin, msgs)
    requires msgs != [] ==> w.high <= msgs[0].chainIndex.value
    ensures ReadableRun(p, c, origin, msgs[..FirstUnknown(msgs, peers, faults)])
    ensures var r := ReplayAll(p, c, origin, w, msgs, peers, faults);
            && (r.status == Finished <==> SendersKnown(msgs, peers, faults))
            && (r.status == Finished || r.status == NilSender)
            && Displays(p, c, origin, r.shown, msgs[..FirstUnknown(msgs, peers, faults)], peers, faults)
  {
    var n := FirstUnknown(msgs, peers, faults);
    if n == |msgs| {
      assert msgs[..n] == msgs;
      ReplayShowsEverything(p, c, origin, w, msgs, peers, faults);
    } else {
      RunPrefix(p, c, origin, msgs, n + 1);
      assert msgs[..n + 1][..n] == msgs[..n];
      AbsentLastSender(p, c, origin, w, msgs[..n + 1], peers, faults);
      StuckStaysStuck(p, c, origin, w, msgs, peers, faults, n + 1);
    }
  }

  // ---------- messages that cannot be shown ----------

  /** The payload does not parse, or parses to null, or to a message that is stale or does not open. */
  ghost predicate Unshowable(p: Primitives, c: Codecs, origin: Origin, w: Window, m: StoredMessage, status: Status) {
    match status
    case BadPayload => m.body.payload.None? || c.parseChat(m.body.payload.value).Malformed?
    case NilMessage => m.body.payload.Some? && c.parseChat(m.body.payload.value).Null?
    case Undecryptable =>
      && m.body.payload.Some? && c.parseChat(m.body.payload.value).Value?
      && var cm := c.parseChat(m.body.payload.value).value;
      && cm.chainIndex <= TWO_64 - 3
      && (|| cm.chainIndex < w.floor
          || (origin.start <= cm.chainIndex && p.open(KeyAt(p, origin, cm.chainIndex), cm.ciphertext).None?))
    case _ => false
  }

  lemma UnshowableIsFatal(
    p: Primitives, c: Codecs, origin: Origin, r: Replay, m: StoredMessage, peers: map<string, User>, fault: bool,
    status: Status)
    requires r.window.Ordered() && r.window.high < TWO_64 && origin.start <= r.window.floor
    requires Unshowable(p, c, origin, r.window, m, status)
    ensures ReplayOne(p, c, origin, r, m, peers, fault).status == status
    ensures ReplayOne(p, c, origin, r, m, peers, fault).shown == r.shown
  {
    if status == Undecryptable {
      YieldedInWindow(p, origin, r.window, c.parseChat(m.body.payload.value).value);
    }
  }

  /**
   * Readable messages of known senders up to one that cannot be shown: the replay ends there, with
   * the status that its defect names and exactly the messages before it shown, whatever comes after.
   */
  lemma UnshowableMessageEndsReplay(
    p: Primitives, c: Codecs, origin: Origin, w: Window, msgs: seq<StoredMessage>, peers: map<string, User>,
    faults: nat -> bool, n: nat, status: Status)
    requires w.Ordered() && w.high < TWO_64 && origin.start <= w.floor && n < |msgs|
    requires ReadableRun(p, c, origin, msgs[..n]) && SendersKnown(msgs[..n], peers, faults)
    requires n > 0 ==> w.high <= msgs[0].chainIndex.value
    requires Unshowable(p, c, origin, WindowAfter(w, msgs[..n]), msgs[n], status)
    ensures var r := ReplayAll(p, c, origin, w, msgs, peers, faults);
            r.status == status && Displays(p, c, origin, r.shown, msgs[..n], peers, faults)
  {
    ReplayShowsEverything(p, c, origin, w, msgs[..n], peers, faults);
    var r := ReplayAll(p, c, origin, w, msgs[..n], peers, faults);
    if n > 0 {
      assert Readable(p, c, origin, msgs[..n][n - 1]);
      RunWithoutLast(p, c, origin, w, msgs[..n]);
    }
    UnshowableIsFatal(p, c, origin, r, msgs[n], peers, faults(n), status);
    ReplayNext(p, c, origin, w, msgs, peers, faults, n);
    StuckStaysStuck(p, c, origin, w, msgs, peers, faults, n + 1);
  }

  // ---------- readable tables ----------

  /** Every row of the room is readable. */
  ghost predicate ReadableTable(p: Primitives, c: Codecs, origin: Origin, room: string, rows: seq<Row>) {
    forall r :: r in rows && r.body.roomID == room ==> Readable(p, c, origin, Scanned(r))
  }

  lemma {:induction false} SelectAgrees(rows: seq<Row>, f: Row -> bool, g: Row -> bool)
    requires forall r :: r in rows ==> f(r) == g(r)
    ensures Select(rows, f) == Select(rows, g)
  {
    if rows != [] {
      SelectAgrees(rows[..|rows| - 1], f, g);
    }
  }

  /** In a readable table the replay query lists the room in strictly increasing chain order. */
  lemma LatestIsReadableRun(p: Primitives, c: Codecs, origin: Origin, room: string, rows: seq<Row>, limit: nat)
    requires Consistent(rows) && ReadableTable(p, c, origin, room, rows)
    ensures ReadableRun(p, c, origin, LatestMessages(rows, room, limit))
    ensures Select(rows, InRoom(room)) == Select(rows, ChainedSince(room, 0))
  {
    forall r | r in rows ensures InRoom(room)(r) == ChainedSince(room, 0)(r) {
      if r.body.roomID == room {
        assert Readable(p, c, origin, Scanned(r));
      }
    }
    SelectAgrees(rows, InRoom(room), ChainedSince(room, 0));
    ChainedRowsIncrease(rows, room, 0);
    var selected := Select(rows, InRoom(room));
    forall i | 0 <= i < |selected|
      ensures selected[i] in rows && selected[i].body.roomID == room && Readable(p, c, origin, Scanned(selected[i]))
    {
      assert selected[i] in selected;
      SelectMembers(rows, InRoom(room), selected[i]);
    }
  }

  /** The row behind the i-th message of the query. */
  lemma RowBehind(rows: seq<Row>, room: string, limit: nat, i: nat) returns (r: Row)
    requires i < |LatestMessages(rows, room, limit)|
    ensures r in rows && r.body.roomID == room && Scanned(r) == LatestMessages(rows, room, limit)[i]
  {
    r := Select(rows, InRoom(room))[i];
    SelectMembers(rows, InRoom(room), r);
  }

  /** Rejoining with one's own readable table: everything the query returns is shown, in order. */
  lemma RejoinShowsOwnHistory(
    p: Primitives, c: Codecs, origin: Origin, room: string, rows: seq<Row>, peers: map<string, User>,
    faults: nat -> bool)
    requires Consistent(rows) && ReadableTable(p, c, origin, room, rows)
    requires SendersKnown(LatestMessages(rows, room, REPLAY_LIMIT), peers, faults)
    ensures var msgs := LatestMessages(rows, room, REPLAY_LIMIT);
            var r := FirstReplay(p, c, origin, rows, room, peers, faults);
            && ReadableRun(p, c, origin, msgs)
            && r.status == Finished
            && r.window == WindowAfter(Fresh(origin.start), msgs)
            && Displays(p, c, origin, r.shown, msgs, peers, faults)
  {
    var msgs := LatestMessages(rows, room, REPLAY_LIMIT);
    LatestIsReadableRun(p, c, origin, room, rows, REPLAY_LIMIT);
    if msgs != [] {
      assert Readable(p, c, origin, msgs[0]);
    }
    ReplayShowsEverything(p, c, origin, Fresh(origin.start), msgs, peers, faults);
  }

  // ---------- merging keeps tables readable ----------

  /** The message a row holds, under another id. */
  predicate SameMessage(m: StoredMessage, n: StoredMessage) {
    m.chainIndex == n.chainIndex && m.body == n.body
  }

  lemma ColumnRoundTrip(r: Row, m: StoredMessage)
    requires r.body == m.body && r.chain == Column(m.chainIndex)
    ensures SameMessage(Scanned(r), m)
  {
  }

  /** What a member with a readable table sends is readable. */
  lemma AnswerIsReadable(
    p: Primitives, c: Codecs, origin: Origin, room: string, theirs: seq<Row>)
    requires Consistent(theirs) && ReadableTable(p, c, origin, room, theirs)
    ensures var sent := MessagesSince(theirs, room, 0, HELP_LIMIT);
            && ReadableRun(p, c, origin, sent)
            && sent == LatestMessages(theirs, room, HELP_LIMIT)
            && forall i :: 0 <= i < |sent| ==> sent[i].body.roomID == room && Storable(sent[i])
  {
    LatestIsReadableRun(p, c, origin, room, theirs, HELP_LIMIT);
    var sent := LatestMessages(theirs, room, HELP_LIMIT);
    forall i | 0 <= i < |sent| ensures sent[i].body.roomID == room && Storable(sent[i]) {
      var _ := RowBehind(theirs, room, HELP_LIMIT, i);
    }
  }

  /** Rows added by a catch-up are readable, and their senders are known to the joiner. */
  lemma MergedTableIsReadable(
    p: Primitives, c: Codecs, v: Verifier, origin: Origin, room: string, mine: seq<Row>, peers: map<string, User>,
    msgs: seq<StoredMessage>, at: nat -> Conditions)
    requires Consistent(mine) && ReadableTable(p, c, origin, room, mine)
    requires forall r :: r in mine && r.body.roomID == room ==> r.body.senderID in peers
    requires forall k :: 0 <= k < |msgs| ==> Readable(p, c, origin, msgs[k])
    ensures var after := InsertAll(mine, Written(msgs[..StopsAt(v, peers, msgs, at)], at));
            && Consistent(after) && ReadableTable(p, c, origin, room, after)
            && forall r :: r in after && r.body.roomID == room ==> r.body.senderID in peers
  {
    var n := StopsAt(v, peers, msgs, at);
    var after := InsertAll(mine, Written(msgs[..n], at));
    InsertAllKeepsRows(mine, Written(msgs[..n], at));
    forall r | r in after && r.body.roomID == room
      ensures Readable(p, c, origin, Scanned(r)) && r.body.senderID in peers
    {
      var i :| 0 <= i < |after| && after[i] == r;
      OnlyValidMessagesAreAdded(v, peers, mine, msgs, at, i);
      if i < |mine| {
        assert mine[i] == r;
      } else {
        var k :| 0 <= k < n && Valid(v, peers, msgs[k], at(k)) && Storable(msgs[k])
                 && after[i].body == msgs[k].body && after[i].chain == Column(msgs[k].chainIndex);
        ColumnRoundTrip(r, msgs[k]);
      }
    }
  }

  /**
   * Joining through a catch-up, whatever readable rows the joiner already had: if every answered
   * message validates, the join shows the merged history, complete and in chain order; if one
   * does not, the join fails.
   */
  lemma JoinShowsMergedHistory(
    p: Primitives, c: Codecs, v: Verifier, key: Bytes, room: string, theirs: seq<Row>, mine: seq<Row>,
    peers: map<string, User>, at: nat -> Conditions, faults: nat -> bool)
    requires c.Lawful() && Consistent(theirs) && Consistent(mine)
    requires c.Frameable(MessagesSince(theirs, room, 0, HELP_LIMIT))
    requires ReadableTable(p, c, Origin(0, key), room, theirs) && ReadableTable(p, c, Origin(0, key), room, mine)
    requires forall r :: r in mine && r.body.roomID == room ==> r.body.senderID in peers
    requires forall k: nat :: !at(k).writeFails
    ensures var origin := Origin(0, key);
            var sent := ImportedAll(MessagesSince(theirs, room, 0, HELP_LIMIT));
            var (after, ready) := Processed(c, v, peers, mine, Answer(c, theirs, room, key), at);
            if StopsAt(v, peers, sent, at) < |sent| then ready == Failed
            else
              var msgs := LatestMessages(after, room, REPLAY_LIMIT);
              var r := FirstReplay(p, c, origin, after, room, peers, faults);
              && ready == Ready(origin)
              && ReadableRun(p, c, origin, msgs)
              && Verdict(ready, r.status) == Joined
              && r.window == WindowAfter(Fresh(0), msgs)
              && Displays(p, c, origin, r.shown, msgs, peers, faults)
  {
    var origin := Origin(0, key);
    var sent := MessagesSince(theirs, room, 0, HELP_LIMIT);
    var msgs := ImportedAll(sent);
    AnswerIsReadable(p, c, origin, room, theirs);
    forall k | 0 <= k < |msgs| ensures Readable(p, c, origin, msgs[k]) {
      assert Readable(p, c, origin, sent[k]);
    }
    AnswerMergesExactly(c, v, peers, theirs, mine, room, key, at, 0);
    PayloadRoundTrip(c, sent);
    MergedTableIsReadable(p, c, v, origin, room, mine, peers, msgs, at);
    var after := InsertAll(mine, Written(msgs[..StopsAt(v, peers, msgs, at)], at));
    LatestIsReadableRun(p, c, origin, room, after, REPLAY_LIMIT);
    forall i | 0 <= i < |LatestMessages(after, room, REPLAY_LIMIT)|
      ensures LatestMessages(after, room, REPLAY_LIMIT)[i].body.senderID in peers
    {
      var _ := RowBehind(after, room, REPLAY_LIMIT, i);
    }
    RejoinShowsOwnHistory(p, c, origin, room, after, peers, faults);
  }

  // ---------- a joiner with nothing ----------

  ghost predicate NoRowsOf(room: string, rows: seq<Row>) {
    forall r :: r in rows ==> r.body.roomID != room
  }

  lemma {:induction false} SelectNothing(rows: seq<Row>, room: string)
    requires NoRowsOf(room, rows)
    ensures Select(rows, InRoom(room)) == []
  {
    if rows != [] {
      SelectNothing(rows[..|rows| - 1], room);
    }
  }

  /** Storable messages of one room in strictly increasing chain order, below 2^63. */
  ghost predicate RoomRun(room: string, msgs: seq<StoredMessage>) {
    && (forall i :: 0 <= i < |msgs| ==>
          && msgs[i].body.roomID == room && Storable(msgs[i])
          && msgs[i].chainIndex.Some? && msgs[i].chainIndex.value < TWO_63)
    && (forall i, j :: 0 <= i < j < |msgs| ==> msgs[i].chainIndex.value < msgs[j].chainIndex.value)
  }

  /** `rows` are these messages, one by one. */
  ghost predicate RowsOf(rows: seq<Row>, msgs: seq<StoredMessage>) {
    && |rows| == |msgs|
    && forall i :: 0 <= i < |msgs| ==> rows[i].body == msgs[i].body && rows[i].chain == Column(msgs[i].chainIndex)
  }

  lemma LargerIndexIsNew(rows: seq<Row>, room: string, msgs: seq<StoredMessage>, m: StoredMessage)
    requires RoomRun(room, msgs + [m])
    requires RowsOf(Select(rows, InRoom(room)), msgs)
    ensures Inserts(rows, m)
  {
    var all, n := msgs + [m], |msgs|;
    assert all[n] == m;
    var out := Select(rows, InRoom(room));
    forall i | 0 <= i < |rows| && rows[i].body.roomID == room
      ensures rows[i].chain != Some(ToInt64(m.chainIndex.value))
    {
      SelectMembers(rows, InRoom(room), rows[i]);
      var j :| 0 <= j < |out| && out[j] == rows[i];
      assert all[j] == msgs[j];
    }
    assert !Holds(rows, room, ToInt64(m.chainIndex.value));
  }

  lemma LargerIndexIsLast(rows: seq<Row>, room: string, msgs: seq<StoredMessage>, m: StoredMessage)
    requires RoomRun(room, msgs + [m])
    requires RowsOf(Select(rows, InRoom(room)), msgs)
    ensures Select(rows + [NewRow(rows, m)], InRoom(room)) == Select(rows, InRoom(room)) + [NewRow(rows, m)]
  {
    var all, n := msgs + [m], |msgs|;
    assert all[n] == m;
    var out, row := Select(rows, InRoom(room)), NewRow(rows, m);
    assert (rows + [row])[..|rows|] == rows;
    if n > 0 {
      assert all[n - 1] == msgs[n - 1];
      assert Precedes(out[n - 1], row);
    }
  }

  /** Fresh, increasing messages go into the table and come out of the query as they are. */
  lemma {:induction false} StoredThenSelected(mine: seq<Row>, room: string, msgs: seq<StoredMessage>)
    requires NoRowsOf(room, mine) && RoomRun(room, msgs)
    ensures RowsOf(Select(InsertAll(mine, msgs), InRoom(room)), msgs)
  {
    if msgs == [] {
      SelectNothing(mine, room);
    } else {
      var n := |msgs| - 1;
      var init, last := msgs[..n], msgs[n];
      assert msgs == init + [last];
      StoredThenSelected(mine, room, init);
      LargerIndexIsNew(InsertAll(mine, init), room, init, last);
      LargerIndexIsLast(InsertAll(mine, init), room, init, last);
    }
  }

  lemma SameMessageSameText(p: Primitives, c: Codecs, origin: Origin, m: StoredMessage, n: StoredMessage)
    requires SameMessage(m, n) && Readable(p, c, origin, m)
    ensures Readable(p, c, origin, n) && TextOf(p, c, origin, n) == TextOf(p, c, origin, m)
  {
  }

  /**
   * A joiner with no rows for the room, if every answered message validates, sees exactly the first
   * HELP_LIMIT messages of the member's history, in chain order and with their original texts, and
   * stands right behind the last one; if one does not validate, it does not join.
   */
  lemma NewcomerSeesTheirHistory(
    p: Primitives, c: Codecs, v: Verifier, key: Bytes, room: string, theirs: seq<Row>, mine: seq<Row>,
    peers: map<string, User>, at: nat -> Conditions, faults: nat -> bool)
    requires c.Lawful() && Consistent(theirs) && Consistent(mine) && NoRowsOf(room, mine)
    requires c.Frameable(MessagesSince(theirs, room, 0, HELP_LIMIT))
    requires ReadableTable(p, c, Origin(0, key), room, theirs)
    requires forall k: nat :: !at(k).writeFails
    ensures ReadableRun(p, c, Origin(0, key), LatestMessages(theirs, room, HELP_LIMIT))
    ensures var origin := Origin(0, key);
            var sent := LatestMessages(theirs, room, HELP_LIMIT);
            var (after, ready) := Processed(c, v, peers, mine, Answer(c, theirs, room, key), at);
            var r := FirstReplay(p, c, origin, after, room, peers, faults);
            if StopsAt(v, peers, ImportedAll(sent), at) < |sent| then ready == Failed
            else
            && ready == Ready(origin) && Verdict(ready, r.status) == Joined
            && r.window == WindowAfter(Fresh(0), sent)
            && Displays(p, c, origin, r.shown, sent, peers, faults)
  {
    var origin := Origin(0, key);
    var sent := LatestMessages(theirs, room, HELP_LIMIT);
    AnswerIsReadable(p, c, origin, room, theirs);
    JoinShowsMergedHistory(p, c, v, key, room, theirs, mine, peers, at, faults);
    var msgs := ImportedAll(sent);
    if StopsAt(v, peers, msgs, at) == |sent| {
      ValidAnswerIsInserted(c, v, key, room, theirs, mine, peers, at);
      var after := InsertAll(mine, msgs);
      NewcomerTable(p, c, origin, room, mine, sent);
      SameRunSameDisplay(p, c, origin, LatestMessages(after, room, REPLAY_LIMIT), sent,
                         FirstReplay(p, c, origin, after, room, peers, faults).shown, peers, faults);
    }
  }

  lemma ValidAnswerIsInserted(
    c: Codecs, v: Verifier, key: Bytes, room: string, theirs: seq<Row>, mine: seq<Row>, peers: map<string, User>,
    at: nat -> Conditions)
    requires c.Lawful() && c.Frameable(MessagesSince(theirs, room, 0, HELP_LIMIT))
    requires forall k: nat :: !at(k).writeFails
    requires var msgs := ImportedAll(MessagesSince(theirs, room, 0, HELP_LIMIT));
             StopsAt(v, peers, msgs, at) == |msgs|
    ensures Processed(c, v, peers, mine, Answer(c, theirs, room, key), at)
            == (InsertAll(mine, ImportedAll(MessagesSince(theirs, room, 0, HELP_LIMIT))), Ready(Origin(0, key)))
  {
    var sent := MessagesSince(theirs, room, 0, HELP_LIMIT);
    var msgs := ImportedAll(sent);
    PayloadRoundTrip(c, sent);
    assert msgs[..|msgs|] == msgs;
    WrittenWithoutFaults(msgs, at);
  }

  /** What a newcomer's replay query returns is what was sent, whatever the ids. */
  lemma NewcomerTable(
    p: Primitives, c: Codecs, origin: Origin, room: string, mine: seq<Row>, sent: seq<StoredMessage>)
    requires NoRowsOf(room, mine) && |sent| <= REPLAY_LIMIT && ReadableRun(p, c, origin, sent)
    requires forall i :: 0 <= i < |sent| ==> sent[i].body.roomID == room && Storable(sent[i])
    ensures var latest := LatestMessages(InsertAll(mine, ImportedAll(sent)), room, REPLAY_LIMIT);
            |latest| == |sent| && forall i :: 0 <= i < |sent| ==> SameMessage(latest[i], sent[i])
  {
    var msgs := ImportedAll(sent);
    forall i | 0 <= i < |msgs| ensures msgs[i].chainIndex.Some? && msgs[i].chainIndex.value < TWO_63 {
      assert Readable(p, c, origin, sent[i]);
    }
    StoredThenSelected(mine, room, msgs);
    var out := Select(InsertAll(mine, msgs), InRoom(room));
    forall i | 0 <= i < |sent| ensures SameMessage(Scanned(out[i]), sent[i]) {
      ColumnRoundTrip(out[i], msgs[i]);
    }
  }

  lemma SameRunSameDisplay(
    p: Primitives, c: Codecs, origin: Origin, msgs: seq<StoredMessage>, msgs': seq<StoredMessage>, shown: seq<Shown>,
    peers: map<string, User>, faults: nat -> bool)
    requires |msgs| == |msgs'| && forall i :: 0 <= i < |msgs| ==> SameMessage(msgs[i], msgs'[i])
    requires ReadableRun(p, c, origin, msgs) && ReadableRun(p, c, origin, msgs')
    requires Displays(p, c, origin, shown, msgs, peers, faults)
    ensures Displays(p, c, origin, shown, msgs', peers, faults)
    ensures forall w: Window :: WindowAfter(w, msgs) == WindowAfter(w, msgs')
  {
    forall i | 0 <= i < |msgs|
      ensures TextOf(p, c, origin, msgs'[i]) == TextOf(p, c, origin, msgs[i])
    {
      SameMessageSameText(p, c, origin, msgs[i], msgs'[i]);
    }
  }

  // ---------- the join ----------

  /**
   * A first join: no stored auth, and among the five attempts the first arrival is a member's answer. It
   * goes through if and only if no answered message is suspect, and then displays exactly the
   * member's first 100 messages; otherwise it fails, displays nothing and sets no ratchet.
   */
  lemma FirstJoinShowsTheirHistory(
    p: Primitives, c: Codecs, v: Verifier, key: Bytes, room: string, theirs: seq<Row>, mine: seq<Row>,
    peers: map<string, User>, arrivals: nat -> Arrival, attempt: nat, at: nat -> Conditions, faults: nat -> bool)
    requires c.Lawful() && Consistent(theirs) && Consistent(mine) && NoRowsOf(room, mine)
    requires c.Frameable(MessagesSince(theirs, room, 0, HELP_LIMIT))
    requires ReadableTable(p, c, Origin(0, key), room, theirs)
    requires forall k: nat :: !at(k).writeFails
    requires attempt < 5 && arrivals(attempt) == Response(Answer(c, theirs, room, key))
    requires forall k :: 0 <= k < attempt ==> arrivals(k) == Timeout
    ensures ReadableRun(p, c, Origin(0, key), LatestMessages(theirs, room, 100))
    ensures var sent := LatestMessages(theirs, room, 100);
            var r := Joining(p, c, v, room, peers, mine, NoRows, arrivals, at, false, faults);
            && (r.outcome == Joined <==> forall k :: 0 <= k < |sent| ==> !Suspect(v, peers, sent[k].body, at(k)))
            && (r.outcome == Joined ==>
                  && r.standing == Some(Standing(Origin(0, key), WindowAfter(Fresh(0), sent)))
                  && Displays(p, c, Origin(0, key), r.shown, sent, peers, faults))
            && (r.outcome != Joined ==> r.outcome == JoinFailed && r.shown == [] && r.standing == None)
  {
    NewcomerSeesTheirHistory(p, c, v, key, room, theirs, mine, peers, at, faults);
    var answer := Answer(c, theirs, room, key);
    AnswerArrivesFirst(arrivals, attempt, answer);
    AnswerDecidesJoin(p, c, v, room, mine, peers, arrivals, at, faults, answer);
    NoneSuspectExactly(v, peers, LatestMessages(theirs, room, HELP_LIMIT), at);
  }

  /** A join from an answer that has arrived. */
  lemma AnswerDecidesJoin(
    p: Primitives, c: Codecs, v: Verifier, room: string, rows: seq<Row>, peers: map<string, User>,
    arrivals: nat -> Arrival, at: nat -> Conditions, faults: nat -> bool, answer: CatchUpResponse)
    requires FirstArrival(arrivals, 0) == Response(answer)
    ensures var (after, ready) := Processed(c, v, peers, rows, answer, at);
            Joining(p, c, v, room, peers, rows, NoRows, arrivals, at, false, faults)
            == match ready
               case Failed => JoinResult(after, JoinFailed, None, [])
               case Crash => JoinResult(after, JoinCrashed, None, [])
               case Ready(origin) =>
                 var r := FirstReplay(p, c, origin, after, room, peers, faults);
                 JoinResult(after, Verdict(ready, r.status), Some(Standing(origin, r.window)), r.shown)
  {
  }

  lemma AnswerArrivesFirst(arrivals: nat -> Arrival, attempt: nat, answer: CatchUpResponse)
    requires attempt < 5 && arrivals(attempt) == Response(answer)
    requires forall k :: 0 <= k < attempt ==> arrivals(k) == Timeout
    ensures FirstArrival(arrivals, 0) == Response(answer)
  {
    var first := FirstArrival(arrivals, 0);
    assert first != Timeout;
    var k :| 0 <= k < MAX_RETRIES && arrivals(k) == first && forall j :: 0 <= j < k ==> arrivals(j) == Timeout;
    assert k == attempt;
  }

  /** All answered messages pass exactly when none is suspect, the copies made of them no less than the originals. */
  lemma NoneSuspectExactly(v: Verifier, peers: map<string, User>, sent: seq<StoredMessage>, at: nat -> Conditions)
    requires forall k: nat :: !at(k).writeFails
    ensures StopsAt(v, peers, ImportedAll(sent), at) == |sent|
            <==> forall k :: 0 <= k < |sent| ==> !Suspect(v, peers, sent[k].body, at(k))
  {
    StopsAtExactly(v, peers, ImportedAll(sent), at, |sent|);
    assert forall k :: 0 <= k < |sent| ==> ImportedAll(sent)[k].body == sent[k].body;
  }

  /**
   * A later join, with stored auth: nobody is asked and no row is touched. From the stored index and
   * key it displays one's own first 200 messages, if they are readable and their senders known.
   */
  lemma LaterJoinShowsOwnHistory(
    p: Primitives, c: Codecs, v: Verifier, origin: Origin, room: string, mine: seq<Row>, peers: map<string, User>,
    arrivals: nat -> Arrival, at: nat -> Conditions, faults: nat -> bool)
    requires Consistent(mine) && ReadableTable(p, c, origin, room, mine)
    ensures ReadableRun(p, c, origin, LatestMessages(mine, room, 200))
    ensures var msgs := LatestMessages(mine, room, 200);
            var auth := Found(origin.start, origin.master);
            var r := Joining(p, c, v, room, peers, mine, auth, arrivals, at, false, faults);
            && r.rows == mine
            && r.outcome == (if SendersKnown(msgs, peers, faults) then Joined else JoinCrashed)
            && (r.outcome == Joined ==>
                  && r.standing == Some(Standing(origin, WindowAfter(Fresh(origin.start), msgs)))
                  && Displays(p, c, origin, r.shown, msgs, peers, faults))
  {
    var msgs := LatestMessages(mine, room, REPLAY_LIMIT);
    LatestIsReadableRun(p, c, origin, room, mine, REPLAY_LIMIT);
    if msgs != [] {
      assert Readable(p, c, origin, msgs[0]);
    }
    ReplayEndsExactly(p, c, origin, Fresh(origin.start), msgs, peers, faults);
    if SendersKnown(msgs, peers, faults) {
      RejoinShowsOwnHistory(p, c, origin, room, mine, peers, faults);
    }
  }

  /** Without auth that can be read and without an answer, or with one that names an error, nothing happens. */
  lemma JoinWithoutAnswerFails(
    p: Primitives, c: Codecs, v: Verifier, room: string, rows: seq<Row>, peers: map<string, User>, auth: Auth,
    arrivals: nat -> Arrival, at: nat -> Conditions, queryFault: bool, faults: nat -> bool)
    requires || auth.AuthFault?
             || (auth.NoRows? && forall k :: 0 <= k < 5 && arrivals(k).Response? ==> arrivals(k).response.error != "")
    ensures Joining(p, c, v, room, peers, rows, auth, arrivals, at, queryFault, faults)
            == JoinResult(rows, JoinFailed, None, [])
  {
  }

  /**
   * A message among one's own first 200 that cannot be shown ends the join at it: a nil dereference for
   * a JSON null, a failure otherwise, with what comes before it displayed.
   */
  lemma UnshowableMessageEndsJoin(
    p: Primitives, c: Codecs, v: Verifier, origin: Origin, room: string, mine: seq<Row>, peers: map<string, User>,
    arrivals: nat -> Arrival, at: nat -> Conditions, faults: nat -> bool, n: nat, status: Status)
    requires n < |LatestMessages(mine, room, 200)|
    requires var msgs := LatestMessages(mine, room, 200);
             && ReadableRun(p, c, origin, msgs[..n]) && SendersKnown(msgs[..n], peers, faults)
             && Unshowable(p, c, origin, WindowAfter(Fresh(origin.start), msgs[..n]), msgs[n], status)
    ensures var msgs := LatestMessages(mine, room, 200);
            var auth := Found(origin.start, origin.master);
            var r := Joining(p, c, v, room, peers, mine, auth, arrivals, at, false, faults);
            && r.rows == mine
            && r.outcome == (if status == NilMessage then JoinCrashed else JoinFailed)
            && Displays(p, c, origin, r.shown, msgs[..n], peers, faults)
  {
    var msgs := LatestMessages(mine, room, REPLAY_LIMIT);
    if n > 0 {
      assert Readable(p, c, origin, msgs[..n][0]);
    }
    UnshowableMessageEndsReplay(p, c, origin, Fresh(origin.start), msgs, peers, faults, n, status);
  }
}
