/** internal/client/helpers.go: what a member answers to a catch-up request and what a joiner does with it. */
module CatchUp {
  import opened MachineInts
  import opened Ratchets
  import opened Tables
  import opened CatchUpCodec
  import History

  datatype CatchUpResponse = CatchUpResponse(
    chainIndex: uint64, masterRoomKey: Bytes, catchUpMessages: Bytes, error: string)

  /** What GetAuth reports for a room. */
  datatype Auth = Found(index: uint64, key: Bytes) | NoRows | AuthFault

  const HELP_LIMIT: nat := 100

  // ---------- the responder ----------

  /** The answer for a table of `rows`: always from index 0, at most HELP_LIMIT messages. */
  function Answer(c: Codecs, rows: seq<Row>, room: string, key: Bytes): CatchUpResponse {
    CatchUpResponse(0, key, Payload(c, MessagesSince(rows, room, 0, HELP_LIMIT)), "")
  }

  /** One turn of helpCatchUp, for a request that passed its checks; None ends the service. */
  method HelpCatchUp(
    c: Codecs, h: History.HistoryManager, store: Store, room: string, auth: Auth,
    queryFault: bool, indexFault: bool) returns (r: Option<CatchUpResponse>)
    modifies h`lastIndex
    ensures r.Some? <==> auth.Found?
    ensures auth.Found? && !queryFault ==> r == Some(Answer(c, store.messages, room, auth.key))
    ensures auth.Found? && queryFault ==>
              && r.value.error != "" && r.value.catchUpMessages == []
              && r.value.chainIndex == 0 && r.value.masterRoomKey == auth.key
  {
    var built := BuildCatchUpPayload(c, h, store, room, 0, HELP_LIMIT, queryFault, indexFault);
    if !auth.Found? {
      return None;
    }
    match built
    case Built(payload, _, _) => return Some(CatchUpResponse(0, auth.key, payload, ""));
    case BuildFailed => return Some(CatchUpResponse(0, auth.key, [], "failed to build catch-up payload"));
  }

  // ---------- validation ----------

  /** Whether a signature over a payload verifies under a public key. */
  type Verifier = (Bytes, Option<Bytes>, Option<Bytes>) -> bool

  /** The clock and the database while one message is handled. */
  datatype Conditions = Conditions(now: int, readFails: bool, writeFails: bool)

  /** validateMessageSecurity. */
  predicate Secure(v: Verifier, sender: User, senderID: string, now: int, m: Body) {
    && sender.peerID == senderID
    && m.timestamp <= now
    && sender.dilithiumPub.Some?
    && v(sender.dilithiumPub.value, m.payload, m.signature)
  }

  /** validateCatchupMessageSecurity: a known sender, not from the future, and signed by the sender. */
  predicate Valid(v: Verifier, peers: map<string, User>, m: StoredMessage, at: Conditions) {
    && !at.readFails
    && m.body.senderID in peers
    && Secure(v, peers[m.body.senderID], m.body.senderID, at.now, m.body)
  }

  /** Logging the failure of a save dereferences the chain index. */
  predicate Crashes(m: StoredMessage, at: Conditions) {
    at.writeFails && m.chainIndex.None?
  }

  // ---------- the save loop ----------

  datatype SaveOutcome = AllSaved | Rejected | Crashed

  predicate Passes(v: Verifier, peers: map<string, User>, msgs: seq<StoredMessage>, at: nat -> Conditions, k: nat)
    requires k < |msgs|
  {
    Valid(v, peers, msgs[k], at(k)) && !Crashes(msgs[k], at(k))
  }

  /** Where the loop stops: at the first message that does not pass, or at the end. */
  function StopsAt(v: Verifier, peers: map<string, User>, msgs: seq<StoredMessage>, at: nat -> Conditions): (n: nat)
    ensures n <= |msgs|
    ensures forall k :: 0 <= k < n ==> Passes(v, peers, msgs, at, k)
    ensures n < |msgs| ==> !Passes(v, peers, msgs, at, n)
  {
    if msgs == [] then 0
    else
      var last := |msgs| - 1;
      assert forall k :: 0 <= k < last ==> Passes(v, peers, msgs[..last], at, k) == Passes(v, peers, msgs, at, k);
      var n := StopsAt(v, peers, msgs[..last], at);
      if n == last && Passes(v, peers, msgs, at, last) then last + 1 else n
  }

  /** The messages whose save is not refused by the engine. */
  function Written(msgs: seq<StoredMessage>, at: nat -> Conditions): seq<StoredMessage> {
    if msgs == [] then []
    else
      var last := |msgs| - 1;
      Written(msgs[..last], at) + if at(last).writeFails then [] else [msgs[last]]
  }

  ghost predicate AllPass(
    v: Verifier, peers: map<string, User>, msgs: seq<StoredMessage>, at: nat -> Conditions, n: nat)
    requires n <= |msgs|
  {
    forall k :: 0 <= k < n ==> Passes(v, peers, msgs, at, k)
  }

  lemma StopsHere(v: Verifier, peers: map<string, User>, msgs: seq<StoredMessage>, at: nat -> Conditions, n: nat)
    requires n <= |msgs| && AllPass(v, peers, msgs, at, n)
    requires n < |msgs| ==> !Passes(v, peers, msgs, at, n)
    ensures StopsAt(v, peers, msgs, at) == n
  {
    var stop := StopsAt(v, peers, msgs, at);
  }

  lemma SaveNext(rows: seq<Row>, msgs: seq<StoredMessage>, at: nat -> Conditions, i: nat)
    requires i < |msgs|
    ensures InsertAll(rows, Written(msgs[..i + 1], at))
            == var before := InsertAll(rows, Written(msgs[..i], at));
               if at(i).writeFails then before else InsertOrIgnore(before, msgs[i])
  {
    assert msgs[..i + 1][..i] == msgs[..i];
    var written := Written(msgs[..i], at);
    if at(i).writeFails {
      assert written + [] == written;
    } else {
      assert (written + [msgs[i]])[..|written|] == written;
    }
  }

  method SaveCatchUp(v: Verifier, store: Store, msgs: seq<StoredMessage>, at: nat -> Conditions)
    returns (outcome: SaveOutcome)
    modifies store`messages
    ensures var n := StopsAt(v, store.peers, msgs, at);
            && store.messages == InsertAll(old(store.messages), Written(msgs[..n], at))
            && outcome == if n == |msgs| then AllSaved
                          else if Valid(v, store.peers, msgs[n], at(n)) then Crashed else Rejected
  {
    ghost var peers, rows := store.peers, store.messages;
    assert msgs[..0] == [];
    var i := 0;
    while i < |msgs|
      invariant 0 <= i <= |msgs|
      invariant store.peers == peers
      invariant AllPass(v, peers, msgs, at, i)
      invariant store.messages == InsertAll(rows, Written(msgs[..i], at))
    {
      var sender := store.GetUserByID(msgs[i].body.senderID, at(i).readFails);
      if sender.Err? || sender.value.None?
         || !Secure(v, sender.value.value, msgs[i].body.senderID, at(i).now, msgs[i].body) {
        StopsHere(v, peers, msgs, at, i);
        return Rejected;
      }
      var ok := store.SaveEnvelope(msgs[i], at(i).writeFails);
      if !ok && msgs[i].chainIndex.None? {
        StopsHere(v, peers, msgs, at, i);
        return Crashed;
      }
      SaveNext(rows, msgs, at, i);
      i := i + 1;
    }
    StopsHere(v, peers, msgs, at, i);
    return AllSaved;
  }

  lemma {:induction false} WrittenWithoutFaults(msgs: seq<StoredMessage>, at: nat -> Conditions)
    requires forall k: nat :: !at(k).writeFails
    ensures Written(msgs, at) == msgs
  {
    if msgs != [] {
      WrittenWithoutFaults(msgs[..|msgs| - 1], at);
    }
  }

  lemma {:induction false} WrittenAreMessages(msgs: seq<StoredMessage>, at: nat -> Conditions, i: nat)
    requires i < |Written(msgs, at)|
    ensures exists k :: 0 <= k < |msgs| && msgs[k] == Written(msgs, at)[i] && !at(k).writeFails
  {
    var last := |msgs| - 1;
    if i < |Written(msgs[..last], at)| {
      WrittenAreMessages(msgs[..last], at, i);
      var k :| 0 <= k < last && msgs[..last][k] == Written(msgs[..last], at)[i] && !at(k).writeFails;
      assert msgs[k] == Written(msgs, at)[i];
    } else {
      assert msgs[last] == Written(msgs, at)[i];
    }
  }

  /**
   * Merging a catch-up keeps every row. Each row it adds is a message that stands before the first
   * refused one, of a sender known under its own id, not from the future, and signed with the
   * sender's key over the payload.
   */
  lemma OnlyValidMessagesAreAdded(
    v: Verifier, peers: map<string, User>, rows: seq<Row>, msgs: seq<StoredMessage>, at: nat -> Conditions, i: nat)
    requires Consistent(rows)
    requires i < |InsertAll(rows, Written(msgs[..StopsAt(v, peers, msgs, at)], at))|
    ensures var n := StopsAt(v, peers, msgs, at);
            var after := InsertAll(rows, Written(msgs[..n], at));
            && rows <= after && Consistent(after)
            && (i >= |rows| ==>
                  exists k :: 0 <= k < n && Storable(msgs[k])
                              && after[i].body == msgs[k].body && after[i].chain == Column(msgs[k].chainIndex)
                              && var m := after[i].body;
                                 && !at(k).readFails && !at(k).writeFails
                                 && m.senderID in peers && peers[m.senderID].peerID == m.senderID
                                 && m.timestamp <= at(k).now
                                 && peers[m.senderID].dilithiumPub.Some?
                                 && v(peers[m.senderID].dilithiumPub.value, m.payload, m.signature))
  {
    var n := StopsAt(v, peers, msgs, at);
    var written := Written(msgs[..n], at);
    var after := InsertAll(rows, written);
    InsertAllKeepsRows(rows, written);
    if i >= |rows| {
      MergedRowsComeFrom(rows, written, i);
      var j :| 0 <= j < |written| && Storable(written[j]) && after[i].body == written[j].body
               && after[i].chain == Column(written[j].chainIndex);
      WrittenAreMessages(msgs[..n], at, j);
      var k :| 0 <= k < n && msgs[..n][k] == written[j] && !at(k).writeFails;
      assert Passes(v, peers, msgs, at, k);
    }
  }

  /** A message whose sender is unknown, or known under another id, or that is too new or not signed by it. */
  ghost predicate Suspect(v: Verifier, peers: map<string, User>, m: Body, at: Conditions) {
    || at.readFails
    || m.senderID !in peers
    || peers[m.senderID].peerID != m.senderID
    || m.timestamp > at.now
    || peers[m.senderID].dilithiumPub.None?
    || !v(peers[m.senderID].dilithiumPub.value, m.payload, m.signature)
  }

  /**
   * The save loop, on any messages: it goes through exactly when none is suspect and none without
   * an index meets a failing write, and otherwise stops at the first such message.
   */
  lemma {:induction false} StopsAtExactly(
    v: Verifier, peers: map<string, User>, msgs: seq<StoredMessage>, at: nat -> Conditions, n: nat)
    requires n <= |msgs|
    ensures StopsAt(v, peers, msgs, at) == n
            <==> && (forall k :: 0 <= k < n ==> !Suspect(v, peers, msgs[k].body, at(k))
                                                && !(at(k).writeFails && msgs[k].chainIndex.None?))
                 && (n < |msgs| ==> Suspect(v, peers, msgs[n].body, at(n))
                                    || (at(n).writeFails && msgs[n].chainIndex.None?))
  {
    forall k | 0 <= k < |msgs|
      ensures Passes(v, peers, msgs, at, k) <==> !Suspect(v, peers, msgs[k].body, at(k))
                                                 && !(at(k).writeFails && msgs[k].chainIndex.None?)
    {
    }
    if forall k :: 0 <= k < n ==> Passes(v, peers, msgs, at, k) {
      if n < |msgs| ==> !Passes(v, peers, msgs, at, n) {
        StopsHere(v, peers, msgs, at, n);
      }
    }
  }

  // ---------- the request ----------

  /** What one attempt to receive a response brings. */
  datatype Arrival = Timeout | Unreadable | Insecure | OtherMessage | Response(response: CatchUpResponse)

  datatype RequestOutcome = Ready(ratchet: Origin) | Failed | Crash

  const MAX_RETRIES: nat := 5

  /** The first arrival among the attempts left. */
  function FirstArrival(arrivals: nat -> Arrival, from: nat): (first: Arrival)
    ensures first == Timeout <==> forall k :: from <= k < MAX_RETRIES ==> arrivals(k) == Timeout
    ensures first != Timeout ==>
              exists k :: from <= k < MAX_RETRIES && arrivals(k) == first
                          && forall j :: from <= j < k ==> arrivals(j) == Timeout
    decreases MAX_RETRIES - from
  {
    if from >= MAX_RETRIES then Timeout
    else if arrivals(from).Timeout? then FirstArrival(arrivals, from + 1)
    else arrivals(from)
  }

  /** What a response does to the rows, and what the request then returns. */
  function Processed(
    c: Codecs, v: Verifier, peers: map<string, User>, rows: seq<Row>, r: CatchUpResponse, at: nat -> Conditions)
    : (seq<Row>, RequestOutcome)
  {
    if r.error != "" then (rows, Failed)
    else
      match Decompressed(c, r.catchUpMessages)
      case Decoded(msgs) =>
        var n := StopsAt(v, peers, msgs, at);
        (InsertAll(rows, Written(msgs[..n], at)),
         if n == |msgs| then Ready(Origin(r.chainIndex, r.masterRoomKey))
         else if Valid(v, peers, msgs[n], at(n)) then Crash else Failed)
      case _ => (rows, Crash) // the length of a nil result is logged before its error is looked at
  }

  method RequestCatchUp(c: Codecs, v: Verifier, store: Store, arrivals: nat -> Arrival, at: nat -> Conditions)
    returns (r: RequestOutcome)
    modifies store`messages
    ensures match FirstArrival(arrivals, 0)
            case Response(response) =>
              (store.messages, r) == Processed(c, v, store.peers, old(store.messages), response, at)
            case _ => r == Failed && store.messages == old(store.messages)
  {
    var attempt := 0;
    while attempt < MAX_RETRIES
      invariant 0 <= attempt <= MAX_RETRIES
      invariant FirstArrival(arrivals, attempt) == FirstArrival(arrivals, 0)
      invariant store.messages == old(store.messages)
    {
      var arrival := arrivals(attempt);
      if !arrival.Timeout? {
        if !arrival.Response? || arrival.response.error != "" {
          return Failed;
        }
        var response := arrival.response;
        var decoded := DecompressCatchUpPayload(c, response.catchUpMessages);
        if !decoded.Decoded? {
          return Crash;
        }
        var saved := SaveCatchUp(v, store, decoded.msgs, at);
        match saved
        case AllSaved => return Ready(Origin(response.chainIndex, response.masterRoomKey));
        case Rejected => return Failed;
        case Crashed => return Crash;
      }
      attempt := attempt + 1;
    }
    return Failed;
  }

  /**
   * One suspect message ends a request: the messages before it are saved, neither it nor any
   * after it is, and the request fails.
   */
  lemma SuspectMessageFailsRequest(
    c: Codecs, v: Verifier, peers: map<string, User>, rows: seq<Row>, r: CatchUpResponse, at: nat -> Conditions,
    msgs: seq<StoredMessage>, n: nat)
    requires r.error == "" && Decompressed(c, r.catchUpMessages) == Decoded(msgs) && n < |msgs|
    requires forall k: nat :: !at(k).writeFails
    requires forall k :: 0 <= k < n ==> !Suspect(v, peers, msgs[k].body, at(k))
    requires Suspect(v, peers, msgs[n].body, at(n))
    ensures Processed(c, v, peers, rows, r, at) == (InsertAll(rows, msgs[..n]), Failed)
  {
    StopsAtExactly(v, peers, msgs, at, n);
    WrittenWithoutFaults(msgs[..n], at);
  }

  /** If none is suspect, all are saved, and the ratchet is the one of the index and key in the answer. */
  lemma CleanAnswerYieldsItsRatchet(
    c: Codecs, v: Verifier, peers: map<string, User>, rows: seq<Row>, r: CatchUpResponse, at: nat -> Conditions,
    msgs: seq<StoredMessage>)
    requires r.error == "" && Decompressed(c, r.catchUpMessages) == Decoded(msgs)
    requires forall k: nat :: !at(k).writeFails
    requires forall k :: 0 <= k < |msgs| ==> !Suspect(v, peers, msgs[k].body, at(k))
    ensures Processed(c, v, peers, rows, r, at)
            == (InsertAll(rows, msgs), Ready(Origin(r.chainIndex, r.masterRoomKey)))
  {
    StopsAtExactly(v, peers, msgs, at, |msgs|);
    assert msgs[..|msgs|] == msgs;
    WrittenWithoutFaults(msgs, at);
  }

  /** A write that fails on a message without an index crashes the request, since its index is logged. */
  lemma UnindexedWriteFaultCrashes(
    c: Codecs, v: Verifier, peers: map<string, User>, rows: seq<Row>, r: CatchUpResponse, at: nat -> Conditions,
    msgs: seq<StoredMessage>, n: nat)
    requires r.error == "" && Decompressed(c, r.catchUpMessages) == Decoded(msgs) && n < |msgs|
    requires forall k :: 0 <= k <= n ==> !Suspect(v, peers, msgs[k].body, at(k))
    requires forall k :: 0 <= k < n ==> msgs[k].chainIndex.Some?
    requires at(n).writeFails && msgs[n].chainIndex.None?
    ensures Processed(c, v, peers, rows, r, at).1 == Crash
  {
    StopsAtExactly(v, peers, msgs, at, n);
  }

  /** An answer that names an error is refused, and one whose payload does not decode crashes; no row is touched. */
  lemma BadAnswerChangesNothing(
    c: Codecs, v: Verifier, peers: map<string, User>, rows: seq<Row>, r: CatchUpResponse, at: nat -> Conditions)
    ensures r.error != "" ==> Processed(c, v, peers, rows, r, at) == (rows, Failed)
    ensures r.error == "" && r.catchUpMessages != [] && c.gunzip(r.catchUpMessages) == BadHeader ==>
              Processed(c, v, peers, rows, r, at) == (rows, Crash)
    ensures r.error == "" && !Decompressed(c, r.catchUpMessages).Decoded? ==>
              Processed(c, v, peers, rows, r, at) == (rows, Crash)
  {
  }

  /**
   * What a joiner holds after a faultless answer from a member's table, whichever way validation
   * went: each old row in place, and a new index exactly for each answered message before the
   * first invalid one.
   */
  lemma AnswerMergesExactly(
    c: Codecs, v: Verifier, peers: map<string, User>, theirs: seq<Row>, mine: seq<Row>, room: string, key: Bytes,
    at: nat -> Conditions, chain: int64)
    requires c.Lawful() && Consistent(theirs) && c.Frameable(MessagesSince(theirs, room, 0, HELP_LIMIT))
    requires forall k: nat :: !at(k).writeFails
    ensures var msgs := ImportedAll(MessagesSince(theirs, room, 0, HELP_LIMIT));
            var n := StopsAt(v, peers, msgs, at);
            var (after, outcome) := Processed(c, v, peers, mine, Answer(c, theirs, room, key), at);
            && mine <= after
            && (Holds(after, room, chain) <==> Holds(mine, room, chain) || Offers(msgs[..n], room, chain))
            && outcome == if n == |msgs| then Ready(Origin(0, key)) else Failed
  {
    var sent := MessagesSince(theirs, room, 0, HELP_LIMIT);
    PayloadRoundTrip(c, sent);
    var msgs := ImportedAll(sent);
    var n := StopsAt(v, peers, msgs, at);
    WrittenWithoutFaults(msgs[..n], at);
    MergeAddsExactlyTheMissing(mine, msgs[..n], room, chain);
  }

  // ---------- the index in the answer ----------

  /** The two origins give every message key alike, whatever the primitives and the room key. */
  ghost predicate SameKeys(start: uint64, start': uint64) {
    forall p: Primitives, key: Bytes, i: nat ::
      p.Lawful() && start <= i && start' <= i ==> KeyAt(p, Origin(start, key), i) == KeyAt(p, Origin(start', key), i)
  }

  /** Primitives whose keys tell an unstepped empty chain key from any other. */
  function TellingPrimitives(): Primitives {
    Primitives((k, _) => Material(seq(32, _ => if k == [] then 0 else 1), seq(12, _ => 0)),
               (k, _) => k + [0],
               (_, text) => text + seq(TAG_SIZE, _ => 0),
               (_, ciphertext) => if |ciphertext| < TAG_SIZE then None else Some(ciphertext[..|ciphertext| - TAG_SIZE]))
  }

  lemma TellingPrimitivesAreLawful()
    ensures TellingPrimitives().Lawful()
  {
    var p := TellingPrimitives();
    forall m: Material, text: Bytes ensures p.open(m, p.seal(m, text)) == Some(text) {
      assert (text + seq(TAG_SIZE, _ => 0))[..|text|] == text;
    }
  }

  lemma {:induction false} TellingChainGrows(steps: nat)
    ensures |ChainAt(TellingPrimitives(), [], steps)| == steps
  {
    if steps > 0 {
      TellingChainGrows(steps - 1);
    }
  }

  /**
   * The answer always names index 0, whatever index is stored beside the key. It puts the joiner on
   * the member's chain exactly when the stored index is 0, which is what creating a room stores.
   */
  lemma AnswerFitsExactlyStartZero(start: uint64)
    ensures SameKeys(0, start) <==> start == 0
  {
    if start != 0 {
      var p := TellingPrimitives();
      TellingPrimitivesAreLawful();
      TellingChainGrows(start);
      TellingChainGrows(0);
      var mine, theirs := KeyAt(p, Origin(0, []), start), KeyAt(p, Origin(start, []), start);
      assert mine.key[0] == 1 && theirs.key[0] == 0;
    }
  }
}
