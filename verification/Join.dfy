/**
 * internal/client/handlers.go: joining a room (the ratchet set-up of JoinRoomHandler) and the
 * replay of the stored history (parseAndDisplayDBMessages).
 */
module Join {
  import opened MachineInts
  import opened Ratchets
  import opened Windows
  import opened WrapAround
  import opened Sessions
  import opened Tables
  import opened CatchUpCodec
  import opened CatchUp
  import opened Chat

  const REPLAY_LIMIT: nat := 200

  // ---------- replay ----------

  /**
   * NilMessage and NilSender are nil dereferences; Endless is a message on which the loops of
   * decryptMessage do not end (ExactTermination).
   */
  datatype Status = Finished | BadPayload | NilMessage | Endless | Undecryptable | NilSender

  datatype Replay = Replay(window: Window, shown: seq<Shown>, status: Status)

  /** A failed lookup of the sender is shown as unknown; an absent sender is a nil dereference. */
  function SenderFor(peers: map<string, User>, senderID: string, fault: bool): Option<User> {
    if fault then Some(User(senderID, "Unknown", "", None, None, None)) else UserOf(peers, senderID)
  }

  function ReplayOne(
    p: Primitives, c: Codecs, origin: Origin, r: Replay, m: StoredMessage, peers: map<string, User>,
    fault: bool): (t: Replay)
    requires OnChain(origin, r.window)
    ensures OnChain(origin, t.window)
  {
    match ParsedChat(c, m.body.payload)
    case Malformed => r.(status := BadPayload)
    case Null => r.(status := NilMessage)
    case Value(cm) =>
      if !Returns(r.window, cm.chainIndex) then r.(status := Endless)
      else
        LandedMoves(r.window, cm.chainIndex);
        var t := r.(window := Landed(r.window, cm.chainIndex));
        match Yielded(p, origin, r.window, cm)
        case Plain(text) =>
          (match SenderFor(peers, m.body.senderID, fault)
           case None => t.(status := NilSender)
           case Some(sender) => t.(shown := r.shown + [Shown(sender, m.body.timestamp, text)]))
        case _ => t.(status := Undecryptable)
  }

  /** Decrypting stored messages in order until one cannot be shown. */
  function ReplayAll(
    p: Primitives, c: Codecs, origin: Origin, w: Window, msgs: seq<StoredMessage>, peers: map<string, User>,
    faults: nat -> bool): (t: Replay)
    requires OnChain(origin, w)
    ensures OnChain(origin, t.window)
  {
    if msgs == [] then Replay(w, [], Finished)
    else
      var n := |msgs| - 1;
      var r := ReplayAll(p, c, origin, w, msgs[..n], peers, faults);
      if r.status != Finished then r else ReplayOne(p, c, origin, r, msgs[n], peers, faults(n))
  }

  lemma ReplayNext(
    p: Primitives, c: Codecs, origin: Origin, w: Window, msgs: seq<StoredMessage>, peers: map<string, User>,
    faults: nat -> bool, i: nat)
    requires OnChain(origin, w) && i < |msgs|
    requires ReplayAll(p, c, origin, w, msgs[..i], peers, faults).status == Finished
    ensures ReplayAll(p, c, origin, w, msgs[..i + 1], peers, faults)
            == ReplayOne(p, c, origin, ReplayAll(p, c, origin, w, msgs[..i], peers, faults), msgs[i], peers, faults(i))
  {
    assert msgs[..i + 1][..i] == msgs[..i];
  }

  lemma {:induction false} StuckStaysStuck(
    p: Primitives, c: Codecs, origin: Origin, w: Window, msgs: seq<StoredMessage>, peers: map<string, User>,
    faults: nat -> bool, k: nat)
    requires OnChain(origin, w) && k <= |msgs|
    requires ReplayAll(p, c, origin, w, msgs[..k], peers, faults).status != Finished
    ensures ReplayAll(p, c, origin, w, msgs, peers, faults) == ReplayAll(p, c, origin, w, msgs[..k], peers, faults)
    decreases |msgs|
  {
    if k == |msgs| {
      assert msgs[..k] == msgs;
    } else {
      assert msgs[..|msgs| - 1][..k] == msgs[..k];
      StuckStaysStuck(p, c, origin, w, msgs[..|msgs| - 1], peers, faults, k);
    }
  }

  /** The replay stands at `r` after `n` messages. */
  ghost predicate StandsAfter(
    p: Primitives, c: Codecs, origin: Origin, w: Window, msgs: seq<StoredMessage>, peers: map<string, User>,
    faults: nat -> bool, n: nat, r: Replay)
    requires OnChain(origin, w)
  {
    n <= |msgs| && forall first :: first == msgs[..n] ==> r == ReplayAll(p, c, origin, w, first, peers, faults)
  }

  lemma ReplayBegins(
    p: Primitives, c: Codecs, origin: Origin, w: Window, msgs: seq<StoredMessage>, peers: map<string, User>,
    faults: nat -> bool)
    requires OnChain(origin, w)
    ensures StandsAfter(p, c, origin, w, msgs, peers, faults, 0, Replay(w, [], Finished))
  {
  }

  /** One turn of the replay loop: it goes on, or the whole replay ends as this turn does. */
  lemma ReplayTurn(
    p: Primitives, c: Codecs, origin: Origin, w: Window, msgs: seq<StoredMessage>, peers: map<string, User>,
    faults: nat -> bool, i: nat, r: Replay)
    requires OnChain(origin, w) && i < |msgs|
    requires StandsAfter(p, c, origin, w, msgs, peers, faults, i, r) && r.status == Finished
    ensures OnChain(origin, r.window)
    ensures var t := ReplayOne(p, c, origin, r, msgs[i], peers, faults(i));
            && StandsAfter(p, c, origin, w, msgs, peers, faults, i + 1, t)
            && (t.status != Finished ==> t == ReplayAll(p, c, origin, w, msgs, peers, faults))
  {
    ReplayNext(p, c, origin, w, msgs, peers, faults, i);
    if ReplayOne(p, c, origin, r, msgs[i], peers, faults(i)).status != Finished {
      StuckStaysStuck(p, c, origin, w, msgs, peers, faults, i + 1);
    }
  }

  lemma ReplayEnds(
    p: Primitives, c: Codecs, origin: Origin, w: Window, msgs: seq<StoredMessage>, peers: map<string, User>,
    faults: nat -> bool, r: Replay)
    requires OnChain(origin, w) && StandsAfter(p, c, origin, w, msgs, peers, faults, |msgs|, r)
    ensures r == ReplayAll(p, c, origin, w, msgs, peers, faults)
  {
    assert msgs[..|msgs|] == msgs;
  }

  /** Every index in the payloads is at most 2^64-3. */
  predicate ReturningIndices(c: Codecs, msgs: seq<StoredMessage>) {
    forall i :: 0 <= i < |msgs| && ParsedChat(c, msgs[i].body.payload).Value?
                ==> ParsedChat(c, msgs[i].body.payload).value.chainIndex <= TWO_64 - 3
  }

  /** Such a replay comes to an end, from any state of the ratchets. */
  lemma {:induction false} ReplayComesToEnd(
    p: Primitives, c: Codecs, origin: Origin, w: Window, msgs: seq<StoredMessage>, peers: map<string, User>,
    faults: nat -> bool)
    requires OnChain(origin, w) && ReturningIndices(c, msgs)
    ensures ReplayAll(p, c, origin, w, msgs, peers, faults).status != Endless
  {
    if msgs != [] {
      assert forall i :: 0 <= i < |msgs| - 1 ==> msgs[..|msgs| - 1][i] == msgs[i];
      ReplayComesToEnd(p, c, origin, w, msgs[..|msgs| - 1], peers, faults);
    }
  }

  /** One turn of the loop: decrypt, look up the sender, display. */
  method ReplayMessage(
    session: RoomSession, store: Store, p: Primitives, c: Codecs, m: StoredMessage, fault: bool,
    ghost origin: Origin, ghost r: Replay, ghost before: seq<Shown>) returns (status: Status)
    requires session.StandsAt(p, origin, r.window) && r.status == Finished
    requires ReplayOne(p, c, origin, r, m, store.peers, fault).status != Endless
    requires session.messages == before + r.shown
    modifies session.roomRatchet, session.backupRatchet, session`messages
    ensures var t := ReplayOne(p, c, origin, r, m, store.peers, fault);
            && status == t.status
            && session.StandsAt(p, origin, t.window)
            && session.messages == before + t.shown
  {
    var cm := ParsedChat(c, m.body.payload);
    if cm == Malformed {
      return BadPayload;
    } else if cm == Null {
      return NilMessage;
    }
    var pt := session.DecryptMessage(p, cm.value, origin, r.window);
    if !pt.Plain? {
      return Undecryptable;
    }
    var found := store.GetUserByID(m.body.senderID, fault);
    var sender := if found.Err? then Some(User(m.body.senderID, "Unknown", "", None, None, None)) else found.value;
    if sender == None {
      return NilSender;
    }
    session.messages := session.messages + [Shown(sender.value, m.body.timestamp, pt.text)];
    return Finished;
  }

  /** parseAndDisplayDBMessages, over the messages the query returned. */
  method ReplayMessages(
    session: RoomSession, store: Store, p: Primitives, c: Codecs, msgs: seq<StoredMessage>, faults: nat -> bool,
    ghost origin: Origin, ghost w: Window) returns (status: Status)
    requires session.StandsAt(p, origin, w)
    requires ReplayAll(p, c, origin, w, msgs, store.peers, faults).status != Endless
    modifies session.roomRatchet, session.backupRatchet, session`messages
    ensures var r := ReplayAll(p, c, origin, w, msgs, store.peers, faults);
            && status == r.status
            && session.StandsAt(p, origin, r.window)
            && session.messages == old(session.messages) + r.shown
  {
    ghost var peers, shown := store.peers, session.messages;
    ghost var r := Replay(w, [], Finished);
    ReplayBegins(p, c, origin, w, msgs, peers, faults);
    var i := 0;
    while i < |msgs|
      invariant 0 <= i <= |msgs|
      invariant session.roomRatchet == old(session.roomRatchet) && session.backupRatchet == old(session.backupRatchet)
      invariant store.peers == peers
      invariant StandsAfter(p, c, origin, w, msgs, peers, faults, i, r) && r.status == Finished
      invariant session.StandsAt(p, origin, r.window)
      invariant session.messages == shown + r.shown
    {
      ReplayTurn(p, c, origin, w, msgs, peers, faults, i, r);
      status := ReplayMessage(session, store, p, c, msgs[i], faults(i), origin, r, shown);
      r := ReplayOne(p, c, origin, r, msgs[i], peers, faults(i));
      if status != Finished {
        return;
      }
      i := i + 1;
    }
    ReplayEnds(p, c, origin, w, msgs, peers, faults, r);
    return Finished;
  }

  // ---------- joining ----------

  datatype JoinOutcome = Joined | JoinFailed | JoinCrashed | JoinHangs

  /** Where the initial ratchet comes from: the stored auth, or else a catch-up. */
  function Prepared(
    c: Codecs, v: Verifier, peers: map<string, User>, rows: seq<Row>, auth: Auth, arrivals: nat -> Arrival,
    at: nat -> Conditions): (seq<Row>, RequestOutcome)
  {
    match auth
    case Found(index, key) => (rows, Ready(Origin(index, key)))
    case AuthFault => (rows, Failed)
    case NoRows =>
      match FirstArrival(arrivals, 0)
      case Response(response) => Processed(c, v, peers, rows, response, at)
      case _ => (rows, Failed)
  }

  /** The replay with which a join ends, from a fresh pair of ratchets at `origin`. */
  function FirstReplay(
    p: Primitives, c: Codecs, origin: Origin, rows: seq<Row>, room: string, peers: map<string, User>,
    faults: nat -> bool): Replay
  {
    ReplayAll(p, c, origin, Fresh(origin.start), LatestMessages(rows, room, REPLAY_LIMIT), peers, faults)
  }

  function Verdict(ready: RequestOutcome, status: Status): JoinOutcome {
    match ready
    case Failed => JoinFailed
    case Crash => JoinCrashed
    case Ready(_) =>
      match status
      case Finished => Joined
      case NilMessage | NilSender => JoinCrashed
      case Endless => JoinHangs
      case BadPayload | Undecryptable => JoinFailed
  }

  datatype Standing = Standing(origin: Origin, window: Window)

  /** The rows, the outcome, where the ratchets stand if they were set, and what was displayed. */
  datatype JoinResult = JoinResult(
    rows: seq<Row>, outcome: JoinOutcome, standing: Option<Standing>, shown: seq<Shown>)

  function Joining(
    p: Primitives, c: Codecs, v: Verifier, room: string, peers: map<string, User>, rows: seq<Row>, auth: Auth,
    arrivals: nat -> Arrival, at: nat -> Conditions, queryFault: bool, faults: nat -> bool): JoinResult
  {
    var (after, ready) := Prepared(c, v, peers, rows, auth, arrivals, at);
    match ready
    case Failed => JoinResult(after, JoinFailed, None, [])
    case Crash => JoinResult(after, JoinCrashed, None, [])
    case Ready(origin) =>
      if queryFault then JoinResult(after, JoinFailed, Some(Standing(origin, Fresh(origin.start))), [])
      else
        var r := FirstReplay(p, c, origin, after, room, peers, faults);
        JoinResult(after, Verdict(ready, r.status), Some(Standing(origin, r.window)), r.shown)
  }

  /** What depends on the stored auth and the arrivals alone. */
  lemma JoiningByAuth(
    p: Primitives, c: Codecs, v: Verifier, room: string, peers: map<string, User>, rows: seq<Row>, auth: Auth,
    arrivals: nat -> Arrival, at: nat -> Conditions, queryFault: bool, faults: nat -> bool)
    ensures var r := Joining(p, c, v, room, peers, rows, auth, arrivals, at, queryFault, faults);
            && (auth.AuthFault? || (auth.NoRows? && forall k :: 0 <= k < 5 ==> !arrivals(k).Response?) ==>
                  r == JoinResult(rows, JoinFailed, None, []))
            && (queryFault ==> r.outcome != Joined && r.shown == [])
            && (auth.Found? ==>
                  && r.rows == rows
                  && if queryFault then r.outcome == JoinFailed
                     else var replay := FirstReplay(p, c, Origin(auth.index, auth.key), rows, room, peers, faults);
                          && r.standing == Some(Standing(Origin(auth.index, auth.key), replay.window))
                          && r.shown == replay.shown)
  {
  }

  /** The ratchet from the stored auth or from a catch-up. */
  method PrepareRatchet(
    store: Store, c: Codecs, v: Verifier, auth: Auth, arrivals: nat -> Arrival, at: nat -> Conditions)
    returns (ready: RequestOutcome)
    modifies store`messages
    ensures (store.messages, ready) == Prepared(c, v, store.peers, old(store.messages), auth, arrivals, at)
  {
    match auth {
      case Found(index, key) => return Ready(Origin(index, key));
      case NoRows => ready := RequestCatchUp(c, v, store, arrivals, at);
      case AuthFault => return Failed;
    }
  }

  /**
   * The ratchet part of JoinRoomHandler, with the history replay of chatHandler behind it. The
   * precondition is that the replay comes to an end.
   */
  method JoinRoom(
    session: RoomSession, store: Store, p: Primitives, c: Codecs, v: Verifier, room: string, auth: Auth,
    arrivals: nat -> Arrival, at: nat -> Conditions, queryFault: bool, faults: nat -> bool)
    returns (outcome: JoinOutcome)
    requires Joining(p, c, v, room, store.peers, store.messages, auth, arrivals, at, queryFault, faults).outcome
             != JoinHangs
    modifies session, store`messages
    ensures var r := Joining(p, c, v, room, store.peers, old(store.messages), auth, arrivals, at, queryFault, faults);
            && store.messages == r.rows && outcome == r.outcome
            && session.messages == old(session.messages) + r.shown
            && (r.standing.Some? ==> session.StandsAt(p, r.standing.value.origin, r.standing.value.window))
            && (r.standing.None? ==>
                  && session.roomRatchet == old(session.roomRatchet)
                  && session.backupRatchet == old(session.backupRatchet))
    ensures auth.AuthFault? || (auth.NoRows? && forall k :: 0 <= k < 5 ==> !arrivals(k).Response?) ==>
              && outcome == JoinFailed
              && store.messages == old(store.messages) && session.messages == old(session.messages)
              && session.roomRatchet == old(session.roomRatchet) && session.backupRatchet == old(session.backupRatchet)
    ensures auth.Found? ==> store.messages == old(store.messages)
    ensures auth.Found? && !queryFault ==>
              var r := FirstReplay(p, c, Origin(auth.index, auth.key), store.messages, room, store.peers, faults);
              && session.StandsAt(p, Origin(auth.index, auth.key), r.window)
              && session.messages == old(session.messages) + r.shown
    ensures auth.Found? && queryFault ==> outcome == JoinFailed
    ensures queryFault ==> outcome != Joined && session.messages == old(session.messages)
  {
    JoiningByAuth(p, c, v, room, store.peers, store.messages, auth, arrivals, at, queryFault, faults);
    var ready := PrepareRatchet(store, c, v, auth, arrivals, at);
    if !ready.Ready? {
      return if ready.Crash? then JoinCrashed else JoinFailed;
    }
    outcome := StartChat(session, store, p, c, room, ready.ratchet, queryFault, faults);
  }

  /** A fresh pair of ratchets, and the replay with it. */
  method StartChat(
    session: RoomSession, store: Store, p: Primitives, c: Codecs, room: string, ratchet: Origin, queryFault: bool,
    faults: nat -> bool) returns (outcome: JoinOutcome)
    requires !queryFault ==> FirstReplay(p, c, ratchet, store.messages, room, store.peers, faults).status != Endless
    modifies session
    ensures var r := FirstReplay(p, c, ratchet, store.messages, room, store.peers, faults);
            && outcome == (if queryFault then JoinFailed else Verdict(Ready(ratchet), r.status))
            && session.StandsAt(p, ratchet, if queryFault then Fresh(ratchet.start) else r.window)
            && session.messages == old(session.messages) + if queryFault then [] else r.shown
  {
    var initial := new RoomRatchet(ratchet.start, ratchet.master);
    session.SetInitialRatchet(p, initial);
    var msgs := store.GetLatestMessages(room, REPLAY_LIMIT, queryFault);
    if msgs.Err? {
      return JoinFailed;
    }
    var status := ReplayMessages(session, store, p, c, msgs.value, faults, ratchet, Fresh(ratchet.start));
    return Verdict(Ready(ratchet), status);
  }
}
