/** internal/client/chat.go: sending and receiving in a room, and what both leave in the history queue. */
module Chat {
  import opened MachineInts
  import opened Ratchets
  import opened Windows
  import opened WrapAround
  import opened Sessions
  import opened Tables
  import opened CatchUpCodec
  import History

  datatype Envelope = Envelope(
    msgType: string, sender: User, timestamp: int64, signature: Option<Bytes>, payload: Option<Bytes>)

  const MAX_CIPHERTEXT: nat := 10000

  /**
   * What validateChatMessage leaves of an envelope. Its verdict is shown to the user and otherwise
   * ignored, but on its way it replaces a timestamp of zero by the clock, unless the ciphertext is
   * empty or too long and it gives up before that.
   */
  function Stamped(env: Envelope, cm: ChatMessage, now: int64): Envelope {
    if 0 < |cm.ciphertext| <= MAX_CIPHERTEXT && env.timestamp == 0 then env.(timestamp := now) else env
  }

  datatype Location = Location(roomID: string, serverID: string)

  const MSG_TYPE_CHAT: string := "chat"

  function Enveloped(here: Location, env: Envelope, index: uint64): StoredMessage {
    StoredMessage(0, Some(index),
                  Body(here.roomID, here.serverID, env.msgType, env.sender.peerID, env.timestamp,
                       env.signature, env.payload))
  }

  function ParsedChat(c: Codecs, payload: Option<Bytes>): Json<ChatMessage> {
    match payload case None => Malformed case Some(bytes) => c.parseChat(bytes)
  }

  /** Unmarshalling a received payload: the literal null leaves the zero message as it was. */
  function HeardChat(c: Codecs, payload: Option<Bytes>): Option<ChatMessage> {
    match ParsedChat(c, payload)
    case Malformed => None
    case Null => Some(ChatMessage(0, []))
    case Value(cm) => Some(cm)
  }

  // ---------- one room, event by event ----------

  /**
   * `offered` are the messages handed to the history queue, `texts` what was typed or displayed
   * with each of them. A payload that does not parse ends the receive loop for good.
   */
  datatype ChatState = ChatState(
    window: Window, listening: bool, shown: seq<Shown>, offered: seq<StoredMessage>, texts: seq<Bytes>)

  /** `delivered` says whether the topic exists and the publish succeeds; `now` is the receiver's clock. */
  datatype ChatEvent =
    | Say(me: User, text: Bytes, timestamp: int64, signature: Bytes, delivered: bool)
    | Hear(env: Envelope, now: int64)

  /** The message sealed for `text` in window `w`. */
  function Sealed(p: Primitives, origin: Origin, w: Window, text: Bytes): ChatMessage
    requires origin.start <= w.high
  {
    ChatMessage(IndexOf(w.high), p.seal(KeyAt(p, origin, w.high), text))
  }

  function SaidEnvelope(c: Codecs, e: ChatEvent, cm: ChatMessage): Envelope
    requires e.Say?
  {
    Envelope(MSG_TYPE_CHAT, e.me, e.timestamp, Some(e.signature), Some(c.printChat(cm)))
  }

  /** What a session in window `w` hands to its history when it says something. */
  function Said(p: Primitives, c: Codecs, origin: Origin, here: Location, w: Window, e: ChatEvent): StoredMessage
    requires e.Say? && origin.start <= w.high
  {
    var cm := Sealed(p, origin, w, e.text);
    Enveloped(here, SaidEnvelope(c, e, cm), cm.chainIndex)
  }

  predicate Coherent(origin: Origin, s: ChatState) {
    OnChain(origin, s.window)
  }

  /**
   * Where decryptMessage never returns the ratchets run on for ever, beside whatever is said next.
   * The lead is put past all indices, and nothing is claimed of a session from there on.
   */
  function RunAway(w: Window): Window {
    w.(high := w.high + TWO_64)
  }

  function ChatStep(
    p: Primitives, c: Codecs, origin: Origin, here: Location, s: ChatState, e: ChatEvent): (t: ChatState)
    requires Coherent(origin, s)
    ensures Coherent(origin, t)
  {
    match e
    case Say(_, text, _, _, delivered) =>
      var t := s.(window := s.window.Send());
      if !delivered then t
      else t.(offered := s.offered + [Said(p, c, origin, here, s.window, e)], texts := s.texts + [text])
    case Hear(env, now) =>
      if !s.listening then s
      else
        match HeardChat(c, env.payload)
        case None => s.(listening := false)
        case Some(cm) =>
          if !Returns(s.window, cm.chainIndex) then s.(listening := false, window := RunAway(s.window)) else
          LandedMoves(s.window, cm.chainIndex);
          var t := s.(window := Landed(s.window, cm.chainIndex));
          match Yielded(p, origin, s.window, cm)
          case Plain(text) =>
            var stamped := Stamped(env, cm, now);
            t.(shown := s.shown + [Shown(env.sender, stamped.timestamp, text)],
               offered := s.offered + [Enveloped(here, stamped, cm.chainIndex)], texts := s.texts + [text])
          case _ => t
  }

  function ChatRun(p: Primitives, c: Codecs, origin: Origin, here: Location, s: ChatState, events: seq<ChatEvent>)
    : (t: ChatState)
    requires Coherent(origin, s)
    ensures Coherent(origin, t)
  {
    if events == [] then s
    else ChatStep(p, c, origin, here, ChatRun(p, c, origin, here, s, events[..|events| - 1]), events[|events| - 1])
  }

  // ---------- the handlers ----------

  datatype SendResult = NotInRoom | NotDelivered | Stored | QueueFull

  /** SendMessageHandler. The ratchet has stepped even if the message then goes nowhere. */
  method SendMessage(
    session: RoomSession, h: History.HistoryManager, p: Primitives, c: Codecs, here: Location, e: ChatEvent,
    ghost origin: Origin, ghost s: ChatState) returns (r: SendResult)
    requires e.Say? && Coherent(origin, s)
    requires session.roomRatchet != null ==> session.StandsAt(p, origin, s.window)
    modifies session.roomRatchet, h`writeQ, h`accepted
    ensures r == NotInRoom <==> session.roomRatchet == null
    ensures r != NotInRoom ==> session.StandsAt(p, origin, ChatStep(p, c, origin, here, s, e).window)
    ensures r == Stored <==> r != NotInRoom && e.delivered && |old(h.writeQ)| < h.capacity
    ensures r == NotDelivered <==> r != NotInRoom && !e.delivered
    ensures old(h.accepted) <= h.accepted
    ensures s.offered + h.accepted[|old(h.accepted)|..]
            == if r == Stored then ChatStep(p, c, origin, here, s, e).offered else s.offered
    ensures r != NotInRoom ==> session.StandsAt(p, origin, Window(s.window.floor, s.window.high + 1))
    ensures h.accepted == old(h.accepted) + if r != Stored then [] else
              [StoredMessage(
                 0, Some(IndexOf(s.window.high)),
                 Body(here.roomID, here.serverID, "chat", e.me.peerID, e.timestamp, Some(e.signature),
                      Some(c.printChat(ChatMessage(IndexOf(s.window.high),
                                                   p.seal(KeyAt(p, origin, s.window.high), e.text))))))]
  {
    var cm := session.SealMessage(p, e.text, origin, s.window);
    if cm == None {
      return NotInRoom;
    }
    if !e.delivered {
      return NotDelivered;
    }
    var ok := h.EnqueueEnvelope(Enveloped(here, SaidEnvelope(c, e, cm.value), cm.value.chainIndex));
    return if ok then Stored else QueueFull;
  }

  datatype HearResult = LoopEnds | Dropped | Displayed

  /**
   * One turn of the receive loop of chatHandler. The verdict of validateChatMessage is shown to the
   * user and otherwise ignored, so of it only Stamped has a part here.
   */
  method HearMessage(
    session: RoomSession, h: History.HistoryManager, p: Primitives, c: Codecs, here: Location, env: Envelope,
    now: int64, ghost origin: Origin, ghost s: ChatState) returns (r: HearResult)
    requires Coherent(origin, s) && s.listening && session.messages == s.shown
    requires session.StandsAt(p, origin, s.window)
    requires HeardChat(c, env.payload).Some? ==> Returns(s.window, HeardChat(c, env.payload).value.chainIndex)
    modifies session.roomRatchet, session.backupRatchet, session`messages, h`writeQ, h`accepted
    ensures session.StandsAt(p, origin, ChatStep(p, c, origin, here, s, Hear(env, now)).window)
    ensures session.messages == ChatStep(p, c, origin, here, s, Hear(env, now)).shown
    ensures r == LoopEnds <==> !ChatStep(p, c, origin, here, s, Hear(env, now)).listening
    ensures old(h.accepted) <= h.accepted
    ensures s.offered + h.accepted[|old(h.accepted)|..]
            == if |old(h.writeQ)| < h.capacity then ChatStep(p, c, origin, here, s, Hear(env, now)).offered
               else s.offered
    ensures r == LoopEnds <==> env.payload.None? || c.parseChat(env.payload.value).Malformed?
    ensures r != Displayed ==> session.messages == old(session.messages) && h.accepted == old(h.accepted)
    ensures r != LoopEnds ==>
              var cm := HeardChat(c, env.payload).value;
              && (c.parseChat(env.payload.value).Value? ==> cm == c.parseChat(env.payload.value).value)
              && (r == Displayed <==> Yielded(p, origin, s.window, cm).Plain?)
              && (r == Displayed ==>
                    var time := if env.timestamp == 0 && 0 < |cm.ciphertext| <= 10000 then now else env.timestamp;
                    && session.messages == old(session.messages)
                                           + [Shown(env.sender, time, Yielded(p, origin, s.window, cm).text)]
                    && h.accepted == old(h.accepted) + if |old(h.writeQ)| >= h.capacity then [] else
                         [StoredMessage(0, Some(cm.chainIndex),
                                        Body(here.roomID, here.serverID, env.msgType, env.sender.peerID, time,
                                             env.signature, env.payload))])
  {
    var cm := HeardChat(c, env.payload);
    if cm == None {
      return LoopEnds;
    }
    var pt := session.DecryptMessage(p, cm.value, origin, s.window);
    if !pt.Plain? {
      return Dropped;
    }
    var stamped := Stamped(env, cm.value, now);
    session.messages := session.messages + [Shown(env.sender, stamped.timestamp, pt.text)];
    var _ := h.EnqueueEnvelope(Enveloped(here, stamped, cm.value.chainIndex));
    return Displayed;
  }

  // ---------- what gets into the history ----------

  /**
   * The message can be read again by whoever starts at `origin`: its payload names the same index
   * as its row, and opens under the key of that index.
   */
  predicate Readable(p: Primitives, c: Codecs, origin: Origin, m: StoredMessage) {
    && ParsedChat(c, m.body.payload).Value?
    && var cm := ParsedChat(c, m.body.payload).value;
    && m.chainIndex == Some(cm.chainIndex)
    && origin.start <= cm.chainIndex < TWO_63
    && p.open(KeyAt(p, origin, cm.chainIndex), cm.ciphertext).Some?
  }

  function TextOf(p: Primitives, c: Codecs, origin: Origin, m: StoredMessage): Bytes
    requires Readable(p, c, origin, m)
  {
    var cm := ParsedChat(c, m.body.payload).value;
    p.open(KeyAt(p, origin, cm.chainIndex), cm.ciphertext).value
  }

  ghost predicate FaithfulHistory(p: Primitives, c: Codecs, origin: Origin, here: Location, s: ChatState) {
    && |s.texts| == |s.offered|
    && forall k :: 0 <= k < |s.offered| ==>
         && s.offered[k].body.roomID == here.roomID && s.offered[k].body.serverID == here.serverID
         && Readable(p, c, origin, s.offered[k]) && TextOf(p, c, origin, s.offered[k]) == s.texts[k]
  }

  /**
   * The history has `m` from `e`: sender, type, time and signature are those of what was sent or
   * arrived, and `text` is what was typed. A heard message keeps its payload, and its time unless
   * that was zero.
   */
  ghost predicate CameFrom(c: Codecs, here: Location, e: ChatEvent, m: StoredMessage, text: Bytes) {
    && m.body.roomID == here.roomID && m.body.serverID == here.serverID
    && match e
       case Say(me, typed, timestamp, signature, delivered) =>
         && delivered && typed == text
         && m.body.senderID == me.peerID && m.body.msgType == "chat"
         && m.body.timestamp == timestamp && m.body.signature == Some(signature)
       case Hear(env, now) =>
         && m.body.senderID == env.sender.peerID && m.body.msgType == env.msgType
         && m.body.signature == env.signature && m.body.payload == env.payload
         && ParsedChat(c, m.body.payload).Value?
         && m.body.timestamp
            == if env.timestamp == 0 && |ParsedChat(c, m.body.payload).value.ciphertext| <= 10000 then now
               else env.timestamp
  }

  /** `sources` are the events, in order, that left what the history has got since `s`. */
  ghost predicate Explained(
    c: Codecs, here: Location, s: ChatState, events: seq<ChatEvent>, t: ChatState, sources: seq<nat>)
  {
    && s.offered <= t.offered
    && |t.offered| == |t.texts| == |s.offered| + |sources|
    && (forall j, k :: 0 <= j < k < |sources| ==> sources[j] < sources[k])
    && forall k :: 0 <= k < |sources| ==>
         && sources[k] < |events|
         && CameFrom(c, here, events[sources[k]], t.offered[|s.offered| + k], t.texts[|s.offered| + k])
  }

  /** Up to 2^63 a step is one of Windows, and the lead never falls. */
  lemma ChatStepMoves(p: Primitives, c: Codecs, origin: Origin, here: Location, s: ChatState, e: ChatEvent)
    requires Coherent(origin, s)
    ensures var t := ChatStep(p, c, origin, here, s, e);
            && s.window.high <= t.window.high
            && (s.window.Ordered() && t.window.high <= TWO_63 ==> t.window.Ordered())
  {
    if e.Hear? && s.listening && HeardChat(c, e.env.payload).Some? {
      var index := HeardChat(c, e.env.payload).value.chainIndex;
      if Returns(s.window, index) {
        LandedMoves(s.window, index);
        if s.window.Ordered() && s.window.high < TWO_64 {
          LandedInWindow(s.window, index);
        }
      }
    }
  }

  /**
   * Whatever is said and whatever arrives, from anyone and with any index below 2^63: each message
   * a session hands to its history reads back as exactly the text that was typed or displayed, and
   * comes from one event of its own, in order, with that event's sender, type, time and signature.
   */
  lemma {:induction false} HistoryIsFaithful(
    p: Primitives, c: Codecs, origin: Origin, here: Location, s: ChatState, events: seq<ChatEvent>)
    returns (sources: seq<nat>)
    requires p.Lawful() && c.Lawful()
    requires Coherent(origin, s) && s.window.Ordered() && FaithfulHistory(p, c, origin, here, s)
    requires ChatRun(p, c, origin, here, s, events).window.high <= TWO_63
    ensures FaithfulHistory(p, c, origin, here, ChatRun(p, c, origin, here, s, events))
    ensures Explained(c, here, s, events, ChatRun(p, c, origin, here, s, events), sources)
    ensures ChatRun(p, c, origin, here, s, events).window.Ordered()
  {
    if events == [] {
      sources := [];
    } else {
      var n := |events| - 1;
      var before := ChatRun(p, c, origin, here, s, events[..n]);
      ChatStepMoves(p, c, origin, here, before, events[n]);
      var earlier := HistoryIsFaithful(p, c, origin, here, s, events[..n]);
      StepIsFaithful(p, c, origin, here, before, events[n]);
      StepIsExplained(p, c, origin, here, before, events[n]);
      var t := ChatStep(p, c, origin, here, before, events[n]);
      sources := if t.offered == before.offered then earlier else earlier + [n];
      ExplainedOnward(c, here, s, events, before, t, earlier);
    }
  }

  lemma ExplainedOnward(
    c: Codecs, here: Location, s: ChatState, events: seq<ChatEvent>, before: ChatState, t: ChatState,
    earlier: seq<nat>)
    requires events != [] && Explained(c, here, s, events[..|events| - 1], before, earlier)
    requires || (t.offered == before.offered && t.texts == before.texts)
             || (exists m, text :: CameFrom(c, here, events[|events| - 1], m, text)
                                   && t.offered == before.offered + [m] && t.texts == before.texts + [text])
    ensures Explained(c, here, s, events, t,
                      if t.offered == before.offered then earlier else earlier + [|events| - 1])
  {
    var n := |events| - 1;
    ExplainedLater(c, here, s, events, before, earlier);
    if t.offered != before.offered {
      var m, text :| CameFrom(c, here, events[n], m, text)
                     && t.offered == before.offered + [m] && t.texts == before.texts + [text];
      ExplainedMore(c, here, s, events, before, t, earlier, m, text);
    }
  }

  lemma ExplainedLater(
    c: Codecs, here: Location, s: ChatState, events: seq<ChatEvent>, t: ChatState, sources: seq<nat>)
    requires events != [] && Explained(c, here, s, events[..|events| - 1], t, sources)
    ensures Explained(c, here, s, events, t, sources)
    ensures forall k :: 0 <= k < |sources| ==> sources[k] < |events| - 1
  {
    forall k | 0 <= k < |sources|
      ensures sources[k] < |events| - 1
      ensures CameFrom(c, here, events[sources[k]], t.offered[|s.offered| + k], t.texts[|s.offered| + k])
    {
      assert events[..|events| - 1][sources[k]] == events[sources[k]];
    }
  }

  lemma ExplainedMore(
    c: Codecs, here: Location, s: ChatState, events: seq<ChatEvent>, before: ChatState, t: ChatState,
    earlier: seq<nat>, m: StoredMessage, text: Bytes)
    requires events != [] && Explained(c, here, s, events, before, earlier)
    requires forall k :: 0 <= k < |earlier| ==> earlier[k] < |events| - 1
    requires CameFrom(c, here, events[|events| - 1], m, text)
    requires t.offered == before.offered + [m] && t.texts == before.texts + [text]
    ensures Explained(c, here, s, events, t, earlier + [|events| - 1])
  {
  }

  /** A step hands on at most one message, which comes from its event. */
  lemma StepIsExplained(p: Primitives, c: Codecs, origin: Origin, here: Location, s: ChatState, e: ChatEvent)
    requires p.Lawful() && Coherent(origin, s) && |s.texts| == |s.offered|
    ensures var t := ChatStep(p, c, origin, here, s, e);
            || (t.offered == s.offered && t.texts == s.texts)
            || (exists m, text :: CameFrom(c, here, e, m, text)
                                  && t.offered == s.offered + [m] && t.texts == s.texts + [text])
  {
    var t := ChatStep(p, c, origin, here, s, e);
    if t.offered != s.offered {
      var m, text := t.offered[|s.offered|], t.texts[|s.offered|];
      if e.Hear? {
        YieldsNothingShort(p, origin, s.window, HeardChat(c, e.env.payload).value);
      }
      assert CameFrom(c, here, e, m, text);
      assert t.offered == s.offered + [m] && t.texts == s.texts + [text];
    }
  }

  /** Nothing shorter than a tag is ever opened, the zero message of a JSON null included. */
  lemma YieldsNothingShort(p: Primitives, origin: Origin, w: Window, cm: ChatMessage)
    requires p.Lawful() && OnChain(origin, w) && Returns(w, cm.chainIndex)
    ensures Yielded(p, origin, w, cm).Plain? ==> |cm.ciphertext| >= 16
  {
    LandedMoves(w, cm.chainIndex);
  }

  lemma SaidIsFaithful(p: Primitives, c: Codecs, origin: Origin, here: Location, w: Window, e: ChatEvent)
    requires p.Lawful() && c.Lawful() && e.Say? && origin.start <= w.high < TWO_63
    ensures Readable(p, c, origin, Said(p, c, origin, here, w, e))
    ensures TextOf(p, c, origin, Said(p, c, origin, here, w, e)) == e.text
  {
    var cm := Sealed(p, origin, w, e.text);
    assert c.parseChat(c.printChat(cm)) == Value(cm);
    assert p.open(KeyAt(p, origin, w.high), cm.ciphertext) == Some(e.text);
  }

  lemma HeardIsFaithful(
    p: Primitives, c: Codecs, origin: Origin, here: Location, w: Window, env: Envelope, cm: ChatMessage)
    requires p.Lawful() && HeardChat(c, env.payload) == Some(cm)
    requires w.Ordered() && origin.start <= w.floor && w.high <= TWO_63 && cm.chainIndex < TWO_63
    requires Yielded(p, origin, w, cm).Plain?
    ensures Readable(p, c, origin, Enveloped(here, env, cm.chainIndex))
    ensures TextOf(p, c, origin, Enveloped(here, env, cm.chainIndex)) == Yielded(p, origin, w, cm).text
  {
    YieldedInWindow(p, origin, w, cm);
    assert ParsedChat(c, env.payload).Value?;
  }

  lemma StepIsFaithful(p: Primitives, c: Codecs, origin: Origin, here: Location, s: ChatState, e: ChatEvent)
    requires p.Lawful() && c.Lawful()
    requires Coherent(origin, s) && s.window.Ordered() && FaithfulHistory(p, c, origin, here, s)
    requires ChatStep(p, c, origin, here, s, e).window.high <= TWO_63
    ensures FaithfulHistory(p, c, origin, here, ChatStep(p, c, origin, here, s, e))
  {
    ChatStepMoves(p, c, origin, here, s, e);
    var t := ChatStep(p, c, origin, here, s, e);
    if |t.offered| > |s.offered| {
      match e
      case Say(_, _, _, _, _) => SaidIsFaithful(p, c, origin, here, s.window, e);
      case Hear(env, now) =>
        var cm := HeardChat(c, env.payload).value;
        LandedInWindow(s.window, cm.chainIndex);
        HeardIsFaithful(p, c, origin, here, s.window, Stamped(env, cm, now), cm);
    }
  }

  // ---------- messages that do not get into the history ----------

  /**
   * What a session hands to its history meets the writer's expectations (index below 2^63, nothing
   * NULL) exactly when it carries a signature: one that was heard need not, as chatHandler goes on
   * after a failed validation.
   */
  lemma OfferedIsWellFormedIfSigned(
    p: Primitives, c: Codecs, origin: Origin, here: Location, s: ChatState, events: seq<ChatEvent>, k: nat)
    requires p.Lawful() && c.Lawful()
    requires Coherent(origin, s) && s.window.Ordered() && FaithfulHistory(p, c, origin, here, s)
    requires ChatRun(p, c, origin, here, s, events).window.high <= TWO_63
    requires k < |ChatRun(p, c, origin, here, s, events).offered|
    ensures var m := ChatRun(p, c, origin, here, s, events).offered[k];
            History.WellFormed(m) <==> m.body.signature.Some?
  {
    var _ := HistoryIsFaithful(p, c, origin, here, s, events);
    assert Readable(p, c, origin, ChatRun(p, c, origin, here, s, events).offered[k]);
  }

  /** A chat message that arrives without a signature. */
  function Unsigned(p: Primitives, c: Codecs, origin: Origin, sender: User, text: Bytes, timestamp: int64): Envelope {
    Envelope(MSG_TYPE_CHAT, sender, timestamp, None,
             Some(c.printChat(Sealed(p, origin, Fresh(origin.start), text))))
  }

  /**
   * The input for which the cache runs ahead of the table: a message that arrives without a signature
   * is displayed and enqueued, then reported saved and cached, and no row of it is stored.
   */
  lemma UnsignedMessageMovesCache(
    p: Primitives, c: Codecs, origin: Origin, here: Location, sender: User, text: Bytes, timestamp: int64, now: int64)
    requires p.Lawful() && c.Lawful() && here.roomID != "" && origin.start <= TWO_64 - 3
    ensures var s := ChatState(Fresh(origin.start), true, [], [], []);
            var t := ChatStep(p, c, origin, here, s, Hear(Unsigned(p, c, origin, sender, text, timestamp), now));
            && |t.shown| == 1 && t.shown[0].content == text
            && |t.offered| == 1
            && var db := History.Save(History.HistoryDb([], map[]), t.offered[0]).value;
               db.rows == [] && db.lastIndex == map[here.roomID := origin.start] && !History.Bounded(db, here.roomID)
  {
    var cm := Sealed(p, origin, Fresh(origin.start), text);
    assert c.parseChat(c.printChat(cm)) == Value(cm);
    assert p.open(KeyAt(p, origin, origin.start), cm.ciphertext) == Some(text);
    LandedInWindow(Fresh(origin.start), origin.start);
    var t := ChatStep(p, c, origin, here, ChatState(Fresh(origin.start), true, [], [], []),
                      Hear(Unsigned(p, c, origin, sender, text, timestamp), now));
    History.IgnoredRowMovesCache(t.offered[0]);
  }

  /** Once the receive loop has ended nothing more is displayed, whatever is said or arrives. */
  lemma {:induction false} NothingIsHeardAfterTheLoop(
    p: Primitives, c: Codecs, origin: Origin, here: Location, s: ChatState, events: seq<ChatEvent>)
    requires Coherent(origin, s) && !s.listening
    ensures var t := ChatRun(p, c, origin, here, s, events);
            !t.listening && t.shown == s.shown && t.window.floor == s.window.floor
  {
    if events != [] {
      NothingIsHeardAfterTheLoop(p, c, origin, here, s, events[..|events| - 1]);
    }
  }
}
