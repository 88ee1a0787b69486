/**
 * internal/client: a room session with its leading and trailing ratchet (session.go), and
 * decryptMessage (handlers.go), proved against Windows.
 */
module Sessions {
  import opened MachineInts
  import opened Ratchets
  import opened Tables
  import opened Windows
  import opened WrapAround

  /** NoKey: no key was derived, so chacha.New refuses the nil key. */
  datatype Decryption = Plain(text: Bytes) | NoKey | NotAuthentic

  function Opened(p: Primitives, m: Material, ciphertext: Bytes): Decryption {
    match p.open(m, ciphertext)
    case Some(text) => Plain(text)
    case None => NotAuthentic
  }

  /** What decrypting must yield in a given window: the key of the message's own index, or none. */
  function Decrypted(p: Primitives, origin: Origin, w: Window, cm: ChatMessage): Decryption
    requires origin.start <= w.floor
  {
    if w.Accepts(cm.chainIndex) then Opened(p, KeyAt(p, origin, cm.chainIndex), cm.ciphertext)
    else NoKey
  }

  /** Both positions are on the chain. */
  predicate OnChain(origin: Origin, w: Window) {
    origin.start <= w.floor && origin.start <= w.high
  }

  /** What decrypting yields from any two positions from which the loops end. */
  function Yielded(p: Primitives, origin: Origin, w: Window, cm: ChatMessage): Decryption
    requires OnChain(origin, w) && Returns(w, cm.chainIndex)
  {
    LandedMoves(w, cm.chainIndex);
    match KeyTaken(w, cm.chainIndex)
    case Some(position) => Opened(p, KeyAt(p, origin, position), cm.ciphertext)
    case None => NoKey
  }

  /** Below 2^64 that is the key of the message's own index, or none. */
  lemma YieldedInWindow(p: Primitives, origin: Origin, w: Window, cm: ChatMessage)
    requires OnChain(origin, w) && Returns(w, cm.chainIndex)
    ensures w.Ordered() && w.high < TWO_64 ==> Yielded(p, origin, w, cm) == Decrypted(p, origin, w, cm)
    ensures w.Ordered() && w.high < TWO_64 && Fits(w, cm.chainIndex) ==>
              Landed(w, cm.chainIndex) == w.Receive(cm.chainIndex)
  {
    if w.Ordered() && w.high < TWO_64 {
      LandedInWindow(w, cm.chainIndex);
    }
  }

  /** What the branch at or ahead of the lead yields. */
  lemma LeadYields(p: Primitives, origin: Origin, w: Window, cm: ChatMessage)
    requires OnChain(origin, w) && Returns(w, cm.chainIndex) && IndexOf(w.high) <= cm.chainIndex
    ensures var end := Landed(w, cm.chainIndex);
            && AdvancesTo(w, cm.chainIndex, ENOUGH, end) && end.high > w.high
            && Yielded(p, origin, w, cm) == Opened(p, KeyAt(p, origin, end.high - 1), cm.ciphertext)
  {
    LandedAhead(w, cm.chainIndex);
  }

  /** What the branch behind the lead yields. */
  lemma BackupYields(p: Primitives, origin: Origin, w: Window, cm: ChatMessage)
    requires OnChain(origin, w) && Returns(w, cm.chainIndex) && cm.chainIndex < IndexOf(w.high)
    ensures var end := Landed(w, cm.chainIndex);
            && WalksTo(w, cm.chainIndex, ENOUGH, end) && end.high == w.high && end.floor >= w.floor
            && Yielded(p, origin, w, cm)
               == if end.floor == w.floor then NoKey
                  else Opened(p, KeyAt(p, origin, end.floor - 1), cm.ciphertext)
  {
    LandedBehind(w, cm.chainIndex);
  }

  /** A displayed message. */
  datatype Shown = Shown(sender: User, timestamp: int64, content: Bytes)

  class RoomSession {
    var roomRatchet: RoomRatchet?
    var backupRatchet: RoomRatchet?
    var messages: seq<Shown>

    constructor ()
      ensures roomRatchet == null && backupRatchet == null && messages == []
    {
      roomRatchet, backupRatchet, messages := null, null, [];
    }

    /** Two ratchets, distinct objects on the chain from `origin`: lead at high, backup at floor. */
    ghost predicate StandsAt(p: Primitives, origin: Origin, w: Window)
      reads this, roomRatchet, backupRatchet
    {
      && roomRatchet != null && backupRatchet != null && roomRatchet != backupRatchet
      && roomRatchet.StandsAt(p, origin, w.high)
      && backupRatchet.StandsAt(p, origin, w.floor)
    }

    /** They stand at a window: the backup is not ahead. */
    ghost predicate Tracks(p: Primitives, origin: Origin, w: Window)
      reads this, roomRatchet, backupRatchet
    {
      w.Ordered() && StandsAt(p, origin, w)
    }

    method SetInitialRatchet(p: Primitives, ratchet: RoomRatchet)
      modifies this`roomRatchet, this`backupRatchet
      ensures roomRatchet == ratchet && fresh(backupRatchet)
      ensures Tracks(p, Origin(ratchet.index, ratchet.chainKey), Fresh(ratchet.index))
    {
      roomRatchet := ratchet;
      backupRatchet := ratchet.Clone();
    }

    /**
     * decryptMessage, from any state for any message for which the loops end (ExactTermination). The
     * ghost arguments name the positions of the two ratchets. From a window below 2^64 it yields the
     * plaintext under the key of the message's own index, or NoKey, and if the message fits it
     * leaves the session in the window that Windows prescribes (ExactSafety).
     */
    method DecryptMessage(p: Primitives, cm: ChatMessage, ghost origin: Origin, ghost w: Window)
      returns (r: Decryption)
      requires StandsAt(p, origin, w) && Returns(w, cm.chainIndex)
      modifies roomRatchet, backupRatchet
      ensures StandsAt(p, origin, Landed(w, cm.chainIndex))
      ensures r == Yielded(p, origin, w, cm)
      ensures w.Ordered() && w.high < TWO_64 ==> r == Decrypted(p, origin, w, cm)
      ensures w.Ordered() && w.high < TWO_64 && Fits(w, cm.chainIndex) ==>
                Tracks(p, origin, w.Receive(cm.chainIndex))
    {
      YieldedInWindow(p, origin, w, cm);
      var material: Option<Material>;
      if roomRatchet.index <= cm.chainIndex {
        LeadYields(p, origin, w, cm);
        material := AdvanceLead(p, cm.chainIndex, origin, w, ENOUGH, Landed(w, cm.chainIndex));
      } else {
        BackupYields(p, origin, w, cm);
        material := WalkBackup(p, cm.chainIndex, origin, w, ENOUGH, Landed(w, cm.chainIndex));
      }
      if material == None {
        return NoKey;
      }
      return Opened(p, material.value, cm.ciphertext);
    }

    /**
     * The branch for an index at or ahead of the lead: the lead walks, dragging the backup along, to
     * where the loops end.
     */
    method AdvanceLead(
      p: Primitives, c: uint64, ghost origin: Origin, ghost w: Window, ghost fuel: nat, ghost end: Window)
      returns (material: Option<Material>)
      requires StandsAt(p, origin, w)
      requires IndexOf(w.high) <= c && AdvancesTo(w, c, fuel, end) && end.high > w.high
      modifies roomRatchet, backupRatchet
      ensures StandsAt(p, origin, end)
      ensures material == Some(KeyAt(p, origin, end.high - 1))
    {
      material := None;
      ghost var u, left := w, fuel;
      while roomRatchet.index <= c
        invariant StandsAt(p, origin, u)
        invariant AdvancesTo(u, c, left, end)
        invariant u.high >= w.high
        invariant u.high > w.high ==> material == Some(KeyAt(p, origin, u.high - 1))
        decreases left
      {
        var m;
        m, u := AdvanceOnce(p, c, origin, u, left, end);
        material, left := Some(m), left - 1;
      }
      AdvanceDone(u, c, left, end);
    }

    /** One turn of the outer loop. */
    method AdvanceOnce(
      p: Primitives, c: uint64, ghost origin: Origin, ghost w: Window, ghost fuel: nat, ghost end: Window)
      returns (m: Material, ghost u: Window)
      requires StandsAt(p, origin, w) && IndexOf(w.high) <= c
      requires AdvancesTo(w, c, fuel, end)
      modifies roomRatchet, backupRatchet
      ensures m == KeyAt(p, origin, w.high)
      ensures StandsAt(p, origin, u) && u.high == w.high + 1
      ensures fuel > 0 && AdvancesTo(u, c, fuel - 1, end)
    {
      AdvanceStep(w, c, fuel, end);
      m := roomRatchet.KeyHere(p, origin, w.high);
      u := DragBackup(p, origin, w.(high := w.high + 1), fuel - 1);
    }

    /** The inner loop: the backup follows until its index plus ten passes the lead's. */
    method DragBackup(p: Primitives, ghost origin: Origin, ghost w: Window, ghost fuel: nat)
      returns (ghost u: Window)
      requires StandsAt(p, origin, w) && Drag(w, fuel).Some?
      modifies backupRatchet
      ensures u == Drag(w, fuel).value && u.high == w.high && u.floor >= w.floor
      ensures StandsAt(p, origin, u)
    {
      u := w;
      ghost var left := fuel;
      while WrapAdd(backupRatchet.index, 10) <= roomRatchet.index
        invariant u.high == w.high && u.floor >= w.floor && backupRatchet.StandsAt(p, origin, u.floor)
        invariant Drag(u, left) == Drag(w, fuel)
        decreases left
      {
        var _ := backupRatchet.KeyHere(p, origin, u.floor);
        u, left := u.(floor := u.floor + 1), left - 1;
      }
    }

    /**
     * The branch for an index behind the lead: the backup itself walks, not a clone of it, to where
     * the loop ends.
     */
    method WalkBackup(
      p: Primitives, c: uint64, ghost origin: Origin, ghost w: Window, ghost fuel: nat, ghost end: Window)
      returns (material: Option<Material>)
      requires StandsAt(p, origin, w)
      requires WalksTo(w, c, fuel, end) && end.high == w.high
      modifies backupRatchet
      ensures StandsAt(p, origin, end) && end.floor >= w.floor
      ensures material == if end.floor == w.floor then None else Some(KeyAt(p, origin, end.floor - 1))
    {
      var rr := backupRatchet;
      material := None;
      ghost var u, left := w, fuel;
      while rr.index <= c
        invariant u.high == w.high && w.floor <= u.floor && rr.StandsAt(p, origin, u.floor)
        invariant WalksTo(u, c, left, end)
        invariant material == if u.floor == w.floor then None else Some(KeyAt(p, origin, u.floor - 1))
        decreases left
      {
        WalkStep(u, c, left, end);
        var m := rr.KeyHere(p, origin, u.floor);
        material := Some(m);
        u, left := u.(floor := u.floor + 1), left - 1;
      }
      WalkDone(u, c, left, end);
    }

    /**
     * The ratchet's part of SendMessageHandler: seal at the lead, label with Index - 1. On
     * uint64 the label is the position the key came from even when Index++ has just wrapped.
     */
    method SealMessage(p: Primitives, text: Bytes, ghost origin: Origin, ghost w: Window)
      returns (cm: Option<ChatMessage>)
      requires roomRatchet != null ==> StandsAt(p, origin, w)
      modifies roomRatchet
      ensures cm == None <==> roomRatchet == null
      ensures cm.Some? ==>
                && cm.value == ChatMessage(IndexOf(w.high), p.seal(KeyAt(p, origin, w.high), text))
                && StandsAt(p, origin, w.Send())
    {
      if roomRatchet == null {
        return None;
      }
      var ciphertext, _ := EncryptMessage(p, roomRatchet, text, origin, w.high);
      IndexSteps(w.high);
      return Some(ChatMessage(WrapSub(roomRatchet.index, 1), ciphertext));
    }
  }

  /**
   * In-order runs decrypt: if arrivals start at or above the initial index and strictly increase,
   * with any gaps and any sends in between, and each fits, each is opened under the key of its own
   * index: what DecryptMessage yields in the state it finds.
   */
  lemma InOrderRunsGetTheirKeys(p: Primitives, origin: Origin, events: seq<Event>, k: nat, ciphertext: Bytes)
    requires Increasing(Arrivals(events))
    requires Arrivals(events) != [] ==> origin.start <= Arrivals(events)[0]
    requires RunFits(Fresh(origin.start), events) && k < |events| && events[k].Received?
    ensures OnChain(origin, Before(Fresh(origin.start), events, k)) && origin.start <= events[k].index
    ensures Returns(Before(Fresh(origin.start), events, k), events[k].index)
    ensures Yielded(p, origin, Before(Fresh(origin.start), events, k), ChatMessage(events[k].index, ciphertext))
            == Opened(p, KeyAt(p, origin, events[k].index), ciphertext)
  {
    InOrderRunsAreAccepted(origin.start, events);
    RunKeepsOrder(Fresh(origin.start), events[..k]);
    YieldedInWindow(p, origin, Before(Fresh(origin.start), events, k), ChatMessage(events[k].index, ciphertext));
  }
}
