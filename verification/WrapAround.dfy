/**
 * The loops of decryptMessage on real uint64 indices and with their possible non-termination: where
 * do they end, and when do they do what Windows says?
 *
 * A ratchet is followed by its position, the number of steps it has taken plus its first index;
 * the program sees only IndexOf(position). A Window is any two positions here, not only an ordered
 * pair below 2^64. `fuel` bounds the ratchet steps, so a run that returns None for every fuel is a
 * loop that never exits.
 */
module WrapAround {
  import opened MachineInts
  import opened Ratchets
  import opened Windows

  /** The inner loop: the backup steps while its index plus ten is at most the lead's. */
  function Drag(w: Window, fuel: nat): Option<Window>
    decreases fuel
  {
    if WrapAdd(IndexOf(w.floor), 10) > IndexOf(w.high) then Some(w)
    else if fuel == 0 then None
    else Drag(w.(floor := w.floor + 1), fuel - 1)
  }

  /** The outer loop: the lead steps, then the inner loop runs, while the lead's index is at most `c`. */
  function Advance(w: Window, c: uint64, fuel: nat): Option<Window>
    decreases fuel
  {
    if IndexOf(w.high) > c then Some(w)
    else if fuel == 0 then None
    else
      match Drag(w.(high := w.high + 1), fuel - 1)
      case None => None
      case Some(dragged) => Advance(dragged, c, fuel - 1)
  }

  /** The loop of the other branch: the backup steps while its index is at most `c`. */
  function Walk(w: Window, c: uint64, fuel: nat): Option<Window>
    decreases fuel
  {
    if IndexOf(w.floor) > c then Some(w)
    else if fuel == 0 then None
    else Walk(w.(floor := w.floor + 1), c, fuel - 1)
  }

  /** Both branches of decryptMessage, from any two positions. */
  function Loops(w: Window, c: uint64, fuel: nat): Option<Window> {
    if IndexOf(w.high) <= c then Advance(w, c, fuel) else Walk(w, c, fuel)
  }

  /** Neither `Index++` nor `Index+10` wraps while a message with index `c` is taken. */
  predicate Fits(w: Window, c: uint64) {
    c < w.high || (c <= TWO_64 - 3 && w.floor <= TWO_64 - 11)
  }

  /** The handler comes back at all: an index at or ahead of the lead's is at most 2^64-3. */
  predicate Returns(w: Window, c: uint64) {
    c < IndexOf(w.high) || c <= TWO_64 - 3
  }

  /** Indices that fit in every state reached by receiving such indices only. */
  const LAST_SAFE_INDEX: uint64 := TWO_64 - 12

  lemma SafeIndicesAlwaysFit(w: Window, c: uint64)
    requires w.Ordered() && w.floor <= LAST_SAFE_INDEX + 1 && c <= LAST_SAFE_INDEX
    ensures Fits(w, c)
    ensures w.Receive(c).floor <= LAST_SAFE_INDEX + 1
  {
  }

  lemma {:induction false} IndexMoves(position: nat, steps: nat)
    requires IndexOf(position) + steps < TWO_64
    ensures IndexOf(position + steps) == IndexOf(position) + steps
  {
    if steps > 0 {
      IndexMoves(position, steps - 1);
      IndexSteps(position + (steps - 1));
    }
  }

  // ---------- where the loops stop ----------

  ghost predicate Stopped(w: Window) {
    WrapAdd(IndexOf(w.floor), 10) > IndexOf(w.high)
  }

  lemma {:induction false} DragStops(w: Window, fuel: nat)
    requires Drag(w, fuel).Some?
    ensures var u := Drag(w, fuel).value;
            Stopped(u) && u.high == w.high && u.floor >= w.floor
    decreases fuel
  {
    if !Stopped(w) {
      DragStops(w.(floor := w.floor + 1), fuel - 1);
    }
  }

  /** When the outer loop ends, the lead is right behind `c` and the backup has not gone back. */
  lemma {:induction false} AdvanceStops(w: Window, c: uint64, fuel: nat)
    requires Advance(w, c, fuel).Some? && IndexOf(w.high) <= c
    ensures var u := Advance(w, c, fuel).value;
            Stopped(u) && IndexOf(u.high) > c && u.high == w.high + (c + 1 - IndexOf(w.high)) && u.floor >= w.floor
    decreases fuel
  {
    var next := w.(high := w.high + 1);
    DragStops(next, fuel - 1);
    IndexSteps(w.high);
    if c == TWO_64 - 1 {
      LargestIndexNeverReturns(w, fuel);
    } else if IndexOf(next.high) <= c {
      AdvanceStops(Drag(next, fuel - 1).value, c, fuel - 1);
    }
  }

  /** The largest index never exits, from any state. */
  lemma {:induction false} LargestIndexNeverReturns(w: Window, fuel: nat)
    ensures Advance(w, TWO_64 - 1, fuel) == None
    decreases fuel
  {
    if fuel > 0 && Drag(w.(high := w.high + 1), fuel - 1).Some? {
      LargestIndexNeverReturns(Drag(w.(high := w.high + 1), fuel - 1).value, fuel - 1);
    }
  }

  // ---------- more fuel changes nothing ----------

  lemma {:induction false} DragKeepsFuel(w: Window, fuel: nat, more: nat)
    requires Drag(w, fuel).Some? && fuel <= more
    ensures Drag(w, more) == Drag(w, fuel)
    decreases fuel
  {
    if !Stopped(w) {
      DragKeepsFuel(w.(floor := w.floor + 1), fuel - 1, more - 1);
    }
  }

  lemma {:induction false} AdvanceKeepsFuel(w: Window, c: uint64, fuel: nat, more: nat)
    requires Advance(w, c, fuel).Some? && fuel <= more
    ensures Advance(w, c, more) == Advance(w, c, fuel)
    decreases fuel
  {
    if IndexOf(w.high) <= c {
      DragKeepsFuel(w.(high := w.high + 1), fuel - 1, more - 1);
      AdvanceKeepsFuel(Drag(w.(high := w.high + 1), fuel - 1).value, c, fuel - 1, more - 1);
    }
  }

  lemma {:induction false} WalkKeepsFuel(w: Window, c: uint64, fuel: nat, more: nat)
    requires Walk(w, c, fuel).Some? && fuel <= more
    ensures Walk(w, c, more) == Walk(w, c, fuel)
    decreases fuel
  {
    if IndexOf(w.floor) <= c {
      WalkKeepsFuel(w.(floor := w.floor + 1), c, fuel - 1, more - 1);
    }
  }

  // ---------- turn by turn ----------

  /** With this much fuel or more the nested loops end there. */
  ghost predicate AdvancesTo(w: Window, c: uint64, fuel: nat, end: Window) {
    forall more: nat :: fuel <= more ==> Advance(w, c, more) == Some(end)
  }

  lemma AdvancesToEnd(w: Window, c: uint64, fuel: nat)
    requires Advance(w, c, fuel).Some? && IndexOf(w.high) <= c
    ensures AdvancesTo(w, c, fuel, Advance(w, c, fuel).value) && Advance(w, c, fuel).value.high > w.high
  {
    AdvanceStops(w, c, fuel);
    forall more: nat | fuel <= more ensures Advance(w, c, more) == Advance(w, c, fuel) {
      AdvanceKeepsFuel(w, c, fuel, more);
    }
  }

  /** One turn of the outer loop. */
  lemma AdvanceStep(w: Window, c: uint64, fuel: nat, end: Window)
    requires AdvancesTo(w, c, fuel, end) && IndexOf(w.high) <= c
    ensures fuel > 0 && Drag(w.(high := w.high + 1), fuel - 1).Some?
    ensures AdvancesTo(Drag(w.(high := w.high + 1), fuel - 1).value, c, fuel - 1, end)
  {
    var next := w.(high := w.high + 1);
    assert Advance(w, c, fuel) == Some(end);
    var u := Drag(next, fuel - 1).value;
    forall more: nat | fuel - 1 <= more ensures Advance(u, c, more) == Some(end) {
      DragKeepsFuel(next, fuel - 1, more);
      assert Advance(w, c, more + 1) == Some(end);
    }
  }

  lemma AdvanceDone(w: Window, c: uint64, fuel: nat, end: Window)
    requires AdvancesTo(w, c, fuel, end) && IndexOf(w.high) > c
    ensures w == end
  {
    assert Advance(w, c, fuel) == Some(end);
  }

  /** With this much fuel or more the other loop ends there. */
  ghost predicate WalksTo(w: Window, c: uint64, fuel: nat, end: Window) {
    forall more: nat :: fuel <= more ==> Walk(w, c, more) == Some(end)
  }

  lemma WalksToEnd(w: Window, c: uint64, fuel: nat)
    requires Walk(w, c, fuel).Some?
    ensures WalksTo(w, c, fuel, Walk(w, c, fuel).value)
  {
    forall more: nat | fuel <= more ensures Walk(w, c, more) == Walk(w, c, fuel) {
      WalkKeepsFuel(w, c, fuel, more);
    }
  }

  lemma WalkStep(w: Window, c: uint64, fuel: nat, end: Window)
    requires WalksTo(w, c, fuel, end) && IndexOf(w.floor) <= c
    ensures fuel > 0 && WalksTo(w.(floor := w.floor + 1), c, fuel - 1, end)
  {
    assert Walk(w, c, fuel) == Some(end);
    var next := w.(floor := w.floor + 1);
    forall more: nat | fuel - 1 <= more ensures Walk(next, c, more) == Some(end) {
      assert Walk(w, c, more + 1) == Some(end);
    }
  }

  lemma WalkDone(w: Window, c: uint64, fuel: nat, end: Window)
    requires WalksTo(w, c, fuel, end) && IndexOf(w.floor) > c
    ensures w == end
  {
    assert Walk(w, c, fuel) == Some(end);
  }

  // ---------- the loops end exactly when Returns ----------

  /** Steps to the index from which the sum with ten is largest. */
  function ToLargestSum(position: nat): nat {
    var i := IndexOf(position);
    if i <= TWO_64 - 11 then TWO_64 - 11 - i else TWO_64 - 11 - i + TWO_64
  }

  lemma {:induction false} DragAlwaysEnds(w: Window, fuel: nat)
    requires IndexOf(w.high) <= TWO_64 - 2 && fuel >= ToLargestSum(w.floor)
    ensures Drag(w, fuel).Some?
    decreases fuel
  {
    if !Stopped(w) {
      IndexSteps(w.floor);
      DragAlwaysEnds(w.(floor := w.floor + 1), fuel - 1);
    }
  }

  lemma {:induction false} AdvanceAlwaysEnds(w: Window, c: uint64, fuel: nat)
    requires c <= TWO_64 - 3 && fuel >= TWO_64 + (if IndexOf(w.high) <= c then c + 1 - IndexOf(w.high) else 0)
    ensures Advance(w, c, fuel).Some?
    decreases fuel
  {
    if IndexOf(w.high) <= c {
      var next := w.(high := w.high + 1);
      IndexSteps(w.high);
      DragAlwaysEnds(next, fuel - 1);
      DragStops(next, fuel - 1);
      AdvanceAlwaysEnds(Drag(next, fuel - 1).value, c, fuel - 1);
    }
  }

  lemma {:induction false} WalkEnds(w: Window, c: uint64, fuel: nat)
    requires c <= TWO_64 - 2 && fuel >= (if IndexOf(w.floor) <= c then c + 1 - IndexOf(w.floor) else 0)
    ensures Walk(w, c, fuel)
            == Some(if IndexOf(w.floor) <= c then w.(floor := w.floor + (c + 1 - IndexOf(w.floor))) else w)
    decreases fuel
  {
    if IndexOf(w.floor) <= c {
      IndexSteps(w.floor);
      WalkEnds(w.(floor := w.floor + 1), c, fuel - 1);
    }
  }

  lemma AdvanceReturns(w: Window, c: uint64, fuel: nat)
    requires Advance(w, c, fuel).Some? && IndexOf(w.high) <= c
    ensures c <= TWO_64 - 3
  {
    AdvanceStops(w, c, fuel);
    var u := Advance(w, c, fuel).value;
    assert WrapAdd(IndexOf(u.floor), 10) <= TWO_64 - 1;
  }

  /** As many steps as any call that returns takes. */
  const ENOUGH: nat := 2 * TWO_64

  /**
   * From any two positions the loops end exactly when the index is behind the lead's or at most 2^64-3.
   * For 2^64-2 the inner loop never stops, since no sum exceeds the lead's index 2^64-1; for 2^64-1
   * the outer one.
   */
  lemma ExactTermination(w: Window, c: uint64)
    ensures (exists fuel: nat :: Loops(w, c, fuel).Some?) <==> Returns(w, c)
    ensures Returns(w, c) ==> Loops(w, c, ENOUGH).Some?
  {
    if Returns(w, c) {
      if IndexOf(w.high) <= c {
        AdvanceAlwaysEnds(w, c, ENOUGH);
      } else {
        WalkEnds(w, c, ENOUGH);
      }
      assert Loops(w, c, ENOUGH).Some?;
    }
    if fuel: nat :| Loops(w, c, fuel).Some? {
      if IndexOf(w.high) <= c {
        AdvanceReturns(w, c, fuel);
      }
    }
  }

  /** Where the two ratchets stand when the handler comes back. */
  function Landed(w: Window, c: uint64): (u: Window)
    requires Returns(w, c)
    ensures Loops(w, c, ENOUGH) == Some(u)
  {
    ExactTermination(w, c);
    Loops(w, c, ENOUGH).value
  }

  /** The position whose key the handler derives last, if it derives any. */
  function KeyTaken(w: Window, c: uint64): Option<nat>
    requires Returns(w, c)
  {
    var u := Landed(w, c);
    if u.high > w.high then Some(u.high - 1) else if u.floor > w.floor then Some(u.floor - 1) else None
  }

  /** The branch at or ahead of the lead ends with a key of the lead. */
  lemma LandedAhead(w: Window, c: uint64)
    requires Returns(w, c) && IndexOf(w.high) <= c
    ensures AdvancesTo(w, c, ENOUGH, Landed(w, c)) && Landed(w, c).high > w.high
    ensures KeyTaken(w, c) == Some(Landed(w, c).high - 1)
  {
    var end := Landed(w, c);
    AdvancesToEnd(w, c, ENOUGH);
  }

  /** The branch behind the lead ends with a key of the backup, or none if it has not moved. */
  lemma LandedBehind(w: Window, c: uint64)
    requires Returns(w, c) && c < IndexOf(w.high)
    ensures WalksTo(w, c, ENOUGH, Landed(w, c))
    ensures Landed(w, c).high == w.high && Landed(w, c).floor >= w.floor
    ensures KeyTaken(w, c) == if Landed(w, c).floor == w.floor then None else Some(Landed(w, c).floor - 1)
  {
    var end := Landed(w, c);
    WalkEnds(w, c, ENOUGH);
    WalksToEnd(w, c, ENOUGH);
  }

  /** No ratchet goes back, and the key taken is one for the message's own index, if not always of its round. */
  lemma LandedMoves(w: Window, c: uint64)
    requires Returns(w, c)
    ensures Landed(w, c).floor >= w.floor && Landed(w, c).high >= w.high
    ensures KeyTaken(w, c).Some? ==> IndexOf(KeyTaken(w, c).value) == c
    ensures KeyTaken(w, c).None? <==> c < IndexOf(w.high) && c < IndexOf(w.floor)
  {
    var u := Landed(w, c);
    if IndexOf(w.high) <= c {
      AdvanceStops(w, c, ENOUGH);
      IndexMoves(w.high, c - IndexOf(w.high));
    } else {
      WalkEnds(w, c, ENOUGH);
      if IndexOf(w.floor) <= c {
        IndexMoves(w.floor, c - IndexOf(w.floor));
      }
    }
  }

  // ---------- where the loops end below 2^64 ----------

  /**
   * Where the backup stops for a lead at `lead`: nine behind it or where it was; but from the last
   * ten indices, where the sum with ten wraps, nine behind it one round of all indices later.
   */
  function Dragged(backup: nat, lead: nat): int {
    if backup <= TWO_64 - 11 then Max(backup, lead - 9) else TWO_64 + lead - 9
  }

  /** The backup is not ahead of the lead, or it is on its way to a whole round ahead. */
  predicate Draggable(backup: nat, lead: nat) {
    backup <= lead || TWO_64 - 10 <= backup <= TWO_64 + lead - 9
  }

  /** Measure of the inner loop: what is left to the stopping point. */
  lemma {:induction false} DragEnds(w: Window, fuel: nat)
    requires w.high <= TWO_64 - 2 && Draggable(w.floor, w.high)
    requires fuel >= Dragged(w.floor, w.high) - w.floor
    ensures Drag(w, fuel) == Some(w.(floor := Dragged(w.floor, w.high)))
    decreases fuel
  {
    if !Stopped(w) {
      DragEnds(w.(floor := w.floor + 1), fuel - 1);
    }
  }

  /** Measure of the outer loop: c + 1 - lead. */
  lemma {:induction false} AdvanceEnds(w: Window, c: uint64, fuel: nat)
    requires Draggable(w.floor, w.high) && w.high <= c + 1 <= TWO_64 - 2
    requires fuel >= c + 1 - w.high + Dragged(w.floor, c + 1) - w.floor
    ensures Advance(w, c, fuel)
            == Some(Window(if w.high == c + 1 then w.floor else Dragged(w.floor, c + 1), c + 1))
    decreases fuel
  {
    if w.high <= c {
      var next := Window(Dragged(w.floor, w.high + 1), w.high + 1);
      DragEnds(w.(high := w.high + 1), fuel - 1);
      AdvanceEnds(next, c, fuel - 1);
    }
  }

  // ---------- the exact condition ----------

  /** The loops exit, and leave both ratchets where Windows puts them. */
  ghost predicate LoopsMeetWindow(w: Window, c: uint64) {
    exists fuel: nat :: Loops(w, c, fuel) == Some(w.Receive(c))
  }

  /**
   * Below 2^64 the loops end in one of two ways: where Windows says, if the message fits, and else with
   * the backup a whole round of indices past the lead: at the index that Windows asks for, with
   * another chain key. In both they yield the key of the message's own position, or none below the floor.
   */
  lemma LandedInWindow(w: Window, c: uint64)
    requires w.Ordered() && w.high < TWO_64 && Returns(w, c)
    ensures Landed(w, c) == if Fits(w, c) then w.Receive(c) else Window(TWO_64 + c - 8, c + 1)
    ensures KeyTaken(w, c) == if w.Accepts(c) then Some(c) else None
    ensures !Fits(w, c) ==> c >= 8 && IndexOf(TWO_64 + c - 8) == c - 8
  {
    if w.Future(c) {
      AdvanceEnds(w, c, ENOUGH);
    } else {
      WalkEnds(w, c, ENOUGH);
    }
  }

  lemma LoopsAgree(w: Window, c: uint64, fuel: nat)
    requires Loops(w, c, fuel).Some?
    ensures Returns(w, c) && Loops(w, c, fuel) == Some(Landed(w, c))
  {
    ExactTermination(w, c);
    if IndexOf(w.high) <= c {
      AdvanceKeepsFuel(w, c, fuel, fuel + ENOUGH);
      AdvanceKeepsFuel(w, c, ENOUGH, fuel + ENOUGH);
    } else {
      WalkKeepsFuel(w, c, fuel, fuel + ENOUGH);
      WalkKeepsFuel(w, c, ENOUGH, fuel + ENOUGH);
    }
  }

  /**
   * Below 2^64 the loops do what Windows says exactly when neither `Index++` nor `Index+10` wraps: the
   * index is behind the lead, or c <= 2^64-3 and floor <= 2^64-11.
   */
  lemma ExactSafety(w: Window, c: uint64)
    requires w.Ordered() && w.high < TWO_64
    ensures LoopsMeetWindow(w, c) <==> Fits(w, c)
  {
    if Fits(w, c) {
      LandedInWindow(w, c);
      assert Loops(w, c, ENOUGH) == Some(w.Receive(c));
    }
    if LoopsMeetWindow(w, c) {
      var fuel :| Loops(w, c, fuel) == Some(w.Receive(c));
      LoopsAgree(w, c, fuel);
      LandedInWindow(w, c);
    }
  }

  // ---------- whole runs ----------

  /** Every arrival of the run finds the session in a state in which it fits. */
  ghost predicate RunFits(w: Window, events: seq<Event>) {
    forall k :: 0 <= k < |events| && events[k].Received? ==>
      && Before(w, events, k).high < TWO_64 && events[k].index < TWO_64
      && Fits(Before(w, events, k), events[k].index)
  }

  /** A start and arrivals within the safe indices make every run fit until its sends reach 2^64. */
  lemma {:induction false} SafeRunsFit(w: Window, events: seq<Event>)
    requires w.Ordered() && w.floor <= LAST_SAFE_INDEX + 1
    requires forall k :: 0 <= k < |events| && events[k].Received? ==> events[k].index <= LAST_SAFE_INDEX
    requires Run(w, events).high < TWO_64
    ensures RunFits(w, events)
    ensures Run(w, events).floor <= LAST_SAFE_INDEX + 1
  {
    if events != [] {
      var n := |events| - 1;
      var init := events[..n];
      RunKeepsOrder(w, init);
      SafeRunsFit(w, init);
      assert Run(w, events) == Step(Run(w, init), events[n]);
      forall k | 0 <= k < |events| && events[k].Received?
        ensures Before(w, events, k).high < TWO_64 && Fits(Before(w, events, k), events[k].index)
      {
        if k < n {
          assert init[..k] == events[..k] && init[k] == events[k];
        }
      }
    }
  }
}
