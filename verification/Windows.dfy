/**
 * The two numbers that say what a room session can decrypt: `high`, where the leading ratchet
 * stands, and `floor`, where the trailing backup ratchet stands. Sessions.dfy proves that the
 * two mutable ratchets implement exactly this; here is what follows over whole runs.
 */
module Windows {
  import opened MachineInts

  datatype Window = Window(floor: nat, high: nat)
  {
    ghost predicate Ordered() {
      floor <= high
    }

    /** A key is derived for index `c`. */
    predicate Accepts(c: nat) {
      floor <= c
    }

    /** The leading ratchet has not passed `c` yet. */
    predicate Future(c: nat) {
      high <= c
    }

    function Receive(c: nat): Window {
      if Future(c) then Window(Max(floor, c - 8), c + 1)
      else if Accepts(c) then Window(c + 1, high)
      else this
    }

    /** The index used is `high`. */
    function Send(): Window {
      Window(floor, high + 1)
    }
  }

  function Fresh(start: nat): Window {
    Window(start, start)
  }

  datatype Event = Sent | Received(index: nat)

  function Step(w: Window, e: Event): Window {
    match e
    case Sent => w.Send()
    case Received(c) => w.Receive(c)
  }

  function Run(w: Window, events: seq<Event>): Window {
    if events == [] then w else Step(Run(w, events[..|events| - 1]), events[|events| - 1])
  }

  /** The state in which event `k` happens. */
  function Before(w: Window, events: seq<Event>, k: nat): Window
    requires k <= |events|
  {
    Run(w, events[..k])
  }

  lemma RunStep(w: Window, events: seq<Event>, k: nat)
    requires k < |events|
    ensures Before(w, events, k + 1) == Step(Before(w, events, k), events[k])
  {
    assert events[..k + 1][..k] == events[..k];
  }

  // ---------- what every run keeps ----------

  /** floor <= high always, the floor never falls, and neither does the lead. */
  lemma {:induction false} RunKeepsOrder(w: Window, events: seq<Event>)
    requires w.Ordered()
    ensures Run(w, events).Ordered()
    ensures w.floor <= Run(w, events).floor && w.high <= Run(w, events).high
  {
    if events != [] {
      RunKeepsOrder(w, events[..|events| - 1]);
    }
  }

  lemma {:induction false} RunIsMonotone(w: Window, events: seq<Event>, j: nat, k: nat)
    requires w.Ordered() && j <= k <= |events|
    ensures Before(w, events, j).Ordered()
    ensures Before(w, events, j).floor <= Before(w, events, k).floor
    ensures Before(w, events, j).high <= Before(w, events, k).high
    decreases k
  {
    RunKeepsOrder(w, events[..j]);
    if j < k {
      RunIsMonotone(w, events, j, k - 1);
      RunKeepsOrder(w, events[..k - 1]);
      RunStep(w, events, k - 1);
    }
  }

  // ---------- in-order delivery ----------

  /** Received indices, in order of arrival. */
  function Arrivals(events: seq<Event>): seq<nat> {
    if events == [] then []
    else
      var init, last := Arrivals(events[..|events| - 1]), events[|events| - 1];
      if last.Received? then init + [last.index] else init
  }

  ghost predicate Increasing(s: seq<nat>) {
    forall i, j :: 0 <= i < j < |s| ==> s[i] < s[j]
  }

  ghost predicate AllAccepted(w: Window, events: seq<Event>) {
    forall k :: 0 <= k < |events| && events[k].Received? ==> Before(w, events, k).Accepts(events[k].index)
  }

  /** The floor never overtakes the next index in line. */
  lemma {:induction false} FloorTrailsArrivals(start: nat, events: seq<Event>)
    requires Increasing(Arrivals(events))
    requires Arrivals(events) != [] ==> start <= Arrivals(events)[0]
    ensures Run(Fresh(start), events).floor
            <= if Arrivals(events) == [] then start else Arrivals(events)[|Arrivals(events)| - 1] + 1
  {
    if events != [] {
      var init := events[..|events| - 1];
      assert Arrivals(events) == Arrivals(init) || Arrivals(events)[..|Arrivals(events)| - 1] == Arrivals(init);
      FloorTrailsArrivals(start, init);
    }
  }

  lemma {:induction false} ArrivalsOfPrefix(events: seq<Event>, k: nat)
    requires k <= |events|
    ensures Arrivals(events[..k]) <= Arrivals(events)
    decreases |events|
  {
    if k == |events| {
      assert events[..k] == events;
    } else {
      ArrivalsOfPrefix(events[..|events| - 1], k);
      assert events[..|events| - 1][..k] == events[..k];
    }
  }

  /**
   * Whatever the gaps and whatever is sent in between: if arrivals start at or above the initial
   * index and strictly increase, every one of them is accepted.
   */
  lemma InOrderRunsAreAccepted(start: nat, events: seq<Event>)
    requires Increasing(Arrivals(events))
    requires Arrivals(events) != [] ==> start <= Arrivals(events)[0]
    ensures AllAccepted(Fresh(start), events)
  {
    forall k | 0 <= k < |events| && events[k].Received?
      ensures Before(Fresh(start), events, k).Accepts(events[k].index)
    {
      var before, after := Arrivals(events[..k]), Arrivals(events[..k + 1]);
      ArrivalsOfPrefix(events, k);
      ArrivalsOfPrefix(events, k + 1);
      assert events[..k + 1][..k] == events[..k];
      assert after == before + [events[k].index];
      FloorTrailsArrivals(start, events[..k]);
      var all := Arrivals(events);
      assert all[|before|] == after[|before|] == events[k].index;
      if before != [] {
        assert all[|before| - 1] == before[|before| - 1];
      }
    }
  }

  // ---------- late delivery ----------

  /** Nothing was ever taken from the backup: each arrival was ahead of the lead. */
  ghost predicate OnlyFuture(w: Window, events: seq<Event>) {
    forall k :: 0 <= k < |events| && events[k].Received? ==> Before(w, events, k).Future(events[k].index)
  }

  lemma {:induction false} FloorStaysNineBehind(start: nat, events: seq<Event>)
    requires OnlyFuture(Fresh(start), events)
    ensures Run(Fresh(start), events).floor <= Max(start, Run(Fresh(start), events).high - 9)
  {
    if events != [] {
      var n := |events| - 1;
      var init := events[..n];
      forall k | 0 <= k < n && init[k].Received?
        ensures Before(Fresh(start), init, k).Future(init[k].index)
      {
        assert init[..k] == events[..k];
      }
      FloorStaysNineBehind(start, init);
      RunStep(Fresh(start), events, n);
      assert events[..n + 1] == events;
    }
  }

  function Deliveries(late: seq<nat>): seq<Event> {
    seq(|late|, i requires 0 <= i < |late| => Received(late[i]))
  }

  lemma {:induction false} LateDelivery(w: Window, late: seq<nat>, k: nat)
    requires k <= |late|
    requires forall i :: 0 <= i < |late| ==> late[i] < w.high
    requires late != [] ==> w.floor <= late[0]
    requires Increasing(late)
    ensures Before(w, Deliveries(late), k) == if k == 0 then w else Window(late[k - 1] + 1, w.high)
    decreases k
  {
    if k > 0 {
      LateDelivery(w, late, k - 1);
      RunStep(w, Deliveries(late), k - 1);
    }
  }

  /**
   * Messages older than the lead are all accepted exactly when they arrive in strictly
   * increasing order from the floor up: the backup ratchet walks forward and never back.
   */
  lemma LateMessagesAccepted(w: Window, late: seq<nat>)
    requires forall i :: 0 <= i < |late| ==> late[i] < w.high
    ensures AllAccepted(w, Deliveries(late))
            <==> Increasing(late) && (late != [] ==> w.floor <= late[0])
  {
    var es := Deliveries(late);
    if Increasing(late) && (late != [] ==> w.floor <= late[0]) {
      forall k | 0 <= k < |late| ensures Before(w, es, k).Accepts(late[k]) {
        LateDelivery(w, late, k);
      }
    }
    if AllAccepted(w, es) {
      AcceptedLateIncrease(w, late, |late|);
      assert late[..|late|] == late;
      if late != [] {
        assert es[0].Received? && Before(w, es, 0) == w;
      }
    }
  }

  lemma LargerExtends(s: seq<nat>, x: nat)
    requires Increasing(s) && (s != [] ==> s[|s| - 1] < x)
    ensures Increasing(s + [x])
  {
  }

  lemma {:induction false} AcceptedLateIncrease(w: Window, late: seq<nat>, n: nat)
    requires n <= |late|
    requires forall i :: 0 <= i < |late| ==> late[i] < w.high
    requires AllAccepted(w, Deliveries(late))
    ensures Increasing(late[..n])
    ensures Before(w, Deliveries(late), n) == if n == 0 then w else Window(late[n - 1] + 1, w.high)
    decreases n
  {
    var es := Deliveries(late);
    if n > 0 {
      AcceptedLateIncrease(w, late, n - 1);
      RunStep(w, es, n - 1);
      var x, before := late[n - 1], Before(w, es, n - 1);
      assert es[n - 1] == Received(x) && before.Accepts(x) && !before.Future(x);
      assert late[..n] == late[..n - 1] + [x];
      LargerExtends(late[..n - 1], late[n - 1]);
    }
  }

  /**
   * The reordering window: after a run whose arrivals were all ahead of the lead, with the lead
   * now at R, late messages with indices in [max(start, R-9), R) are accepted in increasing order.
   */
  lemma ReorderingWindow(start: nat, events: seq<Event>, late: seq<nat>)
    requires OnlyFuture(Fresh(start), events)
    requires Increasing(late)
    requires forall i :: 0 <= i < |late| ==>
               Max(start, Run(Fresh(start), events).high - 9) <= late[i] < Run(Fresh(start), events).high
    ensures AllAccepted(Run(Fresh(start), events), Deliveries(late))
  {
    var w := Run(Fresh(start), events);
    FloorStaysNineBehind(start, events);
    assert late != [] ==> w.floor <= late[0];
    LateMessagesAccepted(w, late);
  }

  /** The window is no wider: one index below R-9 is refused after a long enough in-order run. */
  lemma TenthIsTooLate(start: nat, gap: nat)
    requires gap >= 9
    ensures var w := Run(Fresh(start), [Received(start + gap)]);
            && OnlyFuture(Fresh(start), [Received(start + gap)])
            && w.high - 10 >= start
            && !w.Accepts(w.high - 10)
            && w.Accepts(w.high - 9)
  {
    var es := [Received(start + gap)];
    assert es[..0] == [];
    assert Run(Fresh(start), []) == Fresh(start);
  }

  // ---------- freshness of sends ----------

  /** The index of event `k`, sent or received. */
  function IndexAt(w: Window, events: seq<Event>, k: nat): nat
    requires k < |events|
  {
    match events[k]
    case Sent => Before(w, events, k).high
    case Received(c) => c
  }

  lemma SeenIsBelowLead(w: Window, events: seq<Event>, k: nat)
    requires w.Ordered() && k < |events|
    ensures IndexAt(w, events, k) < Before(w, events, k + 1).high
  {
    RunStep(w, events, k);
  }

  /** Every sent index is above every index this session sent or received before. */
  lemma SendsAreFresh(w: Window, events: seq<Event>, j: nat, k: nat)
    requires w.Ordered() && j < k < |events| && events[k].Sent?
    ensures IndexAt(w, events, j) < IndexAt(w, events, k)
  {
    SeenIsBelowLead(w, events, j);
    RunIsMonotone(w, events, j + 1, k);
  }

  // ---------- how often one index is accepted ----------

  /** How often a key is derived on receipt of `c`. */
  function Acceptances(w: Window, events: seq<Event>, c: nat): nat {
    if events == [] then 0
    else
      var n := |events| - 1;
      Acceptances(w, events[..n], c)
      + if events[n] == Received(c) && Run(w, events[..n]).Accepts(c) then 1 else 0
  }

  /** What is left of the two chances: none once the floor is past, one once the lead is past. */
  function ChancesLeft(w: Window, c: nat): nat {
    if w.floor > c then 0 else if w.high > c then 1 else 2
  }

  lemma {:induction false} AcceptancesSpendChances(w: Window, events: seq<Event>, c: nat)
    requires w.Ordered()
    ensures Acceptances(w, events, c) + ChancesLeft(Run(w, events), c) <= ChancesLeft(w, c)
  {
    if events != [] {
      AcceptancesSpendChances(w, events[..|events| - 1], c);
      RunKeepsOrder(w, events[..|events| - 1]);
    }
  }

  lemma {:induction false} RunSplits(w: Window, events: seq<Event>, k: nat)
    requires k <= |events|
    ensures Run(w, events) == Run(Run(w, events[..k]), events[k..])
    decreases |events|
  {
    var n := |events| - 1;
    if k == |events| {
      assert events[..k] == events;
    } else {
      RunSplits(w, events[..n], k);
      assert events[..n][..k] == events[..k] && events[..n][k..] == events[k..][..n - k];
    }
  }

  lemma {:induction false} AcceptancesSplit(w: Window, events: seq<Event>, k: nat, c: nat)
    requires k <= |events|
    ensures Acceptances(w, events, c)
            == Acceptances(w, events[..k], c) + Acceptances(Run(w, events[..k]), events[k..], c)
    decreases |events|
  {
    var n := |events| - 1;
    if k == |events| {
      assert events[..k] == events;
    } else {
      AcceptancesSplit(w, events[..n], k, c);
      RunSplits(w, events[..n], k);
      assert events[..n][..k] == events[..k] && events[..n][k..] == events[k..][..n - k];
    }
  }

  /**
   * A key is derived on receipt at most twice for any index, and at most once for an index this
   * session sent, wherever in the run it was sent.
   */
  lemma AcceptedAtMostTwice(start: nat, events: seq<Event>, c: nat)
    ensures Acceptances(Fresh(start), events, c) <= 2
    ensures (exists k :: 0 <= k < |events| && events[k].Sent? && IndexAt(Fresh(start), events, k) == c)
            ==> Acceptances(Fresh(start), events, c) <= 1
  {
    var w := Fresh(start);
    AcceptancesSpendChances(w, events, c);
    if k :| 0 <= k < |events| && events[k].Sent? && IndexAt(w, events, k) == c {
      AcceptancesSplit(w, events, k, c);
      RunSplits(w, events, k);
      NeverSeenNeverAccepted(w, events, k, c);
      assert events[k..][..1] == [Sent];
      RunKeepsOrder(w, events[..k]);
      AcceptancesSplit(Run(w, events[..k]), events[k..], 1, c);
      AcceptancesSpendChances(Run(Run(w, events[..k]), [Sent]), events[k..][1..], c);
      assert [Sent][..0] == [];
      assert Run(Run(w, events[..k]), []) == Run(w, events[..k]);
    }
  }

  /** Before index `c` is sent at step `k`, it has not been received at all. */
  lemma {:induction false} NeverSeenNeverAccepted(w: Window, events: seq<Event>, k: nat, c: nat)
    requires w.Ordered() && k <= |events|
    requires c >= Before(w, events, k).high
    ensures Acceptances(w, events[..k], c) == 0
    decreases k
  {
    if k > 0 {
      SeenIsBelowLead(w, events, k - 1);
      RunIsMonotone(w, events, k - 1, k);
      NeverSeenNeverAccepted(w, events, k - 1, c);
      assert events[..k][..k - 1] == events[..k - 1];
    }
  }

  /** Two is reached: ahead of the lead first, then once more from the backup. */
  lemma TwiceHappens(start: nat)
    ensures Acceptances(Fresh(start), [Received(start), Received(start)], start) == 2
  {
    var es := [Received(start), Received(start)];
    var first := es[..1];
    assert first == [Received(start)] && first[..0] == [];
    assert Run(Fresh(start), first[..0]) == Fresh(start);
    assert Acceptances(Fresh(start), first[..0], start) == 0;
    assert Run(Fresh(start), first) == Fresh(start).Receive(start);
    assert Acceptances(Fresh(start), first, start) == 1;
    assert es[..|es| - 1] == first && es[|es| - 1] == Received(start);
  }
}
