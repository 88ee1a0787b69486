/**
 * The batching writer shared, line for line, by history.go and peer_manager.go: a bounded queue,
 * a batch, flushes on a full batch or a timer, and a drain on stop. One step is one case of a
 * select statement; a run is any interleaving of such steps with enqueues and a stop.
 */
module BatchWriter {
  import opened MachineInts

  /**
   * `save` is the statement a flush issues for one request, None when the engine refuses it;
   * `faults(n)` says that the engine fails for some other reason on the n-th write it is given.
   */
  datatype Config<!R, !D> = Config(capacity: nat, batchSize: nat, save: (D, R) -> Option<D>, faults: nat -> bool)
  {
    predicate Valid() {
      0 < batchSize
    }

    function Write(n: nat, db: D, r: R): Option<D> {
      if faults(n) then None else save(db, r)
    }
  }

  datatype Phase = Running | Draining | Done

  /** What happens on a request's result channel. Requests are numbered in order of acceptance. */
  datatype Delivery = Sent(request: nat, ok: bool) | Closed(request: nat)

  /** `accepted` is the history of accepted requests; the program does not keep it. */
  datatype State<R, D> = State(
    accepted: seq<R>, processed: nat, batch: seq<R>, queue: seq<R>,
    stopRequested: bool, phase: Phase, db: D, log: seq<Delivery>)

  datatype Event<R> = Enqueue(request: R) | Receive | Timer | Stop | BeginDrain | DrainReceive | DrainDone

  function Initial<R, D>(db: D): State<R, D> {
    State([], 0, [], [], false, Running, db, [])
  }

  /**
   * Which cases are ready, given whether a request is waiting. A full queue does not block an
   * enqueue: it is refused.
   */
  predicate CaseReady<R>(phase: Phase, waiting: bool, stopRequested: bool, e: Event<R>) {
    match e
    case Enqueue(_) => true
    case Receive => phase == Running && waiting
    case Timer => phase == Running
    case Stop => !stopRequested
    case BeginDrain => phase == Running && stopRequested
    case DrainReceive => phase == Draining && waiting
    case DrainDone => phase == Draining && !waiting
  }

  predicate Enabled<R, D>(s: State<R, D>, e: Event<R>) {
    CaseReady(s.phase, |s.queue| > 0, s.stopRequested, e)
  }

  /** One turn of the flush loop. */
  function FlushOne<R, D>(c: Config<R, D>, s: State<R, D>): State<R, D>
    requires s.batch != []
  {
    var written := c.Write(s.processed, s.db, s.batch[0]);
    s.(batch := s.batch[1..],
       db := if written.Some? then written.value else s.db,
       log := s.log + [Sent(s.processed, written.Some?), Closed(s.processed)],
       processed := s.processed + 1)
  }

  function Flush<R, D>(c: Config<R, D>, s: State<R, D>): State<R, D>
    decreases |s.batch|
  {
    if s.batch == [] then s else Flush(c, FlushOne(c, s))
  }

  function Take<R, D>(c: Config<R, D>, s: State<R, D>): State<R, D>
    requires s.queue != []
  {
    var t := s.(batch := s.batch + [s.queue[0]], queue := s.queue[1..]);
    if |t.batch| >= c.batchSize then Flush(c, t) else t
  }

  function Step<R, D>(c: Config<R, D>, s: State<R, D>, e: Event<R>): State<R, D>
    requires Enabled(s, e)
  {
    match e
    case Enqueue(r) =>
      if |s.queue| < c.capacity then s.(queue := s.queue + [r], accepted := s.accepted + [r]) else s
    case Receive => Take(c, s)
    case Timer => Flush(c, s)
    case Stop => s.(stopRequested := true)
    case BeginDrain => s.(phase := Draining)
    case DrainReceive => Take(c, s)
    case DrainDone => Flush(c, s).(phase := Done)
  }

  /** `t` is reached from `s` by these events. */
  ghost predicate Reaches<R, D>(c: Config<R, D>, s: State<R, D>, events: seq<Event<R>>, t: State<R, D>)
    decreases |events|
  {
    if events == [] then s == t
    else Enabled(s, events[0]) && Reaches(c, Step(c, s, events[0]), events[1..], t)
  }

  // ---------- the direct writer ----------

  datatype Outcome<D> = Outcome(db: D, log: seq<Delivery>)

  /** Writing the requests one by one, first in first out. */
  function Direct<R, D>(c: Config<R, D>, db0: D, requests: seq<R>): Outcome<D> {
    if requests == [] then Outcome(db0, [])
    else
      var n := |requests| - 1;
      var before := Direct(c, db0, requests[..n]);
      var written := c.Write(n, before.db, requests[n]);
      Outcome(if written.Some? then written.value else before.db,
              before.log + [Sent(n, written.Some?), Closed(n)])
  }

  // ---------- the invariant ----------

  /** Requests processed, then the batch, then the queue are the accepted requests in order. */
  ghost predicate InOrder<R, D>(c: Config<R, D>, db0: D, s: State<R, D>) {
    && s.processed <= |s.accepted|
    && s.accepted[s.processed..] == s.batch + s.queue
    && Direct(c, db0, s.accepted[..s.processed]) == Outcome(s.db, s.log)
  }

  ghost predicate Inv<R, D>(c: Config<R, D>, db0: D, s: State<R, D>) {
    && InOrder(c, db0, s)
    && |s.batch| < c.batchSize
    && |s.queue| <= c.capacity
    && (s.phase != Running ==> s.stopRequested)
    && (s.phase == Done ==> s.batch == [])
  }

  /** What a flush leaves alone. */
  lemma {:induction false} FlushFrame<R, D>(c: Config<R, D>, s: State<R, D>)
    ensures var t := Flush(c, s);
            && t.batch == [] && t.queue == s.queue && t.accepted == s.accepted
            && t.phase == s.phase && t.stopRequested == s.stopRequested
            && t.processed == s.processed + |s.batch|
    decreases |s.batch|
  {
    if s.batch != [] {
      FlushFrame(c, FlushOne(c, s));
    }
  }

  lemma {:induction false} FlushKeepsOrder<R, D>(c: Config<R, D>, db0: D, s: State<R, D>)
    requires InOrder(c, db0, s)
    ensures InOrder(c, db0, Flush(c, s))
    decreases |s.batch|
  {
    if s.batch != [] {
      var n := s.processed;
      assert s.accepted[n..][0] == s.batch[0];
      assert s.accepted[..n + 1][..n] == s.accepted[..n];
      assert s.accepted[n + 1..] == s.accepted[n..][1..] == s.batch[1..] + s.queue;
      FlushKeepsOrder(c, db0, FlushOne(c, s));
    }
  }

  lemma TakeKeepsOrder<R, D>(c: Config<R, D>, db0: D, s: State<R, D>)
    requires c.Valid() && InOrder(c, db0, s) && s.queue != []
    ensures InOrder(c, db0, Take(c, s))
    ensures |s.batch| < c.batchSize ==> |Take(c, s).batch| < c.batchSize
    ensures Take(c, s).queue == s.queue[1..] && Take(c, s).accepted == s.accepted
    ensures Take(c, s).phase == s.phase && Take(c, s).stopRequested == s.stopRequested
  {
    var t := s.(batch := s.batch + [s.queue[0]], queue := s.queue[1..]);
    assert t.batch + t.queue == s.batch + s.queue;
    FlushKeepsOrder(c, db0, t);
    FlushFrame(c, t);
  }

  lemma StepKeepsInv<R, D>(c: Config<R, D>, db0: D, s: State<R, D>, e: Event<R>)
    requires c.Valid() && Inv(c, db0, s) && Enabled(s, e)
    ensures Inv(c, db0, Step(c, s, e))
  {
    match e
    case Enqueue(r) =>
      if |s.queue| < c.capacity {
        var t := Step(c, s, e);
        assert t.accepted[..t.processed] == s.accepted[..s.processed];
        assert t.accepted[t.processed..] == s.accepted[s.processed..] + [r];
        assert t.batch + t.queue == s.batch + s.queue + [r];
      }
    case Receive => TakeKeepsOrder(c, db0, s);
    case Timer => FlushKeepsOrder(c, db0, s); FlushFrame(c, s);
    case Stop =>
    case BeginDrain =>
    case DrainReceive => TakeKeepsOrder(c, db0, s);
    case DrainDone => FlushKeepsOrder(c, db0, s); FlushFrame(c, s);
  }

  lemma {:induction false} RunKeepsInv<R, D>(
    c: Config<R, D>, db0: D, s: State<R, D>, events: seq<Event<R>>, t: State<R, D>)
    requires c.Valid() && Inv(c, db0, s) && Reaches(c, s, events, t)
    ensures Inv(c, db0, t)
    decreases |events|
  {
    if events != [] {
      StepKeepsInv(c, db0, s, events[0]);
      RunKeepsInv(c, db0, Step(c, s, events[0]), events[1..], t);
    }
  }

  lemma ReachesInv<R, D>(c: Config<R, D>, db0: D, events: seq<Event<R>>, t: State<R, D>)
    requires c.Valid() && Reaches(c, Initial(db0), events, t)
    ensures Inv(c, db0, t)
  {
    assert Initial<R, D>(db0).accepted[..0] == [];
    RunKeepsInv(c, db0, Initial(db0), events, t);
  }

  /**
   * Batching refines direct writing: after any run, the accepted requests are those processed, the
   * batch and the queue, in this order, and database and replies are those of writing the processed
   * ones directly. The batch stays short of a full one and the queue within its capacity.
   */
  lemma BatchingRefinesDirectWriting<R, D>(c: Config<R, D>, db0: D, events: seq<Event<R>>, t: State<R, D>)
    requires c.Valid() && Reaches(c, Initial(db0), events, t)
    ensures t.processed <= |t.accepted| && t.accepted == t.accepted[..t.processed] + t.batch + t.queue
    ensures Outcome(t.db, t.log) == Direct(c, db0, t.accepted[..t.processed])
    ensures |t.batch| < c.batchSize && |t.queue| <= c.capacity
  {
    ReachesInv(c, db0, events, t);
    assert t.accepted == t.accepted[..t.processed] + t.accepted[t.processed..];
    assert t.accepted[..t.processed] + (t.batch + t.queue) == t.accepted[..t.processed] + t.batch + t.queue;
  }

  // ---------- what the cases do ----------

  /**
   * The timer is ready whenever the worker runs, and writes what the batch holds: after it, all
   * requests that had been received are processed, with the outcome of writing them directly and one
   * result and one close each; nothing is left but the queue.
   */
  lemma TimerWritesBatch<R, D>(c: Config<R, D>, db0: D, events: seq<Event<R>>, s: State<R, D>)
    requires c.Valid() && Reaches(c, Initial(db0), events, s) && s.phase == Running
    ensures Enabled(s, Event<R>.Timer)
    ensures var t := Step(c, s, Timer);
            && t.batch == [] && t.queue == s.queue && t.accepted == s.accepted && t.phase == Running
            && t.processed == |s.accepted| - |s.queue|
            && Outcome(t.db, t.log) == Direct(c, db0, s.accepted[..|s.accepted| - |s.queue|])
            && |t.log| == 2 * t.processed
            && forall k :: 0 <= k < t.processed ==>
                 && t.log[2 * k] == Sent(k, Verdict(c, db0, s.accepted[..t.processed], k))
                 && t.log[2 * k + 1] == Closed(k)
  {
    var t := Step(c, s, Timer);
    BatchingRefinesDirectWriting(c, db0, events, s);
    ReachesInv(c, db0, events, s);
    StepKeepsInv(c, db0, s, Timer);
    FlushFrame(c, s);
    forall k | 0 <= k < t.processed
      ensures |t.log| == 2 * t.processed
      ensures t.log[2 * k] == Sent(k, Verdict(c, db0, s.accepted[..t.processed], k)) && t.log[2 * k + 1] == Closed(k)
    {
      OneReplyEach(c, db0, s.accepted[..t.processed], k);
    }
  }

  /**
   * Receiving takes the oldest waiting request, and writes if and only if that fills the batch: then
   * all that was received is processed, otherwise nothing is touched.
   */
  lemma ReceiveWritesFullBatches<R, D>(c: Config<R, D>, db0: D, events: seq<Event<R>>, s: State<R, D>, e: Event<R>)
    requires c.Valid() && Reaches(c, Initial(db0), events, s)
    requires (e.Receive? || e.DrainReceive?) && Enabled(s, e)
    ensures var t := Step(c, s, e);
            && s.queue != [] && t.queue == s.queue[1..] && t.accepted == s.accepted
            && if |s.batch| + 1 == c.batchSize then t.batch == [] && t.processed == |s.accepted| - |t.queue|
               else && t.batch == s.batch + [s.queue[0]] && t.processed == s.processed
                    && t.db == s.db && t.log == s.log
  {
    ReachesInv(c, db0, events, s);
    FlushFrame(c, s.(batch := s.batch + [s.queue[0]], queue := s.queue[1..]));
  }

  /**
   * The worker is never stuck before it is done: while it runs, the timer is ready, a waiting request can
   * be received and a requested stop obeyed; while it drains, it can go on exactly one way. An enqueue
   * is answered at any time.
   */
  lemma WorkerIsNeverStuck<R, D>(c: Config<R, D>, db0: D, events: seq<Event<R>>, s: State<R, D>)
    requires c.Valid() && Reaches(c, Initial(db0), events, s)
    ensures (forall r: R :: Enabled(s, Enqueue(r))) && (Enabled(s, Event<R>.Stop) <==> !s.stopRequested)
    ensures s.phase == Running ==>
              && Enabled(s, Event<R>.Timer) && (s.queue != [] <==> Enabled(s, Event<R>.Receive))
              && (s.stopRequested <==> Enabled(s, Event<R>.BeginDrain))
    ensures s.phase == Draining ==>
              && (s.queue != [] <==> Enabled(s, Event<R>.DrainReceive))
              && (s.queue == [] <==> Enabled(s, Event<R>.DrainDone))
              && s.stopRequested
  {
    ReachesInv(c, db0, events, s);
  }

  /** Where batches are cut is invisible: two runs that processed the same requests agree. */
  lemma BatchCutsAreInvisible<R, D>(
    c: Config<R, D>, d: Config<R, D>, db0: D,
    events: seq<Event<R>>, t: State<R, D>, events': seq<Event<R>>, t': State<R, D>)
    requires c.Valid() && Reaches(c, Initial(db0), events, t)
    requires d.Valid() && Reaches(d, Initial(db0), events', t')
    requires d.save == c.save && d.faults == c.faults // capacity and batch size may differ
    requires t.processed <= |t.accepted| && t'.processed <= |t'.accepted|
    requires t.accepted[..t.processed] == t'.accepted[..t'.processed]
    ensures t.db == t'.db && t.log == t'.log
  {
    BatchingRefinesDirectWriting(c, db0, events, t);
    BatchingRefinesDirectWriting(d, db0, events', t');
    DirectIgnoresSizes(c, d, db0, t.accepted[..t.processed]);
  }

  lemma {:induction false} DirectIgnoresSizes<R, D>(c: Config<R, D>, d: Config<R, D>, db0: D, requests: seq<R>)
    requires d.save == c.save && d.faults == c.faults
    ensures Direct(c, db0, requests) == Direct(d, db0, requests)
  {
    if requests != [] {
      DirectIgnoresSizes(c, d, db0, requests[..|requests| - 1]);
    }
  }

  // ---------- replies ----------

  /** The verdict of the direct writer on request `k`. */
  function Verdict<R, D>(c: Config<R, D>, db0: D, requests: seq<R>, k: nat): bool
    requires k < |requests|
  {
    c.Write(k, Direct(c, db0, requests[..k]).db, requests[k]).Some?
  }

  /**
   * Every processed request got exactly one result, its own, and then its channel was closed; it is a
   * success exactly when nothing failed and the statement was not refused.
   */
  lemma {:induction false} OneReplyEach<R, D>(c: Config<R, D>, db0: D, requests: seq<R>, k: nat)
    requires k < |requests|
    ensures |Direct(c, db0, requests).log| == 2 * |requests|
    ensures Direct(c, db0, requests).log[2 * k] == Sent(k, Verdict(c, db0, requests, k))
    ensures Direct(c, db0, requests).log[2 * k + 1] == Closed(k)
    ensures Verdict(c, db0, requests, k)
            <==> !c.faults(k) && c.save(Direct(c, db0, requests[..k]).db, requests[k]).Some?
    decreases |requests|
  {
    var n := |requests| - 1;
    if n > 0 {
      OneReplyEach(c, db0, requests[..n], if k < n then k else 0);
    }
    if k < n {
      assert requests[..n][..k] == requests[..k];
    }
  }

  // ---------- stopping ----------

  /** A worker that is Done never touches the database, its replies or its batch again. */
  lemma {:induction false} DoneIsFinal<R, D>(c: Config<R, D>, s: State<R, D>, events: seq<Event<R>>, t: State<R, D>)
    requires s.phase == Done && Reaches(c, s, events, t)
    ensures t.phase == Done && t.db == s.db && t.log == s.log && t.processed == s.processed && t.batch == s.batch
    decreases |events|
  {
    if events != [] {
      DoneIsFinal(c, Step(c, s, events[0]), events[1..], t);
    }
  }

  /**
   * Drain on stop: at the final empty poll everything accepted so far has been written or reported
   * failed, each with its one reply; whatever is accepted later changes none of it.
   */
  lemma DrainServesEveryone<R, D>(
    c: Config<R, D>, db0: D, events: seq<Event<R>>, s: State<R, D>, later: seq<Event<R>>, t: State<R, D>)
    requires c.Valid() && Reaches(c, Initial(db0), events, s)
    requires Enabled(s, Event<R>.DrainDone) && Reaches(c, Step(c, s, DrainDone), later, t)
    ensures Outcome(t.db, t.log) == Direct(c, db0, s.accepted)
    ensures t.processed == |s.accepted| && t.batch == []
    ensures |t.log| == 2 * |s.accepted|
    ensures forall k :: 0 <= k < |s.accepted| ==>
              t.log[2 * k] == Sent(k, Verdict(c, db0, s.accepted, k)) && t.log[2 * k + 1] == Closed(k)
  {
    ReachesInv(c, db0, events, s);
    var done := Step(c, s, DrainDone);
    StepKeepsInv(c, db0, s, DrainDone);
    FlushFrame(c, s);
    assert |s.accepted| == s.processed + |s.accepted[s.processed..]|;
    assert s.accepted[..done.processed] == s.accepted;
    DoneIsFinal(c, done, later, t);
    forall k | 0 <= k < |s.accepted|
      ensures |t.log| == 2 * |s.accepted|
      ensures t.log[2 * k] == Sent(k, Verdict(c, db0, s.accepted, k)) && t.log[2 * k + 1] == Closed(k)
    {
      OneReplyEach(c, db0, s.accepted, k);
    }
  }

  /** The drain of a queue: receive until it is empty, then finish. */
  function DrainOf<R>(n: nat): seq<Event<R>> {
    if n == 0 then [DrainDone] else [DrainReceive] + DrainOf(n - 1)
  }

  /** With no further enqueue the drain is forced, and it ends after one step per queued request. */
  lemma {:induction false} DrainEnds<R, D>(
    c: Config<R, D>, db0: D, s: State<R, D>, events: seq<Event<R>>, t: State<R, D>)
    requires c.Valid() && Inv(c, db0, s) && s.phase == Draining
    requires forall i :: 0 <= i < |events| ==> !events[i].Enqueue?
    requires Reaches(c, s, events, t)
    ensures events <= DrainOf(|s.queue|)
    ensures t.phase == Done <==> events == DrainOf(|s.queue|)
    decreases |events|
  {
    if events != [] {
      var n := |s.queue|;
      StepKeepsInv(c, db0, s, events[0]);
      if n == 0 {
        DoneStops(c, Step(c, s, DrainDone), events[1..], t);
        assert events == [DrainDone] + events[1..];
      } else {
        TakeKeepsOrder(c, db0, s);
        DrainEnds(c, db0, Step(c, s, DrainReceive), events[1..], t);
        assert events == [DrainReceive] + events[1..];
        assert DrainOf<R>(n) == [DrainReceive] + DrainOf(n - 1);
      }
    }
  }

  /** The forced drain can be carried out to its end. */
  lemma {:induction false} DrainIsPossible<R, D>(c: Config<R, D>, db0: D, s: State<R, D>) returns (t: State<R, D>)
    requires c.Valid() && Inv(c, db0, s) && s.phase == Draining
    ensures Reaches(c, s, DrainOf(|s.queue|), t) && t.phase == Done
    decreases |s.queue|
  {
    var n := |s.queue|;
    if n == 0 {
      t := Step(c, s, DrainDone);
      FlushFrame(c, s);
      assert DrainOf<R>(0)[1..] == [];
    } else {
      TakeKeepsOrder(c, db0, s);
      StepKeepsInv(c, db0, s, DrainReceive);
      t := DrainIsPossible(c, db0, Step(c, s, DrainReceive));
      assert DrainOf<R>(n)[1..] == DrainOf(n - 1);
    }
  }

  lemma DoneStops<R, D>(c: Config<R, D>, s: State<R, D>, events: seq<Event<R>>, t: State<R, D>)
    requires s.phase == Done && s.stopRequested
    requires forall i :: 0 <= i < |events| ==> !events[i].Enqueue?
    requires Reaches(c, s, events, t)
    ensures events == [] && t == s
  {
  }
}
