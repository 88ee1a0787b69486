/** internal/storage/peer_manager.go: the same writer with a batch of one and INSERT OR REPLACE. */
module Peers {
  import opened MachineInts
  import opened Tables
  import BatchWriter

  type Events = seq<BatchWriter.Event<User>>
  type PeerTable = map<string, User>
  type WriterState = BatchWriter.State<User, PeerTable>

  const PEER_BATCH_SIZE: nat := 1

  /** SaveUser: NOT NULL is not covered by OR REPLACE, so a missing key is an error. */
  function Save(peers: PeerTable, u: User): Option<PeerTable> {
    if HasKeys(u) then Some(peers[u.peerID := u]) else None
  }

  function Configured(capacity: nat, faults: nat -> bool): BatchWriter.Config<User, PeerTable> {
    BatchWriter.Config(capacity, PEER_BATCH_SIZE, Save, faults)
  }

  class PeerManager {
    const capacity: nat
    var writeQ: seq<User>
    var batch: seq<User>
    var stopRequested: bool
    var phase: BatchWriter.Phase
    var processed: nat
    var results: seq<BatchWriter.Delivery>
    ghost var accepted: seq<User>

    constructor (writeQSize: nat)
      ensures capacity == writeQSize && writeQ == [] && batch == []
      ensures !stopRequested && phase == BatchWriter.Running
      ensures processed == 0 && results == [] && accepted == []
    {
      capacity := writeQSize;
      writeQ, batch, stopRequested, phase := [], [], false, BatchWriter.Running;
      processed, results, accepted := 0, [], [];
    }

    ghost function View(store: Store): WriterState
      reads this, store
    {
      BatchWriter.State(accepted, processed, batch, writeQ, stopRequested, phase, store.peers, results)
    }

    method EnqueueUserEntry(u: User) returns (ok: bool)
      modifies this`writeQ, this`accepted
      ensures ok == (|old(writeQ)| < capacity)
      ensures writeQ == if ok then old(writeQ) + [u] else old(writeQ)
      ensures accepted == if ok then old(accepted) + [u] else old(accepted)
    {
      ok := |writeQ| < capacity;
      if ok {
        writeQ, accepted := writeQ + [u], accepted + [u];
      }
    }

    /** One turn of the flush loop; `rest` is what is left of the batch after it. */
    method WriteOne(store: Store, faults: nat -> bool, u: User, ghost rest: seq<User>)
      modifies this`processed, this`results, store`peers
      ensures View(store).(batch := rest)
              == BatchWriter.FlushOne(Configured(capacity, faults), old(View(store)).(batch := [u] + rest))
    {
      var ok := store.SaveUser(u, faults(processed));
      results := results + [BatchWriter.Sent(processed, ok), BatchWriter.Closed(processed)];
      processed := processed + 1;
    }

    /** The flush closure of peerWriteWorker. */
    method Flush(store: Store, faults: nat -> bool)
      modifies this, store`peers
      ensures View(store) == BatchWriter.Flush(Configured(capacity, faults), old(View(store)))
    {
      ghost var c := Configured(capacity, faults);
      var i := 0;
      while i < |batch|
        invariant 0 <= i <= |batch| && batch == old(batch)
        invariant BatchWriter.Flush(c, View(store).(batch := batch[i..])) == BatchWriter.Flush(c, old(View(store)))
      {
        assert batch[i..] == [batch[i]] + batch[i + 1..];
        WriteOne(store, faults, batch[i], batch[i + 1..]);
        i := i + 1;
      }
      batch := [];
    }

    /** The receive case, in the main loop and in the drain. */
    method ReceiveRequest(store: Store, faults: nat -> bool)
      requires writeQ != []
      modifies this, store`peers
      ensures View(store) == BatchWriter.Take(Configured(capacity, faults), old(View(store)))
    {
      batch, writeQ := batch + [writeQ[0]], writeQ[1..];
      if |batch| >= PEER_BATCH_SIZE {
        Flush(store, faults);
      }
    }

    /** One case of the select statements of peerWriteWorker, or a step of another goroutine. */
    method TakeStep(store: Store, faults: nat -> bool, e: BatchWriter.Event<User>)
      requires BatchWriter.Enabled(View(store), e)
      modifies this, store`peers
      ensures View(store) == BatchWriter.Step(Configured(capacity, faults), old(View(store)), e)
      ensures e.Timer? || e.DrainDone? ==> batch == [] && processed == old(processed) + |old(batch)|
    {
      BatchWriter.FlushFrame(Configured(capacity, faults), View(store));
      match e
      case Enqueue(u) => var _ := EnqueueUserEntry(u);
      case Receive => ReceiveRequest(store, faults);
      case Timer => Flush(store, faults);
      case Stop => stopRequested := true;
      case BeginDrain => phase := BatchWriter.Draining;
      case DrainReceive => ReceiveRequest(store, faults);
      case DrainDone => Flush(store, faults); phase := BatchWriter.Done;
    }
  }

  // ---------- last write wins ----------

  /** Request `k` is for `peerID` and its save succeeds. */
  predicate Counts(faults: nat -> bool, requests: seq<User>, peerID: string, k: nat)
    requires k < |requests|
  {
    requests[k].peerID == peerID && HasKeys(requests[k]) && !faults(k)
  }

  /** The last accepted request for `peerID` whose save succeeds, if any. */
  function LastSaved(faults: nat -> bool, requests: seq<User>, peerID: string): (last: Option<nat>)
    ensures last.Some? ==>
              && last.value < |requests| && Counts(faults, requests, peerID, last.value)
              && forall j :: last.value < j < |requests| ==> !Counts(faults, requests, peerID, j)
    ensures last.None? ==> forall j :: 0 <= j < |requests| ==> !Counts(faults, requests, peerID, j)
  {
    if requests == [] then None
    else
      var n := |requests| - 1;
      assert forall j :: 0 <= j < n ==>
               Counts(faults, requests[..n], peerID, j) == Counts(faults, requests, peerID, j);
      if Counts(faults, requests, peerID, n) then Some(n) else LastSaved(faults, requests[..n], peerID)
  }

  /** What a lookup finds: the user of that request, or what was there before. */
  function Survivor(faults: nat -> bool, peers0: PeerTable, requests: seq<User>, peerID: string): Option<User> {
    match LastSaved(faults, requests, peerID)
    case Some(k) => Some(requests[k])
    case None => UserOf(peers0, peerID)
  }

  lemma {:induction false} DirectIsLastWriteWins(
    capacity: nat, faults: nat -> bool, peers0: PeerTable, requests: seq<User>, peerID: string)
    ensures UserOf(BatchWriter.Direct(Configured(capacity, faults), peers0, requests).db, peerID)
            == Survivor(faults, peers0, requests, peerID)
  {
    if requests != [] {
      DirectIsLastWriteWins(capacity, faults, peers0, requests[..|requests| - 1], peerID);
    }
  }

  /**
   * Between steps the batch is empty, and after the drain a lookup finds the user of the last
   * accepted entry for that peer whose save succeeded, or what was there before.
   */
  lemma LastWriteWins(
    capacity: nat, faults: nat -> bool, peers0: PeerTable, events: Events, s: WriterState,
    later: Events, t: WriterState, peerID: string)
    requires BatchWriter.Reaches(Configured(capacity, faults), BatchWriter.Initial(peers0), events, s)
    requires BatchWriter.Enabled(s, BatchWriter.Event<User>.DrainDone)
    requires BatchWriter.Reaches(Configured(capacity, faults),
                                 BatchWriter.Step(Configured(capacity, faults), s, BatchWriter.DrainDone), later, t)
    ensures s.batch == [] && t.batch == []
    ensures UserOf(t.db, peerID) == Survivor(faults, peers0, s.accepted, peerID)
  {
    BatchWriter.BatchingRefinesDirectWriting(Configured(capacity, faults), peers0, events, s);
    BatchWriter.DrainServesEveryone(Configured(capacity, faults), peers0, events, s, later, t);
    DirectIsLastWriteWins(capacity, faults, peers0, s.accepted, peerID);
  }
}
