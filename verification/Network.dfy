/**
 * Any number of clients in a room under one master key, on a network that may lose, repeat and
 * reorder what they publish.
 */
module Network {
  import opened MachineInts
  import opened Ratchets
  import opened Windows
  import opened WrapAround
  import opened Sessions
  import opened Chat

  /** `text` is what the sender typed; only `message` travels. */
  datatype Packet = Packet(message: ChatMessage, text: Bytes)

  datatype Net = Net(windows: seq<Window>, wire: seq<Packet>)

  datatype NetEvent =
    | Enter(window: Window)                   // a client, fresh or after its replay
    | Publish(client: nat, text: Bytes)       // one that fails is a packet nobody is delivered
    | Deliver(client: nat, packet: nat)       // any earlier packet, any number of times, own ones too

  /** Delivering the packet returns with both ratchets where Windows says: the exact condition of ExactSafety. */
  predicate Deliverable(n: Net, client: nat, packet: nat) {
    && client < |n.windows| && packet < |n.wire|
    && n.windows[client].high < TWO_64
    && Fits(n.windows[client], n.wire[packet].message.chainIndex)
  }

  /** A client publishes as long as its lead has not wrapped. */
  predicate Possible(origin: Origin, n: Net, e: NetEvent) {
    match e
    case Enter(w) => origin.start <= w.floor <= w.high
    case Publish(i, _) => i < |n.windows| && origin.start <= n.windows[i].high < TWO_64
    case Deliver(i, k) => Deliverable(n, i, k)
  }

  function NetStep(p: Primitives, origin: Origin, n: Net, e: NetEvent): Net
    requires Possible(origin, n, e)
  {
    match e
    case Enter(w) => n.(windows := n.windows + [w])
    case Publish(i, text) =>
      Net(n.windows[i := n.windows[i].Send()], n.wire + [Packet(Sealed(p, origin, n.windows[i], text), text)])
    case Deliver(i, k) =>
      n.(windows := n.windows[i := n.windows[i].Receive(n.wire[k].message.chainIndex)])
  }

  /**
   * The steps are those of the handlers: publishing sends what SealMessage seals and steps the lead, and
   * a delivery takes the ratchets where DecryptMessage leaves them. No other client moves.
   */
  lemma StepsAreHandlers(p: Primitives, origin: Origin, n: Net, e: NetEvent)
    requires Possible(origin, n, e)
    ensures var m := NetStep(p, origin, n, e);
            match e
            case Enter(w) => m == Net(n.windows + [w], n.wire)
            case Publish(i, text) =>
              var w := n.windows[i];
              && m.windows == n.windows[i := Window(w.floor, w.high + 1)]
              && m.wire == n.wire + [Packet(ChatMessage(w.high, p.seal(KeyAt(p, origin, w.high), text)), text)]
            case Deliver(i, k) =>
              && m.wire == n.wire
              && (n.windows[i].Ordered() ==>
                    m.windows == n.windows[i := Landed(n.windows[i], n.wire[k].message.chainIndex)])
  {
    if e.Deliver? && n.windows[e.client].Ordered() {
      LandedInWindow(n.windows[e.client], n.wire[e.packet].message.chainIndex);
    }
  }

  ghost predicate NetReaches(p: Primitives, origin: Origin, n: Net, events: seq<NetEvent>, m: Net)
    decreases |events|
  {
    if events == [] then n == m
    else Possible(origin, n, events[0]) && NetReaches(p, origin, NetStep(p, origin, n, events[0]), events[1..], m)
  }

  ghost predicate NetInv(p: Primitives, origin: Origin, n: Net) {
    && (forall i :: 0 <= i < |n.windows| ==> origin.start <= n.windows[i].floor <= n.windows[i].high)
    && (forall k :: 0 <= k < |n.wire| ==>
          && origin.start <= n.wire[k].message.chainIndex
          && n.wire[k].message.ciphertext == p.seal(KeyAt(p, origin, n.wire[k].message.chainIndex), n.wire[k].text))
  }

  lemma StepKeepsNet(p: Primitives, origin: Origin, n: Net, e: NetEvent)
    requires NetInv(p, origin, n) && Possible(origin, n, e)
    ensures NetInv(p, origin, NetStep(p, origin, n, e))
  {
  }

  lemma {:induction false} RunKeepsNet(p: Primitives, origin: Origin, n: Net, events: seq<NetEvent>, m: Net)
    requires NetInv(p, origin, n) && NetReaches(p, origin, n, events, m)
    ensures NetInv(p, origin, m)
    decreases |events|
  {
    if events != [] {
      StepKeepsNet(p, origin, n, events[0]);
      RunKeepsNet(p, origin, NetStep(p, origin, n, events[0]), events[1..], m);
    }
  }

  /**
   * Send/receive agreement in any reachable network: each delivery that fits yields the sender's
   * text exactly when the client's backup ratchet has not passed the packet's index, and no key
   * otherwise. It never yields anything else.
   */
  lemma DeliveriesAgree(p: Primitives, origin: Origin, events: seq<NetEvent>, m: Net, client: nat, packet: nat)
    requires p.Lawful()
    requires NetReaches(p, origin, Net([], []), events, m)
    requires Deliverable(m, client, packet)
    ensures OnChain(origin, m.windows[client])
    ensures Yielded(p, origin, m.windows[client], m.wire[packet].message)
            == if m.windows[client].Accepts(m.wire[packet].message.chainIndex) then Plain(m.wire[packet].text)
               else NoKey
  {
    RunKeepsNet(p, origin, Net([], []), events, m);
    var sent := m.wire[packet];
    YieldedInWindow(p, origin, m.windows[client], sent.message);
    assert p.open(KeyAt(p, origin, sent.message.chainIndex), sent.message.ciphertext) == Some(sent.text);
  }

  // ---------- when no key is used twice ----------

  ghost predicate Distinct(wire: seq<Packet>) {
    forall j, k :: 0 <= j < k < |wire| ==> wire[j].message.chainIndex != wire[k].message.chainIndex
  }

  /** The client's lead is past every packet published so far. */
  predicate PastAll(n: Net, client: nat)
    requires client < |n.windows|
  {
    forall k :: 0 <= k < |n.wire| ==> n.wire[k].message.chainIndex < n.windows[client].high
  }

  /** The first index past everything published. */
  function NextFree(origin: Origin, wire: seq<Packet>): (next: nat)
    ensures origin.start <= next
    ensures forall k :: 0 <= k < |wire| ==> wire[k].message.chainIndex < next
    ensures next == origin.start || exists k :: 0 <= k < |wire| && next == wire[k].message.chainIndex + 1
  {
    if wire == [] then origin.start
    else
      var n := |wire| - 1;
      assert forall k :: 0 <= k < n ==> wire[..n][k] == wire[k];
      Max(NextFree(origin, wire[..n]), wire[n].message.chainIndex + 1)
  }

  /** Whoever enters stands at the start or somewhere behind what was published, as a replay leaves it. */
  predicate EntersBehind(origin: Origin, n: Net, e: NetEvent) {
    e.Enter? ==> e.window.high <= NextFree(origin, n.wire)
  }

  ghost predicate AllEnterBehind(p: Primitives, origin: Origin, n: Net, events: seq<NetEvent>)
    decreases |events|
  {
    events != [] && Possible(origin, n, events[0]) ==>
      EntersBehind(origin, n, events[0]) && AllEnterBehind(p, origin, NetStep(p, origin, n, events[0]), events[1..])
  }

  /** Each publisher has heard, or published, the latest packet first. */
  ghost predicate AllHearFirst(p: Primitives, origin: Origin, n: Net, events: seq<NetEvent>)
    decreases |events|
  {
    events != [] && Possible(origin, n, events[0]) ==>
      && (events[0].Publish? ==> PastAll(n, events[0].client))
      && AllHearFirst(p, origin, NetStep(p, origin, n, events[0]), events[1..])
  }

  predicate Carries(wire: seq<Packet>, index: nat) {
    exists k :: 0 <= k < |wire| && wire[k].message.chainIndex == index
  }

  /** No index below the first free one was skipped. */
  ghost predicate NoneSkipped(origin: Origin, wire: seq<Packet>) {
    forall x: nat :: origin.start <= x < NextFree(origin, wire) ==> Carries(wire, x)
  }

  /** Nor is anybody's lead past it. */
  ghost predicate Gapless(origin: Origin, n: Net) {
    && NoneSkipped(origin, n.wire)
    && forall i :: 0 <= i < |n.windows| ==> n.windows[i].high <= NextFree(origin, n.wire)
  }

  lemma SentKeepsNoneSkipped(origin: Origin, wire: seq<Packet>, sent: Packet)
    requires NoneSkipped(origin, wire) && sent.message.chainIndex <= NextFree(origin, wire)
    ensures NextFree(origin, wire + [sent]) == Max(NextFree(origin, wire), sent.message.chainIndex + 1)
    ensures NoneSkipped(origin, wire + [sent])
  {
    var more := wire + [sent];
    assert more[..|wire|] == wire;
    forall x: nat | origin.start <= x < NextFree(origin, more) ensures Carries(more, x) {
      if x < NextFree(origin, wire) {
        assert Carries(wire, x);
        var k :| 0 <= k < |wire| && wire[k].message.chainIndex == x;
        assert more[k] == wire[k];
      } else {
        assert more[|wire|].message.chainIndex == x;
      }
    }
  }

  lemma StepKeepsGapless(p: Primitives, origin: Origin, n: Net, e: NetEvent)
    requires Gapless(origin, n) && Possible(origin, n, e) && EntersBehind(origin, n, e)
    ensures Gapless(origin, NetStep(p, origin, n, e))
  {
    if e.Publish? {
      SentKeepsNoneSkipped(origin, n.wire, Packet(Sealed(p, origin, n.windows[e.client], e.text), e.text));
    }
  }

  /** A wire of distinct indices stays one exactly when the next index is not below the first free one. */
  lemma RepeatsExactly(origin: Origin, wire: seq<Packet>, sent: Packet)
    requires NoneSkipped(origin, wire) && Distinct(wire) && origin.start <= sent.message.chainIndex
    ensures Distinct(wire + [sent]) <==> NextFree(origin, wire) <= sent.message.chainIndex
  {
    var more := wire + [sent];
    assert more[|wire|] == sent;
    if sent.message.chainIndex < NextFree(origin, wire) {
      assert Carries(wire, sent.message.chainIndex);
      var k :| 0 <= k < |wire| && wire[k].message.chainIndex == sent.message.chainIndex;
      assert more[k] == wire[k];
    }
  }

  lemma PastAllIsPastFree(origin: Origin, n: Net, i: nat)
    requires i < |n.windows| && origin.start <= n.windows[i].high
    ensures PastAll(n, i) <==> NextFree(origin, n.wire) <= n.windows[i].high
  {
  }

  lemma {:induction false} WireOnlyGrows(p: Primitives, origin: Origin, n: Net, events: seq<NetEvent>, m: Net)
    requires NetReaches(p, origin, n, events, m)
    ensures n.wire <= m.wire
    decreases |events|
  {
    if events != [] {
      WireOnlyGrows(p, origin, NetStep(p, origin, n, events[0]), events[1..], m);
    }
  }

  lemma {:induction false} DistinctFrom(p: Primitives, origin: Origin, n: Net, events: seq<NetEvent>, m: Net)
    requires NetInv(p, origin, n) && Gapless(origin, n) && Distinct(n.wire)
    requires NetReaches(p, origin, n, events, m) && AllEnterBehind(p, origin, n, events)
    ensures Distinct(m.wire) <==> AllHearFirst(p, origin, n, events)
    decreases |events|
  {
    if events != [] {
      var e, next := events[0], NetStep(p, origin, n, events[0]);
      StepKeepsNet(p, origin, n, e);
      StepKeepsGapless(p, origin, n, e);
      if e.Publish? {
        RepeatsExactly(origin, n.wire, Packet(Sealed(p, origin, n.windows[e.client], e.text), e.text));
        PastAllIsPastFree(origin, n, e.client);
      }
      if Distinct(next.wire) {
        DistinctFrom(p, origin, next, events[1..], m);
      } else {
        WireOnlyGrows(p, origin, next, events[1..], m);
        assert !Distinct(m.wire) by {
          var j, k :| 0 <= j < k < |next.wire| && next.wire[j].message.chainIndex == next.wire[k].message.chainIndex;
          assert m.wire[j] == next.wire[j] && m.wire[k] == next.wire[k];
        }
      }
    }
  }

  /**
   * Over any run in which newcomers enter behind what was published: no two packets carry the same
   * index, and so no key and nonce seals twice, if and only if each publisher's lead was past every
   * packet published before. Nothing in the code makes a publisher wait for that.
   */
  lemma IndicesDistinctExactly(p: Primitives, origin: Origin, events: seq<NetEvent>, m: Net)
    requires NetReaches(p, origin, Net([], []), events, m) && AllEnterBehind(p, origin, Net([], []), events)
    ensures Distinct(m.wire) <==> AllHearFirst(p, origin, Net([], []), events)
  {
    DistinctFrom(p, origin, Net([], []), events, m);
  }

  /** Two clients that publish before they hear each other seal two texts under one key and nonce. */
  lemma TwoPublishersShareKey(p: Primitives, origin: Origin, text: Bytes, text': Bytes) returns (m: Net)
    ensures var here := Enter(Fresh(origin.start));
            NetReaches(p, origin, Net([], []), [here, here, Publish(0, text), Publish(1, text')], m)
    ensures |m.wire| == 2 && m.wire[0].message.chainIndex == m.wire[1].message.chainIndex
    ensures m.wire[0].message.ciphertext == p.seal(KeyAt(p, origin, origin.start), text)
    ensures m.wire[1].message.ciphertext == p.seal(KeyAt(p, origin, origin.start), text')
  {
    var here := Enter(Fresh(origin.start));
    var n0 := Net([], []);
    var n1 := NetStep(p, origin, n0, here);
    var n2 := NetStep(p, origin, n1, here);
    var n3 := NetStep(p, origin, n2, Publish(0, text));
    m := NetStep(p, origin, n3, Publish(1, text'));
    assert NetReaches(p, origin, m, [], m);
    assert NetReaches(p, origin, n3, [Publish(1, text')], m);
    assert [Publish(0, text), Publish(1, text')][1..] == [Publish(1, text')];
    assert NetReaches(p, origin, n2, [Publish(0, text), Publish(1, text')], m);
    assert [here, Publish(0, text), Publish(1, text')][1..] == [Publish(0, text), Publish(1, text')];
    assert NetReaches(p, origin, n1, [here, Publish(0, text), Publish(1, text')], m);
    assert [here, here, Publish(0, text), Publish(1, text')][1..] == [here, Publish(0, text), Publish(1, text')];
  }
}
