/**
 * history.go: the catch-up payload, a gzip stream of length-framed JSON messages. JSON and gzip
 * are arbitrary functions, of which only their round trip is assumed.
 */
module CatchUpCodec {
  import opened MachineInts
  import opened Frames
  import opened Ratchets
  import opened Tables
  import History

  /** gzip.NewReader refuses the header, or yields a stream and how it ends. */
  datatype Unzipped = BadHeader | Stream(bytes: Bytes, ending: Ending)

  /** What unmarshalling into a nil pointer leaves: an error, still nil for the literal null, or a value. */
  datatype Json<+T> = Malformed | Null | Value(value: T)

  /** `maxSlice` is the longest slice the run-time makes. */
  datatype Codecs = Codecs(
    marshal: StoredMessage -> Bytes, unmarshal: Bytes -> Json<StoredMessage>,
    printChat: ChatMessage -> Bytes, parseChat: Bytes -> Json<ChatMessage>,
    gzip: Bytes -> Bytes, gunzip: Bytes -> Unzipped, maxSlice: nat)
  {
    /** The round trips; Consistency.dfy shows that they can be had together. */
    ghost predicate Lawful() {
      && (forall m: StoredMessage :: unmarshal(marshal(m)) == Value(m))
      && (forall cm: ChatMessage :: parseChat(printChat(cm)) == Value(cm))
      && (forall b: Bytes :: gunzip(gzip(b)) == Stream(b, Clean) && gzip(b) != [])
      && maxSlice < TWO_63
    }

    /** Each message marshals to a slice that the run-time can make. */
    ghost predicate Frameable(msgs: seq<StoredMessage>) {
      forall i :: 0 <= i < |msgs| ==> |marshal(msgs[i])| <= maxSlice
    }
  }

  // ---------- building ----------

  function FrameStream(c: Codecs, msgs: seq<StoredMessage>): Bytes {
    if msgs == [] then [] else Framed(c.marshal(msgs[0])) + FrameStream(c, msgs[1..])
  }

  lemma {:induction false} FrameStreamAppends(c: Codecs, msgs: seq<StoredMessage>, m: StoredMessage)
    ensures FrameStream(c, msgs + [m]) == FrameStream(c, msgs) + Framed(c.marshal(m))
  {
    if msgs == [] {
      assert [m][1..] == [];
    } else {
      FrameStreamAppends(c, msgs[1..], m);
      assert (msgs + [m])[1..] == msgs[1..] + [m];
    }
  }

  /** No rows, no payload: an empty history is sent as nil, not as an empty stream. */
  function Payload(c: Codecs, msgs: seq<StoredMessage>): Bytes {
    if msgs == [] then [] else c.gzip(FrameStream(c, msgs))
  }

  function IndexOrZero(m: StoredMessage): uint64 {
    match m.chainIndex case Some(i) => i case None => 0
  }

  datatype Built = Built(payload: Bytes, lastIndex: uint64, msgs: seq<StoredMessage>) | BuildFailed

  method BuildCatchUpPayload(
    c: Codecs, h: History.HistoryManager, store: Store, room: string, since: uint64, limit: int,
    queryFault: bool, indexFault: bool) returns (r: Built)
    modifies h`lastIndex
    ensures queryFault ==> r == BuildFailed
    ensures !queryFault ==>
              && r.Built? && r.msgs == MessagesSince(store.messages, room, since, limit)
              && r.payload == Payload(c, r.msgs)
              && (r.msgs != [] ==> r.lastIndex == IndexOrZero(r.msgs[|r.msgs| - 1]) && h.lastIndex == old(h.lastIndex))
              && (r.msgs == [] ==>
                    r.lastIndex == if room in old(h.lastIndex) then old(h.lastIndex)[room]
                                   else if !indexFault && LatestIndex(store.messages, room).Ok?
                                        then LatestIndex(store.messages, room).value else 0)
  {
    var selected := store.GetMessagesSinceChainIndex(room, since, limit, queryFault);
    if selected.Err? {
      return BuildFailed;
    }
    var msgs := selected.value;
    if msgs == [] {
      var latest := h.GetLastIndex(room, store, indexFault);
      return Built([], if latest.Ok? then latest.value else 0, []);
    }
    var gw := new GzipWriter();
    var lastIndex: uint64 := 0;
    var i := 0;
    while i < |msgs|
      invariant 0 <= i <= |msgs|
      invariant gw.written == FrameStream(c, msgs[..i])
      invariant i > 0 ==> lastIndex == IndexOrZero(msgs[i - 1])
      invariant h.lastIndex == old(h.lastIndex) && store.messages == old(store.messages)
    {
      WriteFrame(gw, c.marshal(msgs[i]));
      FrameStreamAppends(c, msgs[..i], msgs[i]);
      assert msgs[..i + 1] == msgs[..i] + [msgs[i]];
      lastIndex := IndexOrZero(msgs[i]);
      i := i + 1;
    }
    assert msgs[..i] == msgs;
    return Built(c.gzip(gw.written), lastIndex, msgs);
  }

  // ---------- decoding ----------

  /** Panic: a length the run-time refuses, or a nil dereference after a JSON null. */
  datatype Decoding = Decoded(msgs: seq<StoredMessage>) | DecodeError | Panic

  /** The copy made of a decoded message: everything but its ID. */
  function Imported(m: StoredMessage): StoredMessage {
    m.(id := 0)
  }

  function ImportedAll(msgs: seq<StoredMessage>): seq<StoredMessage> {
    seq(|msgs|, i requires 0 <= i < |msgs| => Imported(msgs[i]))
  }

  function Prepend(msgs: seq<StoredMessage>, d: Decoding): Decoding {
    match d case Decoded(rest) => Decoded(msgs + rest) case _ => d
  }

  /** What a stream of frames decodes to: a clean or cut end is the end of the messages. */
  function Decode(c: Codecs, stream: Bytes, ending: Ending): Decoding
    decreases |stream|
  {
    match NextFrame(stream, ending, c.maxSlice)
    case TooLong => Panic
    case Stop(e) => if e == ChecksumError then DecodeError else Decoded([])
    case Frame(entry, rest) =>
      match c.unmarshal(entry)
      case Malformed => DecodeError
      case Null => Panic
      case Value(m) => Prepend([Imported(m)], Decode(c, rest, ending))
  }

  function Decompressed(c: Codecs, payload: Bytes): Decoding {
    if payload == [] then Decoded([])
    else
      match c.gunzip(payload)
      case BadHeader => DecodeError
      case Stream(bytes, ending) => Decode(c, bytes, ending)
  }

  method DecompressCatchUpPayload(c: Codecs, payload: Bytes) returns (d: Decoding)
    ensures d == Decompressed(c, payload)
  {
    if payload == [] {
      return Decoded([]);
    }
    var unzipped := c.gunzip(payload);
    if unzipped == BadHeader {
      return DecodeError;
    }
    var gr := new GzipReader(unzipped.bytes, unzipped.ending);
    var out: seq<StoredMessage> := [];
    while true
      invariant gr.ending == unzipped.ending
      invariant Decode(c, unzipped.bytes, unzipped.ending) == Prepend(out, Decode(c, gr.unread, gr.ending))
      decreases |gr.unread|
    {
      var frame := ReadFrame(gr, c.maxSlice);
      if frame == TooLong {
        return Panic;
      } else if frame.Stop? {
        return if frame.error == ChecksumError then DecodeError else Decoded(out);
      }
      var dec := c.unmarshal(frame.data);
      if dec == Malformed {
        return DecodeError;
      } else if dec == Null {
        return Panic;
      }
      PrependTwice(out, Imported(dec.value), Decode(c, gr.unread, gr.ending));
      out := out + [Imported(dec.value)];
    }
  }

  lemma PrependTwice(out: seq<StoredMessage>, m: StoredMessage, d: Decoding)
    ensures Prepend(out, Prepend([m], d)) == Prepend(out + [m], d)
  {
    if d.Decoded? {
      assert out + ([m] + d.msgs) == out + [m] + d.msgs;
    }
  }

  // ---------- truncation and round trip ----------

  /** How many messages have their whole frame within the first `k` bytes. */
  function CompleteFrames(c: Codecs, msgs: seq<StoredMessage>, k: nat): (n: nat)
    ensures n <= |msgs|
  {
    if msgs == [] || k < |Framed(c.marshal(msgs[0]))| then 0
    else 1 + CompleteFrames(c, msgs[1..], k - |Framed(c.marshal(msgs[0]))|)
  }

  /** CompleteFrames is the longest prefix that fits. */
  lemma {:induction false} CompleteFramesIsLongest(c: Codecs, msgs: seq<StoredMessage>, k: nat)
    ensures var n := CompleteFrames(c, msgs, k);
            && |FrameStream(c, msgs[..n])| <= k
            && (n < |msgs| ==> k < |FrameStream(c, msgs[..n + 1])|)
  {
    if msgs != [] && k >= |Framed(c.marshal(msgs[0]))| {
      var n := CompleteFrames(c, msgs, k);
      CompleteFramesIsLongest(c, msgs[1..], k - |Framed(c.marshal(msgs[0]))|);
      assert msgs[..n][1..] == msgs[1..][..n - 1];
      if n < |msgs| {
        assert msgs[..n + 1][1..] == msgs[1..][..n];
      }
    } else if msgs != [] {
      assert msgs[..1][1..] == [];
    }
  }

  /** A stream cut inside its first frame. */
  lemma CutInFirstFrame(c: Codecs, entry: Bytes, tail: Bytes, k: nat, ending: Ending)
    requires |entry| <= c.maxSlice < TWO_63 && k < |Framed(entry)|
    ensures Decode(c, (Framed(entry) + tail)[..k], ending) == if ending == Corrupt then DecodeError else Decoded([])
  {
    CutFrameStops(entry, tail, k, ending, c.maxSlice);
  }

  /** A stream that begins with the whole frame of a message. */
  lemma WholeFirstFrame(c: Codecs, m: StoredMessage, rest: Bytes, ending: Ending)
    requires c.Lawful() && |c.marshal(m)| <= c.maxSlice
    ensures Decode(c, Framed(c.marshal(m)) + rest, ending) == Prepend([Imported(m)], Decode(c, rest, ending))
  {
    FrameReadsBack(c.marshal(m), rest, ending, c.maxSlice);
  }

  lemma ImportedHead(msgs: seq<StoredMessage>, n: nat)
    requires 0 < n <= |msgs|
    ensures ImportedAll(msgs[..n]) == [Imported(msgs[0])] + ImportedAll(msgs[1..][..n - 1])
  {
  }

  lemma CutBehind(head: Bytes, tail: Bytes, k: nat)
    requires |head| <= k <= |head| + |tail|
    ensures (head + tail)[..k] == head + tail[..k - |head|]
  {
  }

  /**
   * Cut anywhere, the stream decodes to exactly the messages whose frames are complete; only a
   * checksum error turns it into a failure.
   */
  lemma {:induction false} TruncationGivesPrefix(c: Codecs, msgs: seq<StoredMessage>, k: nat, ending: Ending)
    requires c.Lawful() && c.Frameable(msgs) && k <= |FrameStream(c, msgs)|
    ensures Decode(c, FrameStream(c, msgs)[..k], ending)
            == if ending == Corrupt then DecodeError
               else Decoded(ImportedAll(msgs[..CompleteFrames(c, msgs, k)]))
  {
    var stream := FrameStream(c, msgs);
    if msgs != [] {
      var entry, tail := c.marshal(msgs[0]), FrameStream(c, msgs[1..]);
      if k < |Framed(entry)| {
        CutInFirstFrame(c, entry, tail, k, ending);
      } else {
        var n, left := CompleteFrames(c, msgs, k), k - |Framed(entry)|;
        CutBehind(Framed(entry), tail, k);
        WholeFirstFrame(c, msgs[0], tail[..left], ending);
        TruncationGivesPrefix(c, msgs[1..], left, ending);
        ImportedHead(msgs, n);
      }
    }
  }

  lemma {:induction false} WholeStreamIsComplete(c: Codecs, msgs: seq<StoredMessage>)
    ensures CompleteFrames(c, msgs, |FrameStream(c, msgs)|) == |msgs|
  {
    if msgs != [] {
      WholeStreamIsComplete(c, msgs[1..]);
    }
  }

  /** What BuildCatchUpPayload packs, DecompressCatchUpPayload unpacks; only the IDs are reset. */
  lemma PayloadRoundTrip(c: Codecs, msgs: seq<StoredMessage>)
    requires c.Lawful() && c.Frameable(msgs)
    ensures Decompressed(c, Payload(c, msgs)) == Decoded(ImportedAll(msgs))
    ensures |ImportedAll(msgs)| == |msgs|
    ensures forall i :: 0 <= i < |msgs| ==>
              ImportedAll(msgs)[i] == StoredMessage(0, msgs[i].chainIndex, msgs[i].body)
  {
    var stream := FrameStream(c, msgs);
    if msgs != [] {
      TruncationGivesPrefix(c, msgs, |stream|, Clean);
      WholeStreamIsComplete(c, msgs);
      assert stream[..|stream|] == stream && msgs[..|msgs|] == msgs;
    }
  }

  // ---------- payloads that do not decode ----------

  /** A stream of good frames goes on with whatever follows them. */
  lemma {:induction false} DecodeAfter(c: Codecs, msgs: seq<StoredMessage>, rest: Bytes, ending: Ending)
    requires c.Lawful() && c.Frameable(msgs)
    ensures Decode(c, FrameStream(c, msgs) + rest, ending) == Prepend(ImportedAll(msgs), Decode(c, rest, ending))
  {
    if msgs == [] {
      assert FrameStream(c, msgs) + rest == rest;
    } else {
      var head, tail := Framed(c.marshal(msgs[0])), FrameStream(c, msgs[1..]);
      assert FrameStream(c, msgs) + rest == head + (tail + rest);
      WholeFirstFrame(c, msgs[0], tail + rest, ending);
      DecodeAfter(c, msgs[1..], rest, ending);
      PrependHead(msgs, Decode(c, rest, ending));
    }
  }

  lemma PrependHead(msgs: seq<StoredMessage>, d: Decoding)
    requires msgs != []
    ensures Prepend([Imported(msgs[0])], Prepend(ImportedAll(msgs[1..]), d)) == Prepend(ImportedAll(msgs), d)
  {
    assert ImportedAll(msgs) == [Imported(msgs[0])] + ImportedAll(msgs[1..]);
    if d.Decoded? {
      assert [Imported(msgs[0])] + (ImportedAll(msgs[1..]) + d.msgs) == ImportedAll(msgs) + d.msgs;
    }
  }

  /**
   * What ends decoding, however many good frames come before it and whatever comes after: an entry that
   * is not JSON is an error, a JSON null a nil dereference. Nothing decoded before it is kept.
   */
  lemma BadEntryEndsDecoding(c: Codecs, msgs: seq<StoredMessage>, entry: Bytes, rest: Bytes, ending: Ending)
    requires c.Lawful() && c.Frameable(msgs) && |entry| <= c.maxSlice
    ensures c.unmarshal(entry).Malformed? ==>
              Decode(c, FrameStream(c, msgs) + (Framed(entry) + rest), ending) == DecodeError
    ensures c.unmarshal(entry).Null? ==>
              Decode(c, FrameStream(c, msgs) + (Framed(entry) + rest), ending) == Panic
  {
    DecodeAfter(c, msgs, Framed(entry) + rest, ending);
    FrameReadsBack(entry, rest, ending, c.maxSlice);
  }

  /** So is a length the run-time refuses; a header that is not gzip's is an error, and no bytes are no messages. */
  lemma BadLengthOrHeader(c: Codecs, msgs: seq<StoredMessage>, length: nat, rest: Bytes, ending: Ending, payload: Bytes)
    requires c.Lawful() && c.Frameable(msgs) && c.maxSlice < length < TWO_64
    ensures Decode(c, FrameStream(c, msgs) + (BigEndian(length, 8) + rest), ending) == Panic
    ensures payload != [] && c.gunzip(payload) == BadHeader ==> Decompressed(c, payload) == DecodeError
    ensures Decompressed(c, []) == Decoded([])
  {
    DecodeAfter(c, msgs, BigEndian(length, 8) + rest, ending);
    EightBytesHoldAWord();
    NumberOfBigEndian(length, 8);
    assert (BigEndian(length, 8) + rest)[..8] == BigEndian(length, 8);
  }
}
