/**
 * The laws assumed of JSON, gzip and the cryptographic primitives have a model, so what is proved
 * under them is not empty. JSON is played by a prefix code of numbers in unary, read back by choice.
 */
module Consistency {
  import opened MachineInts
  import opened Frames
  import opened Ratchets
  import opened Tables
  import opened CatchUpCodec
  import opened CatchUp

  // ---------- a prefix code for lists of lists of numbers ----------

  function Unary(n: nat): Bytes {
    if n == 0 then [0] else [1] + Unary(n - 1)
  }

  lemma {:induction false} UnarySplits(m: nat, n: nat, s: Bytes, t: Bytes)
    requires Unary(m) + s == Unary(n) + t
    ensures m == n && s == t
  {
    assert (Unary(m) + s)[0] == (Unary(n) + t)[0];
    if m == 0 {
      assert (Unary(m) + s)[1..] == s && (Unary(n) + t)[1..] == t;
    } else {
      assert (Unary(m) + s)[1..] == Unary(m - 1) + s && (Unary(n) + t)[1..] == Unary(n - 1) + t;
      UnarySplits(m - 1, n - 1, s, t);
    }
  }

  function Items(xs: seq<nat>): Bytes {
    if xs == [] then [] else Unary(xs[0]) + Items(xs[1..])
  }

  lemma {:induction false} ItemsSplit(xs: seq<nat>, ys: seq<nat>, s: Bytes, t: Bytes)
    requires |xs| == |ys| && Items(xs) + s == Items(ys) + t
    ensures xs == ys && s == t
  {
    if xs == [] {
      assert [] + s == s && [] + t == t;
    } else {
      assert Items(xs) + s == Unary(xs[0]) + (Items(xs[1..]) + s);
      assert Items(ys) + t == Unary(ys[0]) + (Items(ys[1..]) + t);
      UnarySplits(xs[0], ys[0], Items(xs[1..]) + s, Items(ys[1..]) + t);
      ItemsSplit(xs[1..], ys[1..], s, t);
      assert xs == [xs[0]] + xs[1..] && ys == [ys[0]] + ys[1..];
    }
  }

  function Lists(xss: seq<seq<nat>>): Bytes {
    if xss == [] then [] else Unary(|xss[0]|) + Items(xss[0]) + Lists(xss[1..])
  }

  lemma ListsUnfold(xss: seq<seq<nat>>)
    requires xss != []
    ensures Lists(xss) == Unary(|xss[0]|) + (Items(xss[0]) + Lists(xss[1..]))
  {
  }

  lemma HeadSplits(xs: seq<nat>, ys: seq<nat>, s: Bytes, t: Bytes)
    requires Unary(|xs|) + (Items(xs) + s) == Unary(|ys|) + (Items(ys) + t)
    ensures xs == ys && s == t
  {
    UnarySplits(|xs|, |ys|, Items(xs) + s, Items(ys) + t);
    ItemsSplit(xs, ys, s, t);
  }

  lemma {:induction false} ListsAreInjective(xss: seq<seq<nat>>, yss: seq<seq<nat>>)
    requires |xss| == |yss| && Lists(xss) == Lists(yss)
    ensures xss == yss
  {
    if xss != [] {
      ListsUnfold(xss);
      ListsUnfold(yss);
      HeadSplits(xss[0], yss[0], Lists(xss[1..]), Lists(yss[1..]));
      ListsAreInjective(xss[1..], yss[1..]);
      assert xss == [xss[0]] + xss[1..] && yss == [yss[0]] + yss[1..];
    }
  }

  // ---------- messages ----------

  function Text(s: string): (codes: seq<nat>)
    ensures |codes| == |s|
  {
    seq(|s|, i requires 0 <= i < |s| => s[i] as int)
  }

  lemma TextIsInjective(s: string, t: string)
    requires Text(s) == Text(t)
    ensures s == t
  {
    forall i | 0 <= i < |s| ensures s[i] == t[i] {
      assert Text(s)[i] == Text(t)[i];
    }
  }

  function Blob(b: Option<Bytes>): seq<nat> {
    match b case None => [] case Some(bytes) => [0] + bytes
  }

  lemma BlobIsInjective(a: Option<Bytes>, b: Option<Bytes>)
    requires Blob(a) == Blob(b)
    ensures a == b
  {
    if a.Some? && b.Some? {
      assert Blob(a)[1..] == a.value && Blob(b)[1..] == b.value;
    }
  }

  function Signed(t: int): seq<nat> {
    if t < 0 then [1, -t] else [0, t]
  }

  function Fields(m: StoredMessage): seq<seq<nat>> {
    [[m.id],
     match m.chainIndex case None => [] case Some(i) => [i],
     Text(m.body.roomID), Text(m.body.serverID), Text(m.body.msgType), Text(m.body.senderID),
     Signed(m.body.timestamp),
     Blob(m.body.signature), Blob(m.body.payload)]
  }

  lemma FieldsAreInjective(m: StoredMessage, n: StoredMessage)
    requires Fields(m) == Fields(n)
    ensures m == n
  {
    var f, g := Fields(m), Fields(n);
    assert f[0] == g[0] && f[1] == g[1] && f[6] == g[6];
    assert f[2] == g[2] && f[3] == g[3] && f[4] == g[4] && f[5] == g[5] && f[7] == g[7] && f[8] == g[8];
    assert m.id == f[0][0] == g[0][0] == n.id;
    assert m.chainIndex == n.chainIndex by {
      assert |f[1]| == |g[1]|;
      assert m.chainIndex.Some? ==> f[1][0] == m.chainIndex.value;
      assert n.chainIndex.Some? ==> g[1][0] == n.chainIndex.value;
    }
    assert m.body.timestamp == n.body.timestamp by {
      assert f[6][0] == g[6][0] && f[6][1] == g[6][1];
    }
    TextIsInjective(m.body.roomID, n.body.roomID);
    TextIsInjective(m.body.serverID, n.body.serverID);
    TextIsInjective(m.body.msgType, n.body.msgType);
    TextIsInjective(m.body.senderID, n.body.senderID);
    BlobIsInjective(m.body.signature, n.body.signature);
    BlobIsInjective(m.body.payload, n.body.payload);
  }

  function Printed(m: StoredMessage): Bytes {
    Lists(Fields(m))
  }

  ghost function Read(b: Bytes): Json<StoredMessage> {
    if m :| Printed(m) == b then Value(m) else Malformed
  }

  lemma ReadUndoesPrinted(m: StoredMessage)
    ensures Read(Printed(m)) == Value(m)
  {
    var n := Read(Printed(m)).value;
    ListsAreInjective(Fields(m), Fields(n));
    FieldsAreInjective(m, n);
  }

  function PrintedChat(cm: ChatMessage): Bytes {
    Unary(cm.chainIndex) + cm.ciphertext
  }

  ghost function ReadChat(b: Bytes): Json<ChatMessage> {
    if cm :| PrintedChat(cm) == b then Value(cm) else Malformed
  }

  lemma ReadUndoesPrintedChat(cm: ChatMessage)
    ensures ReadChat(PrintedChat(cm)) == Value(cm)
  {
    var dm := ReadChat(PrintedChat(cm)).value;
    UnarySplits(cm.chainIndex, dm.chainIndex, cm.ciphertext, dm.ciphertext);
  }

  // ---------- the model ----------

  ghost function ModelCodecs(): Codecs {
    Codecs((m: StoredMessage) => Printed(m), (b: Bytes) => Read(b),
           (cm: ChatMessage) => PrintedChat(cm), (b: Bytes) => ReadChat(b),
           (b: Bytes) => [0] + b, (b: Bytes) => if b == [] then BadHeader else Stream(b[1..], Clean),
           TWO_63 - 1)
  }

  /** The laws of the codecs and of the primitives can be had. */
  lemma LawsHaveAModel()
    ensures ModelCodecs().Lawful()
    ensures TellingPrimitives().Lawful()
  {
    TellingPrimitivesAreLawful();
    var c := ModelCodecs();
    forall m: StoredMessage ensures c.unmarshal(c.marshal(m)) == Value(m) {
      ReadUndoesPrinted(m);
    }
    forall cm: ChatMessage ensures c.parseChat(c.printChat(cm)) == Value(cm) {
      ReadUndoesPrintedChat(cm);
    }
    forall b: Bytes ensures c.gunzip(c.gzip(b)) == Stream(b, Clean) {
      assert ([0] + b)[1..] == b;
    }
  }
}
