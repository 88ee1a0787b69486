/** internal/storage/helpers.go: frames with an 8-byte big-endian length. */
module Frames {
  import opened MachineInts

  // ---------- big-endian numbers ----------

  function Pow256(n: nat): nat {
    if n == 0 then 1 else 256 * Pow256(n - 1)
  }

  /** The low `n` bytes of `l`, most significant first. */
  function BigEndian(l: nat, n: nat): (h: Bytes)
    ensures |h| == n
  {
    if n == 0 then [] else BigEndian(l / 256, n - 1) + [l % 256]
  }

  /** The number that bytes spell, most significant first. */
  function Number(h: Bytes): nat {
    if h == [] then 0 else Number(h[..|h| - 1]) * 256 + h[|h| - 1]
  }

  lemma {:induction false} NumberIsBounded(h: Bytes)
    ensures Number(h) < Pow256(|h|)
  {
    if h != [] {
      NumberIsBounded(h[..|h| - 1]);
    }
  }

  lemma {:induction false} NumberOfBigEndian(l: nat, n: nat)
    requires l < Pow256(n)
    ensures Number(BigEndian(l, n)) == l
  {
    if n > 0 {
      NumberOfBigEndian(l / 256, n - 1);
      assert BigEndian(l, n)[..n - 1] == BigEndian(l / 256, n - 1);
    }
  }

  /** The least significant byte comes last: a number below 256 is that byte behind zeros. */
  lemma {:induction false} LeastSignificantLast(l: nat, n: nat)
    requires l < 256 && n > 0
    ensures BigEndian(l, n)[n - 1] == l
    ensures forall i :: 0 <= i < n - 1 ==> BigEndian(l, n)[i] == 0
  {
    if n > 1 {
      LeastSignificantLast(0, n - 1);
      assert BigEndian(l, n)[..n - 1] == BigEndian(0, n - 1);
    }
  }

  lemma EightBytesHoldAWord()
    ensures Pow256(8) == TWO_64
  {
    assert Pow256(4) == 0x1_0000_0000;
  }

  /** Distinct words have distinct headers. */
  lemma BigEndianIsInjective(a: uint64, b: uint64)
    requires BigEndian(a, 8) == BigEndian(b, 8)
    ensures a == b
  {
    EightBytesHoldAWord();
    NumberOfBigEndian(a, 8);
    NumberOfBigEndian(b, 8);
  }

  // ---------- 64-bit words ----------

  /** A byte as eight bits, and eight bits as a byte. */
  datatype Bits = Bits(of: byte -> bv8, num: bv8 -> byte)
  {
    ghost predicate Inverse() {
      forall b: byte :: num(of(b)) == b
    }
  }

  /** Half a byte as four bits, and back. */
  function Nibble(n: int): bv8 {
    if n == 0 then 0 else if n == 1 then 1 else if n == 2 then 2 else if n == 3 then 3
    else if n == 4 then 4 else if n == 5 then 5 else if n == 6 then 6 else if n == 7 then 7
    else if n == 8 then 8 else if n == 9 then 9 else if n == 10 then 10 else if n == 11 then 11
    else if n == 12 then 12 else if n == 13 then 13 else if n == 14 then 14 else 15
  }

  function Digit(v: bv8): (n: nat)
    ensures n < 16
  {
    if v == 0 then 0 else if v == 1 then 1 else if v == 2 then 2 else if v == 3 then 3
    else if v == 4 then 4 else if v == 5 then 5 else if v == 6 then 6 else if v == 7 then 7
    else if v == 8 then 8 else if v == 9 then 9 else if v == 10 then 10 else if v == 11 then 11
    else if v == 12 then 12 else if v == 13 then 13 else if v == 14 then 14 else 15
  }

  function Joined(high: bv8, low: bv8): bv8 {
    (high << 4) | low
  }

  const BITS: Bits := Bits((b: byte) => Joined(Nibble(b / 16), Nibble(b % 16)),
                           (v: bv8) => Digit(v >> 4) * 16 + Digit(v & 15))

  lemma DigitOfNibble(n: int)
    requires 0 <= n < 16
    ensures Digit(Nibble(n)) == n && Nibble(n) <= 15
  {
  }

  lemma JoinedSplits(high: bv8, low: bv8)
    requires high <= 15 && low <= 15
    ensures Joined(high, low) >> 4 == high && Joined(high, low) & 15 == low
  {
  }

  lemma BitsAreInverse()
    ensures BITS.Inverse()
  {
    forall b: byte ensures BITS.num(BITS.of(b)) == b {
      DigitOfNibble(b / 16);
      DigitOfNibble(b % 16);
      JoinedSplits(Nibble(b / 16), Nibble(b % 16));
    }
  }

  function LowByte(w: bv64): bv8 {
    (w & 0xff) as bv8
  }

  function Pushed(w: bv64, b: bv8): bv64 {
    (w << 8) | (b as bv64)
  }

  /** The word whose low `k` bytes are those of `n`; with k = 8 it is Go's uint64(n). */
  function Word(bits: Bits, n: nat, k: nat): bv64 {
    if k == 0 then 0 else Pushed(Word(bits, n / 256, k - 1), bits.of(n % 256))
  }

  /** The number the low `k` bytes of a word spell; with k = 8 it is the word's value. */
  function Value(bits: Bits, w: bv64, k: nat): nat {
    if k == 0 then 0 else Value(bits, w >> 8, k - 1) * 256 + bits.num(LowByte(w))
  }

  /** `w` has at most `k` bytes. */
  predicate HasBytes(w: bv64, k: nat) {
    match k
    case 0 => w == 0
    case 1 => w < 0x100
    case 2 => w < 0x1_0000
    case 3 => w < 0x100_0000
    case 4 => w < 0x1_0000_0000
    case 5 => w < 0x100_0000_0000
    case 6 => w < 0x1_0000_0000_0000
    case 7 => w < 0x100_0000_0000_0000
    case _ => true
  }

  lemma PushedHasBytes(w: bv64, b: bv8, k: nat)
    requires HasBytes(w, k)
    ensures HasBytes(Pushed(w, b), k + 1)
  {
  }

  lemma {:induction false} WordHasBytes(bits: Bits, n: nat, k: nat)
    ensures HasBytes(Word(bits, n, k), k)
  {
    if k > 0 {
      WordHasBytes(bits, n / 256, k - 1);
      PushedHasBytes(Word(bits, n / 256, k - 1), bits.of(n % 256), k - 1);
    }
  }

  lemma SevenBytesSuffice(w: bv64, k: nat)
    requires k <= 7 && HasBytes(w, k)
    ensures HasBytes(w, 7)
  {
  }

  /** Mask and shift undo shift and or as long as the top byte was free. */
  lemma PopUndoesPush(w: bv64, b: bv8)
    requires HasBytes(w, 7)
    ensures Pushed(w, b) >> 8 == w && LowByte(Pushed(w, b)) == b
  {
  }

  lemma PopWord(bits: Bits, n: nat, k: nat)
    requires 0 < k <= 8
    ensures LowByte(Word(bits, n, k)) == bits.of(n % 256)
    ensures Word(bits, n, k) >> 8 == Word(bits, n / 256, k - 1)
  {
    var w := Word(bits, n / 256, k - 1);
    WordHasBytes(bits, n / 256, k - 1);
    SevenBytesSuffice(w, k - 1);
    PopUndoesPush(w, bits.of(n % 256));
  }

  /** No bit of a number below 256^k is lost in a word. */
  lemma {:induction false} ValueOfWord(bits: Bits, n: nat, k: nat)
    requires bits.Inverse() && k <= 8 && n < Pow256(k)
    ensures Value(bits, Word(bits, n, k), k) == n
  {
    if k > 0 {
      PopWord(bits, n, k);
      ValueOfWord(bits, n / 256, k - 1);
    }
  }

  // ---------- the byte streams behind gzip ----------

  /** How a decompressed stream ends, after its last byte. */
  datatype Ending = Clean | Cut | Corrupt

  datatype ReadError = Eof | UnexpectedEof | ChecksumError

  /** gzip.Writer, seen as the bytes written so far. */
  class GzipWriter {
    var written: Bytes

    constructor ()
      ensures written == []
    {
      written := [];
    }

    method Write(data: Bytes)
      modifies this
      ensures written == old(written) + data
    {
      written := written + data;
    }
  }

  /** The error io.ReadFull reports when `available` bytes were not enough. */
  function Shortfall(ending: Ending, available: nat): ReadError {
    match ending
    case Clean => if available == 0 then Eof else UnexpectedEof
    case Cut => UnexpectedEof
    case Corrupt => ChecksumError
  }

  /** gzip.Reader, seen as the bytes it has yet to deliver and how they end. */
  class GzipReader {
    var unread: Bytes
    const ending: Ending

    constructor (stream: Bytes, ending: Ending)
      ensures unread == stream && this.ending == ending
    {
      this.unread := stream;
      this.ending := ending;
    }

    /** io.ReadFull into a buffer of `n` bytes. */
    method ReadFull(n: nat) returns (err: Option<ReadError>, data: Bytes)
      modifies this
      ensures n <= |old(unread)| ==>
                err == None && data == old(unread)[..n] && unread == old(unread)[n..]
      ensures n > |old(unread)| ==>
                err == Some(Shortfall(ending, |old(unread)|)) && unread == []
    {
      if n <= |unread| {
        err, data, unread := None, unread[..n], unread[n..];
      } else {
        err, data, unread := Some(Shortfall(ending, |unread|)), unread, [];
      }
    }
  }

  // ---------- frames ----------

  function Framed(data: Bytes): Bytes {
    BigEndian(|data|, 8) + data
  }

  /** TooLong is the run-time's refusal to make so long a slice. */
  datatype FrameRead = Frame(data: Bytes, rest: Bytes) | Stop(error: ReadError) | TooLong

  /** What readFrame makes of a stream, on a run-time that makes slices of up to `maxSlice` bytes. */
  function NextFrame(stream: Bytes, ending: Ending, maxSlice: nat): FrameRead {
    if |stream| < 8 then Stop(Shortfall(ending, |stream|))
    else
      var l, body := Number(stream[..8]), stream[8..];
      if l > maxSlice then TooLong
      else if |body| < l then Stop(Shortfall(ending, |body|))
      else Frame(body[..l], body[l..])
  }

  lemma OneByteMore(n: nat, k: nat, done: Bytes)
    requires k > 0
    ensures BigEndian(n, k) + done == BigEndian(n / 256, k - 1) + ([n % 256] + done)
  {
  }

  /** One byte off the word and into the header. */
  lemma PopNext(bits: Bits, length: nat, left: nat, k: nat, done: Bytes)
    requires bits.Inverse() && 0 < k <= 8
    requires BigEndian(length, 8) == BigEndian(left, k) + done
    ensures bits.num(LowByte(Word(bits, left, k))) == left % 256
    ensures Word(bits, left, k) >> 8 == Word(bits, left / 256, k - 1)
    ensures BigEndian(length, 8) == BigEndian(left / 256, k - 1) + ([left % 256] + done)
  {
    PopWord(bits, left, k);
    OneByteMore(left, k, done);
  }

  /** The descending mask-and-shift loop. */
  method EncodeLength(bits: Bits, length: nat) returns (header: Bytes)
    requires bits.Inverse()
    ensures header == BigEndian(length, 8)
  {
    var lenBuf := new byte[8];
    var l := Word(bits, length, 8);
    ghost var left, done: Bytes := length, [];
    var i := 7;
    while i >= 0
      invariant -1 <= i <= 7
      invariant l == Word(bits, left, i + 1)
      invariant BigEndian(length, 8) == BigEndian(left, i + 1) + done
      invariant lenBuf[i + 1..] == done
    {
      PopNext(bits, length, left, i + 1, done);
      lenBuf[i] := bits.num(LowByte(l));
      l, left, done := l >> 8, left / 256, [left % 256] + done;
      i := i - 1;
    }
    assert BigEndian(left, 0) + done == done && lenBuf[0..] == lenBuf[..];
    return lenBuf[..];
  }

  lemma WordOfHeader(bits: Bits, header: Bytes)
    requires bits.Inverse() && |header| == 8
    ensures Value(bits, Word(bits, Number(header), 8), 8) == Number(header)
  {
    NumberIsBounded(header);
    ValueOfWord(bits, Number(header), 8);
  }

  /** One more byte shifted in. */
  lemma PushNext(bits: Bits, header: Bytes, i: nat)
    requires i < |header|
    ensures Pushed(Word(bits, Number(header[..i]), i), bits.of(header[i])) == Word(bits, Number(header[..i + 1]), i + 1)
  {
    assert header[..i + 1][..i] == header[..i];
  }

  /** The shift-and-or loop. */
  method DecodeLength(bits: Bits, header: Bytes) returns (length: nat)
    requires bits.Inverse() && |header| == 8
    ensures length == Number(header)
  {
    var l: bv64 := 0;
    var i := 0;
    while i < 8
      invariant 0 <= i <= 8
      invariant l == Word(bits, Number(header[..i]), i)
    {
      PushNext(bits, header, i);
      l := Pushed(l, bits.of(header[i]));
      i := i + 1;
    }
    assert header[..8] == header;
    WordOfHeader(bits, header);
    return Value(bits, l, 8);
  }

  method WriteFrame(w: GzipWriter, data: Bytes)
    modifies w
    ensures w.written == old(w.written) + Framed(data)
  {
    BitsAreInverse();
    var lenBuf := EncodeLength(BITS, |data|);
    w.Write(lenBuf);
    w.Write(data);
  }

  method ReadFrame(r: GzipReader, maxSlice: nat) returns (frame: FrameRead)
    modifies r
    ensures frame == NextFrame(old(r.unread), r.ending, maxSlice)
    ensures frame.Frame? ==> r.unread == frame.rest
  {
    var err, lenBuf := r.ReadFull(8);
    if err.Some? {
      return Stop(err.value);
    }
    BitsAreInverse();
    var l := DecodeLength(BITS, lenBuf);
    if l > maxSlice {
      return TooLong;
    }
    var data: Bytes;
    err, data := r.ReadFull(l);
    if err.Some? {
      return Stop(err.value);
    }
    return Frame(data, r.unread);
  }

  lemma HeaderIsLength(data: Bytes)
    requires |data| < TWO_63
    ensures Number(BigEndian(|data|, 8)) == |data|
  {
    EightBytesHoldAWord();
    NumberOfBigEndian(|data|, 8);
  }

  /** The writer's header and the reader's are inverse, and the suffix is untouched. */
  lemma FrameReadsBack(data: Bytes, suffix: Bytes, ending: Ending, maxSlice: nat)
    requires |data| <= maxSlice < TWO_63
    ensures NextFrame(Framed(data) + suffix, ending, maxSlice) == Frame(data, suffix)
    ensures |Framed(data)| == 8 + |data|
  {
    var header, s := BigEndian(|data|, 8), Framed(data) + suffix;
    HeaderIsLength(data);
    assert s[..8] == header && s[8..] == data + suffix;
  }

  /** A frame cut anywhere inside is never read as a frame: the reader stops on its ending. */
  lemma CutFrameStops(data: Bytes, suffix: Bytes, k: nat, ending: Ending, maxSlice: nat)
    requires |data| <= maxSlice < TWO_63 && k < |Framed(data)|
    ensures NextFrame((Framed(data) + suffix)[..k], ending, maxSlice)
            == Stop(Shortfall(ending, if k < 8 then k else k - 8))
  {
    if k >= 8 {
      HeaderIsLength(data);
      assert (Framed(data) + suffix)[..k][..8] == BigEndian(|data|, 8);
    }
  }
}
