/**
 * internal/crypto/ratchetkey.go and messages.go: the symmetric hash ratchet.
 *
 * HKDF-SHA256, HMAC-SHA256 and ChaCha20-Poly1305 are arbitrary functions; the laws assumed
 * of them, where a lemma needs any, are those of Primitives.Lawful.
 */
module Ratchets {
  import opened MachineInts
  import opened Frames

  type Key = k: Bytes | |k| == 32 witness seq(32, _ => 0)
  type Nonce = n: Bytes | |n| == 12 witness seq(12, _ => 0)

  const TAG_SIZE: nat := 16

  datatype Material = Material(key: Key, nonce: Nonce)

  /**
   * hkdf: the first 32 and the next 12 bytes that HKDF yields for a secret and an info, without salt;
   * hmac: of a key and a message; seal and open: without additional data.
   */
  datatype Primitives = Primitives(
    hkdf: (Bytes, Bytes) -> Material,
    hmac: (Bytes, Bytes) -> Bytes,
    seal: (Material, Bytes) -> Bytes,
    open: (Material, Bytes) -> Option<Bytes>)
  {
    /** Opening undoes sealing, and nothing shorter than a tag opens (RFC 8439, section 2.8). */
    ghost predicate Lawful() {
      && (forall m: Material, p: Bytes :: open(m, seal(m, p)) == Some(p))
      && (forall m: Material, ct: Bytes :: |ct| < TAG_SIZE ==> open(m, ct) == None)
    }
  }

  const RATCHET_LABEL: Bytes := [0x72, 0x61, 0x74, 0x63, 0x68, 0x65, 0x74] // "ratchet"

  lemma LabelSpellsRatchet()
    ensures |RATCHET_LABEL| == |"ratchet"| && forall i :: 0 <= i < 7 ==> RATCHET_LABEL[i] == "ratchet"[i] as int
  {
  }

  datatype ChatMessage = ChatMessage(chainIndex: uint64, ciphertext: Bytes)

  // ---------- the chain as a function of the position ----------

  /** Where a session's ratchets were initialised. */
  datatype Origin = Origin(start: uint64, master: Bytes)

  /** The chain key after `steps` steps from the master key. */
  function ChainAt(p: Primitives, master: Bytes, steps: nat): Bytes {
    if steps == 0 then master else p.hmac(ChainAt(p, master, steps - 1), RATCHET_LABEL)
  }

  /** A position is the index before it wraps. */
  function IndexOf(position: nat): (index: uint64)
    ensures position < TWO_64 ==> index == position
    ensures TWO_64 <= position < 2 * TWO_64 ==> index == position - TWO_64
  {
    if position < TWO_64 then position else IndexOf(position - TWO_64)
  }

  /** The message key and nonce of a position: a pure function of the origin. */
  function KeyAt(p: Primitives, origin: Origin, position: nat): Material
    requires origin.start <= position
  {
    p.hkdf(ChainAt(p, origin.master, position - origin.start), BigEndian(IndexOf(position), 8))
  }

  // ---------- the mutable ratchet ----------

  class RoomRatchet {
    var chainKey: Bytes
    var index: uint64

    constructor (index: uint64, chainKey: Bytes)
      ensures this.index == index && this.chainKey == chainKey
    {
      this.index := index;
      this.chainKey := chainKey;
    }

    /** This ratchet stands at `position` on the chain that begins at `origin`. */
    ghost predicate StandsAt(p: Primitives, origin: Origin, position: nat)
      reads this
    {
      && origin.start <= position
      && index == IndexOf(position)
      && chainKey == ChainAt(p, origin.master, position - origin.start)
    }

    method NextKey(p: Primitives) returns (m: Material)
      modifies this
      ensures m == p.hkdf(old(chainKey), BigEndian(old(index), 8))
      ensures chainKey == p.hmac(old(chainKey), RATCHET_LABEL)
      ensures index == WrapAdd(old(index), 1)
    {
      m := p.hkdf(chainKey, BigEndian(index, 8));
      chainKey := p.hmac(chainKey, RATCHET_LABEL);
      index := WrapAdd(index, 1);
    }

    /** NextKey on a ratchet known to stand at `position`: it yields that position's key and steps. */
    method KeyHere(p: Primitives, ghost origin: Origin, ghost position: nat) returns (m: Material)
      requires StandsAt(p, origin, position)
      modifies this
      ensures m == KeyAt(p, origin, position)
      ensures StandsAt(p, origin, position + 1)
    {
      m := NextKey(p);
      IndexSteps(position);
    }

    method Clone() returns (copy: RoomRatchet)
      ensures fresh(copy)
      ensures copy.chainKey == chainKey && copy.index == index
    {
      copy := new RoomRatchet(index, chainKey);
    }
  }

  lemma {:induction false} IndexSteps(position: nat)
    ensures IndexOf(position + 1) == WrapAdd(IndexOf(position), 1)
    ensures WrapSub(IndexOf(position + 1), 1) == IndexOf(position)
  {
    if position >= TWO_64 {
      IndexSteps(position - TWO_64);
    }
  }

  /** crypto.EncryptMessage: the key comes from where the ratchet stands, then it steps. */
  method EncryptMessage(p: Primitives, r: RoomRatchet, plaintext: Bytes, ghost origin: Origin, ghost position: nat)
    returns (ciphertext: Bytes, nonce: Nonce)
    requires r.StandsAt(p, origin, position)
    modifies r
    ensures ciphertext == p.seal(KeyAt(p, origin, position), plaintext)
    ensures nonce == KeyAt(p, origin, position).nonce
    ensures r.StandsAt(p, origin, position + 1)
  {
    var m := r.KeyHere(p, origin, position);
    return p.seal(m, plaintext), m.nonce;
  }
}
