/** Go's fixed-width integers, with every wrap-around and conversion written out. */
module MachineInts {

  const TWO_63: int := 0x8000_0000_0000_0000
  const TWO_64: int := 0x1_0000_0000_0000_0000

  type byte = b: int | 0 <= b < 256
  type Bytes = seq<byte>
  type uint64 = n: int | 0 <= n < TWO_64
  type int64 = n: int | -TWO_63 <= n < TWO_63

  datatype Option<+T> = None | Some(value: T)

  function Max(a: int, b: int): int {
    if a < b then b else a
  }

  /** `a + b` on uint64. */
  function WrapAdd(a: uint64, b: uint64): uint64 {
    if a + b < TWO_64 then a + b else a + b - TWO_64
  }

  /** `a - b` on uint64. */
  function WrapSub(a: uint64, b: uint64): uint64 {
    if b <= a then a - b else a - b + TWO_64
  }

  /** `int64(u)`: how a chain index enters an INTEGER column. */
  function ToInt64(u: uint64): int64 {
    if u < TWO_63 then u else u - TWO_64
  }

  /** `uint64(i)`: how a chain index leaves an INTEGER column. */
  function ToUint64(i: int64): uint64 {
    if 0 <= i then i else i + TWO_64
  }

  /**
   * Nothing is lost on the way through a signed column, but the order is:
   * two indices keep their order exactly when they lie on the same side of 2^63.
   */
  lemma ColumnKeepsValueNotOrder(u: uint64, v: uint64)
    requires u < v
    ensures ToUint64(ToInt64(u)) == u
    ensures ToInt64(u) < ToInt64(v) <==> (u < TWO_63 <==> v < TWO_63)
  {
  }
}
