/** Fixed-width integer helpers and the failure-carrying wrappers shared by
    every module of the proof-of-stake kernel model. */
module Common {

  datatype Option<+T> = None | Some(value: T)

  datatype Result<+T, +E> = Ok(value: T) | Err(error: E)

  const TWO_31: int := 0x8000_0000
  const TWO_32: int := 0x1_0000_0000
  const TWO_64: int := 0x1_0000_0000_0000_0000
  const TWO_256: int := 0x1_0000_0000_0000_0000_0000_0000_0000_0000_0000_0000_0000_0000_0000_0000_0000_0000

  /** C++ `unsigned int`. */
  type uint32 = x: int | 0 <= x < TWO_32

  /** `uint64_t`: the V1 stake modifier. */
  type uint64 = x: int | 0 <= x < TWO_64

  /** `uint256`: hashes, targets, the V2 stake modifier. */
  type Hash256 = x: int | 0 <= x < TWO_256

  /** The value an `int64_t` or `int` expression takes once converted to
      `unsigned int`: reduction modulo 2^32. */
  function U32(x: int): (r: uint32)
    ensures 0 <= x < TWO_32 ==> r == x
    ensures (r - x) % TWO_32 == 0
  {
    x % TWO_32
  }

  /** The value a 32-bit pattern takes once stored into a signed `int`
      (two's complement). */
  function ToInt32(x: int): (r: int)
    ensures -TWO_31 <= r < TWO_31
    ensures U32(r) == U32(x)
    ensures -TWO_31 <= x < TWO_31 ==> r == x
  {
    var u := x % TWO_32;
    if u >= TWO_31 then u - TWO_32 else u
  }

  function Min(a: int, b: int): (r: int)
    ensures r <= a && r <= b && (r == a || r == b)
  {
    if a < b then a else b
  }
}
