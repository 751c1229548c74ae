/** Go's fixed-width integer types on a 64-bit platform, and the conversions
    between them that the vector relies on (arithmetic wrap-around, and the
    `uint64(x)` / `int(u)` casts used by the binary encoding). */
module Machine {

  const Two63: int := 0x8000_0000_0000_0000
  const Two64: int := 0x1_0000_0000_0000_0000

  /** Go's `int`: a signed 64-bit two's-complement integer. */
  type Int64 = x: int | -0x8000_0000_0000_0000 <= x < 0x8000_0000_0000_0000

  /** Go's `uint64`. */
  type Uint64 = x: int | 0 <= x < 0x1_0000_0000_0000_0000

  /** Go's `byte` (`uint8`). */
  type Byte = x: int | 0 <= x < 0x100

  /** The value Go produces for an `int` computation whose mathematical result
      is `x`: arithmetic is modulo 2^64, read back in the signed range. */
  function Wrap(x: int): (r: Int64)
    ensures (r - x) % Two64 == 0
    ensures -Two63 <= x < Two63 ==> r == x
  {
    (x + Two63) % Two64 - Two63
  }

  /** Go's `uint64(x)` on an `int`: the same 64 bits read as unsigned. */
  function ToUnsigned(x: Int64): (u: Uint64)
    ensures (u - x) % Two64 == 0
    ensures 0 <= x ==> u == x
    ensures ToSigned(u) == x
  {
    if x < 0 then x + Two64 else x
  }

  /** Go's `int(u)` on a `uint64`: the same 64 bits read as signed. */
  function ToSigned(u: Uint64): (x: Int64)
    ensures (u - x) % Two64 == 0
    ensures u < Two63 ==> x == u
  {
    if u < Two63 then u else u - Two64
  }

  /** Reading a `uint64` as signed and back loses nothing. */
  lemma SignedUnsignedRoundTrip(u: Uint64)
    ensures ToUnsigned(ToSigned(u)) == u
  {
  }
}
