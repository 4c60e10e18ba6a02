/** Fixed-width unsigned integers as the C sources use them: `uint32_t`,
    its largest value, and the reduction modulo 2^32 that C applies to
    every unsigned result. */
module CInt {

  const TWO_32: int := 0x1_0000_0000

  /** Values of C's `uint32_t`. */
  type uint32 = x: int | 0 <= x < 0x1_0000_0000

  /** `UINT32_MAX`; the table view also uses it as "no row". */
  const UINT32_MAX: uint32 := 0xFFFF_FFFF

  /** The value an exact result takes once stored in a `uint32_t`. */
  function Wrap(x: int): (r: uint32)
    ensures 0 <= x < TWO_32 ==> r == x
  {
    x % TWO_32
  }

  /** `min_u32` of the toolkit's math library. */
  function MinU32(a: uint32, b: uint32): (r: uint32)
    ensures r <= a && r <= b
    ensures r == a || r == b
  {
    if a < b then a else b
  }

  /** Wrapping an intermediate result does not change a later wrap. */
  lemma WrapAdd(x: int, y: int)
    ensures Wrap(Wrap(x) + y) == Wrap(x + y)
  {
    var q := x / TWO_32;
    assert x == q * TWO_32 + Wrap(x);
    var q2 := (x + y) / TWO_32;
    assert x + y == q2 * TWO_32 + Wrap(x + y);
    assert Wrap(x) + y == (q2 - q) * TWO_32 + Wrap(x + y);
    ModOfMultipleShift(Wrap(x) + y, q2 - q, Wrap(x + y));
  }

  lemma ModOfMultipleShift(a: int, q: int, r: int)
    requires 0 <= r < TWO_32
    requires a == q * TWO_32 + r
    ensures a % TWO_32 == r
  {
  }
}
