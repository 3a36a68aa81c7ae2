/** Go's 64-bit integers: sums, products and shifts wrap around. */
module GoInt {

  const TWO_62 := 0x4000_0000_0000_0000
  const TWO_63 := 0x8000_0000_0000_0000
  const TWO_64 := 0x1_0000_0000_0000_0000

  type Int64 = x: int | -TWO_63 <= x < TWO_63

  function Wrap(x: int): Int64 {
    var low := x % TWO_64;
    if low < TWO_63 then low else low - TWO_64
  }

  lemma WrapInRange(x: int)
    requires -TWO_63 <= x < TWO_63
    ensures Wrap(x) == x
  {
    if x < 0 {
      assert x % TWO_64 == x + TWO_64;
    }
  }

  lemma WrapSubtracts(x: int) returns (q: int)
    ensures Wrap(x) == x - q * TWO_64
  {
    q := x / TWO_64 + (if x % TWO_64 < TWO_63 then 0 else 1);
  }
}
