// Signed 64-bit integers, as the machine keeps sizes, counts and products.
module Machine {

  const TWO63 := 0x8000_0000_0000_0000
  const TWO64 := 0x1_0000_0000_0000_0000

  /** The largest of them. */
  const LARGEST := TWO63 - 1

  /** A sum or product as the machine keeps it. */
  function Wrap64(x: int): (r: int)
    ensures -TWO63 <= r < TWO63
    ensures -TWO63 <= x < TWO63 ==> r == x
  {
    (x + TWO63) % TWO64 - TWO63
  }

  /** Nothing but multiples of 2^64 is lost. */
  lemma WrapIsCongruent(x: int)
    ensures (x - Wrap64(x)) % TWO64 == 0
  {
    var q := (x + TWO63) / TWO64;
    assert x - Wrap64(x) == q * TWO64;
  }
}
