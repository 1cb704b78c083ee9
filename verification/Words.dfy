/** Conversion of a wider integer to the machine's 32-bit int. */
module Words {
  const HALF: int := 0x8000_0000

  /** The int with the same low 32 bits. */
  function ToInt(x: int): (r: int)
    ensures -HALF <= r < HALF && (x - r) % 0x1_0000_0000 == 0
  {
    (x + HALF) % 0x1_0000_0000 - HALF
  }

  /** Does the conversion keep the answer to "is x at most zero"? */
  predicate KeepsSign(x: int) {
    var low := x % 0x1_0000_0000;
    (x <= 0 && (low == 0 || low >= HALF)) || (x > 0 && 0 < low < HALF)
  }

  lemma KeepsSignExactly(x: int)
    ensures KeepsSign(x) <==> (ToInt(x) <= 0 <==> x <= 0)
    ensures -HALF <= x < HALF ==> KeepsSign(x)
  {
  }
}
