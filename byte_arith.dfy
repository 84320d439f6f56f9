/** Arithmetic facts behind the byte helpers, kept apart from the rest of the
    model so that each is proved in a small context. */
module ByteArith {
  /** Adding one to a byte below 255 does not wrap. */
  lemma IncNoCarry(a: bv8)
    requires a as int < 255
    ensures (a + 1) as int == a as int + 1
  {
  }

  /** The byte holding `n`, reached by counting up from zero. */
  function ByteOf(n: int): (b: bv8)
    requires 0 <= n < 256
    ensures b as int == n
  {
    if n == 0 then 0 else IncNoCarry(ByteOf(n - 1)); ByteOf(n - 1) + 1
  }

  /** An integer in 0..255 converts to a byte and back unchanged. */
  lemma ByteOfSmall(n: int)
    requires 0 <= n < 256
    ensures (n as bv8) as int == n
  {
    var b := ByteOf(n);
    assert n as bv8 == b;
  }

  /** Shifting a byte into a 64-bit accumulator commutes with reducing the
      accumulator first: `((x mod 2^64) * 256 + b) mod 2^64 == (x * 256 + b) mod 2^64`. */
  lemma ShiftMod(x: nat, b: nat)
    ensures ((x % 0x1_0000_0000_0000_0000) * 256 + b) % 0x1_0000_0000_0000_0000
            == (x * 256 + b) % 0x1_0000_0000_0000_0000
  {
    var m := 0x1_0000_0000_0000_0000;
    var q := x / m;
    var acc := x % m;
    assert x == q * m + acc;
    assert x * 256 + b == (q * 256) * m + (acc * 256 + b);
  }
}
