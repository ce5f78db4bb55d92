/** The binary digits of a number, and the little arithmetic they need. */
module BinaryDigits {
  function Pow2(n: nat): (p: nat)
    ensures p > 0
  {
    if n == 0 then 1 else 2 * Pow2(n - 1)
  }

  predicate Bit(w: nat, i: nat) {
    if i == 0 then w % 2 == 1 else Bit(w / 2, i - 1)
  }

  lemma {:induction false} PowOf32()
    ensures Pow2(32) == 0x1_0000_0000
  {
    assert Pow2(8) == 0x100;
    assert Pow2(16) == 0x1_0000 by { assert Pow2(12) == 0x1000; }
    assert Pow2(24) == 0x100_0000 by { assert Pow2(20) == 0x10_0000; }
    assert Pow2(28) == 0x1000_0000;
  }

  lemma {:induction false} DivModUnique(w: int, d: nat, q: int, r: nat)
    requires d > 0 && r < d && w == q * d + r
    ensures w / d == q && w % d == r
  {
    var k: int := w / d - q;
    MultipleFar(k, d);
    assert w == (w / d) * d + w % d;
    assert k * d == r - w % d;
  }

  lemma {:induction false} MultipleFar(k: int, d: nat)
    ensures k > 0 ==> k * d >= d
    ensures k < 0 ==> k * d + d <= 0
  {
  }

  lemma MultipleGrows(a: int, b: int, d: nat)
    requires a <= b
    ensures a * d <= b * d
  {
  }
}
