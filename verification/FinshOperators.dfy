/** What the operators of the finsh shell compute, by laws of 32-bit arithmetic and digit by digit; the
    expressions FinshLang uses for them play no part. */
module FinshOperators {
  import opened BinaryDigits
  import opened FinshLang

  // ---- Counting ----

  function Successor(a: Word): Word
  {
    if a == TWO32 - 1 then 0 else a + 1
  }

  // a + 0 is a, and each step of the right operand is one of the sum: addition on a ring of 2^32 numbers.
  lemma {:induction false} AddCounts(a: Word, b: Word)
    ensures Operate(Add, a, 0) == Some(a)
    ensures b + 1 < TWO32 ==> Operate(Add, a, b + 1) == Some(Successor(Operate(Add, a, b).value))
  {
  }

  lemma {:induction false} SubUndoesAdd(a: Word, b: Word)
    ensures Operate(Add, a, b).Some? && Operate(Sub, Operate(Add, a, b).value, b) == Some(a)
    ensures Operate(Sub, a, b).Some? && Operate(Add, Operate(Sub, a, b).value, b) == Some(a)
  {
  }

  // a * 0 is 0, and each step of the right operand adds a.
  lemma {:induction false} MulCounts(a: Word, b: Word)
    ensures Operate(Mul, a, 0) == Some(0)
    ensures Operate(Mul, a, b).Some?
    ensures b + 1 < TWO32 ==> Operate(Mul, a, b + 1) == Operate(Add, Operate(Mul, a, b).value, a)
  {
    if b + 1 < TWO32 {
      assert a * (b + 1) == a * b + a;
      WrapTwice(a * b, a);
    }
  }

  lemma WrapTwice(x: int, y: int)
    ensures Wrap(Wrap(x) + y) == Wrap(x + y)
  {
  }

  // ---- Division ----

  // Division and remainder have a meaning unless the divisor is zero or the quotient does not fit; then the
  // quotient is rounded towards zero, and the remainder has the sign of the dividend.
  lemma {:induction false} DivIs(a: Word, b: Word)
    ensures Operate(Div, a, b).Some? <==> b != 0 && !(Signed(a) == -0x8000_0000 && Signed(b) == -1)
    ensures Operate(Mod, a, b).Some? <==> Operate(Div, a, b).Some?
    ensures Operate(Div, a, b).Some? ==>
              var q, r := Signed(Operate(Div, a, b).value), Signed(Operate(Mod, a, b).value);
              && Signed(a) == q * Signed(b) + r
              && (if r < 0 then -r else r) < (if Signed(b) < 0 then -Signed(b) else Signed(b))
              && (r == 0 || (r < 0 <==> Signed(a) < 0))
  {
    hide Truncated, Wrap, Signed;
    SignedIs(a);
    SignedIs(b);
    if Divides(a, b) {
      TruncatedIs(Signed(a), Signed(b));
      QuotientFits(Signed(a), Signed(b));
      SignedWrap(Quotient(a, b));
      SignedWrap(Remainder(a, b));
    }
  }

  lemma SignedIs(a: Word)
    ensures -0x8000_0000 <= Signed(a) < 0x8000_0000 && (Signed(a) == 0 <==> a == 0)
    ensures (Signed(a) == -0x8000_0000 <==> a == 0x8000_0000) && (Signed(a) == -1 <==> a == 0xffff_ffff)
  {
  }

  lemma SignedWrap(n: int)
    requires -0x8000_0000 <= n < 0x8000_0000
    ensures Signed(Wrap(n)) == n
  {
    assert Wrap(n) == if n < 0 then n + TWO32 else n;
  }

  lemma {:induction false} TruncatedIs(x: int, y: int)
    requires y != 0
    ensures var q := Truncated(x, y);
            var r := x - q * y;
            && (if r < 0 then -r else r) < (if y < 0 then -y else y)
            && (r == 0 || (r < 0 <==> x < 0))
  {
    var m, d := if x < 0 then -x else x, if y < 0 then -y else y;
    var k := m / d;
    assert m == k * d + m % d;
    assert Truncated(x, y) * y == if x < 0 then -(k * d) else k * d;
  }

  lemma {:induction false} QuotientFits(x: int, y: int)
    requires -0x8000_0000 <= x < 0x8000_0000 && -0x8000_0000 <= y < 0x8000_0000 && y != 0
    requires !(x == -0x8000_0000 && y == -1)
    ensures -0x8000_0000 <= Truncated(x, y) < 0x8000_0000
    ensures -0x8000_0000 <= x - Truncated(x, y) * y < 0x8000_0000
  {
    TruncatedIs(x, y);
    var m, d := if x < 0 then -x else x, if y < 0 then -y else y;
    Smaller(m, d);
  }

  lemma Smaller(m: nat, d: nat)
    requires d > 0
    ensures m / d <= m && (d > 1 && m > 0 ==> m / d < m)
  {
    var k := m / d;
    assert m == k * d + m % d;
    MultipleGrows(1, d, k);
    if d > 1 { MultipleGrows(2, d, k); }
  }

  // ---- Digit by digit ----

  lemma {:induction false} DigitsAt(op: BinOp, a: nat, b: nat, n: nat, k: nat)
    requires k < n
    ensures Bit(Digits(op, a, b, n), k) <==> Digit(op, Bit(a, k), Bit(b, k))
  {
    if k > 0 { DigitsAt(op, a / 2, b / 2, n - 1, k - 1); }
  }

  lemma {:induction false} AndOrXorAt(a: Word, b: Word, k: nat)
    requires k < 32
    ensures Operate(And, a, b).Some? && Operate(Or, a, b).Some? && Operate(Xor, a, b).Some?
    ensures Bit(Operate(And, a, b).value, k) <==> Bit(a, k) && Bit(b, k)
    ensures Bit(Operate(Or, a, b).value, k) <==> Bit(a, k) || Bit(b, k)
    ensures Bit(Operate(Xor, a, b).value, k) <==> (Bit(a, k) <==> !Bit(b, k))
  {
    DigitsAt(And, a, b, 32, k);
    DigitsAt(Or, a, b, 32, k);
    DigitsAt(Xor, a, b, 32, k);
  }

  lemma {:induction false} ComplementDigits(a: nat, n: nat, k: nat)
    requires a < Pow2(n) && k < n
    ensures Bit(Pow2(n) - 1 - a, k) <==> !Bit(a, k)
  {
    if k > 0 {
      assert (Pow2(n) - 1 - a) / 2 == Pow2(n - 1) - 1 - a / 2;
      ComplementDigits(a / 2, n - 1, k - 1);
    }
  }

  lemma {:induction false} ComplementAt(a: Word, k: nat)
    requires k < 32
    ensures Bit(Complement(a), k) <==> !Bit(a, k)
  {
    PowOf32();
    ComplementDigits(a, 32, k);
  }

  // Two words with the same digits are the same, so the digits say everything.
  lemma {:induction false} DigitsDecide(a: nat, b: nat, n: nat)
    requires a < Pow2(n) && b < Pow2(n) && forall k: nat | k < n :: Bit(a, k) <==> Bit(b, k)
    ensures a == b
  {
    if n > 0 {
      forall k: nat | k < n - 1 ensures Bit(a / 2, k) <==> Bit(b / 2, k) {
        assert Bit(a, k + 1) <==> Bit(b, k + 1);
      }
      DigitsDecide(a / 2, b / 2, n - 1);
      assert Bit(a, 0) <==> Bit(b, 0);
    }
  }

  // ---- Shifts ----

  // Each further place to the left doubles, modulo 2^32.
  lemma {:induction false} ShlCounts(a: Word, n: Word)
    ensures Operate(Shl, a, n).Some? <==> n < 32
    ensures Operate(Shl, a, 0) == Some(a)
    ensures n + 1 < 32 ==> Operate(Shl, a, n + 1) == Operate(Add, Operate(Shl, a, n).value, Operate(Shl, a, n).value)
  {
    hide Pow2, Wrap;
    PowOfZero();
    ScaledWord(a, n);
  }

  lemma ScaledWord(a: Word, n: nat)
    ensures Wrap(a * 1) == a
    ensures Wrap(a * Pow2(n + 1)) == Wrap(Wrap(a * Pow2(n)) + Wrap(a * Pow2(n)))
  {
    var p := Pow2(n);
    Twice(a, p);
    WrapTwice(a * p, a * p);
    WrapTwice(a * p, Wrap(a * p));
  }

  lemma Twice(a: int, p: int)
    ensures a * (2 * p) == a * p + a * p
  {
  }

  // Each further place to the right halves, rounding down and keeping the sign.
  lemma {:induction false} ShrCounts(a: Word, n: Word)
    ensures Operate(Shr, a, n).Some? <==> n < 32
    ensures Operate(Shr, a, 0) == Some(a)
    ensures n + 1 < 32 ==> Signed(Operate(Shr, a, n + 1).value) == Signed(Operate(Shr, a, n).value) / 2
    ensures n < 32 ==> (Signed(Operate(Shr, a, n).value) < 0 <==> Signed(a) < 0)
  {
    hide Pow2, Signed, Wrap;
    SignedIs(a);
    PowOfZero();
    WrapSigned(a);
    if n < 32 {
      ShiftedFits(Signed(a), n);
      SignedWrap(Signed(a) / Pow2(n));
    }
    if n + 1 < 32 {
      ShiftedFits(Signed(a), n + 1);
      SignedWrap(Signed(a) / Pow2(n + 1));
      HalfOf(Signed(a), n);
    }
  }

  lemma PowOfZero()
    ensures Pow2(0) == 1
  {
  }

  lemma WrapSigned(a: Word)
    ensures Wrap(Signed(a) / 1) == a
  {
  }

  lemma {:induction false} ShiftedFits(x: int, n: nat)
    requires -0x8000_0000 <= x < 0x8000_0000
    ensures -0x8000_0000 <= x / Pow2(n) < 0x8000_0000
    ensures x / Pow2(n) < 0 <==> x < 0
  {
    var p := Pow2(n);
    var q := x / p;
    assert x == q * p + x % p && 0 <= x % p < p;
    MultipleGrows(1, p, 0x8000_0000);
    if q >= 0 { MultipleGrows(0, q, p); } else { MultipleGrows(q, -1, p); }
    if q >= 0x8000_0000 { MultipleGrows(0x8000_0000, q, p); }
    if q < -0x8000_0000 { MultipleGrows(q, -0x8000_0001, p); }
  }

  lemma {:induction false} HalfOf(x: int, n: nat)
    ensures x / Pow2(n + 1) == x / Pow2(n) / 2
  {
    var p := Pow2(n);
    var q := x / p;
    assert x == q * p + x % p && 0 <= x % p < p;
    assert q == q / 2 * 2 + q % 2;
    var h, r := q / 2, q % 2 * p + x % p;
    assert x == h * (2 * p) + r by { assert q * p == h * 2 * p + q % 2 * p; }
    assert 0 <= r < 2 * p;
    DivModUnique(x, 2 * p, h, r);
  }

  // ---- Words in memory ----

  // A word is stored with its lowest byte first, and nothing else is written.
  lemma {:induction false} StoredLittleEndian(m: Memory, a: Word, v: Word)
    requires Store(m, a, v).Some?
    ensures var r := Store(m, a, v).value;
            && Mapped(r, a) && r.Keys == m.Keys
            && v == r[a] as int + 0x100 * r[(a + 1) % TWO32] as int
                    + 0x1_0000 * r[(a + 2) % TWO32] as int + 0x100_0000 * r[(a + 3) % TWO32] as int
            && forall x | x in m && x != a && x != (a + 1) % TWO32 && x != (a + 2) % TWO32 && x != (a + 3) % TWO32 :: r[x] == m[x]
  {
    hide Byte0, Byte1, Byte2, Byte3;
    JoinBytes(v);
  }

  lemma {:induction false} LoadedLittleEndian(m: Memory, a: Word)
    ensures Load(m, a).Some? <==> a in m && (a + 1) % TWO32 in m && (a + 2) % TWO32 in m && (a + 3) % TWO32 in m
    ensures Load(m, a).Some? ==>
              Load(m, a).value == m[a] as int + 0x100 * m[(a + 1) % TWO32] as int
                                  + 0x1_0000 * m[(a + 2) % TWO32] as int + 0x100_0000 * m[(a + 3) % TWO32] as int
  {
  }
}
