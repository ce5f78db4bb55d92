/**
  Words of bits, and the find-first-set of kservice.c: a 256-entry table read a
  byte at a time.
*/
module ReadyBits {
  import opened BinaryDigits

  /** w | 1 << i */
  function SetBit(w: nat, i: nat): nat {
    if i == 0 then w - w % 2 + 1 else SetBit(w / 2, i - 1) * 2 + w % 2
  }

  /** w & ~(1 << i) */
  function ClearBit(w: nat, i: nat): nat {
    if i == 0 then w - w % 2 else ClearBit(w / 2, i - 1) * 2 + w % 2
  }

  lemma {:induction false} SetBitIs(w: nat, i: nat, j: nat)
    ensures Bit(SetBit(w, i), j) <==> i == j || Bit(w, j)
  {
    if i > 0 && j > 0 {
      SetBitIs(w / 2, i - 1, j - 1);
      assert SetBit(w, i) / 2 == SetBit(w / 2, i - 1);
    } else if i == 0 {
      assert SetBit(w, 0) / 2 == w / 2;
    }
  }

  lemma {:induction false} ClearBitIs(w: nat, i: nat, j: nat)
    ensures Bit(ClearBit(w, i), j) <==> i != j && Bit(w, j)
  {
    if i > 0 && j > 0 {
      ClearBitIs(w / 2, i - 1, j - 1);
      assert ClearBit(w, i) / 2 == ClearBit(w / 2, i - 1);
    } else if i == 0 {
      assert ClearBit(w, 0) / 2 == w / 2;
    }
  }

  /** Setting and clearing low bits stays within the word. */
  lemma {:induction false} BitsFit(w: nat, i: nat, n: nat)
    requires w < Pow2(n) && i < n
    ensures SetBit(w, i) < Pow2(n) && ClearBit(w, i) < Pow2(n)
  {
    if i > 0 { BitsFit(w / 2, i - 1, n - 1); }
  }

  lemma {:induction false} ZeroHasNoBit(i: nat)
    ensures !Bit(0, i)
  {
    if i > 0 { ZeroHasNoBit(i - 1); }
  }

  // ---------- the lowest bit ----------

  function Lowest(w: nat): (k: nat)
    requires w > 0
  {
    if w % 2 == 1 then 0 else 1 + Lowest(w / 2)
  }

  lemma {:induction false} LowestIs(w: nat)
    requires w > 0
    ensures Bit(w, Lowest(w)) && forall i: nat :: i < Lowest(w) ==> !Bit(w, i)
  {
    if w % 2 == 0 {
      LowestIs(w / 2);
      forall i: nat | i < Lowest(w) ensures !Bit(w, i) {
        if i > 0 { assert !Bit(w / 2, i - 1); }
      }
    }
  }

  lemma {:induction false} LowestFits(w: nat, n: nat)
    requires 0 < w < Pow2(n)
    ensures Lowest(w) < n
  {
    if w % 2 == 0 { LowestFits(w / 2, n - 1); }
  }

  /** What is below a multiple of 2^n decides, unless it is zero. */
  lemma {:induction false} LowestInPart(w: nat, n: nat)
    requires w > 0
    ensures w % Pow2(n) != 0 ==> Lowest(w) == Lowest(w % Pow2(n))
    ensures w % Pow2(n) == 0 ==> w / Pow2(n) > 0 && Lowest(w) == n + Lowest(w / Pow2(n))
  {
    if n > 0 {
      var p := Pow2(n - 1);
      Halve(w, p);
      if w % 2 == 0 {
        LowestInPart(w / 2, n - 1);
      }
    }
  }

  lemma {:induction false} Halve(w: nat, p: nat)
    requires p > 0
    ensures w % (2 * p) == 2 * ((w / 2) % p) + w % 2
    ensures w / (2 * p) == (w / 2) / p
  {
    var h := w / 2;
    var q, r := h / p, h % p;
    assert w == 2 * (q * p + r) + w % 2;
    assert w == q * (2 * p) + (2 * r + w % 2);
    assert 0 <= 2 * r + w % 2 < 2 * p;
    DivModUnique(w, 2 * p, q, 2 * r + w % 2);
  }

  // ---------- __rt_ffs ----------

  const LOWEST_BIT_BITMAP: seq<seq<nat>> := [
    [0, 0, 1, 0, 2, 0, 1, 0, 3, 0, 1, 0, 2, 0, 1, 0],
    [4, 0, 1, 0, 2, 0, 1, 0, 3, 0, 1, 0, 2, 0, 1, 0],
    [5, 0, 1, 0, 2, 0, 1, 0, 3, 0, 1, 0, 2, 0, 1, 0],
    [4, 0, 1, 0, 2, 0, 1, 0, 3, 0, 1, 0, 2, 0, 1, 0],
    [6, 0, 1, 0, 2, 0, 1, 0, 3, 0, 1, 0, 2, 0, 1, 0],
    [4, 0, 1, 0, 2, 0, 1, 0, 3, 0, 1, 0, 2, 0, 1, 0],
    [5, 0, 1, 0, 2, 0, 1, 0, 3, 0, 1, 0, 2, 0, 1, 0],
    [4, 0, 1, 0, 2, 0, 1, 0, 3, 0, 1, 0, 2, 0, 1, 0],
    [7, 0, 1, 0, 2, 0, 1, 0, 3, 0, 1, 0, 2, 0, 1, 0],
    [4, 0, 1, 0, 2, 0, 1, 0, 3, 0, 1, 0, 2, 0, 1, 0],
    [5, 0, 1, 0, 2, 0, 1, 0, 3, 0, 1, 0, 2, 0, 1, 0],
    [4, 0, 1, 0, 2, 0, 1, 0, 3, 0, 1, 0, 2, 0, 1, 0],
    [6, 0, 1, 0, 2, 0, 1, 0, 3, 0, 1, 0, 2, 0, 1, 0],
    [4, 0, 1, 0, 2, 0, 1, 0, 3, 0, 1, 0, 2, 0, 1, 0],
    [5, 0, 1, 0, 2, 0, 1, 0, 3, 0, 1, 0, 2, 0, 1, 0],
    [4, 0, 1, 0, 2, 0, 1, 0, 3, 0, 1, 0, 2, 0, 1, 0]]

  /** The table, sixteen entries to a row. */
  function Table(b: nat): nat
    requires b < 256
  {
    LOWEST_BIT_BITMAP[b / 16][b % 16]
  }

  const HEADS := [0, 4, 5, 4, 6, 4, 5, 4, 7, 4, 5, 4, 6, 4, 5, 4]
  const TAIL := [0, 1, 0, 2, 0, 1, 0, 3, 0, 1, 0, 2, 0, 1, 0]

  lemma {:induction false} RowIs(r: nat)
    requires r < 16
    ensures LOWEST_BIT_BITMAP[r] == [HEADS[r]] + TAIL
  {
    if r < 4 { RowsFrom0(r); } else if r < 8 { RowsFrom4(r); } else if r < 12 { RowsFrom8(r); } else { RowsFrom12(r); }
  }

  lemma {:induction false} RowsFrom0(r: nat)
    requires 0 <= r < 4
    ensures LOWEST_BIT_BITMAP[r] == [HEADS[r]] + TAIL
  {
    assert LOWEST_BIT_BITMAP[0] == [0] + TAIL;
    assert LOWEST_BIT_BITMAP[1] == [4] + TAIL;
    assert LOWEST_BIT_BITMAP[2] == [5] + TAIL;
    assert LOWEST_BIT_BITMAP[3] == [4] + TAIL;
  }

  lemma {:induction false} RowsFrom4(r: nat)
    requires 4 <= r < 8
    ensures LOWEST_BIT_BITMAP[r] == [HEADS[r]] + TAIL
  {
    assert LOWEST_BIT_BITMAP[4] == [6] + TAIL;
    assert LOWEST_BIT_BITMAP[5] == [4] + TAIL;
    assert LOWEST_BIT_BITMAP[6] == [5] + TAIL;
    assert LOWEST_BIT_BITMAP[7] == [4] + TAIL;
  }

  lemma {:induction false} RowsFrom8(r: nat)
    requires 8 <= r < 12
    ensures LOWEST_BIT_BITMAP[r] == [HEADS[r]] + TAIL
  {
    assert LOWEST_BIT_BITMAP[8] == [7] + TAIL;
    assert LOWEST_BIT_BITMAP[9] == [4] + TAIL;
    assert LOWEST_BIT_BITMAP[10] == [5] + TAIL;
    assert LOWEST_BIT_BITMAP[11] == [4] + TAIL;
  }

  lemma {:induction false} RowsFrom12(r: nat)
    requires 12 <= r < 16
    ensures LOWEST_BIT_BITMAP[r] == [HEADS[r]] + TAIL
  {
    assert LOWEST_BIT_BITMAP[12] == [6] + TAIL;
    assert LOWEST_BIT_BITMAP[13] == [4] + TAIL;
    assert LOWEST_BIT_BITMAP[14] == [5] + TAIL;
    assert LOWEST_BIT_BITMAP[15] == [4] + TAIL;
  }

  lemma {:induction false} Nibble(c: nat)
    requires 0 < c < 16
    ensures TAIL[c - 1] == Lowest(c) && HEADS[c] == 4 + Lowest(c)
  {
    assert c == 1 || c == 2 || c == 3 || c == 4 || c == 5 || c == 6 || c == 7
        || c == 8 || c == 9 || c == 10 || c == 11 || c == 12 || c == 13 || c == 14 || c == 15;
    assert Lowest(1) == 0 && Lowest(2) == 1 && Lowest(4) == 2 && Lowest(8) == 3;
    assert Lowest(6) == 1 && Lowest(10) == 1 && Lowest(12) == 2 && Lowest(14) == 1;
  }

  /** Every entry but the first, which is never looked up, is right. */
  lemma {:induction false} TableRight(b: nat)
    requires 0 < b < 256
    ensures Table(b) == Lowest(b)
  {
    hide Lowest;
    RowIs(b / 16);
    assert Pow2(4) == 16;
    LowestInPart(b, 4);
    if b % 16 != 0 { Nibble(b % 16); } else { Nibble(b / 16); }
  }

  /** __rt_ffs of a 32-bit word. */
  function Ffs(value: nat): int
    requires value < 0x1_0000_0000
  {
    if value == 0 then 0
    else if value % 0x100 != 0 then Table(value % 0x100) + 1
    else if value / 0x100 % 0x100 != 0 then Table(value / 0x100 % 0x100) + 9
    else if value / 0x1_0000 % 0x100 != 0 then Table(value / 0x1_0000 % 0x100) + 17
    else Table(value / 0x100_0000) + 25
  }

  /** One more than the number of the lowest bit, or zero. */
  lemma {:induction false} FfsIsLowest(value: nat)
    requires value < 0x1_0000_0000
    ensures Ffs(value) == if value == 0 then 0 else Lowest(value) + 1
  {
    if value != 0 {
      hide Table, Lowest;
      assert Pow2(8) == 256 by { assert Pow2(4) == 16; assert Pow2(8) == 16 * Pow2(4); }
      var b, c := value / 0x100, value / 0x1_0000;
      assert c == b / 0x100 && value / 0x100_0000 == c / 0x100;
      LowestInPart(value, 8);
      if value % 0x100 != 0 {
        TableRight(value % 0x100);
      } else {
        LowestInPart(b, 8);
        if b % 0x100 != 0 {
          TableRight(b % 0x100);
        } else {
          LowestInPart(c, 8);
          if c % 0x100 != 0 {
            TableRight(c % 0x100);
          } else {
            LowestInPart(c / 0x100, 8);
            TableRight(c / 0x100);
          }
        }
      }
    }
  }

  // ---------- the ready bitmap ----------

  /** rt_thread_ready_priority_group and rt_thread_ready_table: one word for up
      to 32 levels, and a byte for every 8 levels beyond that, with the word
      telling which bytes are not zero. */
  datatype ReadyMap = ReadyMap(levels: nat, group: nat, table: seq<nat>)

  predicate Shows(r: ReadyMap, p: nat) {
    if r.levels <= 32 then Bit(r.group, p)
    else p / 8 < |r.table| && Bit(r.table[p / 8], p % 8)
  }

  ghost predicate Sound(r: ReadyMap) {
    && |r.table| == 32
    && r.group < Pow2(32)
    && (forall n :: 0 <= n < 32 ==> r.table[n] < Pow2(8))
    && (r.levels > 32 ==> forall n :: 0 <= n < 32 ==> (Bit(r.group, n) <==> r.table[n] != 0))
  }

  /** The masks of a priority, as bit numbers: number, number_mask, high_mask. */
  function Number(levels: nat, p: nat): nat {
    if levels > 32 then p / 8 else 0
  }

  function GroupBit(levels: nat, p: nat): nat {
    if levels > 32 then p / 8 else p
  }

  function HighBit(levels: nat, p: nat): nat {
    if levels > 32 then p % 8 else 0
  }

  function Mark(r: ReadyMap, number: nat, groupBit: nat, highBit: nat): ReadyMap
    requires number < |r.table|
  {
    var m := if r.levels > 32 then r.(table := r.table[number := SetBit(r.table[number], highBit)]) else r;
    m.(group := SetBit(r.group, groupBit))
  }

  function Unmark(r: ReadyMap, number: nat, groupBit: nat, highBit: nat): ReadyMap
    requires number < |r.table|
  {
    if r.levels > 32 then
      var m := r.(table := r.table[number := ClearBit(r.table[number], highBit)]);
      if m.table[number] == 0 then m.(group := ClearBit(r.group, groupBit)) else m
    else
      r.(group := ClearBit(r.group, groupBit))
  }

  /** The choice of rt_schedule. */
  function First(r: ReadyMap): int
    requires Sound(r)
  {
    Word();
    if r.levels <= 32 then Ffs(r.group) - 1
    else
      var number := Ffs(r.group) - 1;
      if 0 <= number < 32 then number * 8 + Ffs(r.table[number]) - 1 else -1
  }

  lemma Word()
    ensures Pow2(8) == 0x100 && Pow2(32) == 0x1_0000_0000
  {
    assert Pow2(4) == 16;
    assert Pow2(8) == 16 * Pow2(4);
    assert Pow2(16) == 256 * Pow2(8) by { assert Pow2(12) == 16 * Pow2(8); assert Pow2(16) == 16 * Pow2(12); }
    assert Pow2(24) == 256 * Pow2(16) by { assert Pow2(20) == 16 * Pow2(16); assert Pow2(24) == 16 * Pow2(20); }
    assert Pow2(32) == 256 * Pow2(24) by { assert Pow2(28) == 16 * Pow2(24); assert Pow2(32) == 16 * Pow2(28); }
  }

  lemma {:induction false} MarkIs(r: ReadyMap, p: nat)
    requires Sound(r) && p < 256 && (r.levels <= 32 ==> p < 32)
    ensures var m := Mark(r, Number(r.levels, p), GroupBit(r.levels, p), HighBit(r.levels, p));
            && Sound(m) && m.levels == r.levels
            && (forall q: nat :: Shows(m, q) <==> q == p || Shows(r, q))
  {
    hide Bit, SetBit, Pow2;
    var n, g, h := Number(r.levels, p), GroupBit(r.levels, p), HighBit(r.levels, p);
    var m := Mark(r, n, g, h);
    BitsFit(r.group, g, 32);
    forall q: nat ensures Bit(m.group, q) <==> q == g || Bit(r.group, q) { SetBitIs(r.group, g, q); }
    if r.levels > 32 {
      BitsFit(r.table[n], h, 8);
      forall q: nat ensures Bit(m.table[n], q) <==> q == h || Bit(r.table[n], q) { SetBitIs(r.table[n], h, q); }
      assert Bit(m.table[n], h);
      SomeBit(m.table[n], h);
      forall q: nat ensures Shows(m, q) <==> q == p || Shows(r, q) {
        if q / 8 == n { assert q == p <==> q % 8 == h; }
      }
    }
  }

  lemma {:induction false} UnmarkIs(r: ReadyMap, p: nat)
    requires Sound(r) && p < 256 && (r.levels <= 32 ==> p < 32)
    ensures var m := Unmark(r, Number(r.levels, p), GroupBit(r.levels, p), HighBit(r.levels, p));
            && Sound(m) && m.levels == r.levels
            && (forall q: nat :: Shows(m, q) <==> q != p && Shows(r, q))
  {
    hide Bit, ClearBit, Pow2;
    var n, g, h := Number(r.levels, p), GroupBit(r.levels, p), HighBit(r.levels, p);
    var m := Unmark(r, n, g, h);
    BitsFit(r.group, g, 32);
    forall q: nat ensures Bit(ClearBit(r.group, g), q) <==> q != g && Bit(r.group, q) { ClearBitIs(r.group, g, q); }
    if r.levels > 32 {
      BitsFit(r.table[n], h, 8);
      forall q: nat ensures Bit(m.table[n], q) <==> q != h && Bit(r.table[n], q) { ClearBitIs(r.table[n], h, q); }
      if m.table[n] != 0 {
        LowestIs(m.table[n]);
        SomeBit(r.table[n], Lowest(m.table[n]));
      }
      forall q: nat ensures Shows(m, q) <==> q != p && Shows(r, q) {
        if q / 8 == n { assert q == p <==> q % 8 == h; }
      }
    }
  }

  /** The most urgent level the map shows, whichever layout it has. */
  lemma {:induction false} FirstIs(r: ReadyMap, p: nat)
    requires Sound(r) && Shows(r, p)
    ensures 0 <= First(r) <= p && Shows(r, First(r))
    ensures forall q: nat :: q < First(r) ==> !Shows(r, q)
    ensures First(r) < if r.levels <= 32 then 32 else 256
  {
    hide Ffs, Bit, Lowest, Pow2;
    Word();
    FfsIsLowest(r.group);
    if r.levels <= 32 {
      SomeBit(r.group, p);
      LowestIs(r.group);
      LowestFits(r.group, 32);
    } else {
      SomeBit(r.table[p / 8], p % 8);
      SomeBit(r.group, p / 8);
      LowestIs(r.group);
      LowestFits(r.group, 32);
      var n := Lowest(r.group);
      FfsIsLowest(r.table[n]);
      LowestIs(r.table[n]);
      LowestFits(r.table[n], 8);
      var f := n * 8 + Lowest(r.table[n]);
      assert f / 8 == n && f % 8 == Lowest(r.table[n]);
      assert First(r) == f;
      forall q: nat | q < f ensures !Shows(r, q) {
        if q / 8 < n {
          assert !Bit(r.group, q / 8);
          ZeroHasNoBit(q % 8);
        }
      }
    }
  }

  lemma {:induction false} SomeBit(w: nat, i: nat)
    requires Bit(w, i)
    ensures w != 0
  {
    ZeroHasNoBit(i);
  }
}
