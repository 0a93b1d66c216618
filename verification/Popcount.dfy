/** count_set_bits of clib/bitops.h on 64-bit words, kept as natural numbers. */
module Popcount {
  import opened Words
  import Bitops

  /** x & y, bit by bit. */
  function AndBits(x: nat, y: nat): nat {
    if x == 0 || y == 0 then 0 else 2 * AndBits(x / 2, y / 2) + if x % 2 == 1 && y % 2 == 1 then 1 else 0
  }

  /** The number of set bits. */
  function OnesOf(x: nat): nat {
    if x == 0 then 0 else OnesOf(x / 2) + x % 2
  }

  ghost predicate IsAnd(x: nat, y: nat, r: nat) {
    forall k {:trigger Open(k)} :: Open(k) ==> r == AndBits(x, y)
  }

  ghost predicate IsOnes(x: nat, r: nat) {
    forall k {:trigger Open(k)} :: Open(k) ==> r == OnesOf(x)
  }

  /** The same two, as values of which proofs see the definition only on request. */
  ghost function And(x: nat, y: nat): nat {
    assert IsAnd(x, y, AndBits(x, y));
    var r: nat :| IsAnd(x, y, r);
    r
  }

  ghost function Ones(x: nat): nat {
    assert IsOnes(x, OnesOf(x));
    var r: nat :| IsOnes(x, r);
    r
  }

  lemma AndIs(x: nat, y: nat)
    ensures And(x, y) == AndBits(x, y)
  {
    assert IsAnd(x, y, AndBits(x, y));
    assert Open(0);
  }

  lemma OnesIs(x: nat)
    ensures Ones(x) == OnesOf(x)
  {
    assert IsOnes(x, OnesOf(x));
    assert Open(0);
  }

  lemma AndZero(x: nat)
    ensures And(x, 0) == 0 && And(0, x) == 0
  {
    AndIs(x, 0);
    AndIs(0, x);
  }

  /** The three masks, of n fields of 2, 4 and 8 bits. */
  function Mask1(n: nat): nat {
    if n == 0 then 0 else 1 + 4 * Mask1(n - 1)
  }

  function Mask2(n: nat): nat {
    if n == 0 then 0 else 3 + 16 * Mask2(n - 1)
  }

  function Mask3(n: nat): nat {
    if n == 0 then 0 else 15 + 256 * Mask3(n - 1)
  }

  /** They are the constants of the source. */
  lemma Masks()
    ensures Mask1(32) == 0x5555_5555_5555_5555 && Mask2(16) == 0x3333_3333_3333_3333 &&
            Mask3(8) == 0x0f0f_0f0f_0f0f_0f0f
  {
    assert Mask1(8) == 0x5555 && Mask2(4) == 0x3333 && Mask3(2) == 0x0f0f;
    assert Mask1(16) == 0x5555_5555 && Mask2(8) == 0x3333_3333 && Mask3(4) == 0x0f0f_0f0f;
    assert Mask1(24) == 0x5555_5555_5555 && Mask2(12) == 0x3333_3333_3333 && Mask3(6) == 0x0f0f_0f0f_0f0f;
  }

  // ---------- And, field by field ----------

  lemma AndBit(a: nat, b: nat, i: nat, j: nat)
    requires i < 2 && j < 2
    ensures And(2 * a + i, 2 * b + j) == 2 * And(a, b) + if i == 1 && j == 1 then 1 else 0
  {
    assert (2 * a + i) / 2 == a && (2 * b + j) / 2 == b;
    AndIs(2 * a + i, 2 * b + j);
    AndIs(a, b);
  }

  lemma AndTwo(a: nat, b: nat, i: nat, j: nat)
    requires i < 4 && j < 4
    ensures And(4 * a + i, 4 * b + j) == 4 * And(a, b) + And(i, j)
  {
    AndBit(2 * a + i / 2, 2 * b + j / 2, i % 2, j % 2);
    AndBit(a, b, i / 2, j / 2);
    AndBit(i / 2, j / 2, i % 2, j % 2);
    AndBit(0, 0, i / 2, j / 2);
    AndZero(0);
  }

  lemma AndFour(a: nat, b: nat, i: nat, j: nat)
    requires i < 16 && j < 16
    ensures And(16 * a + i, 16 * b + j) == 16 * And(a, b) + And(i, j)
  {
    AndTwo(4 * a + i / 4, 4 * b + j / 4, i % 4, j % 4);
    AndTwo(a, b, i / 4, j / 4);
    AndTwo(i / 4, j / 4, i % 4, j % 4);
  }

  lemma AndEight(a: nat, b: nat, i: nat, j: nat)
    requires i < 256 && j < 256
    ensures And(256 * a + i, 256 * b + j) == 256 * And(a, b) + And(i, j)
  {
    AndFour(16 * a + i / 16, 16 * b + j / 16, i % 16, j % 16);
    AndFour(a, b, i / 16, j / 16);
    AndFour(i / 16, j / 16, i % 16, j % 16);
  }

  lemma AndOne(i: nat)
    requires i < 4
    ensures And(i, 1) == i % 2
  {
    AndBit(i / 2, 0, i % 2, 1);
    AndZero(i / 2);
  }

  lemma AndThree(i: nat)
    requires i < 16
    ensures And(i, 3) == i % 4
  {
    AndTwo(i / 4, 0, i % 4, 3);
    AndZero(i / 4);
    AndZero(0);
    AndBit(i % 4 / 2, 1, i % 2, 1);
    AndBit(0, 0, i % 4 / 2, 1);
  }

  lemma AndSame(u: nat, v: nat)
    requires u < 4 && v < 4
    ensures And(4 * u + v, 15) == 4 * u + v
  {
    AndTwo(u, 3, v, 3);
    AndThree(u);
    AndThree(v);
  }

  lemma AndFifteen(h: nat, l: nat)
    requires h < 16 && l < 16
    ensures And(16 * h + l, 15) == l
  {
    AndFour(h, 0, l, 15);
    AndZero(h);
    AndSame(l / 4, l % 4);
  }

  lemma DivMod(x: nat, q: nat, d: nat)
    ensures d < 4 && x == 4 * q + d ==> x / 4 == q && x % 4 == d
    ensures d < 16 && x == 16 * q + d ==> x / 16 == q && x % 16 == d
    ensures d < 256 && x == 256 * q + d ==> x / 256 == q && x % 256 == d
  {
  }

  // ---------- Counts in fields of 2, 4 and 8 bits ----------

  /** The set bits of every 2-bit field, in that field; then of every 4-bit and 8-bit field. */
  function PairsOfX(x: nat, n: nat): nat {
    if n == 0 then 0 else x % 4 - x % 4 / 2 + 4 * PairsOfX(x / 4, n - 1)
  }

  ghost function FoursOfX(x: nat, n: nat): nat {
    if n == 0 then 0 else Ones(x % 16) + 16 * FoursOfX(x / 16, n - 1)
  }

  ghost function EightsOfX(x: nat, n: nat): nat {
    if n == 0 then 0 else Ones(x % 16) + Ones(x / 16 % 16) + 256 * EightsOfX(x / 256, n - 1)
  }

  ghost predicate AreFields(x: nat, n: nat, p: nat, f: nat, e: nat) {
    forall k {:trigger Open(k)} :: Open(k) ==> p == PairsOfX(x, n) && f == FoursOfX(x, n) && e == EightsOfX(x, n)
  }

  ghost function Fields(x: nat, n: nat): (nat, nat, nat) {
    assert AreFields(x, n, PairsOfX(x, n), FoursOfX(x, n), EightsOfX(x, n));
    var p: nat, f: nat, e: nat :| AreFields(x, n, p, f, e);
    (p, f, e)
  }

  ghost function Pairs(x: nat, n: nat): nat {
    Fields(x, n).0
  }

  ghost function Fours(x: nat, n: nat): nat {
    Fields(x, n).1
  }

  ghost function Eights(x: nat, n: nat): nat {
    Fields(x, n).2
  }

  lemma FieldsAre(x: nat, n: nat)
    ensures Pairs(x, n) == PairsOfX(x, n) && Fours(x, n) == FoursOfX(x, n) && Eights(x, n) == EightsOfX(x, n)
  {
    assert AreFields(x, n, PairsOfX(x, n), FoursOfX(x, n), EightsOfX(x, n));
    assert Open(0);
  }

  function Power4(n: nat): (p: nat)
    ensures p > 0
  {
    if n == 0 then 1 else 4 * Power4(n - 1)
  }

  lemma PairsOf(q: nat, i: nat, n: nat)
    requires i < 4 && n > 0
    ensures Pairs(4 * q + i, n) == i - i / 2 + 4 * Pairs(q, n - 1)
  {
    DivMod(4 * q + i, q, i);
    FieldsAre(4 * q + i, n);
    FieldsAre(q, n - 1);
  }

  lemma FoursOf(q: nat, d: nat, n: nat)
    requires d < 16 && n > 0
    ensures Fours(16 * q + d, n) == Ones(d) + 16 * Fours(q, n - 1)
  {
    DivMod(16 * q + d, q, d);
    FieldsAre(16 * q + d, n);
    FieldsAre(q, n - 1);
  }

  lemma EightsOf(q: nat, h: nat, l: nat, n: nat)
    requires h < 16 && l < 16 && n > 0
    ensures Eights(256 * q + 16 * h + l, n) == Ones(l) + Ones(h) + 256 * Eights(q, n - 1)
  {
    var x := 256 * q + 16 * h + l;
    DivMod(x, q, 16 * h + l);
    DivMod(x, 16 * q + h, l);
    DivMod(16 * q + h, q, h);
    FieldsAre(x, n);
    FieldsAre(q, n - 1);
  }

  /** "Sum 1 bit at a time." */
  lemma {:induction false} SumOnes(x: nat, n: nat)
    requires x < Power4(n)
    ensures x - And(x / 2, Mask1(n)) == Pairs(x, n)
  {
    if n == 0 {
      AndZero(x / 2);
      FieldsAre(x, 0);
    } else {
      var q, d := x / 4, x % 4;
      SumOnes(q, n - 1);
      PairsOf(q, d, n);
      assert x / 2 == 4 * (q / 2) + (2 * (q % 2) + d / 2);
      AndTwo(q / 2, Mask1(n - 1), 2 * (q % 2) + d / 2, 1);
      AndOne(2 * (q % 2) + d / 2);
    }
  }

  lemma OnesBit(a: nat, i: nat)
    requires i < 2
    ensures Ones(2 * a + i) == Ones(a) + i
  {
    assert (2 * a + i) / 2 == a;
    OnesIs(2 * a + i);
    OnesIs(a);
  }

  lemma OnesTwo(a: nat, i: nat)
    requires i < 4
    ensures Ones(4 * a + i) == Ones(a) + (i - i / 2)
  {
    OnesBit(2 * a + i / 2, i % 2);
    OnesBit(a, i / 2);
  }

  lemma OnesFour(a: nat, i: nat)
    requires i < 16
    ensures Ones(16 * a + i) == Ones(a) + Ones(i) && Ones(i) == (i % 4 - i % 4 / 2) + (i / 4 - i / 8) <= 4
  {
    OnesTwo(4 * a + i / 4, i % 4);
    OnesTwo(a, i / 4);
    OnesTwo(i / 4, i % 4);
    OnesTwo(0, i / 4);
    OnesIs(0);
  }

  /** Two 2-bit counts make a 4-bit count. */
  lemma {:induction false} SumPairs(x: nat, n: nat)
    ensures And(Pairs(x, 2 * n), Mask2(n)) + And(Pairs(x, 2 * n) / 4, Mask2(n)) == Fours(x, n)
  {
    if n == 0 {
      AndZero(0);
      FieldsAre(x, 0);
    } else {
      SumPairs(x / 16, n - 1);
      SumPairsStep(x / 16, x / 4 % 4, x % 4, n);
      assert x == 16 * (x / 16) + 4 * (x / 4 % 4) + x % 4;
    }
  }

  lemma SumPairsStep(q: nat, j: nat, i: nat, n: nat)
    requires j < 4 && i < 4 && n > 0
    requires And(Pairs(q, 2 * n - 2), Mask2(n - 1)) + And(Pairs(q, 2 * n - 2) / 4, Mask2(n - 1)) == Fours(q, n - 1)
    ensures var x := 16 * q + 4 * j + i;
            And(Pairs(x, 2 * n), Mask2(n)) + And(Pairs(x, 2 * n) / 4, Mask2(n)) == Fours(x, n)
  {
    PairsOf(4 * q + j, i, 2 * n);
    PairsOf(q, j, 2 * n - 1);
    FoursOf(q, 4 * j + i, n);
    OnesTwo(j, i);
    OnesTwo(0, j);
    OnesIs(0);
    SumPair(Pairs(q, 2 * n - 2), i - i / 2, j - j / 2, n);
  }

  lemma SumPair(r: nat, i: nat, j: nat, n: nat)
    requires i <= 2 && j <= 2 && n > 0
    ensures var y := 16 * r + 4 * j + i;
            And(y, Mask2(n)) + And(y / 4, Mask2(n)) == 16 * (And(r, Mask2(n - 1)) + And(r / 4, Mask2(n - 1))) + (i + j)
  {
    var y := 16 * r + 4 * j + i;
    AndFour(r, Mask2(n - 1), 4 * j + i, 3);
    AndThree(4 * j + i);
    var h, l := r / 4, r % 4;
    assert r == 4 * h + l;
    DivMod(y, 4 * r + j, i);
    assert y / 4 == 16 * h + (4 * l + j);
    AndFour(h, Mask2(n - 1), 4 * l + j, 3);
    AndThree(4 * l + j);
    DivMod(4 * j + i, j, i);
    DivMod(4 * l + j, l, j);
  }

  lemma LowFour(x: nat, n: nat)
    ensures Fours(x, n) % 16 <= 4
  {
    if n > 0 {
      OnesFour(0, x % 16);
      FoursOf(x / 16, x % 16, n);
      DivMod(Fours(x, n), Fours(x / 16, n - 1), Ones(x % 16));
    } else {
      FieldsAre(x, 0);
    }
  }

  /** Two 4-bit counts make an 8-bit count. */
  lemma {:induction false} SumFours(x: nat, n: nat)
    ensures And(Fours(x, 2 * n) + Fours(x, 2 * n) / 16, Mask3(n)) == Eights(x, n)
  {
    if n == 0 {
      AndZero(0);
      FieldsAre(x, 0);
    } else {
      var q, h, l := x / 256, x / 16 % 16, x % 16;
      assert x == 256 * q + 16 * h + l;
      SumFours(q, n - 1);
      SumFoursStep(x, q, h, l, n);
    }
  }

  lemma SumFoursStep(x: nat, q: nat, h: nat, l: nat, n: nat)
    requires x == 256 * q + 16 * h + l && h < 16 && l < 16 && n > 0
    requires And(Fours(q, 2 * n - 2) + Fours(q, 2 * n - 2) / 16, Mask3(n - 1)) == Eights(q, n - 1)
    ensures And(Fours(x, 2 * n) + Fours(x, 2 * n) / 16, Mask3(n)) == Eights(x, n)
  {
    assert x == 16 * (16 * q + h) + l;
    FoursOf(16 * q + h, l, 2 * n);
    FoursOf(q, h, 2 * n - 1);
    EightsOf(q, h, l, n);
    OnesFour(0, l);
    OnesFour(0, h);
    LowFour(q, 2 * n - 2);
    SumFour(Fours(q, 2 * n - 2), Ones(l), Ones(h), n);
  }

  lemma SumFour(r: nat, i: nat, j: nat, n: nat)
    requires i <= 4 && j <= 4 && n > 0 && r % 16 <= 4
    ensures var y := 256 * r + 16 * j + i;
            And(y + y / 16, Mask3(n)) == 256 * And(r + r / 16, Mask3(n - 1)) + (i + j)
  {
    var y := 256 * r + 16 * j + i;
    DivMod(y, 16 * r + j, i);
    var h, l := r / 16, r % 16;
    assert r == 16 * h + l;
    assert y + y / 16 == 256 * (r + h) + (16 * (j + l) + (i + j));
    AndEight(r + h, Mask3(n - 1), 16 * (j + l) + (i + j), 15);
    AndFifteen(j + l, i + j);
  }

  // ---------- Adding the bytes ----------

  /** The first three steps, for words of n bytes. */
  ghost function InBytes(x: nat, n: nat): nat {
    var p := if x >= And(x / 2, Mask1(4 * n)) then x - And(x / 2, Mask1(4 * n)) else 0;
    var f := And(p, Mask2(2 * n)) + And(p / 4, Mask2(2 * n));
    And(f + f / 16, Mask3(n))
  }

  /** "8, 16, 32 bits at a time."  The sums keep 64 bits. */
  function AddBytes(e: nat): nat {
    var a := (e + e / 0x100) % 0x1_0000_0000_0000_0000;
    var b := (a + a / 0x1_0000) % 0x1_0000_0000_0000_0000;
    (b + b / 0x1_0000_0000) % 0x1_0000_0000_0000_0000
  }

  /** count_set_bits, for words of 8 bytes. */
  ghost function CountSetBits(x: nat): nat {
    AddBytes(InBytes(x, 8)) % 128
  }

  lemma Counted(x: nat, n: nat)
    requires x < Power4(4 * n)
    ensures InBytes(x, n) == Eights(x, n)
  {
    SumOnes(x, 4 * n);
    SumPairs(x, 2 * n);
    SumFours(x, n);
  }

  /** A field of the given size below the rest of a word. */
  lemma Halve(low: nat, high: nat, size: nat)
    requires low < size && (size == 0x100 || size == 0x1_0000 || size == 0x1_0000_0000)
    ensures (low + size * high) / size == high
  {
  }

  lemma Kept(s: nat)
    requires s < 0x1_0000_0000_0000_0000
    ensures s % 0x1_0000_0000_0000_0000 == s
  {
  }

  lemma BytesAdded(b0: nat, b1: nat, b2: nat, b3: nat, b4: nat, b5: nat, b6: nat, b7: nat, e: nat)
    requires b0 <= 8 && b1 <= 8 && b2 <= 8 && b3 <= 8 && b4 <= 8 && b5 <= 8 && b6 <= 8 && b7 <= 8
    requires e == b0 + 0x100 * (b1 + 0x100 * b2 + 0x1_0000 * b3 + 0x100_0000 * b4 + 0x1_0000_0000 * b5 +
             0x100_0000_0000 * b6 + 0x1_0000_0000_0000 * b7)
    ensures AddBytes(e) % 128 == b0 + b1 + b2 + b3 + b4 + b5 + b6 + b7
  {
    var e1 := b1 + 0x100 * b2 + 0x1_0000 * b3 + 0x100_0000 * b4 + 0x1_0000_0000 * b5 + 0x100_0000_0000 * b6 +
        0x1_0000_0000_0000 * b7;
    var l2 := (b0 + b1) + 0x100 * (b1 + b2);
    var a2 := (b2 + b3) + 0x100 * (b3 + b4) + 0x1_0000 * (b4 + b5) + 0x100_0000 * (b5 + b6) +
        0x1_0000_0000 * (b6 + b7) + 0x100_0000_0000 * b7;
    var l4 := (b0 + b1 + b2 + b3) + 0x100 * (b1 + b2 + b3 + b4) + 0x1_0000 * (b2 + b3 + b4 + b5) +
        0x100_0000 * (b3 + b4 + b5 + b6);
    var h4 := (b4 + b5 + b6 + b7) + 0x100 * (b5 + b6 + b7) + 0x1_0000 * (b6 + b7) + 0x100_0000 * b7;
    var rest := (b1 + b2 + b3 + b4 + b5 + b6 + b7) + 0x100 * (b2 + b3 + b4 + b5 + b6 + b7)
                + 0x1_0000 * (b3 + b4 + b5 + b6 + b7) + 0x100_0000 * h4;
    ThreeSumsLow(e, b0, e1, l2, a2, l4, h4, b0 + b1 + b2 + b3 + b4 + b5 + b6 + b7, rest);
  }

  lemma ThreeSumsLow(e: nat, b0: nat, e1: nat, l2: nat, a2: nat, l4: nat, h4: nat, low: nat, rest: nat)
    requires b0 < 0x100 && e == b0 + 0x100 * e1 && e1 < 0x100_0000_0000_0000
    requires l2 < 0x1_0000 && e + e1 == l2 + 0x1_0000 * a2 && a2 < 0x1_0000_0000_0000
    requires l4 < 0x1_0000_0000 && e + e1 + a2 == l4 + 0x1_0000_0000 * h4 && h4 < 0xffff_ffff
    requires e + e1 + a2 < 0x1_0000_0000_0000_0000
    requires l4 + 0x1_0000_0000 * h4 + h4 == low + 0x100 * rest && low < 128
    ensures AddBytes(e) % 128 == low
  {
    ThreeSums(e, b0, e1, l2, a2, l4, h4);
    LowSeven(l4 + 0x1_0000_0000 * h4 + h4, low, rest);
  }

  /** Each step adds the upper part of the word to the whole. */
  lemma ThreeSums(e: nat, b0: nat, e1: nat, l2: nat, a2: nat, l4: nat, h4: nat)
    requires b0 < 0x100 && e == b0 + 0x100 * e1 && e1 < 0x100_0000_0000_0000
    requires l2 < 0x1_0000 && e + e1 == l2 + 0x1_0000 * a2 && a2 < 0x1_0000_0000_0000
    requires l4 < 0x1_0000_0000 && e + e1 + a2 == l4 + 0x1_0000_0000 * h4 && h4 < 0xffff_ffff
    requires e + e1 + a2 < 0x1_0000_0000_0000_0000
    ensures AddBytes(e) == l4 + 0x1_0000_0000 * h4 + h4
  {
    Halve(b0, e1, 0x100);
    Kept(e + e1);
    Halve(l2, a2, 0x1_0000);
    Kept(e + e1 + a2);
    Halve(l4, h4, 0x1_0000_0000);
    Kept(l4 + 0x1_0000_0000 * h4 + h4);
  }

  lemma LowSeven(s: nat, low: nat, rest: nat)
    requires s == low + 0x100 * rest && low < 128
    ensures s % 128 == low
  {
    assert s == low + 128 * (2 * rest);
  }

  /** One byte's share of the count. */
  lemma NextByte(x: nat, n: nat) returns (q: nat, d: nat)
    requires n > 0
    ensures q == x / 256 && Eights(x, n) == d + 256 * Eights(q, n - 1) && Ones(x) == Ones(q) + d && d <= 8
  {
    var h, l := x / 16 % 16, x % 16;
    q, d := x / 256, Ones(h) + Ones(l);
    assert x == 256 * q + 16 * h + l;
    EightsOf(q, h, l, n);
    OnesFour(16 * q + h, l);
    OnesFour(q, h);
    OnesFour(0, l);
    OnesFour(0, h);
  }

  /** The bytes of the counts are as many as the set bits. */
  lemma EightBytes(x: nat, n: nat)
    requires n == 8 && x < 0x1_0000_0000_0000_0000
    ensures AddBytes(Eights(x, n)) % 128 == Ones(x)
  {
    var x1, b0 := NextByte(x, n);
    var x2, b1 := NextByte(x1, n - 1);
    var x3, b2 := NextByte(x2, n - 2);
    var x4, b3 := NextByte(x3, n - 3);
    var x5, b4 := NextByte(x4, n - 4);
    var x6, b5 := NextByte(x5, n - 5);
    var x7, b6 := NextByte(x6, n - 6);
    var x8, b7 := NextByte(x7, n - 7);
    assert x8 == 0;
    OnesIs(0);
    FieldsAre(0, n - 8);
    BytesAdded(b0, b1, b2, b3, b4, b5, b6, b7, Eights(x, n));
  }

  /** count_set_bits counts the set bits. */
  lemma CountsSetBits(x: nat)
    requires x < 0x1_0000_0000_0000_0000
    ensures CountSetBits(x) == Ones(x) == OnesOf(x)
  {
    var n := 8;
    Powers();
    Counted(x, n);
    EightBytes(x, n);
    OnesIs(x);
  }

  /** count_set_bits, on a u64. */
  method SetBits(word: nat) returns (n: nat)
    requires word < 0x1_0000_0000_0000_0000
    ensures n == OnesOf(word)
  {
    ghost var bytes := 8;
    Masks();
    CountsSetBits(word);
    var x := CountInBytes(word, 0x5555_5555_5555_5555, 0x3333_3333_3333_3333, 0x0f0f_0f0f_0f0f_0f0f, bytes);
    n := AddBytes(x) % 128;
  }

  /** Its first three steps, by masks for so many bytes. */
  method CountInBytes(word: nat, c1: nat, c2: nat, c3: nat, ghost bytes: nat) returns (x: nat)
    requires c1 == Mask1(4 * bytes) && c2 == Mask2(2 * bytes) && c3 == Mask3(bytes)
    ensures x == InBytes(word, bytes)
  {
    x := word;
    AndLess(x / 2, c1);
    AndIs(x / 2, c1);
    x := x - AndBits(x / 2, c1);
    AndIs(x, c2);
    AndIs(x / 4, c2);
    x := AndBits(x, c2) + AndBits(x / 4, c2);
    AndIs(x + x / 16, c3);
    x := AndBits(x + x / 16, c3);
  }

  lemma {:induction false} AndLess(x: nat, y: nat)
    ensures AndBits(x, y) <= x
  {
    if x > 0 && y > 0 {
      AndLess(x / 2, y / 2);
    }
  }

  /** is_pow2, where 0 - 1 is the largest u64. */
  predicate IsPow2(x: nat) {
    AndBits(x, if x == 0 then 0xffff_ffff_ffff_ffff else x - 1) == 0
  }

  /** It holds if and only if at most one bit is set. */
  lemma {:induction false} AtMostOneBit(x: nat)
    ensures IsPow2(x) <==> OnesOf(x) <= 1
    ensures x == 0 <==> OnesOf(x) == 0
  {
    if x > 0 {
      var y := x / 2;
      AtMostOneBit(y);
      AndSelf(y);
      if x % 2 == 0 {
        assert (x - 1) / 2 == y - 1;
      } else {
        assert (x - 1) / 2 == y;
      }
    }
  }

  lemma {:induction false} AndSelf(x: nat)
    ensures AndBits(x, x) == x
  {
    if x > 0 {
      AndSelf(x / 2);
    }
  }

  // ---------- Words kept as bits ----------

  /** The number of which these are the bits, the low one first. */
  function Value(w: Bitops.Word): nat {
    if w == [] then 0 else (if w[0] then 1 else 0) + 2 * Value(w[1..])
  }

  lemma {:induction false} CountFirst(w: Bitops.Word, p: nat)
    requires 0 < p <= |w|
    ensures Bitops.Count(w, p) == (if w[0] then 1 else 0) + Bitops.Count(w[1..], p - 1)
  {
    if p > 1 {
      CountFirst(w, p - 1);
      assert w[1..][p - 2] == w[p - 1];
    }
  }

  lemma {:induction false} OnesCounted(w: Bitops.Word)
    ensures OnesOf(Value(w)) == Bitops.Count(w, |w|) && Value(w) < Pow2(|w|)
  {
    if w != [] {
      OnesCounted(w[1..]);
      CountFirst(w, |w|);
      var i := if w[0] then 1 else 0;
      assert Value(w) / 2 == Value(w[1..]) && Value(w) % 2 == i;
    }
  }

  /** The count of the bits below a position, as sparse vectors take it, is count_set_bits of the
      word with the others masked off. */
  lemma CountsBelow(w: Bitops.Word, p: nat)
    requires p <= |w| == 64
    ensures CountSetBits(Value(w[..p])) == Bitops.Count(w, p)
  {
    OnesCounted(w[..p]);
    Pow2Mono(p, 64);
    Pow2Add(32, 32);
    Pow2Of32();
    CountsSetBits(Value(w[..p]));
    SamePrefix(w, p, p);
  }

  /** Masking off the bits from p on. */
  lemma {:induction false} Masked(w: Bitops.Word, p: nat)
    requires p <= |w|
    ensures AndBits(Value(w), Pow2(p) - 1) == Value(w[..p])
  {
    if p > 0 {
      var rest := w[1..];
      Masked(rest, p - 1);
      assert w[..p][1..] == rest[..p - 1];
      assert Value(w) / 2 == Value(rest) && (Pow2(p) - 1) / 2 == Pow2(p - 1) - 1;
    }
  }

  /** The bits of w below p, as sparse vectors mask them. */
  lemma BitsBelow(w: Bitops.Word, p: nat, v: nat)
    requires p <= |w| == 64 && v == AndBits(Value(w), Pow2(p) - 1)
    ensures v < 0x1_0000_0000_0000_0000 && CountSetBits(v) == OnesOf(v) == Bitops.Count(w, p)
  {
    Masked(w, p);
    CountsBelow(w, p);
    PrefixValue(w, p, |w|);
    CountsSetBits(v);
  }

  lemma PrefixValue(w: Bitops.Word, p: nat, n: nat)
    requires p <= |w| == n == 64
    ensures Value(w[..p]) < 0x1_0000_0000_0000_0000
  {
    OnesCounted(w[..p]);
    Pow2Mono(p, n);
    Pow2Add(32, n - 32);
    Pow2Of32();
  }

  lemma {:induction false} SamePrefix(w: Bitops.Word, p: nat, q: nat)
    requires q <= p <= |w|
    ensures Bitops.Count(w[..p], q) == Bitops.Count(w, q)
  {
    if q > 0 {
      SamePrefix(w, p, q - 1);
    }
  }

  lemma Powers()
    ensures Power4(32) == 0x1_0000_0000_0000_0000
  {
    assert Power4(8) == 0x1_0000;
    assert Power4(16) == 0x1_0000_0000;
    assert Power4(24) == 0x1_0000_0000_0000;
  }
}
