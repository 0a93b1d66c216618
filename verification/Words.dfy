/** Arithmetic on machine words kept as natural numbers. */
module Words {

  /** Always true.  A definition of the form "for all k, Open(k) implies ..." is seen only by
      proofs that mention Open. */
  predicate Open(k: int) {
    true
  }

  function Pow2(d: nat): (p: nat)
    ensures p > 0
  {
    if d == 0 then 1 else 2 * Pow2(d - 1)
  }

  lemma {:induction false} Pow2Add(a: nat, b: nat)
    ensures Pow2(a + b) == Pow2(a) * Pow2(b)
  {
    if a > 0 {
      Pow2Add(a - 1, b);
      assert Pow2(a) * Pow2(b) == 2 * (Pow2(a - 1) * Pow2(b));
    }
  }

  lemma {:induction false} Pow2Mono(a: nat, b: nat)
    requires a <= b
    ensures Pow2(a) <= Pow2(b)
    decreases b
  {
    if a < b {
      Pow2Mono(a, b - 1);
    }
  }

  /** z >> k */
  function Shr(z: nat, k: nat): nat {
    if k == 0 then z else Shr(z / 2, k - 1)
  }

  /** The k low bits of z. */
  function LowBits(z: nat, k: nat): (r: nat)
    ensures r < Pow2(k) && r <= z
  {
    if k == 0 then 0 else 2 * LowBits(z / 2, k - 1) + z % 2
  }

  /** Shifting a word of n + k bits right by k leaves n bits. */
  lemma {:induction false} HighBits(z: nat, n: nat, k: nat)
    requires z < Pow2(n + k)
    ensures Shr(z, k) < Pow2(n)
  {
    if k > 0 {
      HighBits(z / 2, n, k - 1);
    }
  }

  /** Exclusive or of two unsigned words, bit by bit. */
  function Xor(x: nat, y: nat): nat {
    if x == 0 && y == 0 then 0
    else 2 * Xor(x / 2, y / 2) + (if x % 2 == y % 2 then 0 else 1)
  }

  lemma {:induction false} XorInjective(x: nat, x': nat, y: nat)
    requires Xor(x, y) == Xor(x', y)
    ensures x == x'
    decreases x + x' + y
  {
    if x + x' + y > 0 {
      XorParity(x, y);
      XorParity(x', y);
      XorInjective(x / 2, x' / 2, y / 2);
    }
  }

  lemma XorParity(x: nat, y: nat)
    ensures Xor(x, y) == 2 * Xor(x / 2, y / 2) + (if x % 2 == y % 2 then 0 else 1)
  {
    if x == 0 && y == 0 {
      assert Xor(0, 0) == 0;
    }
  }

  lemma {:induction false} XorZero(x: nat)
    ensures Xor(x, 0) == x
  {
    if x > 0 {
      XorZero(x / 2);
    }
  }

  lemma {:induction false} ShrMono(x: nat, y: nat, k: nat)
    requires x <= y
    ensures Shr(x, k) <= Shr(y, k)
  {
    if k > 0 {
      ShrMono(x / 2, y / 2, k - 1);
    }
  }

  lemma {:induction false} ShrSum(x: nat, y: nat, k: nat)
    ensures Shr(x, k) + Shr(y, k) <= Shr(x + y, k)
  {
    if k > 0 {
      ShrSum(x / 2, y / 2, k - 1);
      ShrMono(x / 2 + y / 2, (x + y) / 2, k - 1);
    }
  }

  lemma {:induction false} ShrGap(x: nat, y: nat, k: nat)
    requires x <= y
    ensures Shr(y, k) - Shr(x, k) <= y - x
  {
    if k > 0 {
      ShrGap(x / 2, y / 2, k - 1);
    }
  }

  lemma {:induction false} ShrZero(x: nat, k: nat)
    ensures Shr(x, k) == 0 <==> x < Pow2(k)
  {
    if k > 0 {
      ShrZero(x / 2, k - 1);
    }
  }

  lemma {:induction false} ShrLess(x: nat, k: nat)
    ensures Shr(x, k) <= x
    ensures x > 0 && k > 0 ==> Shr(x, k) < x
  {
    if k > 0 {
      ShrLess(x / 2, k - 1);
    }
  }

  lemma {:induction false} ShrTwice(x: nat, a: nat, b: nat)
    ensures Shr(Shr(x, a), b) == Shr(x, a + b)
  {
    if a > 0 {
      ShrTwice(x / 2, a - 1, b);
    }
  }

  /** Adding 2^(j + k) adds 2^j to the word shifted by k. */
  lemma {:induction false} ShrPlusPow(x: nat, j: nat, k: nat)
    ensures Shr(x + Pow2(j + k), k) == Shr(x, k) + Pow2(j)
  {
    if k > 0 {
      assert (x + Pow2(j + k)) / 2 == x / 2 + Pow2(j + k - 1);
      ShrPlusPow(x / 2, j, k - 1);
    }
  }

  /** The low bits of a sum, d being at most one turn. */
  lemma {:induction false} LowBitsPlus(c: nat, d: nat, k: nat)
    requires d <= Pow2(k)
    ensures LowBits(c + d, k) == if LowBits(c, k) + d < Pow2(k) then LowBits(c, k) + d else LowBits(c, k) + d - Pow2(k)
  {
    if k > 0 {
      var carry := if c % 2 + d % 2 == 2 then 1 else 0;
      LowBitsPlus(c / 2, d / 2 + carry, k - 1);
      assert (c + d) / 2 == c / 2 + (d / 2 + carry);
    }
  }

  lemma {:induction false} LowBitsSmall(x: nat, k: nat)
    requires x < Pow2(k)
    ensures LowBits(x, k) == x
  {
    if k > 0 {
      LowBitsSmall(x / 2, k - 1);
    }
  }

  /** A word is its upper part and its k low bits. */
  lemma {:induction false} ShrAndLowBits(x: nat, k: nat)
    ensures x == Shr(x, k) * Pow2(k) + LowBits(x, k)
  {
    if k > 0 {
      ShrAndLowBits(x / 2, k - 1);
      TwicePlus(x, Shr(x / 2, k - 1), Pow2(k - 1), LowBits(x / 2, k - 1));
    }
  }

  lemma TwicePlus(x: nat, q: nat, p: nat, m: nat)
    requires x / 2 == q * p + m
    ensures x == q * (2 * p) + (2 * m + x % 2)
  {
    assert q * (2 * p) == 2 * (q * p);
  }

  /** The shift divides, rounding down. */
  lemma ShrDivides(x: nat, k: nat)
    ensures Shr(x, k) * Pow2(k) <= x < (Shr(x, k) + 1) * Pow2(k)
    ensures Shr(x, k) == x / Pow2(k) && LowBits(x, k) == x % Pow2(k)
  {
    ShrAndLowBits(x, k);
    Quotient(x, Pow2(k), Shr(x, k), LowBits(x, k));
  }

  lemma Quotient(x: nat, b: nat, q: nat, m: nat)
    requires b > 0 && x == q * b + m && m < b
    ensures x / b == q && x % b == m && q * b <= x < (q + 1) * b
  {
    var q', m' := x / b, x % b;
    assert x == b * q' + m';
    assert q' < q ==> b * (q' + 1) <= b * q;
    assert q < q' ==> b * (q + 1) <= b * q';
    assert (q + 1) * b == q * b + b;
  }

  /** What is a multiple of 2^k is one of every smaller power. */
  lemma {:induction false} LowerBitsZero(x: nat, j: nat, k: nat)
    requires LowBits(x, k) == 0 && j <= k
    ensures x % Pow2(j) == 0
  {
    ShrAndLowBits(x, k);
    Pow2Add(k - j, j);
    var q, p, r := Shr(x, k), Pow2(k - j), Pow2(j);
    assert q * (p * r) == (q * p) * r;
    Quotient(x, r, q * p, 0);
  }

  /** Rounded up to a power of two, a number is less than twice as large. */
  lemma MaxLog2Below(x: nat, k: nat)
    requires x > 0
    ensures Pow2(k) < 2 * x <==> k <= MaxLog2(x)
    ensures x <= Pow2(k) < 2 * x <==> k == MaxLog2(x)
  {
    MaxLog2Least(x, k);
    var m := MaxLog2(x);
    MaxLog2Least(x, m);
    if m > 0 {
      MaxLog2Least(x, m - 1);
    }
    if k <= m {
      Pow2Mono(k, m);
    } else {
      Pow2Mono(m + 1, k);
    }
  }

  /** min_log2: the position of the highest set bit. */
  function MinLog2(x: nat): nat {
    if x < 2 then 0 else 1 + MinLog2(x / 2)
  }

  /** max_log2: the logarithm rounded up. */
  function MaxLog2(x: nat): nat {
    MinLog2(x) + if x > Pow2(MinLog2(x)) then 1 else 0
  }

  lemma {:induction false} MinLog2Bounds(x: nat)
    requires x > 0
    ensures Pow2(MinLog2(x)) <= x < 2 * Pow2(MinLog2(x))
  {
    if x >= 2 {
      MinLog2Bounds(x / 2);
    }
  }

  lemma MaxLog2Least(x: nat, k: nat)
    requires x > 0
    ensures x <= Pow2(k) <==> MaxLog2(x) <= k
  {
    MinLog2Bounds(x);
    if x <= Pow2(k) {
      if k < MinLog2(x) {
        Pow2Mono(k + 1, MinLog2(x));
      } else if k == MinLog2(x) {
      }
    }
    if MaxLog2(x) <= k {
      Pow2Mono(MaxLog2(x), k);
    }
  }

  /** z &~ (2^k - 1) */
  lemma {:induction false} LowBitsCleared(z: nat, k: nat)
    ensures LowBits(z - LowBits(z, k), k) == 0
  {
    if k > 0 {
      var y := z / 2 - LowBits(z / 2, k - 1);
      LowBitsCleared(z / 2, k - 1);
      assert z - LowBits(z, k) == 2 * y && 2 * y / 2 == y;
    }
  }

  lemma Pow2Of32()
    ensures Pow2(32) == 0x1_0000_0000
  {
    assert Pow2(8) == 256;
    Pow2Add(8, 8);
    Pow2Add(16, 16);
  }
}
