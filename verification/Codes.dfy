/** The byte codes of clib/serialize.h and clib/serialize.c. */
module Codes {

  import opened Words

  type byte = x: int | 0 <= x < 256

  const U32: nat := 0x1_0000_0000
  const U64: nat := 0x1_0000_0000_0000_0000

  /** 256^n */
  function Range(n: nat): (r: nat)
    ensures r > 0
  {
    if n == 0 then 1 else 256 * Range(n - 1)
  }

  // ---------- Integers ----------

  /** The n low bytes of x, the highest first. */
  function NetBytes(x: nat, n: nat): (s: seq<byte>)
    ensures |s| == n
  {
    if n == 0 then [] else NetBytes(x / 256, n - 1) + [x % 256]
  }

  function NetValue(s: seq<byte>): nat {
    if s == [] then 0 else 256 * NetValue(s[..|s| - 1]) + s[|s| - 1]
  }

  lemma {:induction false} NetRoundTrip(x: nat, n: nat)
    ensures NetValue(NetBytes(x, n)) == x % Range(n)
  {
    if n > 0 {
      NetRoundTrip(x / 256, n - 1);
      var s := NetBytes(x, n);
      assert s[..n - 1] == NetBytes(x / 256, n - 1);
      ModStep(x, Range(n - 1));
    }
  }

  /** And bytes are those of their number. */
  lemma {:induction false} NetInverse(s: seq<byte>)
    ensures NetValue(s) < Range(|s|) && NetBytes(NetValue(s), |s|) == s
  {
    if s != [] {
      var t, b := s[..|s| - 1], s[|s| - 1];
      NetInverse(t);
      assert NetValue(s) / 256 == NetValue(t) && NetValue(s) % 256 == b;
    }
  }

  lemma ModStep(x: nat, r: nat)
    requires r > 0
    ensures 256 * (x / 256 % r) + x % 256 == x % (256 * r)
  {
    var q, d := x / 256, x % 256;
    var k, m := q / r, q % r;
    assert q == k * r + m;
    assert x == (256 * r) * k + (256 * m + d);
    assert 256 * m + d < 256 * r;
    DivisionUnique(x, 256 * r, k, 256 * m + d);
  }

  lemma DivisionUnique(x: nat, b: nat, k: nat, m: nat)
    requires b > 0 && x == b * k + m && m < b
    ensures x % b == m
  {
    var k', m' := x / b, x % b;
    assert x == b * k' + m';
    assert k' < k ==> b * (k' + 1) <= b * k;
    assert k < k' ==> b * (k + 1) <= b * k';
  }

  /** Byte i of the n low bytes of x, counted from the highest. */
  function NetByte(x: nat, n: nat, i: nat): (b: byte)
    requires i < n
  {
    x / Range(n - 1 - i) % 256
  }

  /** NetBytes has them in this order. */
  lemma {:induction false} NetByteAt(x: nat, n: nat, i: nat)
    requires i < n
    ensures NetBytes(x, n)[i] == NetByte(x, n, i)
  {
    if i < n - 1 {
      NetByteAt(x / 256, n - 1, i);
      DivideTwice(x, Range(n - 2 - i));
    }
  }

  lemma DivideTwice(x: nat, r: nat)
    requires r > 0
    ensures x / 256 / r == x / (256 * r)
  {
    var q, m := x / 256 / r, x / 256 % r;
    assert x == 256 * (q * r + m) + x % 256;
    assert q * (256 * r) == 256 * (q * r);
    Quotient(x, 256 * r, q, 256 * m + x % 256);
  }

  /** Little-endian bytes. */
  function LittleBytes(x: nat, n: nat): (s: seq<byte>)
    ensures |s| == n
  {
    if n == 0 then [] else [x % 256] + LittleBytes(x / 256, n - 1)
  }

  function LittleValue(s: seq<byte>): nat {
    if s == [] then 0 else s[0] + 256 * LittleValue(s[1..])
  }

  /** Byte i of x, counted from the lowest. */
  lemma {:induction false} LittleByteAt(x: nat, n: nat, i: nat)
    requires i < n
    ensures LittleBytes(x, n)[i] == x / Range(i) % 256
  {
    if i > 0 {
      LittleByteAt(x / 256, n - 1, i - 1);
      DivideTwice(x, Range(i - 1));
    }
  }

  lemma {:induction false} LittleRoundTrip(x: nat, n: nat)
    requires x < Range(n)
    ensures LittleValue(LittleBytes(x, n)) == x
  {
    if n > 0 {
      LittleRoundTrip(x / 256, n - 1);
      var s := LittleBytes(x, n);
      assert s[1..] == LittleBytes(x / 256, n - 1);
    }
  }

  /** The code of serialize_likely_small_unsigned_integer. */
  function SmallBytes(x: nat): (s: seq<byte>)
    requires x < U64
  {
    if x < 0x80 then [1 + 2 * x]
    else if x - 0x80 < 0x4000 then LittleBytes(4 * (x - 0x80) + 2, 2)
    else if x - 0x4080 < 0x2000_0000 then LittleBytes(8 * (x - 0x4080) + 4, 4)
    else [0] + LittleBytes(x, 8)
  }

  lemma ReadBack(y: nat, n: nat)
    ensures y < Range(n) ==> NetValue(NetBytes(y, n)) == y
  {
    NetRoundTrip(y, n);
  }

  /** Only the low bytes matter. */
  lemma {:induction false} NetLow(x: nat, q: nat, n: nat)
    ensures NetBytes(x + q * Range(n), n) == NetBytes(x, n)
  {
    if n > 0 {
      var r := Range(n - 1);
      assert q * Range(n) == 256 * (q * r);
      HighPart(x, q * r);
      NetLow(x / 256, q, n - 1);
    }
  }

  lemma HighPart(x: nat, y: nat)
    ensures (x + 256 * y) / 256 == x / 256 + y && (x + 256 * y) % 256 == x % 256
  {
  }

  /** The bytes of a u32, which are 4.  Proofs see the number only where they mention Open. */
  ghost function WordBytes(): nat {
    assert IsFour(4);
    var n: nat :| IsFour(n);
    n
  }

  ghost predicate IsFour(n: nat) {
    forall k {:trigger Open(k)} :: Open(k) ==> n == 4
  }

  lemma FourBytesInWord()
    ensures WordBytes() == 4 && Range(4) == U32
  {
    assert Open(0);
    assert IsFour(WordBytes());
  }

  // ---------- Vectors ----------

  /** The elements one after the other, w bytes each. */
  function VecBytes(xs: seq<nat>, w: nat): seq<byte> {
    if xs == [] then [] else VecBytes(xs[..|xs| - 1], w) + NetBytes(xs[|xs| - 1], w)
  }

  lemma VecBytesAdd(xs: seq<nat>, x: nat, w: nat)
    ensures VecBytes(xs + [x], w) == VecBytes(xs, w) + NetBytes(x, w)
  {
    assert (xs + [x])[..|xs|] == xs;
  }

  lemma Associates(a: seq<byte>, b: seq<byte>, c: seq<byte>)
    ensures (a + b) + c == a + (b + c)
  {
  }

  lemma {:induction false} VecBytesJoin(xs: seq<nat>, ys: seq<nat>, w: nat)
    ensures VecBytes(xs + ys, w) == VecBytes(xs, w) + VecBytes(ys, w)
  {
    if ys == [] {
      assert xs + ys == xs;
    } else {
      var zs, y := ys[..|ys| - 1], ys[|ys| - 1];
      assert ys == zs + [y] && xs + ys == (xs + zs) + [y];
      VecBytesJoin(xs, zs, w);
      VecBytesAdd(xs + zs, y, w);
      VecBytesAdd(zs, y, w);
      Associates(VecBytes(xs, w), VecBytes(zs, w), NetBytes(y, w));
    }
  }

  lemma VecBytesOne(x: nat, w: nat)
    ensures VecBytes([x], w) == NetBytes(x, w)
  {
    VecBytesAdd([], x, w);
    assert [] + [x] == [x];
  }

  lemma {:induction false} VecBytesLength(xs: seq<nat>, w: nat)
    ensures |VecBytes(xs, w)| == |xs| * w
  {
    if xs != [] {
      VecBytesLength(xs[..|xs| - 1], w);
      Shorter(|xs|, w);
    }
  }

  /** One more element after the first i. */
  lemma VecBytesNext(xs: seq<nat>, i: nat, w: nat)
    requires i < |xs|
    ensures VecBytes(xs[..i + 1], w) == VecBytes(xs[..i], w) + NetBytes(xs[i], w)
  {
    assert xs[..i + 1] == xs[..i] + [xs[i]];
    VecBytesAdd(xs[..i], xs[i], w);
  }

  lemma FourElements(xs: seq<nat>, i: nat, w: nat)
    requires i + 4 <= |xs|
    ensures VecBytes(xs[..i + 4], w) ==
            VecBytes(xs[..i], w) + NetBytes(xs[i], w) + NetBytes(xs[i + 1], w) + NetBytes(xs[i + 2], w) +
                NetBytes(xs[i + 3], w)
  {
    VecBytesNext(xs, i, w);
    VecBytesNext(xs, i + 1, w);
    VecBytesNext(xs, i + 2, w);
    VecBytesNext(xs, i + 3, w);
  }

  /** Elements that fit in w bytes. */
  ghost predicate Fit(xs: seq<nat>, w: nat) {
    forall i :: 0 <= i < |xs| ==> xs[i] < Range(w)
  }

  lemma RestParts(ys: seq<nat>, k: nat, k': nat, w: nat)
    requires k <= k' <= |ys|
    ensures VecBytes(ys[k..], w) == VecBytes(ys[k..k'], w) + VecBytes(ys[k'..], w)
  {
    VecBytesJoin(ys[k..k'], ys[k'..], w);
    assert ys[k..] == ys[k..k'] + ys[k'..];
  }

  lemma PartOfAll(m: nat, c: nat, n: nat, w: nat)
    requires m + c <= n
    ensures m * w + c * w <= n * w
  {
    assert (m + c) * w == m * w + c * w;
    assert (n - m - c) * w >= 0 && n * w == (m + c) * w + (n - m - c) * w;
  }

  lemma Shorter(n: nat, w: nat)
    requires n >= 1
    ensures n * w == w + (n - 1) * w && (n - 1) * w >= 0
  {
  }

  /** The next of the elements stored in p, after xs. */
  lemma NextElement(p: seq<byte>, xs: seq<nat>, q: seq<byte>, w: nat, left: nat)
    requires left >= 1 && |q| == left * w && p == VecBytes(xs, w) + q && Fit(xs, w)
    ensures w <= |q| && |q[w..]| == (left - 1) * w
    ensures var xs' := xs + [NetValue(q[..w])]; Fit(xs', w) && p == VecBytes(xs', w) + q[w..]
  {
    Shorter(left, w);
    var b, c := q[..w], q[w..];
    NetInverse(b);
    VecBytesAdd(xs, NetValue(b), w);
    assert q == b + c;
    Associates(VecBytes(xs, w), b, c);
  }

  /** Different elements have different bytes. */
  lemma {:induction false} VecBytesInjective(xs: seq<nat>, ys: seq<nat>, w: nat)
    requires |xs| == |ys| && Fit(xs, w) && Fit(ys, w) && VecBytes(xs, w) == VecBytes(ys, w)
    ensures xs == ys
  {
    if xs != [] {
      var n := |xs| - 1;
      var a, b := VecBytes(xs[..n], w), VecBytes(ys[..n], w);
      VecBytesLength(xs[..n], w);
      VecBytesLength(ys[..n], w);
      SameParts(a, NetBytes(xs[n], w), b, NetBytes(ys[n], w));
      VecBytesInjective(xs[..n], ys[..n], w);
      ReadBack(xs[n], w);
      ReadBack(ys[n], w);
      assert xs == xs[..n] + [xs[n]] && ys == ys[..n] + [ys[n]];
    }
  }

  lemma SameParts(a: seq<byte>, s: seq<byte>, b: seq<byte>, t: seq<byte>)
    requires |a| == |b| && a + s == b + t
    ensures a == b && s == t
  {
    assert a == (a + s)[..|a|] && b == (b + t)[..|b|];
    assert s == (a + s)[|a|..] && t == (b + t)[|b|..];
  }

  /** A vector: its length, and its elements. */
  ghost function VectorBytes(vec: seq<nat>, w: nat): seq<byte> {
    NetBytes(|vec|, WordBytes()) + VecBytes(vec, w)
  }

  // ---------- Bitmaps ----------

  /** 64-bit words as 32-bit words, the low one first. */
  function Halves(words: seq<nat>): (h: seq<nat>)
    ensures |h| == 2 * |words|
  {
    if words == [] then []
    else Halves(words[..|words| - 1]) + [words[|words| - 1] % U32, words[|words| - 1] / U32]
  }

  lemma {:induction false} HalfAt(words: seq<nat>, i: nat)
    requires i < |words|
    ensures Halves(words)[2 * i] == words[i] % U32
    ensures Halves(words)[2 * i + 1] == words[i] / U32
  {
    if i < |words| - 1 {
      HalfAt(words[..|words| - 1], i);
    }
  }

  lemma {:induction false} HalvesFit(words: seq<nat>)
    requires forall i :: 0 <= i < |words| ==> words[i] < U64
    ensures Fit(Halves(words), WordBytes())
  {
    if words != [] {
      var n := |words| - 1;
      HalvesFit(words[..n]);
      WordRange();
      assert words[n] / U32 < U32;
    }
  }

  lemma WordRange()
    ensures Range(WordBytes()) == U32
  {
    FourBytesInWord();
  }

  /** The low 32 bits of x, as the only element of a vector. */
  lemma OneWord(x: nat)
    ensures NetBytes(x, WordBytes()) == VecBytes([x % U32], WordBytes())
  {
    var lo, hi := x % U32, x / U32;
    WordRange();
    assert x == lo + hi * U32;
    NetLow(lo, hi, WordBytes());
    VecBytesOne(lo, WordBytes());
  }

  // ---------- The small-number code ----------

  /** The length of a code by its first byte: the place of the lowest bit that is set. */
  function CodeLength(a: nat): nat {
    if a % 2 == 1 then 1 else if a / 2 % 2 == 1 then 2 else if a / 4 % 2 == 1 then 4 else 9
  }

  /** The lowest bit of a number is that of its last byte. */
  lemma LowestBit(z: nat, b: nat)
    ensures b == (4 * z + 2) % 256 ==> CodeLength(b) == 2
    ensures b == (8 * z + 4) % 256 ==> CodeLength(b) == 4
  {
    if b == (4 * z + 2) % 256 {
      var m := z - 64 * ((4 * z + 2) / 256);
      assert b == 4 * m + 2;
      assert b / 2 == 2 * m + 1;
    }
    if b == (8 * z + 4) % 256 {
      var m := z - 32 * ((8 * z + 4) / 256);
      assert b == 8 * m + 4;
      assert b / 2 == 2 * (2 * m + 1) && b / 4 == 2 * m + 1;
    }
  }

  /** The first byte tells the length of the code. */
  lemma FirstByte(y: nat)
    requires y < U64
    ensures |SmallBytes(y)| > 0
    ensures |SmallBytes(y)| == CodeLength(SmallBytes(y)[0] as int)
    ensures |SmallBytes(y)| == 1 ==> (SmallBytes(y)[0] as int) / 2 == y
  {
    if 0x80 <= y < 0x4080 {
      assert LittleBytes(4 * (y - 0x80) + 2, 2)[0] == (4 * (y - 0x80) + 2) % 256;
      LowestBit(y - 0x80, SmallBytes(y)[0]);
    } else if 0x4080 <= y < 0x2000_4080 {
      assert LittleBytes(8 * (y - 0x4080) + 4, 4)[0] == (8 * (y - 0x4080) + 4) % 256;
      LowestBit(y - 0x4080, SmallBytes(y)[0]);
    }
  }

  /** How long the code of a number is, and what number its bytes, the low one first, make up. */
  lemma SmallCode(y: nat, i: nat)
    requires y < U64 && i < |SmallBytes(y)|
    ensures |SmallBytes(y)| == if y < 0x80 then 1 else if y < 0x4080 then 2 else if y < 0x2000_4080 then 4 else 9
    ensures SmallBytes(y)[i] as int ==
            if y < 0x80 then 2 * y + 1
            else if y < 0x4080 then (4 * (y - 0x80) + 2) / Range(i) % 256
            else if y < 0x2000_4080 then (8 * (y - 0x4080) + 4) / Range(i) % 256
            else if i == 0 then 0 else y / Range(i - 1) % 256
  {
    if 0x80 <= y < 0x4080 {
      LittleByteAt(4 * (y - 0x80) + 2, 2, i);
    } else if 0x4080 <= y < 0x2000_4080 {
      LittleByteAt(8 * (y - 0x4080) + 4, 4, i);
    } else if y >= 0x2000_4080 && i > 0 {
      LittleByteAt(y, 8, i - 1);
    }
  }

  lemma TwoBytes(y: nat, a: byte, b: byte)
    requires y < U64 && |SmallBytes(y)| == 2 && SmallBytes(y) == [a, b]
    ensures y == 0x80 + (a as int) / 4 + (b as int) * 64
  {
    var z := 4 * (y - 0x80) + 2;
    assert LittleBytes(z, 2) == [z % 256, z / 256 % 256];
  }

  lemma FourBytes(y: nat, s: seq<byte>)
    requires y < U64 && |SmallBytes(y)| == 4 && SmallBytes(y) == s
    ensures y == 0x4080 + (s[0] as int) / 8 + (s[1] as int) * 32 + (s[2] as int) * 0x2000 + (s[3] as int) * 0x20_0000
  {
    var z := 8 * (y - 0x4080) + 4;
    var z1 := z / 256;
    var z2 := z1 / 256;
    var z3 := z2 / 256;
    assert LittleBytes(z3, 1) == [z3 % 256];
    assert LittleBytes(z2, 2) == [z2 % 256, z3 % 256];
    assert LittleBytes(z1, 3) == [z1 % 256, z2 % 256, z3 % 256];
    assert LittleBytes(z, 4) == [z % 256, z1 % 256, z2 % 256, z3 % 256];
    assert z3 < 256;
  }

  /** Two bytes that begin as such a code are one. */
  lemma TwoBytesCode(a: byte, b: byte)
    requires CodeLength(a as int) == 2
    ensures SmallBytes(0x80 + (a as int) / 4 + (b as int) * 64) == [a, b]
  {
    var r := (a as int) / 4 + (b as int) * 64;
    var z := 4 * r + 2;
    assert (a as int) == 4 * ((a as int) / 4) + 2;
    assert z == (a as int) + 256 * (b as int) && z % 256 == a && z / 256 == b;
    assert LittleBytes(b, 1) == [b];
    assert LittleBytes(z, 2) == [a, b];
  }

  /** And so are four. */
  lemma FourBytesCode(s: seq<byte>)
    requires |s| == 4 && CodeLength(s[0] as int) == 4
    ensures SmallBytes(0x4080 + (s[0] as int) / 8 + (s[1] as int) * 32 + (s[2] as int) * 0x2000 +
                       (s[3] as int) * 0x20_0000) == s
  {
    var r := FourBytesValue(s);
    assert s[1..][1..] == s[2..] && s[2..][1..] == s[3..] && s[3..][1..] == [];
    assert LittleValue(s[3..]) == s[3] && LittleValue(s[2..]) == (s[2] as int) + 256 * LittleValue(s[3..]);
    assert LittleValue(s[1..]) == (s[1] as int) + 256 * LittleValue(s[2..]);
    assert LittleValue(s) == (s[0] as int) + 256 * LittleValue(s[1..]);
    LittleInverse(s);
  }

  lemma FourBytesValue(s: seq<byte>) returns (r: nat)
    requires |s| == 4 && CodeLength(s[0] as int) == 4
    ensures r == (s[0] as int) / 8 + (s[1] as int) * 32 + (s[2] as int) * 0x2000 + (s[3] as int) * 0x20_0000
    ensures r < 0x2000_0000
    ensures 8 * r + 4 == (s[0] as int) + 256 * ((s[1] as int) + 256 * ((s[2] as int) + 256 * (s[3] as int)))
  {
    var a: nat := s[0] as int;
    r := a / 8 + (s[1] as int) * 32 + (s[2] as int) * 0x2000 + (s[3] as int) * 0x20_0000;
    assert a == 8 * (a / 8) + 4;
  }

  lemma {:induction false} LittleInverse(s: seq<byte>)
    ensures LittleValue(s) < Range(|s|) && LittleBytes(LittleValue(s), |s|) == s
  {
    if s != [] {
      LittleInverse(s[1..]);
      assert LittleValue(s) / 256 == LittleValue(s[1..]) && LittleValue(s) % 256 == s[0];
    }
  }

  lemma NineBytes(y: nat)
    requires y < U64 && |SmallBytes(y)| == 9
    ensures LittleValue(SmallBytes(y)[1..]) == y
  {
    assert SmallBytes(y)[1..] == LittleBytes(y, 8);
    assert Range(4) == 0x1_0000_0000;
    LittleRoundTrip(y, 8);
  }
}
