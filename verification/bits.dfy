/** Bit primitives of the library (include/common.hpp): powers of two, bit
    extraction, the ruler functions rho and lambda, the masks derived from them,
    compact bitmasks, rounding to a power-of-two multiple and word select.

    A machine word is a natural number below WORD = 2^64; the bitwise operators
    are defined on naturals bit by bit, so every property below is proved from
    the binary expansion rather than assumed. */
module Bits {

  const WORD: nat := 0x1_0000_0000_0000_0000

  function Pow2(k: nat): (r: nat)
    ensures r >= 1
  {
    if k == 0 then 1 else 2 * Pow2(k - 1)
  }

  /** Bit i of w (bit 0 is the least significant one). */
  function Bit(w: nat, i: nat): nat
  {
    if i == 0 then w % 2 else Bit(w / 2, i - 1)
  }

  /** Number of 1-bits of w (__builtin_popcountll). */
  function Popcount(w: nat): nat
  {
    if w == 0 then 0 else w % 2 + Popcount(w / 2)
  }

  function And(a: nat, b: nat): nat
  {
    if a == 0 || b == 0 then 0
    else 2 * And(a / 2, b / 2) + (if a % 2 == 1 && b % 2 == 1 then 1 else 0)
  }

  function Or(a: nat, b: nat): nat
  {
    if a == 0 then b
    else if b == 0 then a
    else 2 * Or(a / 2, b / 2) + (if a % 2 == 1 || b % 2 == 1 then 1 else 0)
  }

  function Xor(a: nat, b: nat): nat
  {
    if a == 0 then b
    else if b == 0 then a
    else 2 * Xor(a / 2, b / 2) + (if a % 2 != b % 2 then 1 else 0)
  }

  /** Bitwise complement of a 64-bit word (~w). */
  function Not64(w: nat): nat
    requires w < WORD
  {
    WORD - 1 - w
  }

  /** Two's complement negation of a 64-bit word (-w). */
  function Neg64(w: nat): nat
    requires w < WORD
  {
    (WORD - w) % WORD
  }

  predicate IsPow2(m: nat)
    decreases m
  {
    if m == 1 then true else m >= 2 && m % 2 == 0 && IsPow2(m / 2)
  }

  // ---------------------------------------------------------------------------
  // Arithmetic facts about powers of two

  lemma Pow2Add(a: nat, b: nat)
    ensures Pow2(a + b) == Pow2(a) * Pow2(b)
  {
    if a > 0 {
      Pow2Add(a - 1, b);
      assert Pow2(a + b) == 2 * Pow2(a - 1 + b);
    }
  }

  lemma Pow2Le(a: nat, b: nat)
    requires a <= b
    ensures Pow2(a) <= Pow2(b)
    ensures Pow2(b) % Pow2(a) == 0
    ensures Pow2(b) / Pow2(a) == Pow2(b - a)
  {
    Pow2Add(a, b - a);
    assert Pow2(b) == Pow2(b - a) * Pow2(a);
    MulDivMod(Pow2(b - a), Pow2(a));
    MulBounds(Pow2(a), Pow2(b - a));
  }

  lemma Pow2Lt(a: nat, b: nat)
    requires Pow2(a) < Pow2(b)
    ensures a < b
  {
    if b <= a { Pow2Le(b, a); }
  }

  lemma Pow2IsPow2(k: nat)
    ensures IsPow2(Pow2(k))
  {
    if k > 0 { Pow2IsPow2(k - 1); }
  }

  /** The exponent of a power of two. */
  function Exponent(m: nat): (k: nat)
    requires IsPow2(m)
    ensures Pow2(k) == m
    decreases m
  {
    if m == 1 then 0 else 1 + Exponent(m / 2)
  }

  /** Exponent inverts Pow2. */
  lemma {:induction false} ExponentOfPow2(k: nat)
    ensures IsPow2(Pow2(k)) && Exponent(Pow2(k)) == k
  {
    Pow2IsPow2(k);
    if k > 0 {
      var m, h := Pow2(k), Pow2(k - 1);
      assert m == 2 * h && m / 2 == h && m != 1;
      ExponentOfPow2(k - 1);
      assert Exponent(m) == 1 + Exponent(h);
    }
  }

  lemma Pow2Word()
    ensures Pow2(8) == 0x100 && Pow2(16) == 0x1_0000
    ensures Pow2(64) == WORD
    ensures Pow2(63) == WORD / 2
  {
    assert Pow2(4) == 0x10;
    Pow2Square(4, 0x10);
    Pow2Square(8, 0x100);
    Pow2Square(16, 0x1_0000);
    Pow2Square(32, 0x1_0000_0000);
    Pow2Half(64, WORD);
  }

  lemma Pow2Square(k: nat, v: nat)
    requires Pow2(k) == v
    ensures Pow2(2 * k) == v * v
  {
    Pow2Add(k, k);
  }

  lemma Pow2Half(k: nat, v: nat)
    requires k > 0 && Pow2(k) == v
    ensures Pow2(k - 1) == v / 2
  {
  }

  lemma MulDivMod(q: nat, m: nat)
    requires m > 0
    ensures (q * m) / m == q && (q * m) % m == 0
  {
    ModUnique(q * m, m, q, 0);
  }

  lemma MulBounds(m: int, d: int)
    requires m >= 0
    ensures d >= 1 ==> m * d >= m
    ensures d <= -1 ==> m * d <= -m
  {
    if d >= 1 {
      assert m * d == m * (d - 1) + m;
    } else if d <= -1 {
      assert m * d == m * (d + 1) - m;
    }
  }

  /** Division with remainder is unique. */
  lemma ModUnique(a: nat, m: nat, q: nat, r: nat)
    requires m > 0 && r < m && a == m * q + r
    ensures a / m == q && a % m == r
  {
    var q0: int, r0: int := a / m, a % m;
    assert m * q0 + r0 == m * q + r;
    assert m * (q0 - q) == r - r0;
    MulBounds(m, q0 - q);
  }

  lemma DivMonotone(a: nat, b: nat, d: nat)
    requires a <= b && d > 0
    ensures a / d <= b / d
  {
    var q := a / d;
    var q' := b / d;
    assert d * q <= a;
    assert b < d * (q' + 1);
    MulLess(d, q, q' + 1);
  }

  /** Stepping x down by one lowers x / d by one exactly when d divides x. */
  lemma DivStep(x: nat, d: nat)
    requires x > 0 && d > 0
    ensures x / d == (x - 1) / d + (if x % d == 0 then 1 else 0)
  {
    var q := (x - 1) / d;
    var r := (x - 1) % d;
    assert x - 1 == d * q + r;
    if r == d - 1 {
      ModUnique(x, d, q + 1, 0);
    } else {
      ModUnique(x, d, q, r + 1);
    }
  }

  /** x >> k steps up at x exactly when the lowest 1-bit of x is at k or above. */
  lemma ShiftStep(x: nat, k: nat)
    requires x > 0
    ensures x / Pow2(k) == (x - 1) / Pow2(k) + (if Rho(x) >= k then 1 else 0)
  {
    DivStep(x, Pow2(k));
    RhoDivides(x, k);
  }

  /** Adding inc to the 64-bit word at a field w bits wide (modulo 2^64, inc converted to
      unsigned) changes that field by inc and leaves the bits above it alone, as long as
      the new field value fits: no carry or borrow reaches the following fields. */
  lemma WordAddNoCarry(w: nat, word: nat, field: nat, above: nat, inc: int)
    requires w <= 64 && word == field + Pow2(w) * above && word < WORD
    requires 0 <= field + inc < Pow2(w)
    ensures (word + inc % WORD) % WORD == (field + inc) + Pow2(w) * above
  {
    Pow2Add(w, 64 - w);
    Pow2Word();
    NoCarryArith(Pow2(w), Pow2(64 - w), word, field, above, inc);
  }

  lemma NoCarryArith(p: nat, q: nat, word: nat, field: nat, above: nat, inc: int)
    requires p * q == WORD && p >= 1 && word == field + p * above && word < WORD
    requires 0 <= field + inc < p
    ensures (word + inc % WORD) % WORD == (field + inc) + p * above
  {
    MulLess(p, above, q);
    assert p * above <= p * q - p by {
      if above < q - 1 {
        MulLt(above, q - 1, p);
      }
      assert p * (q - 1) == p * q - p;
    }
    var x := field + inc + p * above;
    if inc >= 0 {
      ModUnique(inc, WORD, 0, inc);
      ModUnique(x, WORD, 0, x);
    } else {
      ModUnique(inc + WORD, WORD, 0, inc + WORD);
      ModUnique(x + WORD, WORD, 1, x);
    }
  }

  /** a * b, one addition at a time. */
  function Times(a: nat, b: int): int
  {
    if a == 0 then 0 else Times(a - 1, b) + b
  }

  lemma {:induction false} TimesIsMul(a: nat, b: int)
    ensures Times(a, b) == a * b
  {
    if a > 0 {
      TimesIsMul(a - 1, b);
      assert a * b == (a - 1) * b + b;
    }
  }

  /** x >> k on naturals, one bit at a time. */
  function Shr(x: nat, k: nat): nat
  {
    if k == 0 then x else Shr(x / 2, k - 1)
  }

  lemma {:induction false} ShrIsDiv(x: nat, k: nat)
    ensures Shr(x, k) == x / Pow2(k)
  {
    if k > 0 {
      ShrIsDiv(x / 2, k - 1);
      DivPow2Add(x, 1, k - 1);
      assert Pow2(1) == 2;
    }
  }

  /** x >> k steps up at x exactly when the lowest 1-bit of x is at k or above. */
  lemma ShrStep(x: nat, k: nat)
    requires x > 0
    ensures Shr(x, k) == Shr(x - 1, k) + (if Rho(x) >= k then 1 else 0)
  {
    ShrIsDiv(x, k);
    ShrIsDiv(x - 1, k);
    ShiftStep(x, k);
  }

  /** Shifting further gives less, and never more than x. */
  lemma ShrAntitone(x: nat, a: nat, b: nat)
    requires a <= b
    ensures Shr(x, b) <= Shr(x, a) <= x
  {
    ShrIsDiv(x, a);
    ShrIsDiv(x, b);
    ShiftAntitone(x, a, b);
    DivNonneg(x, Pow2(a));
  }

  lemma DivNonneg(x: nat, p: nat)
    requires p > 0
    ensures 0 <= x / p <= x
  {
    var y := x / p;
    assert p * y <= x < p * (y + 1);
    MulLess(p, 0, y + 1);
    MulBounds(y, p);
  }

  /** Shifting further gives less. */
  lemma ShiftAntitone(x: nat, a: nat, b: nat)
    requires a <= b
    ensures x / Pow2(b) <= x / Pow2(a)
  {
    DivShrinks(x, Pow2(a), Pow2(b - a));
    DivPow2Add(x, a, b - a);
  }

  lemma DivShrinks(x: nat, p: nat, d: nat)
    requires p > 0 && d > 0
    ensures (x / p) / d <= x / p
  {
    var y := x / p;
    assert p * y <= x < p * (y + 1);
    MulLess(p, 0, y + 1);
    var q := y / d;
    assert d * q <= y;
    MulBounds(q, d);
  }

  lemma MulLt(a: nat, b: nat, c: nat)
    requires a < b && c > 0
    ensures a * c < b * c
  {
    assert b * c == a * c + c * (b - a);
    MulBounds(c, b - a);
  }

  lemma MulLess(d: nat, x: nat, y: nat)
    requires d > 0 && d * x < d * y
    ensures x < y
  {
  }

  lemma MulNext(i: nat, w: nat)
    ensures (i + 1) * w == i * w + w
  {
  }

  lemma MulMono(i: nat, j: nat, w: nat)
    requires i <= j
    ensures i * w <= j * w
  {
  }

  lemma MulNonneg(a: nat, b: nat)
    ensures a * b >= 0
  {
  }

  lemma MulRearrange(a: nat, b: nat, c: nat)
    ensures a * b * c == a * (c * b)
  {
  }

  /** A value that fits in a word is its own residue. */
  lemma ModSmall(x: int)
    requires 0 <= x < WORD
    ensures x % WORD == x
  {
  }

  lemma HalveDivMod(a: nat, p: nat)
    requires p > 0
    ensures a % (2 * p) == a % 2 + 2 * ((a / 2) % p)
    ensures a / (2 * p) == (a / 2) / p
  {
    var h := a / 2;
    var q, r := h / p, h % p;
    assert h == p * q + r;
    assert a == 2 * h + a % 2;
    assert 2 * (p * q) == (2 * p) * q;
    assert a == (2 * p) * q + (2 * r + a % 2);
    ModUnique(a, 2 * p, q, 2 * r + a % 2);
  }

  /** Splitting a remainder by a power of two into its lowest bit and the rest. */
  lemma ModSplit(a: nat, k: nat)
    ensures a % Pow2(k + 1) == a % 2 + 2 * ((a / 2) % Pow2(k))
    ensures a / Pow2(k + 1) == (a / 2) / Pow2(k)
  {
    assert Pow2(k + 1) == 2 * Pow2(k);
    HalveDivMod(a, Pow2(k));
  }

  lemma DivPow2Add(a: nat, j: nat, k: nat)
    ensures a / Pow2(j + k) == (a / Pow2(j)) / Pow2(k)
    decreases j
  {
    if j > 0 {
      ModSplit(a, j + k - 1);
      ModSplit(a, j - 1);
      DivPow2Add(a / 2, j - 1, k);
    }
  }

  /** A multiple of 2^k is a multiple of every smaller power of two. */
  lemma ModPow2Weaken(a: nat, j: nat, k: nat)
    requires j <= k && a % Pow2(k) == 0
    ensures a % Pow2(j) == 0
  {
    Pow2Add(j, k - j);
    MulMultiple(a, Pow2(j), Pow2(k - j));
  }

  lemma MulMultiple(a: nat, p: nat, t: nat)
    requires p > 0 && t > 0 && a % (p * t) == 0
    ensures a % p == 0
  {
    var q := a / (p * t);
    assert a == (p * t) * q;
    assert a == p * (t * q);
    MulDivMod(t * q, p);
  }

  // ---------------------------------------------------------------------------
  // Bits

  lemma BitIsDiv(w: nat, i: nat)
    ensures Bit(w, i) == (w / Pow2(i)) % 2
  {
    if i > 0 {
      BitIsDiv(w / 2, i - 1);
      DivPow2Add(w, 1, i - 1);
    }
  }

  lemma BitsAbove(w: nat, k: nat, i: nat)
    requires w < Pow2(k) && k <= i
    ensures Bit(w, i) == 0
  {
    if i > 0 && k > 0 { BitsAbove(w / 2, k - 1, i - 1); }
    else if i > 0 { BitsAbove(w / 2, 0, i - 1); }
  }

  lemma BitOfMod(w: nat, k: nat, i: nat)
    requires i < k
    ensures Bit(w % Pow2(k), i) == Bit(w, i)
  {
    var lo, rest := w % Pow2(k), (w / 2) % Pow2(k - 1);
    assert lo == w % 2 + 2 * rest by { ModSplit(w, k - 1); }
    assert lo % 2 == w % 2 && lo / 2 == rest by { ModUnique(lo, 2, rest, w % 2); }
    if i > 0 {
      BitOfMod(w / 2, k - 1, i - 1);
    }
  }

  lemma BitOfShift(x: nat, p: nat, i: nat)
    ensures Bit(x * Pow2(p), i) == if i < p then 0 else Bit(x, i - p)
  {
    if p > 0 {
      assert x * Pow2(p) == 2 * (x * Pow2(p - 1));
      if i > 0 { BitOfShift(x, p - 1, i - 1); }
    }
  }

  lemma BitOfLowOnes(c: nat, i: nat)
    ensures Bit(Pow2(c) - 1, i) == if i < c then 1 else 0
  {
    if c == 0 {
      BitsAbove(0, 0, i);
    } else if i > 0 {
      assert (Pow2(c) - 1) / 2 == Pow2(c - 1) - 1;
      BitOfLowOnes(c - 1, i - 1);
    }
  }

  // ---------------------------------------------------------------------------
  // Bitwise operators

  lemma AndComm(a: nat, b: nat)
    ensures And(a, b) == And(b, a)
  {
    if a != 0 && b != 0 { AndComm(a / 2, b / 2); }
  }

  lemma AndSelf(a: nat)
    ensures And(a, a) == a
  {
    if a != 0 { AndSelf(a / 2); }
  }

  /** The w lowest bits of v, read off its binary expansion. */
  function LowBits(v: nat, w: nat): nat
  {
    if w == 0 then 0 else v % 2 + 2 * LowBits(v / 2, w - 1)
  }

  lemma LowBitsIsMod(v: nat, w: nat)
    ensures LowBits(v, w) == v % Pow2(w)
  {
    if w == 0 {
      ModUnique(v, 1, v, 0);
    } else {
      LowBitsIsMod(v / 2, w - 1);
      ModSplit(v, w - 1);
    }
  }

  /** Masking with 2^w - 1 keeps the w lowest bits. */
  lemma AndLowOnes(v: nat, w: nat)
    ensures And(v, Pow2(w) - 1) == v % Pow2(w)
  {
    AndLowBits(v, w);
    LowBitsIsMod(v, w);
  }

  lemma AndLowBits(v: nat, w: nat)
    ensures And(v, Pow2(w) - 1) == LowBits(v, w)
  {
    if w > 0 {
      assert Pow2(w) == 2 * Pow2(w - 1);
      AndOddStep(v, Pow2(w - 1), Pow2(w) - 1);
      AndLowBits(v / 2, w - 1);
    }
  }

  lemma AndOddStep(v: nat, p: nat, b: nat)
    requires p > 0 && b == 2 * p - 1
    ensures And(v, b) == 2 * And(v / 2, p - 1) + v % 2
  {
    assert b / 2 == p - 1 && b % 2 == 1 by { ModUnique(b, 2, p - 1, 1); }
    AndHalves(v, b);
  }

  /** A value and its complement within k bits share no 1-bit. */
  lemma AndComplement(x: nat, k: nat)
    requires x < Pow2(k)
    ensures And(x, Pow2(k) - 1 - x) == 0
  {
    if k > 0 && x != 0 {
      var p, h, y := Pow2(k - 1), x / 2, Pow2(k) - 1 - x;
      assert Pow2(k) == 2 * p;
      assert y / 2 == p - 1 - h && y % 2 != x % 2 by {
        ModUnique(y, 2, p - 1 - h, 1 - x % 2);
      }
      AndHalves(x, y);
      AndComplement(h, k - 1);
    }
  }

  /** And works on the binary expansion: lowest bits, then the halves. */
  lemma AndHalves(u: nat, v: nat)
    ensures And(u, v) == 2 * And(u / 2, v / 2) + (if u % 2 == 1 && v % 2 == 1 then 1 else 0)
  {
  }

  /** Setting the w lowest bits rounds a up to the last value of its block of 2^w. */
  lemma OrLowOnes(a: nat, w: nat)
    ensures Or(a, Pow2(w) - 1) == a - a % Pow2(w) + Pow2(w) - 1
  {
    OrLowBits(a, w);
    LowBitsIsMod(a, w);
  }

  lemma OrLowBits(a: nat, w: nat)
    ensures LowBits(a, w) <= a
    ensures Or(a, Pow2(w) - 1) == a - LowBits(a, w) + Pow2(w) - 1
  {
    LowBitsBound(a, w);
    if w > 0 {
      assert Pow2(w) == 2 * Pow2(w - 1);
      OrOddStep(a, Pow2(w - 1), Pow2(w) - 1);
      OrLowBits(a / 2, w - 1);
    }
  }

  lemma OrOddStep(a: nat, p: nat, b: nat)
    requires p > 0 && b == 2 * p - 1
    ensures Or(a, b) == 2 * Or(a / 2, p - 1) + 1
  {
    assert b / 2 == p - 1 && b % 2 == 1 by { ModUnique(b, 2, p - 1, 1); }
    OrHalves(a, b);
  }

  lemma LowBitsBound(a: nat, w: nat)
    ensures LowBits(a, w) <= a
  {
    if w > 0 { LowBitsBound(a / 2, w - 1); }
  }

  /** Or works on the binary expansion: lowest bits, then the halves. */
  lemma OrHalves(u: nat, v: nat)
    ensures Or(u, v) == 2 * Or(u / 2, v / 2) + (if u % 2 == 1 || v % 2 == 1 then 1 else 0)
  {
    if u == 0 || v == 0 {
      assert u / 2 == 0 || v / 2 == 0;
    }
  }

  // ---------------------------------------------------------------------------
  // Ruler functions (include/common.hpp:143-205)

  /** rho(w): index of the least significant 1-bit (count of trailing zeros). */
  function Rho(w: nat): (r: nat)
    requires w > 0
  {
    if w % 2 == 1 then 0 else 1 + Rho(w / 2)
  }

  /** Bit rho(w) of w is set and every bit below it is clear. */
  lemma RhoBits(w: nat)
    requires w > 0
    ensures Bit(w, Rho(w)) == 1
    ensures forall i: nat :: i < Rho(w) ==> Bit(w, i) == 0
  {
    if w % 2 == 0 {
      RhoBits(w / 2);
      forall i: nat | i < Rho(w) ensures Bit(w, i) == 0 {
        if i > 0 { assert Bit(w, i) == Bit(w / 2, i - 1); }
      }
    }
  }

  /** lambda(w): index of the most significant 1-bit. */
  function Lambda(w: nat): (r: nat)
    requires w > 0
    ensures Pow2(r) <= w < Pow2(r + 1)
  {
    if w == 1 then 0 else 1 + Lambda(w / 2)
  }

  /** No node up to n has its lowest 1-bit above the highest 1-bit of n. */
  lemma RhoBelowLambda(j: nat, n: nat)
    requires 1 <= j <= n
    ensures Rho(j) <= Lambda(n)
  {
    RhoPow2Le(j);
    Pow2Lt(Rho(j), Lambda(n) + 1);
  }

  /** Leading zeros of a nonzero 64-bit word (__builtin_clzll). */
  function Clz(w: nat): nat
    requires 0 < w < WORD
  {
    LambdaBelow64(w);
    63 - Lambda(w)
  }

  lemma LambdaBelow64(w: nat)
    requires 0 < w < WORD
    ensures Lambda(w) < 64
  {
    Pow2Word();
    if Lambda(w) >= 64 { Pow2Le(64, Lambda(w)); }
  }

  lemma RhoExamples()
    ensures Rho(1) == 0
    ensures Rho(Pow2(63)) == 63
  {
    RhoOfPow2(63);
  }

  lemma RhoOfPow2(k: nat)
    ensures Rho(Pow2(k)) == k
  {
    if k > 0 { RhoOfPow2(k - 1); }
  }

  /** The lowest 1-bit of x is bit e exactly when x leaves remainder 2^e modulo 2^(e+1). */
  lemma RhoChar(x: nat, e: nat)
    requires x > 0
    ensures Rho(x) == e <==> x % Pow2(e + 1) == Pow2(e)
    decreases x, 1
  {
    var r := (x / 2) % Pow2(e);
    assert x % Pow2(e + 1) == x % 2 + 2 * r by { ModSplit(x, e); }
    if e == 0 {
      assert r == 0 by { ModUnique(x / 2, 1, x / 2, 0); }
    } else if x % 2 == 0 {
      RhoCharEven(x, e);
    } else {
      assert Pow2(e) == 2 * Pow2(e - 1);
    }
  }

  lemma RhoCharEven(x: nat, e: nat)
    requires x > 0 && x % 2 == 0 && e > 0
    ensures Rho(x) == e <==> (x / 2) % Pow2(e) == Pow2(e - 1)
    decreases x, 0
  {
    RhoChar(x / 2, e - 1);
  }

  /** 2^k divides x exactly when its lowest 1-bit is at position k or above. */
  lemma RhoDivides(x: nat, k: nat)
    requires x > 0
    ensures x % Pow2(k) == 0 <==> k <= Rho(x)
  {
    if k > 0 {
      ModSplit(x, k - 1);
      if x % 2 == 0 { RhoDivides(x / 2, k - 1); }
    }
  }

  /** The lowest 1-bit of w is worth at most w. */
  lemma {:induction false} RhoPow2Le(w: nat)
    requires w > 0
    ensures Pow2(Rho(w)) <= w
  {
    if w % 2 == 0 { RhoPow2Le(w / 2); }
  }

  /** Adding d below the lowest 1-bit of j (j a multiple of 2^r, d < 2^r) leaves
      the lowest 1-bit of the sum where it is in d. */
  lemma {:induction false} RhoOfSum(j: nat, d: nat, r: nat)
    requires j == 0 || Rho(j) >= r
    requires 0 < d < Pow2(r)
    ensures Rho(j + d) == Rho(d)
  {
    assert r > 0;
    if d % 2 == 0 {
      assert (j + d) / 2 == j / 2 + d / 2 && (j + d) % 2 == 0;
      RhoOfSum(j / 2, d / 2, r - 1);
    } else {
      assert (j + d) % 2 == 1;
    }
  }

  /** Multiples of 2^k stay multiples of 2^k when 2^k is added or subtracted. */
  lemma {:induction false} RhoAddPow2(x: nat, k: nat)
    requires x == 0 || Rho(x) >= k
    ensures Rho(x + Pow2(k)) >= k
    ensures x > Pow2(k) ==> Rho(x - Pow2(k)) >= k
  {
    if k > 0 {
      RhoAddPow2(x / 2, k - 1);
      assert x % 2 == 0;
      assert (x + Pow2(k)) / 2 == x / 2 + Pow2(k - 1) && (x + Pow2(k)) % 2 == 0;
      if x > Pow2(k) {
        assert (x - Pow2(k)) / 2 == x / 2 - Pow2(k - 1) && (x - Pow2(k)) % 2 == 0;
      }
    }
  }

  /** Adding its lowest 1-bit to x carries it upward. */
  lemma {:induction false} RhoAddSelf(x: nat)
    requires x > 0
    ensures Rho(x + Pow2(Rho(x))) > Rho(x)
  {
    if x % 2 == 0 {
      RhoAddSelf(x / 2);
      assert x + Pow2(Rho(x)) == 2 * (x / 2 + Pow2(Rho(x / 2)));
    } else {
      assert (x + 1) % 2 == 0;
    }
  }

  /** clear_rho(w) = w & (w - 1): w with its lowest 1-bit cleared. */
  function ClearRho(w: nat): (r: nat)
    requires w > 0
    ensures r + Pow2(Rho(w)) == w
    ensures Popcount(r) + 1 == Popcount(w)
  {
    ClearRhoAnd(w);
    ClearRhoPopcount(w, And(w, w - 1));
    And(w, w - 1)
  }

  lemma ClearRhoAnd(w: nat)
    requires w > 0
    ensures And(w, w - 1) + Pow2(Rho(w)) == w
  {
    var h := w / 2;
    if w % 2 == 1 {
      if w > 1 {
        assert And(w, w - 1) == 2 * And(h, h) by {
          assert (w - 1) / 2 == h && (w - 1) % 2 == 0;
        }
        AndSelf(h);
      }
    } else {
      ClearRhoAnd(h);
      assert And(w, w - 1) == 2 * And(h, h - 1) by {
        assert (w - 1) / 2 == h - 1 && (w - 1) % 2 == 1;
      }
      assert Pow2(Rho(w)) == 2 * Pow2(Rho(h));
    }
  }

  lemma ClearRhoPopcount(w: nat, c: nat)
    requires w > 0 && c + Pow2(Rho(w)) == w
    ensures Popcount(c) + 1 == Popcount(w)
  {
    var h := w / 2;
    if w % 2 == 1 {
      assert c == 2 * h by { assert Pow2(Rho(w)) == 1; }
      PopcountDouble(h);
    } else {
      assert Pow2(Rho(w)) == 2 * Pow2(Rho(h));
      var c' := c / 2;
      assert c == 2 * c';
      ClearRhoPopcount(h, c');
      PopcountDouble(c');
      PopcountDouble(h);
    }
  }

  lemma PopcountDouble(c: nat)
    ensures Popcount(2 * c) == Popcount(c)
  {
    if c > 0 {
      assert (2 * c) / 2 == c && (2 * c) % 2 == 0;
    }
  }

  /** mask_rho(w) = w & -w = 2^rho(w). */
  function MaskRho(w: nat): (r: nat)
    requires 0 < w < WORD
    ensures r == Pow2(Rho(w))
  {
    Pow2Word();
    AndNeg(w, 64);
    And(w, Neg64(w))
  }

  lemma AndNeg(w: nat, k: nat)
    requires 0 < w < Pow2(k)
    ensures And(w, Pow2(k) - w) == Pow2(Rho(w))
  {
    assert k > 0;
    if w % 2 == 1 {
      AndNegOdd(w, k);
    } else {
      AndNeg(w / 2, k - 1);
      AndNegEven(w, k);
    }
  }

  lemma AndNegOdd(w: nat, k: nat)
    requires 0 < k && w < Pow2(k) && w % 2 == 1
    ensures And(w, Pow2(k) - w) == Pow2(Rho(w))
  {
    assert Pow2(k) == 2 * Pow2(k - 1);
    AndNegStep(w, Pow2(k - 1), Pow2(k) - w, Pow2(k - 1) - 1 - w / 2);
    AndComplement(w / 2, k - 1);
    assert Pow2(Rho(w)) == 1 by { assert Rho(w) == 0; }
  }

  lemma AndNegEven(w: nat, k: nat)
    requires 0 < k && 0 < w < Pow2(k) && w % 2 == 0
    requires And(w / 2, Pow2(k - 1) - w / 2) == Pow2(Rho(w / 2))
    ensures And(w, Pow2(k) - w) == Pow2(Rho(w))
  {
    var p, half := Pow2(k - 1), Pow2(Rho(w / 2));
    assert Pow2(k) == 2 * p;
    assert And(w, Pow2(k) - w) == 2 * half by {
      AndNegStep(w, p, Pow2(k) - w, p - w / 2);
    }
    assert Pow2(Rho(w)) == 2 * half by { assert Rho(w) == 1 + Rho(w / 2); }
  }

  /** One step of AndNeg on y = 2p - w, whose upper half is c. */
  lemma AndNegStep(w: nat, p: nat, y: nat, c: nat)
    requires w < 2 * p && y == 2 * p - w
    requires c == if w % 2 == 1 then p - 1 - w / 2 else p - w / 2
    ensures And(w, y) == 2 * And(w / 2, c) + w % 2
  {
    AndHalves(w, y);
    if w % 2 == 1 {
      assert y / 2 == c && y % 2 == 1 by { ModUnique(y, 2, c, 1); }
    } else {
      assert y / 2 == c && y % 2 == 0 by { ModUnique(y, 2, c, 0); }
    }
  }

  /** mask_lambda(w) = 2^63 >> clz(w) = 2^lambda(w). */
  function MaskLambda(w: nat): (r: nat)
    requires 0 < w < WORD
    ensures r == Pow2(Lambda(w))
  {
    LambdaBelow64(w);
    Pow2Word();
    Pow2Le(Clz(w), 63);
    (WORD / 2) / Pow2(Clz(w))
  }

  // ---------------------------------------------------------------------------
  // Masks (include/common.hpp:33-45, 207-220)

  /** BYTE_MASK[k] keeps the k lowest bytes of a word. */
  function ByteMask(k: nat): nat
    requires k <= 8
  {
    if k == 0 then 0x0
    else if k == 1 then 0xFF
    else if k == 2 then 0xFFFF
    else if k == 3 then 0xFF_FFFF
    else if k == 4 then 0xFFFF_FFFF
    else if k == 5 then 0xFF_FFFF_FFFF
    else if k == 6 then 0xFFFF_FFFF_FFFF
    else if k == 7 then 0xFF_FFFF_FFFF_FFFF
    else 0xFFFF_FFFF_FFFF_FFFF
  }

  lemma ByteMaskIsLowOnes(k: nat)
    requires k <= 8
    ensures ByteMask(k) == Pow2(8 * k) - 1
  {
    if k > 0 {
      ByteMaskIsLowOnes(k - 1);
      Pow2Byte(8 * (k - 1), ByteMask(k - 1) + 1);
    }
  }

  lemma Pow2Byte(k: nat, v: nat)
    requires Pow2(k) == v
    ensures Pow2(k + 8) == 0x100 * v
  {
    assert Pow2(8) == 0x100;
    Pow2Add(k, 8);
  }

  /** compact_bitmask(count, pos): (-(count != 0)) & ((UINT64_MAX >> (64 - count)) << pos),
      with the left shift truncated to 64 bits. */
  function CompactBitmask(count: nat, pos: nat): (r: nat)
    requires count <= 64 && pos < 64
    ensures r < WORD
    ensures forall i: nat :: i < 64 ==> (Bit(r, i) == 1 <==> pos <= i < pos + count)
    ensures count == 0 ==> r == 0
  {
    CompactBitmaskBits(count, pos);
    And(if count != 0 then WORD - 1 else 0, ((WORD - 1) / Pow2(64 - count) * Pow2(pos)) % WORD)
  }

  lemma CompactBitmaskBits(count: nat, pos: nat)
    requires count <= 64 && pos < 64
    ensures var r := And(if count != 0 then WORD - 1 else 0, ((WORD - 1) / Pow2(64 - count) * Pow2(pos)) % WORD);
      && r < WORD
      && (forall i: nat :: i < 64 ==> (Bit(r, i) == 1 <==> pos <= i < pos + count))
      && (count == 0 ==> r == 0)
  {
    if count != 0 {
      var x := ((Pow2(count) - 1) * Pow2(pos)) % WORD;
      CompactBitmaskValue(count, pos);
      forall i: nat | i < 64
        ensures Bit(x, i) == 1 <==> pos <= i < pos + count
      {
        ShiftedOnesBit(count, pos, i);
      }
    } else {
      forall i: nat | i < 64 ensures Bit(0, i) == 0 { BitsAbove(0, 0, i); }
    }
  }

  lemma CompactBitmaskValue(count: nat, pos: nat)
    requires 0 < count <= 64 && pos < 64
    ensures And(WORD - 1, ((WORD - 1) / Pow2(64 - count) * Pow2(pos)) % WORD)
         == ((Pow2(count) - 1) * Pow2(pos)) % WORD
  {
    OnesShiftedRight(count);
    var x := ((Pow2(count) - 1) * Pow2(pos)) % WORD;
    Pow2Word();
    AndComm(WORD - 1, x);
    AndLowOnes(x, 64);
    ModUnique(x, WORD, 0, x);
  }

  /** compact_bitmask(count, pos) for count > 0: count ones shifted to bit pos, truncated. */
  lemma CompactBitmaskIsOnes(count: nat, pos: nat)
    requires 0 < count <= 64 && pos < 64
    ensures CompactBitmask(count, pos) == ((Pow2(count) - 1) * Pow2(pos)) % WORD
  {
    CompactBitmaskValue(count, pos);
  }

  /** compact_bitmask(width, 0) is width ones. */
  lemma CompactLowOnes(width: nat)
    requires 0 < width <= 64
    ensures CompactBitmask(width, 0) == Pow2(width) - 1
  {
    var ones := Pow2(width) - 1;
    var one := Pow2(0);
    assert one == 1;
    assert ones * one == ones;
    CompactBitmaskIsOnes(width, 0);
    Pow2Le(width, 64);
    Pow2Word();
    ModUnique(ones, WORD, 0, ones);
  }

  lemma ShiftedOnesBit(count: nat, pos: nat, i: nat)
    requires i < 64
    ensures Bit(((Pow2(count) - 1) * Pow2(pos)) % WORD, i) == 1 <==> pos <= i < pos + count
  {
    var ones := Pow2(count) - 1;
    assert Bit((ones * Pow2(pos)) % WORD, i) == Bit(ones * Pow2(pos), i) by {
      Pow2Word();
      BitOfMod(ones * Pow2(pos), 64, i);
    }
    BitOfShift(ones, pos, i);
    if i >= pos { BitOfLowOnes(count, i - pos); }
  }

  /** UINT64_MAX >> (64 - c) is the mask of the c lowest bits. */
  lemma OnesShiftedRight(c: nat)
    requires c <= 64
    ensures (WORD - 1) / Pow2(64 - c) == Pow2(c) - 1
  {
    Pow2Word();
    Pow2Add(c, 64 - c);
    MulMinusOne(Pow2(c), Pow2(64 - c));
  }

  lemma MulMinusOne(o: nat, d: nat)
    requires o >= 1 && d >= 1
    ensures (o * d - 1) / d == o - 1
  {
    var a: int := o * d - 1;
    assert d * (o - 1) == o * d - d;
    MulBounds(d, o);
    ModUnique(a, d, o - 1, d - 1);
  }

  // ---------------------------------------------------------------------------
  // Rounding and logarithms (include/common.hpp:47-54, 232-241)

  /** mround(number, multiple) = ((number - 1) | (multiple - 1)) + 1: the smallest
      multiple of the power of two `multiple` that is at least `number`. */
  function Mround(number: nat, multiple: nat): (r: nat)
    requires number >= 1 && IsPow2(multiple)
    ensures r % multiple == 0
    ensures number <= r < number + multiple
  {
    RoundUpOr(number - 1, multiple);
    Or(number - 1, multiple - 1) + 1
  }

  lemma RoundUpOr(a: nat, m: nat)
    requires IsPow2(m)
    ensures (Or(a, m - 1) + 1) % m == 0
    ensures a < Or(a, m - 1) + 1 <= a + m
  {
    var k := Exponent(m);
    OrLowOnes(a, k);
    assert Or(a, m - 1) == a - a % m + m - 1;
    RoundUp(a, m);
  }

  /** a - a % m + m is the first multiple of m above a. */
  lemma RoundUp(a: nat, m: nat)
    requires m > 0
    ensures (a - a % m + m) % m == 0
    ensures a < a - a % m + m <= a + m
  {
    var q := a / m;
    assert a == m * q + a % m;
    assert m * (q + 1) == m * q + m;
    MulDivMod(q + 1, m);
  }

  /** log2(n): 1 below 2, otherwise the bit length of n ("log2 roundup"). */
  function Log2(n: nat): (r: nat)
    ensures r >= 1
    ensures n < Pow2(r)
    ensures n >= 1 ==> Pow2(r - 1) <= n
  {
    if n < 2 then 1 else 1 + Log2(n / 2)
  }

  // ---------------------------------------------------------------------------
  // Select (include/common.hpp:243-262): only its result is specified

  /** Number of 1-bits of x strictly below position p. */
  function RankBelow(x: nat, p: nat): nat
  {
    Popcount(x % Pow2(p))
  }

  lemma RankBelowStep(x: nat, p: nat)
    ensures RankBelow(x, p + 1) == x % 2 + RankBelow(x / 2, p)
  {
    ModSplit(x, p);
    var y := x % 2 + 2 * ((x / 2) % Pow2(p));
    assert y % 2 == x % 2 && y / 2 == (x / 2) % Pow2(p);
  }

  /** select64(x, k): position of the 1-bit of x that has exactly k 1-bits below it. */
  function Select64(x: nat, k: nat): (p: nat)
    requires k < Popcount(x)
    ensures Bit(x, p) == 1
    ensures RankBelow(x, p) == k
  {
    if x % 2 == 1 && k == 0 then
      assert RankBelow(x, 0) == 0;
      0
    else
      var q := Select64(x / 2, if x % 2 == 1 then k - 1 else k);
      RankBelowStep(x, q);
      1 + q
  }

  lemma SelectBelow64(x: nat, k: nat)
    requires x < WORD && k < Popcount(x)
    ensures Select64(x, k) < 64
  {
    Pow2Word();
    if Select64(x, k) >= 64 { BitsAbove(x, 64, Select64(x, k)); }
  }

  lemma RankBelowAll(x: nat, k: nat)
    requires x < Pow2(k)
    ensures RankBelow(x, k) == Popcount(x)
  {
    ModUnique(x, Pow2(k), 0, x);
  }

  lemma PopcountBound(x: nat, k: nat)
    requires x < Pow2(k)
    ensures Popcount(x) <= k
  {
    if k > 0 && x > 0 { PopcountBound(x / 2, k - 1); }
  }

  /** ~x has exactly the 1-bits that x lacks: popcount(~x) = 64 - popcount(x). */
  lemma PopcountNot(x: nat, k: nat)
    requires x < Pow2(k)
    ensures Popcount(Pow2(k) - 1 - x) == k - Popcount(x)
  {
    if k > 0 {
      assert (Pow2(k) - 1 - x) / 2 == Pow2(k - 1) - 1 - x / 2;
      assert (Pow2(k) - 1 - x) % 2 == 1 - x % 2;
      PopcountNot(x / 2, k - 1);
    }
  }

  lemma {:induction false} RankBelowNext(x: nat, p: nat)
    ensures RankBelow(x, p + 1) == RankBelow(x, p) + Bit(x, p)
  {
    RankBelowStep(x, p);
    if p > 0 {
      RankBelowStep(x, p - 1);
      RankBelowNext(x / 2, p - 1);
    }
  }

  lemma BitOfZero(i: nat)
    ensures Bit(0, i) == 0
  {
    if i > 0 { BitOfZero(i - 1); }
  }

  /** w | (1 << b) sets bit b and leaves every other bit. */
  lemma {:induction false} OrPow2(w: nat, b: nat)
    ensures Or(w, Pow2(b)) == if Bit(w, b) == 1 then w else w + Pow2(b)
  {
    if w == 0 {
      BitOfZero(b);
    } else if b == 0 {
      assert Or(w, 1) == 2 * (w / 2) + 1;
    } else {
      OrPow2(w / 2, b - 1);
      EvenStep(w, Pow2(b), Pow2(b - 1));
    }
  }

  /** One halving step of Or and Xor against the even number P = 2p. */
  lemma EvenStep(w: nat, bigP: nat, p: nat)
    requires p > 0 && bigP == 2 * p
    ensures Or(w, bigP) == 2 * Or(w / 2, p) + w % 2
    ensures Xor(w, bigP) == 2 * Xor(w / 2, p) + w % 2
  {
    assert bigP / 2 == p && bigP % 2 == 0 by { ModUnique(bigP, 2, p, 0); }
    OrHalves(w, bigP);
    XorHalves(w, bigP);
  }

  lemma XorHalves(u: nat, v: nat)
    ensures Xor(u, v) == 2 * Xor(u / 2, v / 2) + (if u % 2 != v % 2 then 1 else 0)
  {
    if u == 0 || v == 0 {
      assert u / 2 == 0 || v / 2 == 0;
    }
  }

  /** w ^ (1 << b) flips bit b and leaves every other bit. */
  lemma {:induction false} XorPow2(w: nat, b: nat)
    ensures Xor(w, Pow2(b)) == if Bit(w, b) == 1 then w - Pow2(b) else w + Pow2(b)
  {
    if w == 0 {
      BitOfZero(b);
    } else if b == 0 {
      assert Xor(w, 1) == 2 * (w / 2) + (if w % 2 == 0 then 1 else 0);
    } else {
      XorPow2(w / 2, b - 1);
      EvenStep(w, Pow2(b), Pow2(b - 1));
    }
  }

  /** w & ~(1 << b), for a k-bit word w and b < k, clears bit b and leaves every other bit. */
  lemma {:induction false} AndNotPow2(w: nat, b: nat, k: nat)
    requires w < Pow2(k) && b < k
    ensures Pow2(b) < Pow2(k)
    ensures And(w, Pow2(k) - 1 - Pow2(b)) == if Bit(w, b) == 1 then w - Pow2(b) else w
  {
    Pow2Le(b + 1, k);
    if w == 0 {
      BitOfZero(b);
    } else if b == 0 {
      AndNotPow2Zero(w, k);
    } else {
      AndNotPow2(w / 2, b - 1, k - 1);
      AndNotPow2Up(w, b, k);
    }
  }

  lemma AndNotPow2Zero(w: nat, k: nat)
    requires 0 < w < Pow2(k) && 0 < k
    ensures And(w, Pow2(k) - 1 - 1) == w - w % 2
  {
    AndNotLowest(w, Pow2(k - 1), Pow2(k) - 1 - 1);
    AndLowOnes(w / 2, k - 1);
    ModUnique(w / 2, Pow2(k - 1), 0, w / 2);
  }

  lemma AndNotPow2Up(w: nat, b: nat, k: nat)
    requires 0 < w < Pow2(k) && 0 < b < k && Pow2(b) < Pow2(k)
    requires Pow2(b - 1) < Pow2(k - 1)
    requires And(w / 2, Pow2(k - 1) - 1 - Pow2(b - 1))
      == if Bit(w / 2, b - 1) == 1 then w / 2 - Pow2(b - 1) else w / 2
    ensures And(w, Pow2(k) - 1 - Pow2(b)) == if Bit(w, b) == 1 then w - Pow2(b) else w
  {
    AndNotStep(w, Pow2(k - 1), Pow2(b - 1), Pow2(k) - 1 - Pow2(b));
  }

  lemma AndNotLowest(w: nat, p: nat, c: nat)
    requires p > 0 && c == 2 * p - 2
    ensures And(w, c) == 2 * And(w / 2, p - 1)
  {
    assert c / 2 == p - 1 && c % 2 == 0 by { ModUnique(c, 2, p - 1, 0); }
    AndHalves(w, c);
  }

  lemma AndNotStep(w: nat, p: nat, q: nat, c: nat)
    requires 2 * q < 2 * p && c == 2 * p - 1 - 2 * q
    ensures And(w, c) == 2 * And(w / 2, p - 1 - q) + w % 2
  {
    assert c / 2 == p - 1 - q && c % 2 == 1 by { ModUnique(c, 2, p - 1 - q, 1); }
    AndHalves(w, c);
  }

  /** Setting a clear bit adds one 1-bit. */
  lemma {:induction false} PopcountSetBit(w: nat, b: nat)
    requires Bit(w, b) == 0
    ensures Popcount(w + Pow2(b)) == Popcount(w) + 1
  {
    var x := w + Pow2(b);
    var pw := Popcount(w / 2);
    assert Popcount(w) == w % 2 + pw;
    if b == 0 {
      assert x / 2 == w / 2 && x % 2 == 1 by { ModUnique(x, 2, w / 2, 1); }
      assert Popcount(x) == 1 + pw;
    } else {
      var h := Pow2(b - 1);
      assert x == 2 * (w / 2 + h) + w % 2;
      assert x / 2 == w / 2 + h && x % 2 == w % 2 by { ModUnique(x, 2, w / 2 + h, w % 2); }
      PopcountSetBit(w / 2, b - 1);
      assert Popcount(x) == w % 2 + Popcount(w / 2 + h);
    }
  }

  lemma BitBinary(w: nat, i: nat)
    ensures Bit(w, i) == 0 || Bit(w, i) == 1
  {
    if i > 0 { BitBinary(w / 2, i - 1); }
  }

  /** Adding 2^b to a word whose bit b is clear sets bit b and leaves every other bit. */
  lemma {:induction false} BitAdd(w: nat, b: nat, j: nat)
    requires Bit(w, b) == 0
    ensures Bit(w + Pow2(b), j) == if j == b then 1 else Bit(w, j)
  {
    var x := w + Pow2(b);
    if b == 0 {
      assert x / 2 == w / 2 && x % 2 == 1 by { ModUnique(x, 2, w / 2, 1); }
    } else {
      var h := Pow2(b - 1);
      assert x / 2 == w / 2 + h && x % 2 == w % 2 by { ModUnique(x, 2, w / 2 + h, w % 2); }
      if j > 0 { BitAdd(w / 2, b - 1, j - 1); }
    }
  }

  /** Subtracting 2^b from a word whose bit b is set clears bit b and leaves every other bit. */
  lemma {:induction false} BitSub(w: nat, b: nat, j: nat)
    requires Bit(w, b) == 1
    ensures Pow2(b) <= w
    ensures Bit(w - Pow2(b), j) == if j == b then 0 else Bit(w, j)
  {
    if w < Pow2(b) { BitsAbove(w, b, b); }
    var x := w - Pow2(b);
    if b == 0 {
      assert x / 2 == w / 2 && x % 2 == 0 by { ModUnique(x, 2, w / 2, 0); }
    } else {
      var h := Pow2(b - 1);
      assert x / 2 == w / 2 - h && x % 2 == w % 2 by { ModUnique(x, 2, w / 2 - h, w % 2); }
      if j > 0 { BitSub(w / 2, b - 1, j - 1); } else { BitSub(w / 2, b - 1, b - 1); }
    }
  }

  /** Setting a clear bit below k keeps a k-bit word below 2^k. */
  lemma {:induction false} SetBitBelow(w: nat, b: nat, k: nat)
    requires w < Pow2(k) && b < k && Bit(w, b) == 0
    ensures w + Pow2(b) < Pow2(k)
  {
    if b == 0 {
      assert Pow2(k) == 2 * Pow2(k - 1);
    } else {
      SetBitBelow(w / 2, b - 1, k - 1);
    }
  }

  /** The complement of a k-bit word has exactly the bits the word lacks. */
  lemma {:induction false} BitNot(x: nat, k: nat, j: nat)
    requires x < Pow2(k) && j < k
    ensures Bit(Pow2(k) - 1 - x, j) == 1 - Bit(x, j)
  {
    var y := Pow2(k) - 1 - x;
    assert y / 2 == Pow2(k - 1) - 1 - x / 2 && y % 2 == 1 - x % 2 by {
      ModUnique(y, 2, Pow2(k - 1) - 1 - x / 2, 1 - x % 2);
    }
    if j > 0 { BitNot(x / 2, k - 1, j - 1); }
  }

  /** Two k-bit words with the same bits are equal. */
  lemma {:induction false} BitsDetermine(x: nat, y: nat, k: nat)
    requires x < Pow2(k) && y < Pow2(k)
    requires forall j: nat :: j < k ==> Bit(x, j) == Bit(y, j)
    ensures x == y
  {
    if k > 0 {
      assert x % 2 == y % 2 by { assert Bit(x, 0) == Bit(y, 0); }
      forall j: nat | j < k - 1 ensures Bit(x / 2, j) == Bit(y / 2, j) {
        assert Bit(x, j + 1) == Bit(y, j + 1);
      }
      BitsDetermine(x / 2, y / 2, k - 1);
    }
  }

  /** Increment flips the trailing ones: popcount(m+1) + rho(m+1) = popcount(m) + 1. */
  lemma PopcountSucc(m: nat)
    ensures Popcount(m + 1) + Rho(m + 1) == Popcount(m) + 1
  {
    if m % 2 == 1 {
      PopcountSucc(m / 2);
      assert (m + 1) / 2 == m / 2 + 1;
    }
  }
}
