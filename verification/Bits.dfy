/** Unsigned machine words as integers: C's bit operators, and what they compute arithmetically. */
module Bits {

  const W16 := 0x1_0000
  const W31 := 0x8000_0000
  const W32 := 0x1_0000_0000
  const W63 := 0x8000_0000_0000_0000
  const W64 := 0x1_0000_0000_0000_0000

  type u32 = x: nat | x < W32
  type u64 = x: nat | x < W64
  type i32 = x: int | -W31 <= x < W31
  type i64 = x: int | -W63 <= x < W63

  function Pow2(k: nat): (p: nat)
    ensures p >= 1
  {
    if k == 0 then 1 else 2 * Pow2(k - 1)
  }

  /** The bit operators, one binary digit at a time. */
  function Or(x: nat, y: nat): nat {
    if x == 0 && y == 0 then 0
    else 2 * Or(x / 2, y / 2) + (if x % 2 == 1 || y % 2 == 1 then 1 else 0)
  }

  function And(x: nat, y: nat): nat {
    if x == 0 || y == 0 then 0
    else 2 * And(x / 2, y / 2) + (if x % 2 == 1 && y % 2 == 1 then 1 else 0)
  }

  function Xor(x: nat, y: nat): nat {
    if x == 0 && y == 0 then 0
    else 2 * Xor(x / 2, y / 2) + (if x % 2 != y % 2 then 1 else 0)
  }

  /** Shifts of a 32-bit word; C leaves a shift by 32 or more undefined. */
  function Shl32(x: u32, k: nat): u32
    requires k < 32
  {
    (x * Pow2(k)) % W32
  }

  /** `>>` on an unsigned word, and the bits it drops. */
  function Shr(x: nat, k: nat): (r: nat)
    ensures r <= x
  {
    if k == 0 then x else Shr(x / 2, k - 1)
  }

  function Low(x: nat, k: nat): (r: nat)
    ensures r <= x
  {
    if k == 0 then 0 else 2 * Low(x / 2, k - 1) + x % 2
  }

  /** Two's complement: the bit pattern of an integer in a 32- or 64-bit word, and the signed reading of one. */
  function ToU32(x: int): u32 { x % W32 }

  function ToU64(x: int): u64 { x % W64 }

  function ToI32(x: int): i32 { if x % W32 < W31 then x % W32 else x % W32 - W32 }

  function ToI64(x: int): i64 { if x % W64 < W63 then x % W64 else x % W64 - W64 }

  /** `>>` on a signed word copies the sign bit: it is division rounding down. */
  function AShr(x: int, k: nat): int
    decreases k
  {
    if k == 0 then x else AShr(x / 2, k - 1)
  }

  /** Number of binary digits. */
  function BitLen(x: nat): nat {
    if x == 0 then 0 else 1 + BitLen(x / 2)
  }

  /** __builtin_clz on a 32-bit word; undefined at 0. */
  function Clz32(x: u32): (r: nat)
    requires x != 0
    ensures r < 32
  {
    Pow2Consts();
    BitLenBound(x, 32);
    assert BitLen(x) >= 1;
    32 - BitLen(x)
  }

  /** __builtin_ctz; undefined at 0. */
  function Ctz(x: nat): nat
    requires x != 0
  {
    if x % 2 == 1 then 0 else 1 + Ctz(x / 2)
  }

  lemma MulMono(a: int, b: int, c: nat)
    requires a <= b
    ensures a * c <= b * c
  {
  }

  lemma {:induction false} Pow2Add(a: nat, b: nat)
    ensures Pow2(a + b) == Pow2(a) * Pow2(b)
  {
    if a != 0 {
      Pow2Add(a - 1, b);
      assert Pow2(a + b) == 2 * Pow2(a - 1 + b);
    }
  }

  lemma {:induction false} Pow2Mono(a: nat, b: nat)
    requires a <= b
    ensures Pow2(a) <= Pow2(b)
  {
    if a < b {
      Pow2Mono(a, b - 1);
    }
  }

  lemma Pow2Consts()
    ensures Pow2(16) == W16 && Pow2(31) == W31 && Pow2(32) == W32 && Pow2(63) == W63 && Pow2(64) == W64
  {
    assert Pow2(8) == 0x100;
    Pow2Add(8, 8);
    Pow2Add(16, 16);
    Pow2Add(32, 32);
    assert Pow2(32) == 2 * Pow2(31) && Pow2(64) == 2 * Pow2(63);
  }

  /** Euclidean division is determined by its defining equation. */
  lemma DivModUnique(n: nat, d: nat, q: int, r: nat)
    requires d > 0 && r < d
    requires n == q * d + r
    ensures q == n / d && r == n % d
  {
    var e := q - n / d;
    calc {
      e * d;
      q * d - (n / d) * d;
      { assert n == d * (n / d) + n % d; }
      n % d - r;
    }
    if e >= 1 {
      MulMono(1, e, d);
      assert false;
    } else if e <= -1 {
      MulMono(e, -1, d);
      assert false;
    }
  }

  lemma {:induction false} ShrLow(x: nat, k: nat)
    ensures x == Shr(x, k) * Pow2(k) + Low(x, k) && Low(x, k) < Pow2(k)
  {
    if k != 0 {
      ShrLow(x / 2, k - 1);
      Doubled(Shr(x / 2, k - 1), Pow2(k - 1));
    }
  }

  lemma Doubled(h: nat, p: nat)
    ensures h * (2 * p) == 2 * (h * p)
  {
  }

  lemma {:induction false} ShrSmall(x: nat, k: nat)
    requires x < Pow2(k)
    ensures Shr(x, k) == 0 && Low(x, k) == x
  {
    if k != 0 {
      ShrSmall(x / 2, k - 1);
    }
  }

  lemma {:induction false} ShrBound(x: nat, k: nat, m: nat)
    requires x < Pow2(k + m)
    ensures Shr(x, k) < Pow2(m)
  {
    if k != 0 {
      ShrBound(x / 2, k - 1, m);
    }
  }

  lemma {:induction false} AShrSign(x: int, k: nat)
    requires 0 <= x + Pow2(k) && x < Pow2(k)
    ensures AShr(x, k) == (if x < 0 then -1 else 0)
    decreases k
  {
    if k != 0 {
      AShrSign(x / 2, k - 1);
    }
  }

  lemma {:induction false} OrZero(x: nat)
    ensures Or(x, 0) == x
  {
    if x != 0 {
      OrZero(x / 2);
    }
  }

  /** `|` of disjoint bit ranges is a sum: this is how the code glues words. */
  lemma {:induction false} OrDisjoint(h: nat, l: nat, k: nat)
    requires l < Pow2(k)
    ensures Or(h * Pow2(k), l) == h * Pow2(k) + l
  {
    if k == 0 {
      OrZero(h);
    } else {
      var p := Pow2(k - 1);
      assert h * Pow2(k) == 2 * (h * p);
      OrDisjoint(h, l / 2, k - 1);
    }
  }

  lemma AndCons(a: nat, i: nat, b: nat, j: nat)
    requires i < 2 && j < 2
    ensures And(2 * a + i, 2 * b + j) == 2 * And(a, b) + (if i == 1 && j == 1 then 1 else 0)
  {
  }

  /** `& (2^k - 1)` keeps the low k bits. */
  lemma {:induction false} AndLow(x: nat, k: nat)
    ensures And(x, Pow2(k) - 1) == Low(x, k)
  {
    if k != 0 {
      AndCons(x / 2, x % 2, Pow2(k - 1) - 1, 1);
      AndLow(x / 2, k - 1);
    }
  }

  /** `& (2^n - 2^k)` clears the low k bits of an n-bit word. */
  lemma {:induction false} AndHigh(x: nat, n: nat, k: nat)
    requires k <= n && x < Pow2(n)
    ensures Pow2(k) <= Pow2(n)
    ensures And(x, Pow2(n) - Pow2(k)) == x - Low(x, k)
  {
    Pow2Mono(k, n);
    if k == 0 {
      AndLow(x, n);
      ShrSmall(x, n);
    } else {
      AndHighStep(x, Pow2(n - 1), Pow2(k - 1));
      AndHigh(x / 2, n - 1, k - 1);
    }
  }

  lemma AndHighStep(x: nat, a: nat, b: nat)
    requires b <= a
    ensures And(x, 2 * a - 2 * b) == 2 * And(x / 2, a - b)
  {
    AndCons(x / 2, x % 2, a - b, 0);
  }

  /** The test `(d & (d - 1)) == 0` recognises exactly the powers of two, and ctz is the exponent. */
  lemma {:induction false} PowerOfTwoTest(d: nat)
    requires d != 0
    ensures And(d, d - 1) == 0 <==> d == Pow2(Ctz(d))
  {
    if d % 2 == 1 {
      AndSelf(d / 2);
    } else {
      PowerOfTwoTest(d / 2);
      assert (d - 1) / 2 == d / 2 - 1;
    }
  }

  lemma {:induction false} AndSelf(x: nat)
    ensures And(x, x) == x
  {
    if x != 0 {
      AndSelf(x / 2);
    }
  }

  lemma {:induction false} CtzBound(d: nat, k: nat)
    requires 0 < d < Pow2(k)
    ensures Ctz(d) < k
  {
    if d % 2 == 0 {
      CtzBound(d / 2, k - 1);
    }
  }

  lemma {:induction false} BitLenBound(x: nat, k: nat)
    requires x < Pow2(k)
    ensures BitLen(x) <= k
  {
    if x != 0 {
      BitLenBound(x / 2, k - 1);
    }
  }

  lemma {:induction false} BitLenRange(x: nat)
    requires x != 0
    ensures 1 <= BitLen(x)
    ensures Pow2(BitLen(x) - 1) <= x < Pow2(BitLen(x))
  {
    if x != 1 {
      BitLenRange(x / 2);
    }
  }

  /** `^` with an all-ones k-bit word complements a k-bit word. */
  lemma {:induction false} XorOnes(x: nat, k: nat)
    requires x < Pow2(k)
    ensures Xor(x, Pow2(k) - 1) == Pow2(k) - 1 - x
  {
    if k != 0 {
      XorOnes(x / 2, k - 1);
      assert (Pow2(k) - 1) / 2 == Pow2(k - 1) - 1;
    }
  }

  lemma {:induction false} XorZero(x: nat)
    ensures Xor(x, 0) == x && Xor(0, x) == x
  {
    if x != 0 {
      XorZero(x / 2);
    }
  }

  /** The mask that fix16 code uses to look for large operands. */
  lemma HighBits(x: u32)
    ensures And(x, 0xFFF0_0000) != 0 <==> x >= 0x10_0000
  {
    Pow2Consts();
    assert Pow2(20) == 0x10_0000 by { Pow2Add(16, 4); }
    AndHigh(x, 32, 20);
    ShrLow(x, 20);
    if x < 0x10_0000 {
      ShrSmall(x, 20);
    }
  }
}
