/** abstract-machine/libs/fixmath: Q16.16 multiplication out of 16-bit products, and exactly when it is right. */
module Fix16Mul {
  import opened Bits

  const OVERFLOW: i32 := -W31

  /** A product in two words, worth hi * 2^32 + lo. */
  datatype Words = Words(hi: int, lo: u32)

  function Worth(p: Words): int { p.hi * W32 + p.lo }

  /** The middle sum of the four partial products, before it is cut to 32 bits. */
  function Middle(a: i32, b: i32): int {
    (a / W16) * (b % W16) + (b / W16) * (a % W16)
  }

  /** The first half of fix16_mul; `>> 16` on a signed word rounds down, and `& 0xFFFF` is the remainder. */
  function Product(a: i32, b: i32): Words {
    var ac := (a / W16) * (b / W16);
    var adcb := ToI32(Middle(a, b));
    var bd: nat := (a % W16) * (b % W16);
    var hi := ac + adcb / W16;
    var lo := ToU32(bd + ToU32(adcb * W16));
    Words(if lo < bd then hi + 1 else hi, lo)
  }

  /** The second half of fix16_mul: the overflow test and the rounding. */
  function Finish(p: Words): i32 {
    if p.hi / W31 != p.hi / 0x8000 then OVERFLOW
    else
      var b := Borrowed(p);
      ToI32(Or(ToU32(b.hi * W16), b.lo / W16) + 1)
  }

  /** A half less, and one more below zero, with the borrow. */
  function Borrowed(p: Words): Words {
    var lo := ToU32(p.lo - 0x8000);
    var lo2 := ToU32(lo - ToU32(p.hi) / W31);
    Words(if lo2 > p.lo then p.hi - 1 else p.hi, lo2)
  }

  /** fix16_mul */
  function Mul(a: i32, b: i32): i32 { Finish(Product(a, b)) }

  // ---- What it should compute ----

  /** x / 65536, rounded half away from zero. */
  function Rounded(x: int): int {
    if x >= 0 then (x + 0x8000) / W16 else -((-x + 0x8000) / W16)
  }

  /** A value that does not fit is replaced by the overflow value. */
  function Fit(x: int): i32 { if -W31 <= x < W31 then x else OVERFLOW }

  function MulSpec(a: i32, b: i32): i32 { Fit(Rounded(a * b)) }

  /**
   * When fix16_mul is right: the middle sum fits 32 bits, or, where it does not, the product is so large that the wrapped
   * words overflow as well.
   */
  predicate MulOk(a: i32, b: i32) {
    var m := Middle(a, b);
    -W31 <= m < W31 || (m >= W31 && a * b >= 3 * 0x8000 * W32) || (m < -W31 && a * b >= 0x8000 * W32 - 0x8000)
  }

  // ---- The words ----

  lemma Split(x: int, y: int, xh: int, xl: int, yh: int, yl: int)
    requires x == xh * W16 + xl && y == yh * W16 + yl
    ensures x * y == (xh * yh) * W32 + (xh * yl + yh * xl) * W16 + xl * yl
  {
    calc {
      x * y;
      (xh * W16 + xl) * y;
      (xh * W16) * y + xl * y;
      { assert (xh * W16) * y == W16 * (xh * y); }
      W16 * (xh * (yh * W16 + yl)) + xl * (yh * W16 + yl);
    }
    assert xh * (yh * W16 + yl) == W16 * (xh * yh) + xh * yl;
    assert xl * (yh * W16 + yl) == W16 * (xl * yh) + xl * yl;
  }

  lemma MulBound(x: int, y: int, m: int, n: int)
    requires -m <= x <= m && 0 <= y <= n
    ensures -(m * n) <= x * y <= m * n
  {
    MulMono(-m, x, y);
    MulMono(x, m, y);
    MulMono(y, n, m);
  }

  lemma PartsBound(a: i32, b: i32)
    ensures -W32 < Middle(a, b) < W32
    ensures 0 <= (a % W16) * (b % W16) <= 0xFFFF * 0xFFFF
  {
    MulBound(a / W16, b % W16, 0x8000, 0xFFFF);
    MulBound(b / W16, a % W16, 0x8000, 0xFFFF);
    MulBound(a % W16, b % W16, 0xFFFF, 0xFFFF);
    MulMono(0, a % W16, b % W16);
  }

  lemma CarryWords(ac: int, adcb: i32, bd: nat)
    requires bd <= 0xFFFF * 0xFFFF
    ensures var hi := ac + adcb / W16;
      var lo := ToU32(bd + ToU32(adcb * W16));
      (if lo < bd then hi + 1 else hi) * W32 + lo == ac * W32 + adcb * W16 + bd
  {
    assert ToU32(adcb * W16) == (adcb % W16) * W16;
  }

  /** The carry is right: the words are worth the product, up to what the middle sum has lost. */
  lemma ProductWorth(a: i32, b: i32)
    ensures Worth(Product(a, b)) == a * b - (Middle(a, b) - ToI32(Middle(a, b))) * W16
  {
    PartsBound(a, b);
    Split(a, b, a / W16, a % W16, b / W16, b % W16);
    CarryWords((a / W16) * (b / W16), ToI32(Middle(a, b)), (a % W16) * (b % W16));
  }

  // ---- The rounding ----

  lemma GlueWords(hi: int, lo: u32)
    ensures Or(ToU32(hi * W16), lo / W16) == (hi % W16) * W16 + lo / W16
  {
    Pow2Consts();
    OrDisjoint(hi % W16, lo / W16, 16);
    assert ToU32(hi * W16) == (hi % W16) * W16;
  }

  /** Subtracting a half and one more below zero, cutting, and adding one, is rounding half away from zero. */
  lemma FinishRounds(p: Words)
    requires -0x8000 <= p.hi < 0x8000
    ensures Finish(p) == Fit(Rounded(Worth(p)))
  {
    var b := Borrowed(p);
    BorrowWords(p);
    GlueWords(b.hi, b.lo);
    CutWords(b.hi, b.lo, Rounded(Worth(p)));
    assert p.hi / W31 == p.hi / 0x8000;
  }

  lemma BorrowWords(p: Words)
    requires -0x8000 <= p.hi < 0x8000
    ensures Borrowed(p).hi * W16 + Borrowed(p).lo / W16 + 1 == Rounded(Worth(p))
  {
    var neg: int := if p.hi < 0 then 1 else 0;
    assert ToU32(p.hi) / W31 == neg;
    var lo: int := ToU32(p.lo - 0x8000);
    var lo2 := ToU32(lo - neg);
    assert lo2 == if p.lo >= 0x8000 + neg then p.lo - 0x8000 - neg else p.lo - 0x8000 - neg + W32;
  }

  lemma CutWords(hi: int, lo: u32, r: int)
    requires -0x8001 <= hi < 0x8000 && r == hi * W16 + lo / W16 + 1 && -W31 <= r <= W31
    ensures ToI32((hi % W16) * W16 + lo / W16 + 1) == Fit(r)
  {
  }

  /** Out of range, the upper 17 bits are not all the same. */
  lemma FinishOverflows(p: Words)
    requires !(-0x8000 <= p.hi < 0x8000)
    ensures Finish(p) == OVERFLOW && Fit(Rounded(Worth(p))) == OVERFLOW
  {
  }

  lemma FinishIs(p: Words)
    ensures Finish(p) == Fit(Rounded(Worth(p)))
  {
    if -0x8000 <= p.hi < 0x8000 {
      FinishRounds(p);
    } else {
      FinishOverflows(p);
    }
  }

  // ---- When the middle sum is lost ----

  lemma MiddleHigh(a: i32, b: i32)
    requires Middle(a, b) >= W31
    ensures a / W16 > 0 && b / W16 > 0 && a / W16 + b / W16 >= 32769
  {
    MulBound(a / W16, b % W16, 0x8000, 0xFFFF);
    MulBound(b / W16, a % W16, 0x8000, 0xFFFF);
    HighPart(a / W16, b % W16);
    HighPart(b / W16, a % W16);
  }

  lemma HighPart(x: int, y: nat)
    requires -0x8000 <= x < 0x8000 && y < W16
    ensures x * y <= 0xFFFF * (if x > 0 then x else 0) <= 0xFFFF * 0x7FFF
  {
    if x > 0 {
      MulMono(y, 0xFFFF, x);
    } else {
      MulMono(x, 0, y);
    }
  }

  /** Two numbers with a large sum and a small product are far apart. */
  lemma FarApart(x: int, y: int)
    requires 0 < x < 0x8000 && 0 < y < 0x8000 && x + y >= 32769
    ensures x * y >= 98298 || (x == 2 && y == 0x7FFF) || (x == 0x7FFF && y == 2)
  {
    MulMono(32769 - x, y, x);
    if 3 <= x <= 32766 {
      MulMono(0, x - 3, 32766 - x);
      assert (x - 3) * (32766 - x) == 32769 * x - x * x - 98298;
    }
  }

  /** Where the middle sum is too large, the product does not fit, and it stays clear of the largest representable one. */
  lemma HighIsFar(a: i32, b: i32)
    requires Middle(a, b) >= W31
    ensures a * b >= 98302 * W32
    ensures a * b >= 3 * 0x8000 * W32 || a * b < 3 * 0x8000 * W32 - 0x8000
  {
    PartsBound(a, b);
    Split(a, b, a / W16, a % W16, b / W16, b % W16);
    MiddleHigh(a, b);
    FarApart(a / W16, b / W16);
    assert a * b >= (a / W16) * (b / W16) * W32 + W31 * W16;
    if (a / W16) * (b / W16) < 98298 {
      if a / W16 == 2 {
        MulMono(a, 0x2FFFF, b);
      } else {
        MulMono(b, 0x2FFFF, a);
      }
    }
  }

  lemma MiddleLow(a: i32, b: i32)
    requires Middle(a, b) < -W31
    ensures a * b > 0
  {
    LowPart(a / W16, b % W16);
    LowPart(b / W16, a % W16);
    MulMono(a, -1, -b);
  }

  lemma LowPart(x: int, y: nat)
    requires -0x8000 <= x < 0x8000 && y < W16
    ensures x * y >= (if x < 0 then -0x8000 * 0xFFFF else 0)
  {
    if x < 0 {
      MulMono(-0x8000, x, y);
    } else {
      MulMono(0, x, y);
    }
  }

  /** fix16_mul is right on exactly the operands that MulOk names: the product, rounded half away from zero, or overflow. */
  lemma MulExact(a: i32, b: i32)
    ensures Mul(a, b) == MulSpec(a, b) <==> MulOk(a, b)
  {
    PartsBound(a, b);
    ProductWorth(a, b);
    FinishIs(Product(a, b));
    if Middle(a, b) >= W31 {
      HighIsFar(a, b);
    } else if Middle(a, b) < -W31 {
      MiddleLow(a, b);
    }
    Wrapped(a * b, Middle(a, b), Worth(Product(a, b)));
  }

  /**
   * r is a * b / 65536 rounded to nearest, half away from zero: it has the sign of the product, and its magnitude is off by
   * half a unit at most. Where the nearest integer does not fit, r is the overflow value instead.
   */
  predicate IsProduct(a: int, b: int, r: int) {
    var x := a * b;
    if x >= 0 then
      if (2 * W31 - 1) * W16 <= 2 * x then r == -W31 else r >= 0 && (2 * r - 1) * W16 <= 2 * x < (2 * r + 1) * W16
    else
      if (2 * W31 + 1) * W16 <= -2 * x then r == -W31 else r <= 0 && (-2 * r - 1) * W16 <= -2 * x < (-2 * r + 1) * W16
  }

  /** fix16_mul is right, sign and overflow included, on exactly the operands that MulOk names. */
  lemma MulRight(a: i32, b: i32)
    ensures IsProduct(a, b, Mul(a, b)) <==> MulOk(a, b)
  {
    MulExact(a, b);
    FitNearest(a * b, Mul(a, b));
  }

  lemma FitNearest(x: int, r: int)
    ensures IsProduct(x, 1, r) <==> r == Fit(Rounded(x))
  {
  }

  lemma Wrapped(x: int, m: int, y: int)
    requires -W32 < m < W32 && y == x - (m - ToI32(m)) * W16
    requires m >= W31 ==> x >= 98302 * W32 && (x >= 3 * 0x8000 * W32 || x < 3 * 0x8000 * W32 - 0x8000)
    requires m < -W31 ==> x > 0
    ensures Fit(Rounded(y)) == Fit(Rounded(x)) <==>
      -W31 <= m < W31 || (m >= W31 && x >= 3 * 0x8000 * W32) || (m < -W31 && x >= 0x8000 * W32 - 0x8000)
  {
    if m >= W31 {
      assert y == x - W32 * W16;
    } else if m < -W31 {
      assert y == x + W32 * W16;
    }
  }

  /** Operands on which it is wrong: (-32768 + 65535/65536) * (-1/65536). */
  lemma MulFails()
    ensures MulSpec(-W31 + 0xFFFF, -1) == 32767 && Mul(-W31 + 0xFFFF, -1) == OVERFLOW
  {
    FailsOn(-W31 + 0xFFFF, -1);
  }

  lemma FailsOn(a: i32, b: i32)
    requires a == -W31 + 0xFFFF && b == -1
    ensures MulSpec(a, b) == 32767 && Mul(a, b) == OVERFLOW
  {
    MiddleThere(a, b);
    ProductWorth(a, b);
    FinishIs(Product(a, b));
    WorthTooMuch(a * b, Middle(a, b), Worth(Product(a, b)));
  }

  lemma MiddleThere(a: i32, b: i32)
    requires a == -W31 + 0xFFFF && b == -1
    ensures Middle(a, b) == -0x8001 * 0xFFFF && a * b == W31 - 0xFFFF
  {
    assert a / W16 == -0x8000 && a % W16 == 0xFFFF && b / W16 == -1 && b % W16 == 0xFFFF;
  }

  lemma WorthTooMuch(x: int, m: int, y: int)
    requires x == W31 - 0xFFFF && m == -0x8001 * 0xFFFF && y == x - (m - ToI32(m)) * W16
    ensures Fit(Rounded(x)) == 32767 && Fit(Rounded(y)) == OVERFLOW
  {
    assert ToI32(m) == m + W32;
    assert y == x + W32 * W16;
  }

  /** On operands below 2^30 in magnitude it is always right. */
  lemma MulSmall(a: i32, b: i32)
    requires -0x4000_0000 < a < 0x4000_0000 && -0x4000_0000 < b < 0x4000_0000
    ensures Mul(a, b) == MulSpec(a, b)
  {
    MulBound(a / W16, b % W16, 0x4000, 0xFFFF);
    MulBound(b / W16, a % W16, 0x4000, 0xFFFF);
    MulExact(a, b);
  }
}
