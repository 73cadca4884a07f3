/** abstract-machine/libs/fixmath: Q16.16 division by repeated 32-bit divisions, and exactly when it is right. */
module Fix16Div {
  import opened Bits
  import opened Fix16Mul

  function Abs(x: i32): (r: u32)
    ensures r <= W31
  {
    var y: int := x;
    if y >= 0 then y else -y
  }

  // ---- What it should compute ----

  function Quotient(n: nat, d: nat): (q: nat)
    requires d > 0
  {
    n / d
  }

  /** |a| * 2^17 / |b|, rounded down: twice the magnitude of the quotient. */
  function Twice(a: i32, b: i32): nat
    requires b != 0
  {
    Quotient(Abs(a) * 0x20000, Abs(b))
  }

  /** Half of a doubled magnitude, rounded up at a half, with a sign; or the overflow value. */
  function Halved(twice: nat, negative: bool): i32 {
    var r := (twice + 1) / 2;
    Fit(if negative then -r else r)
  }

  /** a * 65536 / b rounded half away from zero, or the overflow value. */
  function DivSpec(a: i32, b: i32): i32
    requires b != 0
  {
    Halved(Twice(a, b), (a < 0) != (b < 0))
  }

  /** Halved is the rounding of a * 65536 / b to the nearest integer: no integer is closer, and ties go up. */
  lemma HalvedIsNearest(n: nat, d: nat, twice: nat)
    requires d > 0 && twice == n * 2 / d
    ensures var r := (twice + 1) / 2; (2 * r - 1) * d <= 2 * n < (2 * r + 1) * d
  {
    var r := (twice + 1) / 2;
    assert n * 2 == d * twice + (n * 2) % d;
    MulMono(2 * r - 1, twice, d);
    MulMono(twice + 1, 2 * r + 1, d);
  }

  // ---- What it computes ----

  /** The kick-start takes a low estimate of the quotient times the divider off the dividend. */
  function KickProduct(n: nat, d: nat): nat {
    Quotient(n, d / 0x20000 + 1) * d
  }

  /** What the kick-start drops when it subtracts a rounded-down multiple of a large divider. */
  function Dropped(a: i32, b: i32): nat
    requires b != 0
  {
    if Abs(b) < 0x10_0000 then 0 else KickProduct(Abs(a), Abs(b)) % 0x20000
  }

  function Dividend(a: i32, b: i32): (n: nat)
    requires b != 0
  {
    Abs(a) * 0x20000 + Dropped(a, b)
  }

  function DivResult(a: i32, b: i32): i32 {
    if b == 0 then OVERFLOW
    else Halved(Quotient(Dividend(a, b), Abs(b)), (a < 0) != (b < 0))
  }

  /** When fix16_div is right: what the kick-start drops does not carry, or the carry does not change the rounding. */
  predicate DivOk(a: i32, b: i32)
    requires b != 0
  {
    (Abs(a) * 0x20000) % Abs(b) + Dropped(a, b) < Abs(b) || Twice(a, b) % 2 == 1
  }

  lemma CarryIntoQuotient(n: nat, d: nat, e: nat)
    requires e < d
    ensures (n + e) / d == n / d + (if n % d + e < d then 0 else 1)
  {
    assert n == d * (n / d) + n % d;
    if n % d + e < d {
      DivModUnique(n + e, d, n / d, n % d + e);
    } else {
      DivModUnique(n + e, d, n / d + 1, n % d + e - d);
    }
  }

  lemma QuotientBound(n: nat, d: nat, k: nat)
    requires d > 0 && n < k * d
    ensures n / d < k
  {
    assert n == d * (n / d) + n % d;
    if n / d >= k {
      MulMono(k, n / d, d);
    }
  }

  lemma DroppedSmall(a: i32, b: i32)
    requires b != 0
    ensures Dropped(a, b) < Abs(b)
    ensures Abs(b) >= 0x10_0000 ==> Twice(a, b) <= 0x1000_0000
  {
    if Abs(b) >= 0x10_0000 {
      QuotientBound(Abs(a) * 0x20000, Abs(b), 0x1000_0001);
    }
  }

  /** fix16_div returns the rounded quotient on exactly the operands that DivOk names. */
  lemma DivExact(a: i32, b: i32)
    requires b != 0
    ensures DivResult(a, b) == DivSpec(a, b) <==> DivOk(a, b)
  {
    DroppedSmall(a, b);
    CarryIntoQuotient(Abs(a) * 0x20000, Abs(b), Dropped(a, b));
    if Dropped(a, b) != 0 {
      HalvedStep(Twice(a, b), (a < 0) != (b < 0));
    }
  }

  lemma HalvedStep(t: nat, negative: bool)
    requires t <= 0x1000_0000
    ensures Halved(t + 1, negative) == Halved(t, negative) <==> t % 2 == 1
  {
  }

  /**
   * r is a * 65536 / b rounded to nearest, half away from zero: it has the sign of the quotient, and its magnitude is off by
   * half a unit at most. Where the nearest integer does not fit, r is the overflow value instead.
   */
  predicate IsQuotient(a: int, b: int, r: int)
    requires b != 0
  {
    var x, y := if a < 0 then -a else a, if b < 0 then -b else b;
    if (a < 0) == (b < 0) then
      if (2 * W31 - 1) * y <= 2 * x * W16 then r == -W31
      else r >= 0 && (2 * r - 1) * y <= 2 * x * W16 < (2 * r + 1) * y
    else
      if (2 * W31 + 1) * y <= 2 * x * W16 then r == -W31
      else r <= 0 && (-2 * r - 1) * y <= 2 * x * W16 < (-2 * r + 1) * y
  }

  lemma QuotientUnique(a: int, b: int, r: int, s: int)
    requires b != 0 && IsQuotient(a, b, r) && IsQuotient(a, b, s)
    ensures r == s
  {
    var y := if b < 0 then -b else b;
    if r < s {
      MulMono(if (a < 0) == (b < 0) then 2 * r + 1 else -2 * s + 1, if (a < 0) == (b < 0) then 2 * s - 1 else -2 * r - 1, y);
    } else if s < r {
      MulMono(if (a < 0) == (b < 0) then 2 * s + 1 else -2 * r + 1, if (a < 0) == (b < 0) then 2 * r - 1 else -2 * s - 1, y);
    }
  }

  /** What it should compute is the quotient. */
  lemma SpecIsQuotient(a: i32, b: i32)
    requires b != 0
    ensures IsQuotient(a, b, DivSpec(a, b))
  {
    var y, t := Abs(b), Twice(a, b);
    HalvedIsNearest(Abs(a) * W16, y, t);
    NearestFits(Abs(a) * W16, y, (t + 1) / 2, (a < 0) != (b < 0));
  }

  lemma NearestFits(n: nat, y: nat, q: nat, negative: bool)
    requires y > 0 && (2 * q - 1) * y <= 2 * n < (2 * q + 1) * y
    ensures var k := if negative then 2 * W31 + 1 else 2 * W31 - 1; k * y <= 2 * n <==> 2 * q + 1 > k
  {
    var k := if negative then 2 * W31 + 1 else 2 * W31 - 1;
    if 2 * q + 1 > k {
      MulMono(k, 2 * q - 1, y);
    } else {
      MulMono(2 * q + 1, k, y);
    }
  }

  /** fix16_div is right, sign and overflow included, on exactly the operands that DivOk names. */
  lemma DivRight(a: i32, b: i32)
    requires b != 0
    ensures IsQuotient(a, b, DivResult(a, b)) <==> DivOk(a, b)
  {
    DivExact(a, b);
    SpecIsQuotient(a, b);
    if IsQuotient(a, b, DivResult(a, b)) {
      QuotientUnique(a, b, DivResult(a, b), DivSpec(a, b));
    }
  }

  /** A divisor below 2^20 in magnitude is always divided by exactly. */
  lemma DivSmall(a: i32, b: i32)
    requires b != 0 && Abs(b) < 0x10_0000
    ensures DivResult(a, b) == DivSpec(a, b)
  {
    DivExact(a, b);
  }

  /** Operands on which it is one unit too large: a and b are 985 and 1049693 raw units. */
  lemma DivFails()
    ensures DivSpec(985, 1049693) == 61 && DivResult(985, 1049693) == 62
  {
    var a, b: i32 := 985, 1049693;
    assert Twice(a, b) == 122;
    assert Dropped(a, b) == 121753;
    assert Quotient(Dividend(a, b), Abs(b)) == 123;
  }

  // ---- The algorithm ----

  /** In the loop, the quotient so far and what is left of the dividend make up the same total. */
  ghost predicate Makes(quotient: nat, divider: nat, left: nat, total: nat) {
    quotient * divider + left == total
  }

  lemma CancelFactor(x: nat, y: nat, f: nat)
    requires y > 0 && f > 0
    ensures y * f > 0 && (x * f) / (y * f) == x / y
  {
    MulMono(1, y, f);
    var q, r := x / y, x % y;
    assert x == y * q + r;
    assert (y * q + r) * f == q * (y * f) + r * f;
    MulMono(r, y - 1, f);
    DivModUnique(x * f, y * f, q, r * f);
  }

  /** The kick-start, for dividers from 2^20 on. */
  method KickStart(n: u32, divider: u32) returns (quotient: u32, remainder: u32)
    requires n <= W31 && 0 < divider <= W31
    ensures divider < 0x10_0000 ==> quotient == 0
    ensures Makes(quotient, divider, remainder * 0x20000,
                  n * 0x20000 + if divider < 0x10_0000 then 0 else KickProduct(n, divider) % 0x20000)
  {
    remainder, quotient := n, 0;
    HighBits(divider);
    if And(divider, 0xFFF0_0000) != 0 {
      quotient, remainder := Kick(n, divider);
    }
  }

  method Kick(n: u32, divider: u32) returns (quotient: u32, remainder: u32)
    requires n <= W31 && 0 < divider <= W31
    ensures Makes(quotient, divider, remainder * 0x20000, n * 0x20000 + KickProduct(n, divider) % 0x20000)
  {
    var shiftedDiv := divider / 0x20000 + 1;
    quotient := KickQuotient(n, shiftedDiv);
    KickFits(n, divider, shiftedDiv, quotient);
    var product := quotient * divider;
    KickRest(n, quotient, divider, product);
    remainder := n - product / 0x20000;
  }

  method KickQuotient(n: u32, d: nat) returns (q: u32)
    requires d > 0
    ensures q == Quotient(n, d) && q * d <= n
  {
    q := n / d;
  }

  lemma KickRest(n: nat, q: nat, d: nat, x: nat)
    requires x == q * d && x / 0x20000 <= n
    ensures Makes(q, d, (n - x / 0x20000) * 0x20000, n * 0x20000 + x % 0x20000)
  {
  }

  lemma KickFits(n: u32, d: u32, s: nat, q: nat)
    requires s == d / 0x20000 + 1 && q * s <= n
    ensures q <= n && 0 <= q * d && q * d / 0x20000 <= n
  {
    MulMono(1, s, q);
    MulMono(d, s * 0x20000, q);
    assert q * (s * 0x20000) == (q * s) * 0x20000;
  }

  /** Takes factors of 16 out of the divider. */
  method Strip(divider0: u32) returns (divider: u32, bitPos: int)
    requires divider0 > 0
    ensures 0 <= bitPos <= 17 && divider > 0 && divider <= divider0
    ensures divider0 == divider * Pow2(17 - bitPos)
  {
    divider, bitPos := divider0, 17;
    assert Pow2(0) == 1;
    while And(divider, 0xF) == 0 && bitPos >= 4
      invariant 0 <= bitPos <= 17 && 0 < divider <= divider0
      invariant divider0 == divider * Pow2(17 - bitPos)
      decreases bitPos
    {
      LowBits(divider);
      FactorOut(divider / 16, Pow2(17 - bitPos), 17 - bitPos);
      divider := divider / 16;
      bitPos := bitPos - 4;
    }
  }

  lemma LowBits(x: nat)
    ensures And(x, 0xF) == 0 <==> x % 16 == 0
  {
    assert Pow2(4) == 16;
    AndLow(x, 4);
    ShrLow(x, 4);
    DivModUnique(x, 16, Shr(x, 4), Low(x, 4));
  }

  lemma FactorOut(d: nat, p: nat, k: nat)
    requires p == Pow2(k)
    ensures (16 * d) * p == d * Pow2(k + 4)
  {
    Pow2Add(k, 4);
    assert Pow2(4) == 16;
    assert (16 * d) * p == d * (16 * p);
  }

  /** A shift by at most the number of leading zeros loses nothing. */
  lemma ShiftFits(x: u32, k: nat)
    requires x != 0 && k <= Clz32(x)
    ensures x * Pow2(k) < W32
  {
    BitLenRange(x);
    ProductFits(x, BitLen(x), k);
  }

  lemma ProductFits(x: nat, l: nat, k: nat)
    requires x < Pow2(l) && l + k <= 32
    ensures x * Pow2(k) < W32
  {
    PowersFit(l, k);
    BelowProduct(x, Pow2(l), Pow2(k));
  }

  lemma BelowProduct(x: nat, m: nat, p: nat)
    requires x < m && p > 0
    ensures x * p < m * p
  {
  }

  lemma PowersFit(l: nat, k: nat)
    requires l + k <= 32
    ensures Pow2(l) * Pow2(k) <= W32
  {
    Pow2Add(l, k);
    Pow2Mono(l + k, 32);
    Pow2Consts();
  }

  lemma ProductTooLarge(x: nat, l: nat, k: nat)
    requires x >= Pow2(l) && l + k == 32
    ensures x * Pow2(k) >= W32
  {
    MulMono(Pow2(l), x, Pow2(k));
    Pow2Add(l, k);
    Pow2Consts();
  }

  /** The overflow test finds out whether the quotient digit can be shifted back into place. */
  lemma DigitTest(div: u32, bitPos: nat)
    requires bitPos <= 17
    ensures And(div, W32 - 1 - Shr(W32 - 1, bitPos)) == 0 <==> div * Pow2(bitPos) < W32
  {
    DigitMask(div, bitPos);
    if div < Pow2(32 - bitPos) {
      ProductFits(div, 32 - bitPos, bitPos);
    } else {
      ProductTooLarge(div, 32 - bitPos, bitPos);
    }
  }

  lemma DigitMask(div: u32, bitPos: nat)
    requires bitPos <= 17
    ensures And(div, W32 - 1 - Shr(W32 - 1, bitPos)) == 0 <==> div < Pow2(32 - bitPos)
  {
    HighDigits(div, 32 - bitPos);
    OnesShifted(bitPos);
  }

  lemma HighDigits(x: u32, k: nat)
    requires k <= 32
    ensures Pow2(k) <= W32 && (And(x, W32 - Pow2(k)) == 0 <==> x < Pow2(k))
  {
    Pow2Consts();
    AndHigh(x, 32, k);
    ShrLow(x, k);
    if x < Pow2(k) {
      ShrSmall(x, k);
    }
  }

  lemma OnesShifted(k: nat)
    requires k <= 32
    ensures Shr(W32 - 1, k) == Pow2(32 - k) - 1
  {
    Pow2Consts();
    OnesShift(32, k);
  }

  lemma {:induction false} OnesShift(n: nat, k: nat)
    requires k <= n
    ensures Shr(Pow2(n) - 1, k) == Pow2(n - k) - 1
  {
    if k > 0 {
      OnesShift(n - 1, k - 1);
      assert (Pow2(n) - 1) / 2 == Pow2(n - 1) - 1;
    }
  }

  lemma DigitStep(q: nat, d: nat, left: nat, total: nat, shifted: nat, p: nat, digit: nat, rem: nat)
    requires Makes(q, d, left, total) && left == shifted * p && shifted == digit * d + rem
    ensures Makes(q + digit * p, d, rem * p, total)
  {
    assert (digit * d + rem) * p == (digit * p) * d + rem * p;
  }

  lemma FitsBelow(q: nat, d: nat, left: nat, total: nat)
    requires Makes(q, d, left, total) && d > 0
    ensures q >= W32 ==> total >= W32 * d
  {
    if q >= W32 {
      MulMono(W32, q, d);
    }
  }

  /** When the first digit fits, so does the quotient. */
  lemma FirstFits(d: nat, total: nat, p: nat, m: nat, digit: nat, rem: nat)
    requires Makes(digit * p, d, rem * p, total) && digit < m && m * p == W32 && rem < d && p > 0
    ensures total < W32 * d
  {
    var y := d * p;
    assert digit * p * d == digit * y;
    assert (rem + 1) * p == rem * p + p;
    MulMono(rem + 1, d, p);
    MulMono(digit + 1, m, y);
    assert m * y == W32 * d;
    assert (digit + 1) * y == digit * y + y;
  }

  /** What remains of the dividend: the remainder at its bit position, or, behind the last one, what the last shift doubled. */
  ghost predicate Left(remainder: nat, bitPos: int, divider: nat, left: nat) {
    if bitPos >= 0 then left == remainder * Pow2(bitPos) else bitPos == -1 && remainder == 2 * left && left < divider
  }

  lemma Reassoc(x: nat, y: nat, z: nat)
    ensures x * y >= 0 && (x * y) * z == x * (y * z)
  {
  }

  /** Shifts the remainder as far as it fits the word and the bit position allows. */
  method ShiftUp(remainder0: u32, bitPos0: nat) returns (remainder: u32, bitPos: nat)
    requires 0 < remainder0 && bitPos0 <= 17
    ensures bitPos <= bitPos0 && remainder0 * Pow2(bitPos0) == remainder * Pow2(bitPos)
  {
    var shift := Clz32(remainder0);
    if shift > bitPos0 {
      shift := bitPos0;
    }
    ShiftFits(remainder0, shift);
    Pow2Add(shift, bitPos0 - shift);
    Reassoc(remainder0, Pow2(shift), Pow2(bitPos0 - shift));
    ghost var x := remainder0 * Pow2(shift);
    remainder := Shl32(remainder0, shift);
    assert remainder == x;
    bitPos := bitPos0 - shift;
  }

  /** One round of the division loop. */
  method Digit(remainder0: u32, divider: u32, quotient0: u32, bitPos0: nat, ghost left0: nat, ghost total: nat)
      returns (overflow: bool, remainder: u32, quotient: u32, bitPos: int, ghost left: nat)
    requires 0 < remainder0 && 0 < divider <= W31 && bitPos0 <= 17
    requires Makes(quotient0, divider, left0, total) && Left(remainder0, bitPos0, divider, left0)
    requires quotient0 == 0 || total < W32 * divider
    ensures -1 <= bitPos < bitPos0
    ensures overflow ==> total >= W32 * divider
    ensures !overflow ==> Makes(quotient, divider, left, total) && Left(remainder, bitPos, divider, left) && total < W32 * divider
  {
    remainder, bitPos := ShiftUp(remainder0, bitPos0);
    var div;
    div, remainder, left := Divide(remainder, divider, quotient0, bitPos, left0, total);
    overflow, quotient := AddDigit(quotient0, div, bitPos, divider, left, total);
    if !overflow && quotient0 == 0 {
      DigitBound(div, bitPos);
      FirstFits(divider, total, Pow2(bitPos), Pow2(32 - bitPos), div, remainder);
    }
    Doubled(remainder, bitPos, divider, left);
    remainder := 2 * remainder;
    bitPos := bitPos - 1;
  }

  lemma Doubled(rem: nat, bitPos: nat, d: nat, left: nat)
    requires left == rem * Pow2(bitPos) && rem < d
    ensures Left(2 * rem, bitPos - 1, d, left)
  {
    if bitPos > 0 {
      assert rem * (2 * Pow2(bitPos - 1)) == (2 * rem) * Pow2(bitPos - 1);
    }
  }

  /** The 32-bit division of a round. */
  method Divide(shifted: u32, divider: u32, ghost quotient: nat, ghost bitPos: nat, ghost left0: nat, ghost total: nat)
      returns (div: u32, remainder: u32, ghost left: nat)
    requires divider > 0 && Makes(quotient, divider, left0, total) && left0 == shifted * Pow2(bitPos)
    ensures remainder < divider && left == remainder * Pow2(bitPos)
    ensures div * Pow2(bitPos) >= 0 && Makes(quotient + div * Pow2(bitPos), divider, left, total)
  {
    div, remainder := DivMod(shifted, divider);
    Reassoc(remainder, Pow2(bitPos), 1);
    Reassoc(div, Pow2(bitPos), 1);
    left := remainder * Pow2(bitPos);
    DigitStep(quotient, divider, left0, total, shifted, Pow2(bitPos), div, remainder);
  }

  method DivMod(x: u32, y: u32) returns (q: u32, r: u32)
    requires y > 0
    ensures x == q * y + r && r < y
  {
    q, r := x / y, x % y;
  }

  /** quotient += div << bit_pos, and the overflow test. */
  method AddDigit(quotient0: u32, div: u32, bitPos: nat, ghost d: nat, ghost left: nat, ghost total: nat)
      returns (overflow: bool, quotient: u32)
    requires bitPos <= 17 && d > 0 && div * Pow2(bitPos) >= 0 && Makes(quotient0 + div * Pow2(bitPos), d, left, total)
    requires quotient0 == 0 || total < W32 * d
    ensures overflow <==> div * Pow2(bitPos) >= W32
    ensures overflow ==> total >= W32 * d
    ensures !overflow ==> quotient == quotient0 + div * Pow2(bitPos)
  {
    DigitTest(div, bitPos);
    FitsBelow(quotient0 + div * Pow2(bitPos), d, left, total);
    overflow := And(div, W32 - 1 - Shr(W32 - 1, bitPos)) != 0;
    quotient := AddShifted(quotient0, div, bitPos);
  }

  method AddShifted(quotient0: u32, div: u32, bitPos: nat) returns (quotient: u32)
    requires bitPos <= 17
    ensures 0 <= quotient0 + div * Pow2(bitPos) < W32 ==> quotient == quotient0 + div * Pow2(bitPos)
  {
    Reassoc(div, Pow2(bitPos), 1);
    ghost var x := div * Pow2(bitPos);
    quotient := ToU32(quotient0 + Shl32(div, bitPos));
  }

  lemma DigitBound(div: nat, bitPos: nat)
    requires bitPos <= 32 && div * Pow2(bitPos) < W32
    ensures div < Pow2(32 - bitPos) && Pow2(32 - bitPos) * Pow2(bitPos) == W32
  {
    Pow2Add(32 - bitPos, bitPos);
    Pow2Consts();
    if div >= Pow2(32 - bitPos) {
      MulMono(Pow2(32 - bitPos), div, Pow2(bitPos));
    }
  }

  /** The division loop. */
  method Digits(remainder0: u32, divider: u32, quotient0: u32, bitPos0: nat, ghost left0: nat, ghost total: nat)
      returns (overflow: bool, quotient: u32)
    requires 0 < divider <= W31 && bitPos0 <= 17
    requires left0 == remainder0 * Pow2(bitPos0) && Makes(quotient0, divider, left0, total)
    requires quotient0 == 0 || total < W32 * divider
    ensures overflow <==> total >= W32 * divider
    ensures !overflow ==> quotient == Quotient(total, divider)
  {
    var remainder, bitPos: int := remainder0, bitPos0;
    ghost var left: nat := left0;
    overflow, quotient := false, quotient0;
    while remainder != 0 && bitPos >= 0
      invariant -1 <= bitPos <= 17
      invariant Makes(quotient, divider, left, total) && Left(remainder, bitPos, divider, left)
      invariant quotient == 0 || total < W32 * divider
      decreases bitPos
    {
      overflow, remainder, quotient, bitPos, left := Digit(remainder, divider, quotient, bitPos, left, total);
      if overflow {
        return;
      }
    }
    Done(quotient, divider, left, total);
  }

  lemma Done(q: nat, d: nat, left: nat, total: nat)
    requires Makes(q, d, left, total) && left < d && q < W32
    ensures q == Quotient(total, d) && total < W32 * d
  {
    DivModUnique(total, d, q, left);
    MulMono(q + 1, W32, d);
  }

  /** Taking a common factor out of dividend and divider changes neither the quotient nor whether it fits. */
  lemma StripTotal(n: nat, q: nat, d: nat, rem: nat, dv: nat, bitPos: int) returns (left: nat, total: nat)
    requires Makes(q, d, rem * 0x20000, n) && 0 <= bitPos <= 17 && dv > 0 && d == dv * Pow2(17 - bitPos)
    ensures left == rem * Pow2(bitPos) && Makes(q, dv, left, total)
    ensures d > 0 && Quotient(n, d) == Quotient(total, dv)
    ensures n < W32 * d <==> total < W32 * dv
  {
    var f := Pow2(17 - bitPos);
    assert f * Pow2(bitPos) == 0x20000 by {
      Pow2Add(17 - bitPos, bitPos);
      Pow2Seventeen();
    }
    Distribute(q, dv, rem, Pow2(bitPos), f);
    Reassoc(q, dv, 1);
    Reassoc(rem, Pow2(bitPos), 1);
    left := rem * Pow2(bitPos);
    total := q * dv + left;
    CancelFactor(total, dv, f);
    CancelBound(total, dv, f);
  }

  lemma CancelBound(x: nat, y: nat, f: nat)
    requires f > 0
    ensures x * f < W32 * (y * f) <==> x < W32 * y
  {
    assert W32 * (y * f) == (W32 * y) * f;
    if x < W32 * y {
      MulMono(x + 1, W32 * y, f);
    } else {
      MulMono(W32 * y, x, f);
    }
  }

  lemma Pow2Seventeen()
    ensures Pow2(17) == 0x20000
  {
    Pow2Consts();
    assert Pow2(17) == 2 * Pow2(16);
  }

  lemma Distribute(q: nat, dv: nat, rem: nat, p: nat, f: nat)
    ensures (q * dv + rem * p) * f == q * (dv * f) + rem * (f * p)
  {
    assert (q * dv) * f == q * (dv * f);
    assert (rem * p) * f == rem * (f * p);
  }

  /** The magnitude of twice the quotient, or that it does not fit. */
  method Magnitude(a: i32, b: i32) returns (overflow: bool, quotient: u32)
    requires b != 0
    ensures overflow <==> Dividend(a, b) >= W32 * Abs(b)
    ensures !overflow ==> quotient == Quotient(Dividend(a, b), Abs(b))
  {
    var remainder, divider := Abs(a), Abs(b);
    var bitPos;
    ghost var n, d := Dividend(a, b), Abs(b);
    quotient, remainder := KickStart(remainder, divider);
    divider, bitPos := Strip(divider);
    ghost var left, total := StripTotal(n, quotient, d, remainder, divider, bitPos);
    overflow, quotient := Digits(remainder, divider, quotient, bitPos, left, total);
  }

  /** The sign test on the exclusive or of two words. */
  lemma SignsDiffer(a: i32, b: i32)
    ensures And(Xor(ToU32(a), ToU32(b)), W31) != 0 <==> (a < 0) != (b < 0)
  {
    SignBits(ToU32(a), ToU32(b), W31);
  }

  lemma SignBits(x: u32, y: u32, top: nat)
    requires top == W31
    ensures And(Xor(x, y), top) != 0 <==> (x >= top) != (y >= top)
  {
    Pow2Consts();
    TopBit(x, y, 31);
  }

  lemma {:induction false} TopBit(x: nat, y: nat, k: nat)
    requires x < 2 * Pow2(k) && y < 2 * Pow2(k)
    ensures And(Xor(x, y), Pow2(k)) != 0 <==> (x >= Pow2(k)) != (y >= Pow2(k))
  {
    if k > 0 {
      TopBit(x / 2, y / 2, k - 1);
      XorCons(x, y);
      AndCons(Xor(x / 2, y / 2), Xor(x, y) % 2, Pow2(k - 1), 0);
    }
  }

  lemma XorCons(x: nat, y: nat)
    ensures Xor(x, y) / 2 == Xor(x / 2, y / 2)
  {
  }

  /** The largest word is never the quotient, so adding one to it does not wrap. */
  lemma NotTheLargest(a: i32, b: i32, q: nat)
    requires b != 0 && q == Quotient(Dividend(a, b), Abs(b)) && q < W32
    ensures q < W32 - 1
  {
    var n, d := Dividend(a, b), Abs(b);
    DroppedSmall(a, b);
    NoSuchDividend(n, d, Abs(a), Dropped(a, b), n % d);
  }

  lemma NoSuchDividend(n: nat, d: nat, x: u32, e: nat, r: nat)
    requires n == x * 0x20000 + e && x <= W31 && e < 0x20000 && (d < 0x10_0000 ==> e == 0) && r < d
    ensures n != (W32 - 1) * d + r
  {
  }

  lemma LargeQuotient(n: nat, d: nat)
    requires d > 0 && n >= W32 * d
    ensures Quotient(n, d) >= W32
  {
    var q := n / d;
    assert n == d * q + n % d;
    if q < W32 {
      MulMono(q + 1, W32, d);
    }
  }

  /** fix16_div */
  method Div(a: i32, b: i32) returns (r: i32)
    requires a != -W31 && b != -W31
    ensures r == DivResult(a, b)
    ensures if b == 0 then r == -W31 else IsQuotient(a, b, r) <==> DivOk(a, b)
  {
    if b == 0 {
      return OVERFLOW;
    }
    DivRight(a, b);
    var overflow, quotient := Magnitude(a, b);
    if overflow {
      LargeQuotient(Dividend(a, b), Abs(b));
      return OVERFLOW;
    }
    NotTheLargest(a, b, quotient);
    r := RoundAndSign(a, b, quotient);
  }

  /** The end of fix16_div. */
  method RoundAndSign(a: i32, b: i32, quotient0: u32) returns (r: i32)
    requires quotient0 < W32 - 1
    ensures r == Halved(quotient0, (a < 0) != (b < 0))
  {
    SignsDiffer(a, b);
    var quotient: u32 := ToU32(quotient0 + 1);
    var result: i32 := quotient / 2;
    if And(Xor(ToU32(a), ToU32(b)), W31) != 0 {
      if result == -W31 {
        return OVERFLOW;
      }
      result := -result;
    }
    return result;
  }
}
