/** abstract-machine/libs/fixmath: the Q16.16 square root in two passes of 32-bit steps, and exactly when it is rounded right. */
module Fix16Sqrt {
  import opened Bits

  /** x * x, as the sum of the first x odd numbers. */
  function Square(x: nat): nat {
    if x == 0 then 0 else Square(x - 1) + 2 * x - 1
  }

  lemma {:induction false} SquareIs(x: nat)
    ensures Square(x) == x * x
  {
    if x > 0 {
      SquareIs(x - 1);
      assert x * x == (x - 1) * (x - 1) + 2 * x - 1;
    }
  }

  // ---- Integer roots ----

  lemma {:induction false} SquareMono(x: nat, y: nat)
    requires x <= y
    ensures Square(x) <= Square(y)
  {
    if x < y {
      SquareMono(x, y - 1);
    }
  }

  lemma SquareDouble(x: nat)
    ensures Square(2 * x) == 4 * Square(x)
  {
    SquareIs(x);
    SquareIs(2 * x);
  }

  /** Comparisons with squares of constants. */
  lemma SquareBelow(r: nat, k: nat)
    requires r <= k
    ensures Square(r) <= k * k
  {
    SquareMono(r, k);
    SquareIs(k);
  }

  lemma RootBelow(r: nat, k: nat, n: int)
    requires Square(r) <= n < k * k
    ensures r < k
  {
    SquareIs(k);
    if r >= k {
      SquareMono(k, r);
    }
  }

  lemma RootAbove(r: nat, k: nat, n: int)
    requires k * k <= n < Square(r + 1)
    ensures r >= k
  {
    SquareIs(k);
    if r + 1 <= k {
      SquareMono(r + 1, k);
    }
  }

  /** The largest number whose square is at most n. */
  function Isqrt(n: nat): (r: nat)
    ensures Square(r) <= n < Square(r + 1)
  {
    if n == 0 then 0
    else
      var h := Isqrt(n / 4);
      IsqrtStep(n, h);
      if Square(2 * h + 1) <= n then 2 * h + 1 else 2 * h
  }

  lemma IsqrtStep(n: nat, h: nat)
    requires Square(h) <= n / 4 < Square(h + 1)
    ensures Square(2 * h) <= n < Square(2 * h + 2)
  {
    SquareDouble(h);
    SquareDouble(h + 1);
    assert 2 * (h + 1) == 2 * h + 2;
  }

  lemma RootsAgree(n: nat, r: nat, s: nat)
    requires Square(r) <= n < Square(r + 1) && Square(s) <= n < Square(s + 1)
    ensures r == s
  {
    if r < s {
      SquareMono(r + 1, s);
    } else if s < r {
      SquareMono(s + 1, r);
    }
  }

  lemma RootIs(n: nat, r: nat)
    requires Square(r) <= n < Square(r + 1)
    ensures Isqrt(n) == r
  {
    RootsAgree(n, Isqrt(n), r);
  }

  // ---- What it should compute ----

  /** The integer nearest to the square root of y. */
  function Nearest(y: nat): nat {
    var q := Isqrt(y);
    if y - Square(q) > q then q + 1 else q
  }

  /** r is the root of y rounded to nearest: r - 1/2 < root <= r + 1/2. */
  predicate Rounds(r: nat, y: nat) {
    y <= Square(r) + r && (r == 0 || Square(r) - r < y)
  }

  lemma NearestRounds(y: nat)
    ensures Rounds(Nearest(y), y)
  {
  }

  lemma RoundsUnique(r: nat, s: nat, y: nat)
    requires Rounds(r, y) && Rounds(s, y)
    ensures r == s
  {
    if r < s {
      SquareMono(r + 1, s);
      if s > r + 1 {
        SquareMono(r + 1, s - 1);
      }
    } else if s < r {
      if r > s + 1 {
        SquareMono(s + 1, r - 1);
      }
    }
  }

  /** In raw units the root of n / 65536 is the root of n * 65536. */
  function SqrtSpec(n: u32): nat { Nearest(n * W16) }

  // ---- What it computes ----

  function Remainder(n: nat): nat { n - Square(Isqrt(n)) }

  /** Between the passes a large remainder is corrected by twice of what it should be. */
  function Target(n: u32): int {
    if Remainder(n) > 0xFFFF then n * W16 - 0x4000 else n * W16
  }

  lemma TargetNatural(n: u32)
    ensures Target(n) >= 0
  {
    assert Square(Isqrt(n)) >= 0;
  }

  function SqrtResult(n: u32): nat {
    TargetNatural(n);
    Nearest(Target(n))
  }

  /** The root of x is not just above a half. */
  predicate HalfIsFar(x: nat) {
    var q := Isqrt(x);
    x - Square(q) <= q || x - Square(q) > q + 0x4000
  }

  /** When fix16_sqrt rounds right: the remainder is small, or the root is not just above a half. */
  predicate SqrtOk(n: u32) {
    Remainder(n) <= 0xFFFF || HalfIsFar(n * W16)
  }

  lemma NearestIs(y: nat, r: nat)
    requires Rounds(r, y)
    ensures Nearest(y) == r
  {
    NearestRounds(y);
    RoundsUnique(Nearest(y), r, y);
  }

  /** fix16_sqrt rounds to nearest on exactly the operands that SqrtOk names. */
  lemma SqrtExact(n: u32)
    ensures SqrtResult(n) == SqrtSpec(n) <==> SqrtOk(n)
  {
    TargetNatural(n);
    if Remainder(n) > 0xFFFF {
      LargeRoot(n);
      NearestRounds(Target(n));
      Late(n * W16, Isqrt(n * W16), Nearest(Target(n)));
    }
  }

  /** r is the root of n / 65536 in raw units, rounded to nearest: r - 1/2 < root <= r + 1/2. */
  predicate IsRoot(n: int, r: int) { r >= 0 && n * W16 <= r * r + r && (r == 0 || r * r - r < n * W16) }

  lemma RootMeans(n: nat, r: nat)
    ensures IsRoot(n, r) <==> Rounds(r, n * W16)
  {
    SquareIs(r);
  }

  /** fix16_sqrt is right on exactly these operands. */
  lemma SqrtRight(n: u32)
    ensures IsRoot(n, SqrtResult(n)) <==> SqrtOk(n)
  {
    SqrtExact(n);
    RootMeans(n, SqrtResult(n));
    NearestRounds(n * W16);
    if Rounds(SqrtResult(n), n * W16) {
      RoundsUnique(SqrtResult(n), SqrtSpec(n), n * W16);
    }
  }

  lemma Late(x: nat, q: nat, r: nat)
    requires x >= 0x4000 && q == Isqrt(x) >= 0x10000 && Rounds(r, x - 0x4000)
    ensures r == Nearest(x) <==> HalfIsFar(x)
  {
    LateHalf(x, q, r);
  }

  lemma LargeRoot(n: u32)
    requires Remainder(n) > 0xFFFF
    ensures Isqrt(n * W16) >= 0x10000
  {
    RootAbove(Isqrt(n * W16), 0x10000, n * W16);
  }

  lemma LateHalf(x: nat, q: nat, r: nat)
    requires x >= 0x4000 && q >= 0x10000 && Square(q) <= x < Square(q + 1) && Rounds(r, x - 0x4000)
    ensures r == (if x - Square(q) > q then q + 1 else q) <==> x - Square(q) <= q || x - Square(q) > q + 0x4000
  {
    var e := x - Square(q);
    if e <= q {
      RoundsUnique(r, q, x - 0x4000);
    } else if e > q + 0x4000 {
      RoundsUnique(r, q + 1, x - 0x4000);
    }
  }

  /** Below 2^30 the rounding is always right. */
  lemma SqrtSmall(n: u32)
    requires n < 0x4000_0000
    ensures SqrtResult(n) == SqrtSpec(n)
  {
    SqrtExact(n);
    var s := Isqrt(n);
    RootBelow(s, 0x8000, n);
  }

  /** And everywhere the result is less than one unit off. */
  lemma SqrtClose(n: u32)
    requires n > 0
    ensures var r := SqrtResult(n); r > 0 && Square(r - 1) < n * W16 < Square(r + 1)
  {
    TargetNatural(n);
    var y := Target(n);
    var r := Nearest(y);
    NearestRounds(y);
    if r > 0 {
    }
    if r < 0x8000 {
      SquareBelow(r, 0x7FFF);
    }
  }

  /** An operand on which it rounds down instead of up: about 16641.99, or 1090650238 raw units. */
  lemma SqrtFails()
    ensures SqrtSpec(1090650238) == 8454399 && SqrtResult(1090650238) == 8454398
  {
    FailsAt(1090650238, 33024, 8454398);
  }

  lemma FailsAt(n: u32, s: nat, r: nat)
    requires n == 1090650238 && s == 33024 && r == 8454398
    ensures SqrtSpec(n) == r + 1 && SqrtResult(n) == r
  {
    SquareIs(s);
    SquareIs(r);
    RootIs(n, s);
    TargetNatural(n);
    NearestIs(n * W16, r + 1);
    NearestIs(Target(n), r);
  }

  // ---- The algorithm ----

  /**
   * In a pass over the digits of the root of x, root has been found and the next digit is worth step; the words hold the
   * remainder, the root shifted by its distance from the end, and the square of the step.
   */
  ghost predicate Midway(num: int, result: int, bit: int, x: int, root: nat, step: nat) {
    && num == x - Square(root) >= 0 && result + 2 * bit < W32
    && bit == Square(step) && result == 2 * root * step && x < Square(root + 2 * step)
  }

  /** After a pass root is the integer root of x. */
  ghost predicate Found(num: int, result: int, x: int, root: nat) {
    num == x - Square(root) >= 0 && result == root && x < Square(root + 1)
  }

  lemma SquareSum(x: nat, y: nat)
    ensures Square(x + y) == Square(x) + 2 * x * y + Square(y)
  {
    SquareIs(x);
    SquareIs(y);
    SquareIs(x + y);
    assert (x + y) * (x + y) == x * x + 2 * x * y + y * y;
  }

  /** One digit: what it leaves is again a pass midway, or, when the step was one, the root. */
  method Digit(num0: u32, result0: u32, bit0: u32, ghost x: nat, ghost root0: nat, ghost step: nat)
      returns (num: u32, result: u32, bit: u32, ghost root: nat)
    requires step > 0 && Midway(num0, result0, bit0, x, root0, step)
    ensures step == 1 ==> bit == 0 && Found(num, result, x, root)
    ensures step > 1 && step % 2 == 0 ==> Midway(num, result, bit, x, root, step / 2)
  {
    num := num0;
    SquareSum(root0, step);
    if num0 >= result0 + bit0 {
      num := num - (result0 + bit0);
      result := result0 / 2 + bit0;
      root := root0 + step;
    } else {
      result := result0 / 2;
      root := root0;
    }
    ResultHalved(root0, step, result0, bit0);
    bit := bit0 / 4;
    NextDigit(num, result, bit0, x, root, step);
  }

  lemma NextDigit(num: int, result: int, bit: int, x: int, root: nat, step: nat)
    requires step > 0 && bit == Square(step) && num == x - Square(root) >= 0 && x < Square(root + step)
    requires result == root * step && result + bit < W32
    ensures step == 1 ==> bit / 4 == 0 && Found(num, result, x, root)
    ensures step > 1 && step % 2 == 0 ==> Midway(num, result, bit / 4, x, root, step / 2)
  {
    if step > 1 && step % 2 == 0 {
      BitQuartered(step);
      HalfStep(root, step);
    }
  }

  lemma ResultHalved(root: nat, step: nat, result: int, bit: int)
    requires result == 2 * root * step && bit == Square(step)
    ensures result / 2 == root * step && result / 2 + bit == (root + step) * step
  {
    SquareIs(step);
    TwiceProduct(root, step);
  }

  lemma TwiceProduct(x: int, y: int)
    ensures 2 * x * y == 2 * (x * y)
  {
  }

  lemma HalfStep(root: nat, step: nat)
    requires step % 2 == 0
    ensures 2 * root * (step / 2) == root * step
  {
    var h := step / 2;
    assert step == 2 * h && root * (2 * h) == 2 * root * h;
  }

  lemma BitQuartered(step: nat)
    requires step % 2 == 0
    ensures Square(step) == 4 * Square(step / 2)
  {
    SquareDouble(step / 2);
  }

  lemma HalfPow2(k: nat)
    ensures k == 0 ==> Pow2(k) == 1 && Square(Pow2(k)) == 1
    ensures k > 0 ==> Pow2(k) > 1 && Pow2(k) % 2 == 0 && Pow2(k) / 2 == Pow2(k - 1)
  {
  }

  /** All digits from step 2^k on. */
  method Pass(num0: u32, result0: u32, bit0: u32, ghost x: nat, ghost root0: nat, ghost k0: nat)
      returns (num: u32, result: u32, ghost root: nat)
    requires if bit0 == 0 then Found(num0, result0, x, root0) else Midway(num0, result0, bit0, x, root0, Pow2(k0))
    ensures Found(num, result, x, root)
  {
    num, result, root := num0, result0, root0;
    var bit := bit0;
    ghost var k := k0;
    while bit != 0
      invariant if bit == 0 then Found(num, result, x, root) else Midway(num, result, bit, x, root, Pow2(k))
      decreases if bit == 0 then 0 else k + 1
    {
      HalfPow2(k);
      num, result, bit, root := Digit(num, result, bit, x, root, Pow2(k));
      if k > 0 {
        k := k - 1;
      }
    }
  }

  /** The search for the first digit. */
  method FirstBit(num: u32) returns (bit: u32, ghost k: nat)
    requires num <= W31
    ensures if bit == 0 then num == 0 else BitAt(bit, k) && num < 4 * bit && bit <= 0x4000_0000
  {
    HighBits(num);
    if And(num, 0xFFF0_0000) != 0 {
      bit, k := 0x4000_0000, 15;
      StepSquare(k, 0x8000);
    } else {
      bit, k := 0x4_0000, 9;
      StepSquare(k, 0x200);
    }
    while bit > num
      invariant if bit == 0 then num == 0 else BitAt(bit, k) && num < 4 * bit && bit <= 0x4000_0000
      decreases bit
    {
      NextBit(bit, k);
      if k > 0 {
        k := k - 1;
      }
      bit := bit / 4;
    }
  }

  ghost predicate BitAt(bit: nat, k: nat) { bit == Square(Pow2(k)) }

  lemma NextBit(bit: nat, k: nat)
    requires BitAt(bit, k)
    ensures if k == 0 then bit == 1 else bit % 4 == 0 && BitAt(bit / 4, k - 1)
  {
    HalfPow2(k);
    if k > 0 {
      BitQuartered(Pow2(k));
    }
  }

  lemma StepSquare(k: nat, h: nat)
    requires (k == 15 && h == 0x8000) || (k == 9 && h == 0x200) || (k == 7 && h == 0x80)
    ensures Pow2(k) == h && BitAt(h * h, k)
  {
    SquareIs(h);
    assert Pow2(7) == 0x80;
    Pow2Add(7, 2);
    Pow2Add(7, 8);
  }

  /** Between the passes the remainder and the root move up by 16 bits. */
  method Rescale(n: u32, num0: u32, result0: u32, ghost k: nat) returns (num: u32, result: u32, ghost root: nat)
    requires n <= W31 && Found(num0, result0, n, result0) && k == 7
    ensures Target(n) >= 0 && Midway(num, result, 0x4000, Target(n), root, Pow2(k))
  {
    BetweenPasses(n, num0, result0);
    StepSquare(k, 0x80);
    if num0 > 0xFFFF {
      MovedUpHalf(n, num0, result0, Pow2(k));
      num := num0 - result0;
      num := num * W16 - 0x8000;
      result := result0 * W16 + 0x8000;
      root := 256 * result0 + 128;
    } else {
      MovedUp(n, num0, result0, Pow2(k));
      num := num0 * W16;
      result := result0 * W16;
      root := 256 * result0;
    }
  }

  lemma BetweenPasses(n: u32, num: u32, s: nat)
    requires n <= W31 && num == n - Square(s) && n < Square(s + 1)
    ensures s <= 46340 && num <= 2 * s
    ensures Target(n) == (if num > 0xFFFF then n * W16 - 0x4000 else n * W16) >= 0
  {
    RootIs(n, s);
    TargetNatural(n);
    RootBound(n, s);
  }

  lemma MovedUp(n: u32, num: u32, s: nat, step: nat)
    requires n <= W31 && num == n - Square(s) && n < Square(s + 1) && s <= 46340 && step == 128 && Square(step) == 0x4000
    ensures Midway(num * W16, s * W16, 0x4000, n * W16, 256 * s, step)
  {
    RescaledSquares(n, s, step);
  }

  lemma MovedUpHalf(n: u32, num: u32, s: nat, step: nat)
    requires n <= W31 && num == n - Square(s) && n < Square(s + 1) && s <= 46340 && step == 128 && Square(step) == 0x4000
    requires num > 0xFFFF
    ensures Midway((num - s) * W16 - 0x8000, s * W16 + 0x8000, 0x4000, n * W16 - 0x4000, 256 * s + 128, step)
  {
    RescaledSquares(n, s, step);
  }

  lemma RootBound(n: u32, s: nat)
    requires n <= W31 && Square(s) <= n < Square(s + 1)
    ensures s <= 46340 && n - Square(s) <= 2 * s
  {
    RootBelow(s, 46341, n);
  }

  lemma SquareScale(s: nat)
    ensures Square(256 * s) == W16 * Square(s)
  {
    SquareIs(s);
    SquareIs(256 * s);
  }

  lemma RescaledSquares(n: int, s: nat, t: nat)
    requires n < Square(s + 1) && t == 128
    ensures Square(256 * s) == W16 * Square(s) && Square(256 * s + t) == W16 * (Square(s) + s) + 0x4000
    ensures n * W16 < Square(256 * s + 2 * t) <= Square(256 * s + 3 * t)
  {
    SquareScale(s);
    SquareScale(s + 1);
    SquareSum(256 * s, t);
    SquareIs(t);
    SquareMono(256 * s + 2 * t, 256 * s + 3 * t);
    assert 256 * (s + 1) == 256 * s + 2 * t;
  }

  /** fix16_sqrt; a negative operand gives the negated root of its magnitude. */
  method Sqrt(v: i32) returns (r: i32)
    requires v != -W31
    ensures v >= 0 ==> r == SqrtResult(v) && (IsRoot(v, r) <==> SqrtOk(v))
    ensures v < 0 ==> r == 0 - SqrtResult(0 - v) && (IsRoot(0 - v, 0 - r) <==> SqrtOk(0 - v))
  {
    var neg := v < 0;
    var n: u32 := if neg then 0 - v else v;
    r := Root(n);
    SqrtRight(n);
    if neg {
      r := -r;
    }
  }

  /** The two passes, and the rounding. */
  method Root(n: u32) returns (r: i32)
    requires n < W31
    ensures r == SqrtResult(n)
  {
    var num, result := FirstPass(n);
    num, result := SecondPass(n, num, result);
    ResultBound(Target(n), result);
    if num > result {
      result := result + 1;
    }
    r := result;
  }

  method FirstPass(n: u32) returns (num: u32, result: u32)
    requires n <= W31
    ensures Found(num, result, n, result)
  {
    var bit;
    ghost var k, root: nat;
    bit, k := FirstBit(n);
    SquareDouble(Pow2(k));
    num, result, root := Pass(n, 0, bit, n, 0, k);
  }

  method SecondPass(n: u32, num0: u32, result0: u32) returns (num: u32, result: u32)
    requires n <= W31 && Found(num0, result0, n, result0)
    ensures Target(n) >= 0 && Found(num, result, Target(n), result) && result == Isqrt(Target(n))
  {
    ghost var k: nat, root: nat := 7, 0;
    num, result, root := Rescale(n, num0, result0, k);
    num, result, root := Pass(num, result, 0x4000, Target(n), root, k);
    RootIs(Target(n), root);
  }

  lemma ResultBound(x: nat, root: nat)
    requires Square(root) <= x <= W31 * W16
    ensures root < W31 - 1
  {
    RootBelow(root, W31 - 1, x);
  }
}
