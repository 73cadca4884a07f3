/** compiler-rt: signed 64-bit division and remainder on top of UDivModDi4. */
module SignedDiv {
  import opened Bits
  import CompilerRt

  /** Section 6.5.5 of ISO/IEC 9899:1999: the quotient is truncated toward zero, the remainder has the dividend's sign. */
  ghost predicate Truncated(a: int, b: int, quot: int, rem: int) {
    && a == quot * b + rem
    && Abs(rem) < Abs(b)
    && (rem == 0 || (rem < 0 <==> a < 0))
  }

  function Abs(x: int): nat { if x < 0 then -x else x }

  function WithSign(negative: bool, x: nat): int {
    var i: int := x;
    if negative then -i else i
  }

  ghost function Quotient(a: int, b: int): int
    requires b != 0
  {
    var q: int := Abs(a) / Abs(b);
    if (a < 0) != (b < 0) then -q else q
  }

  /** That clause leaves no choice. */
  lemma TruncatedUnique(a: int, b: int, q1: int, r1: int, q2: int, r2: int)
    requires Truncated(a, b, q1, r1) && Truncated(a, b, q2, r2)
    ensures q1 == q2 && r1 == r2
  {
    if q1 != q2 {
      MultiplesApart(q1, q2, b);
      assert false;
    }
  }

  lemma MultiplesApart(x: int, y: int, b: int)
    requires x != y
    ensures Abs(x * b - y * b) >= Abs(b)
  {
    if x > y {
      MultiplesOrdered(x, y, b);
    } else {
      MultiplesOrdered(y, x, b);
    }
  }

  lemma MultiplesOrdered(x: int, y: int, b: int)
    requires x > y
    ensures if b >= 0 then x * b - y * b >= b else x * b - y * b <= b
  {
    if b >= 0 {
      MulMono(y + 1, x, b);
    } else {
      MulMono(y + 1, x, -b);
    }
  }

  /** The sign of x as a mask word: `x >> 63`. */
  method SignOf(x: i64) returns (s: i64)
    ensures s == if x < 0 then -1 else 0
  {
    Pow2Consts();
    AShrSign(x, 63);
    s := AShr(x, 63);
  }

  /** `(x ^ s) - s` negates x when s is all ones and keeps it when s is zero. */
  method NegateIf(x: i64, s: i64) returns (y: i64)
    requires x != -W63 && (s == 0 || s == -1)
    ensures y == if s == 0 then x else -x
  {
    XorMask(ToU64(x), ToU64(s));
    y := ToI64(Xor(ToU64(x), ToU64(s)) - s);
  }

  lemma XorMask(x: u64, s: u64)
    requires s == 0 || s == W64 - 1
    ensures Xor(x, s) == if s == 0 then x else W64 - 1 - x
  {
    XorZero(x);
    AllOnesXor(x);
  }

  lemma AllOnesXor(x: u64)
    ensures Xor(x, W64 - 1) == W64 - 1 - x
  {
    Pow2Consts();
    XorOnes(x, 64);
  }

  /** `s_a ^ s_b`: the sign of the quotient. */
  method XorSigns(s: i64, t: i64) returns (r: i64)
    requires (s == 0 || s == -1) && (t == 0 || t == -1)
    ensures r == if s == t then 0 else -1
  {
    XorMask(ToU64(s), ToU64(t));
    r := ToI64(Xor(ToU64(s), ToU64(t)));
  }

  /** From the magnitudes ua = uq * ub + ur to the signed result. */
  lemma ApplySigns(a: i64, b: i64, ua: nat, ub: nat, uq: nat, ur: nat, quot: int, rem: int)
    requires ua == Abs(a) < W63 && ub == Abs(b)
    requires ua == uq * ub + ur && ur < ub
    requires quot == WithSign((a < 0) != (b < 0), uq) && rem == WithSign(a < 0, ur)
    ensures Truncated(a, b, quot, rem) && rem == a - quot * b
  {
    var x := uq * ub;
    var e, f: int := uq, b;
    assert e * (0 - f) == 0 - e * f && (0 - e) * f == 0 - e * f && (0 - e) * (0 - f) == e * f;
    assert quot * b == if a < 0 then 0 - x else x;
  }

  lemma MagnitudeBound(ua: nat, ub: nat, uq: nat, ur: nat)
    requires ua < W63 && ua == uq * ub + ur && ur < ub
    ensures uq < W63 && ur < W63
  {
    MulMono(1, ub, uq);
  }

  /** __divdi3 */
  method DivDi3(a: i64, b: i64) returns (quot: i64)
    requires b != 0 && a != -W63 && b != -W63
    ensures Truncated(a, b, quot, a - quot * b)
  {
    var sa := SignOf(a);
    var sb := SignOf(b);
    var ua := NegateIf(a, sa);
    var ub := NegateIf(b, sb);
    sa := XorSigns(sa, sb);
    var q, r := CompilerRt.UDivModDi4(ua, ub);
    MagnitudeBound(ua, ub, q, r);
    quot := NegateIf(q, sa);
    ApplySigns(a, b, ua, ub, q, r, quot, WithSign(a < 0, r));
  }

  /** __moddi3 */
  method ModDi3(a: i64, b: i64) returns (rem: i64)
    requires b != 0 && a != -W63 && b != -W63
    ensures Truncated(a, b, Quotient(a, b), rem)
  {
    var s := SignOf(b);
    var ub := NegateIf(b, s);
    s := SignOf(a);
    var ua := NegateIf(a, s);
    var q, r := CompilerRt.UDivModDi4(ua, ub);
    MagnitudeBound(ua, ub, q, r);
    rem := NegateIf(r, s);
    DivModUnique(ua, ub, q, r);
    ApplySigns(a, b, ua, ub, q, r, Quotient(a, b), rem);
  }
}
