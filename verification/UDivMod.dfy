/** compiler-rt: 64-bit division out of 32-bit words. */
module CompilerRt {
  import opened Bits

  /** The union udwords: a 64-bit word and its two halves. */
  datatype Udwords = Udwords(low: u32, high: u32) {
    function All(): u64 { high * W32 + low }

    static function Of(all: u64): Udwords { Udwords(all % W32, all / W32) }
  }

  lemma TopBitOfWord(lo: u32)
    ensures Shr(lo, 31) == lo / W31
  {
    Pow2Consts();
    ShrLow(lo, 31);
  }

  /** `(hi << 1) | (lo >> 31)`: the high word of a one-bit shift of hi:lo. */
  function ShlHigh(hi: u32, lo: u32): (w: u32)
    ensures w == (2 * hi) % W32 + lo / W31
  {
    TopBitOfWord(lo);
    assert Pow2(1) == 2;
    assert (2 * hi) % W32 == hi % W31 * 2;
    OrDisjoint(hi % W31, Shr(lo, 31), 1);
    Or(Shl32(hi, 1), Shr(lo, 31))
  }

  /** `(lo << 1) | carry` */
  function ShlLow(lo: u32, carry: nat): (w: u32)
    requires carry < 2
    ensures w == (2 * lo) % W32 + carry
  {
    assert Pow2(1) == 2;
    assert (2 * lo) % W32 == lo % W31 * 2;
    OrDisjoint(lo % W31, carry, 1);
    Or(Shl32(lo, 1), carry)
  }

  /** Shifting both halves, high word first, shifts the 64-bit word. */
  lemma ShiftPair(w: Udwords, bit: nat)
    requires bit < 2
    ensures ((2 * w.high) % W32 + w.low / W31) * W32 + (2 * w.low) % W32 + bit == (2 * w.All() + bit) % W64
  {
    var a, t := w.high / W31, w.high % W31;
    var b, u := w.low / W31, w.low % W31;
    assert (2 * w.high) % W32 == 2 * t;
    assert (2 * w.low) % W32 == 2 * u;
    DivModUnique(2 * w.All() + bit, W64, a, (2 * t + b) * W32 + 2 * u + bit);
  }

  lemma TopBitArith(m: nat, b: nat, m1: nat, p: nat, s: nat, q1: nat, q: u64, carry: nat)
    requires p * s == W63 && b < 2 && carry < 2
    requires m1 < p && q1 < s && m == b * p + m1
    requires q == m * s + q1
    ensures q / W63 == b
    ensures (2 * q + carry) % W64 == m1 * (2 * s) + 2 * q1 + carry
  {
    MulMono(m1 + 1, p, s);
    var x := m1 * s;
    assert m1 * (2 * s) == 2 * x;
    assert m * s == b * W63 + x by { assert (b * p + m1) * s == b * (p * s) + x; }
    assert x + q1 < W63;
  }

  lemma Pow2Splits(sr: nat)
    requires 1 <= sr <= 63
    ensures Pow2(sr - 1) * Pow2(64 - sr) == W63
    ensures Pow2(65 - sr) == 2 * Pow2(64 - sr) && Pow2(sr) == 2 * Pow2(sr - 1)
  {
    Pow2Add(sr - 1, 64 - sr);
    Pow2Consts();
  }

  /** The bits of n still to be shifted in are the m < 2^sr on top of q; below them is the quotient so far, q1. */
  lemma TopBit(m: nat, q1: nat, sr: nat, q: u64, carry: nat) returns (m1: nat)
    requires 1 <= sr <= 63 && carry < 2
    requires m < Pow2(sr) && q1 < Pow2(64 - sr)
    requires q == m * Pow2(64 - sr) + q1
    ensures m1 < Pow2(sr - 1) && m == (q / W63) * Pow2(sr - 1) + m1 && q / W63 < 2
    ensures 2 * q1 + carry < Pow2(65 - sr)
    ensures (2 * q + carry) % W64 == m1 * Pow2(65 - sr) + 2 * q1 + carry
  {
    Pow2Splits(sr);
    var b: nat;
    if m < Pow2(sr - 1) { b, m1 := 0, m; } else { b, m1 := 1, m - Pow2(sr - 1); }
    TopBitArith(m, b, m1, Pow2(sr - 1), Pow2(64 - sr), q1, q, carry);
  }

  lemma AllOnes(d: u64)
    ensures And(d, W64 - 1) == d && And(W64 - 1, 1) == 1
  {
    Pow2Consts();
    AndLow(d, 64);
    ShrSmall(d, 64);
    AndLow(W64 - 1, 1);
  }

  /** The sign of a signed 64-bit word, smeared over the word. */
  method SignWord(x: i64) returns (s: u64)
    ensures s == if x < 0 then W64 - 1 else 0
  {
    Pow2Consts();
    AShrSign(x, 63);
    s := ToU64(AShr(x, 63));
  }

  /**
   * The branch-free comparison: the sign of d - r - 1, taken modulo 2^64, says whether r >= d
   * unless r is below 2^63 and d is not.
   */
  lemma SignDecides(d: u64, r: u64)
    requires r < 2 * d
    requires d < W63 || r >= W63
    ensures ToI64(d - r - 1) < 0 <==> r >= d
  {
  }

  /** What one iteration keeps: the invariant of the loop over q, r, carry and sr. */
  ghost predicate Consistent(n: u64, d: u64, sr: nat, q: u64, r: nat, carry: nat, m: nat, q1: nat)
    requires sr <= 64
  {
    && carry < 2 && r < d
    && m < Pow2(sr) && q1 < Pow2(64 - sr) && q == m * Pow2(64 - sr) + q1
    && n == ((2 * q1 + carry) * d + r) * Pow2(sr) + m
  }

  lemma Iterate(n: u64, d: u64, sr: nat, q: u64, r: u64, carry: nat, m: nat, q1: nat) returns (m1: nat)
    requires 1 <= sr <= 63
    requires Consistent(n, d, sr, q, r, carry, m, q1)
    ensures m1 < Pow2(sr - 1) && m == (q / W63) * Pow2(sr - 1) + m1
    ensures var r2 := 2 * r + q / W63; var c := if r2 >= d then 1 else 0;
            && r2 <= n && r2 < 2 * d
            && Consistent(n, d, sr - 1, (2 * q + carry) % W64, if r2 >= d then r2 - d else r2, c, m1, 2 * q1 + carry)
  {
    m1 := TopBit(m, q1, sr, q, carry);
    var r2 := 2 * r + q / W63;
    var c := if r2 >= d then 1 else 0;
    IterateArith(n, d, Pow2(sr - 1), q / W63, m1, r, 2 * q1 + carry);
  }

  lemma IterateArith(n: u64, d: u64, p: nat, b: nat, m1: nat, r: nat, quo: nat)
    requires p >= 1
    requires n == (quo * d + r) * (2 * p) + (b * p + m1)
    ensures n == (2 * quo * d + (2 * r + b)) * p + m1
    ensures n == ((2 * quo + 1) * d + (2 * r + b - d)) * p + m1
    ensures 2 * r + b <= n
  {
    var x := quo * d;
    assert 2 * quo * d == 2 * x && (2 * quo + 1) * d == 2 * x + d;
    MulMono(1, p, 2 * x + 2 * r + b);
    assert n == (2 * x + 2 * r + b) * p + m1;
  }

  /** `(q << 1) | carry` on the 64-bit word */
  function Or64(q: u64, carry: nat): (w: u64)
    requires carry < 2
    ensures w == (2 * q) % W64 + carry
  {
    assert Pow2(1) == 2;
    assert (2 * q) % W64 == q % W63 * 2;
    OrDisjoint(q % W63, carry, 1);
    Or((2 * q) % W64, carry)
  }

  /** One iteration of the loop on the words (lines 212-225): r:q shifts left, then d is subtracted from r if it fits. */
  method ShiftStep(d: u64, q0: Udwords, r0: Udwords, carry0: nat) returns (q: Udwords, r: Udwords, carry: nat)
    requires carry0 < 2
    requires var r2 := 2 * r0.All() + q0.All() / W63; r2 < W64 && r2 < 2 * d && (d < W63 || r2 >= W63)
    ensures q.All() == (2 * q0.All() + carry0) % W64
    ensures var r2 := 2 * r0.All() + q0.All() / W63;
            carry == (if r2 >= d then 1 else 0) && r.All() == (if r2 >= d then r2 - d else r2)
  {
    q, r := q0, r0;
    ShiftThrough(r, q);
    ShiftPair(q, carry0);
    r := r.(high := ShlHigh(r.high, r.low));
    r := r.(low := ShlHigh(r.low, q.high));
    q := q.(high := ShlHigh(q.high, q.low));
    q := q.(low := ShlLow(q.low, carry0));
    carry, r := SubtractIfFits(d, r);
  }

  lemma ShiftThrough(r: Udwords, q: Udwords)
    requires 2 * r.All() + q.All() / W63 < W64
    ensures ((2 * r.high) % W32 + r.low / W31) * W32 + (2 * r.low) % W32 + q.high / W31 == 2 * r.All() + q.All() / W63
  {
    assert q.All() / W63 == q.high / W31;
    ShiftPair(r, q.high / W31);
  }

  /** Lines 223-225, without a branch. */
  method SubtractIfFits(d: u64, r0: Udwords) returns (carry: nat, r: Udwords)
    requires r0.All() < 2 * d
    requires d < W63 || r0.All() >= W63
    ensures carry == if r0.All() >= d then 1 else 0
    ensures r.All() == if r0.All() >= d then r0.All() - d else r0.All()
  {
    var x := r0.All();
    var y := ToI64(d - x - 1);
    SignDecides(d, x);
    AllOnes(d);
    var s := SignWord(y);
    carry := And(s, 1);
    x := x - And(d, s);
    r := Udwords.Of(ToU64(x));
  }

  /** How the branches before the loop leave q and r: q.all = n << (64 - sr), r.all = n >> sr, and r < d. */
  ghost predicate Loaded(n: u64, d: u64, sr: nat, q: u64, r: u64, m: nat) {
    && 1 <= sr <= 63
    && r < d
    && m < Pow2(sr) && q == m * Pow2(64 - sr) && n == r * Pow2(sr) + m
    && (d < W63 || (sr == 1 && n >= W63))
  }

  /** The invariant of the loop: what it keeps plus what makes the sign trick sound. */
  ghost predicate Running(n: u64, d: u64, sr: nat, q: u64, r: u64, carry: nat, m: nat, q1: nat) {
    && sr <= 63
    && Straddle(n, d, sr, carry, q1)
    && Consistent(n, d, sr, q, r, carry, m, q1)
  }

  ghost predicate Straddle(n: u64, d: u64, sr: nat, carry: nat, q1: nat) {
    d < W63 || sr == 0 || (sr == 1 && n >= W63 && q1 == carry == 0)
  }

  lemma Start(n: u64, d: u64, sr: nat, q: u64, r: u64, m: nat)
    requires Loaded(n, d, sr, q, r, m)
    ensures Running(n, d, sr, q, r, 0, m, 0)
  {
  }

  lemma Step(n: u64, d: u64, sr: nat, q: u64, r: u64, carry: nat, m: nat, q1: nat) returns (m1: nat)
    requires sr > 0 && Running(n, d, sr, q, r, carry, m, q1)
    ensures var r2 := 2 * r + q / W63; var c := if r2 >= d then 1 else 0;
            && r2 < W64 && r2 < 2 * d && (d < W63 || r2 >= W63)
            && Running(n, d, sr - 1, (2 * q + carry) % W64, if r2 >= d then r2 - d else r2, c, m1, 2 * q1 + carry)
  {
    m1 := Iterate(n, d, sr, q, r, carry, m, q1);
    if d >= W63 {
      LastBit(n, d, sr, q, r, m, m1);
    }
  }

  lemma LastBit(n: u64, d: u64, sr: nat, q: u64, r: u64, m: nat, m1: nat)
    requires sr == 1 && Consistent(n, d, sr, q, r, 0, m, 0)
    requires m1 < Pow2(sr - 1) && m == (q / W63) * Pow2(sr - 1) + m1
    ensures n == 2 * r + q / W63
  {
    assert Pow2(sr - 1) == 1 && Pow2(sr) == 2;
  }

  /** Lines 202-230. */
  method ShiftSubtract(ghost n: u64, d: u64, sr0: nat, q0: Udwords, r0: Udwords, ghost m0: nat) returns (quot: u64, rem: u64)
    requires Loaded(n, d, sr0, q0.All(), r0.All(), m0)
    ensures n == quot * d + rem && rem < d
  {
    var q, r, sr, carry := q0, r0, sr0, 0;
    ghost var m, q1: nat := m0, 0;
    Start(n, d, sr, q.All(), r.All(), m);
    while sr > 0
      invariant Running(n, d, sr, q.All(), r.All(), carry, m, q1)
    {
      m := Step(n, d, sr, q.All(), r.All(), carry, m, q1);
      q1 := 2 * q1 + carry;
      q, r, carry := ShiftStep(d, q, r, carry);
      sr := sr - 1;
    }
    quot, rem := Or64(q.All(), carry), r.All();
    Finish(n, d, sr, q.All(), r.All(), carry, m, q1, quot);
  }

  lemma Finish(n: u64, d: u64, sr: nat, q: u64, r: nat, carry: nat, m: nat, q1: nat, quot: nat)
    requires sr == 0 && Consistent(n, d, sr, q, r, carry, m, q1)
    requires quot == (2 * q) % W64 + carry
    ensures n == quot * d + r && r < d
  {
    LastRound(n, (2 * q1 + carry) * d + r, Pow2(sr), m, q, q1, Pow2(64 - sr));
    NoWrap(n, d, q, r, carry, quot);
  }

  lemma LastRound(n: nat, x: nat, p: nat, m: nat, q: nat, q1: nat, s: nat)
    requires p == 1 && m < p && n == x * p + m && q == m * s + q1
    ensures n == x && q == q1
  {
    assert m * s == 0;
  }

  /** The doubled quotient cannot wrap. */
  lemma NoWrap(n: u64, d: nat, q: u64, r: nat, carry: nat, quot: nat)
    requires carry < 2 && r < d && n == (2 * q + carry) * d + r && quot == (2 * q) % W64 + carry
    ensures n == quot * d + r
  {
    MulMono(1, d, 2 * q + carry);
  }

  /** `(hi << (32 - k)) | (lo >> k)`: the low word of hi:lo shifted right by k. */
  function Funnel(hi: u32, lo: u32, k: nat): (w: u32)
    requires 1 <= k <= 31
    ensures w == Low(hi, k) * Pow2(32 - k) + Shr(lo, k)
  {
    ShlDropsHigh(hi, k);
    ShrWord(lo, k);
    OrDisjoint(Low(hi, k), Shr(lo, k), 32 - k);
    ShrLow(hi, k);
    FunnelBound(Low(hi, k), Shr(lo, k), Pow2(k), Pow2(32 - k));
    Or(Shl32(hi, 32 - k), Shr(lo, k))
  }

  lemma FunnelBound(h: nat, l: nat, p: nat, s: nat)
    requires p * s == W32 && h < p && l < s
    ensures h * s + l < W32
  {
    MulMono(h + 1, p, s);
  }

  lemma Pow2Word(k: nat)
    requires k <= 32
    ensures Pow2(k) * Pow2(32 - k) == W32
  {
    Pow2Add(k, 32 - k);
    Pow2Consts();
  }

  lemma ShrWord(x: u32, k: nat)
    requires k <= 32
    ensures Shr(x, k) < Pow2(32 - k)
  {
    Pow2Consts();
    ShrBound(x, k, 32 - k);
  }

  lemma ShlDropsHigh(x: u32, k: nat)
    requires 1 <= k <= 32
    ensures Pow2(k) * Pow2(32 - k) == W32
    ensures Shl32(x, 32 - k) == Low(x, k) * Pow2(32 - k)
  {
    Pow2Word(k);
    ShrLow(x, k);
    ShlDropsHighArith(x, Shr(x, k), Low(x, k), Pow2(k), Pow2(32 - k));
  }

  lemma ShlDropsHighArith(x: u32, u: nat, v: nat, p: nat, s: nat)
    requires p * s == W32 && v < p && x == u * p + v
    ensures (x * s) % W32 == v * s
  {
    MulMono(v + 1, p, s);
    assert s > 0;
    assert x * s == u * W32 + v * s by { assert (u * p + v) * s == u * (p * s) + v * s; }
    assert v * s < W32;
  }

  /** Loads with 1 <= sr <= 31 (lines 113-117, 135, 156-159, 196-198). */
  lemma LoadLow(n: Udwords, k: nat)
    requires 1 <= k <= 31
    ensures Udwords(Funnel(n.high, n.low, k), Shr(n.high, k)).All() * Pow2(k) + Low(n.low, k) == n.All()
    ensures Udwords(0, Shl32(n.low, 32 - k)).All() == Low(n.low, k) * Pow2(64 - k)
    ensures Low(n.low, k) < Pow2(k)
  {
    ShrLow(n.high, k);
    ShrLow(n.low, k);
    ShlDropsHigh(n.low, k);
    Pow2Add(32 - k, 32);
    Pow2Consts();
    LoadLowArith(n, Shr(n.high, k), Low(n.high, k), Shr(n.low, k), Low(n.low, k), Pow2(k), Pow2(32 - k));
  }

  lemma LoadLowArith(n: Udwords, c: nat, e: nat, u: nat, v: nat, p: nat, s: nat)
    requires p * s == W32
    requires n.high == c * p + e && n.low == u * p + v
    ensures (c * W32 + (e * s + u)) * p + v == n.All()
    ensures (v * s) * W32 == v * (s * W32)
  {
    assert e * s * p == e * W32 by { assert e * s * p == e * (p * s); }
    assert (c * W32 + (e * s + u)) * p == c * p * W32 + e * s * p + u * p;
  }

  /** Loads with sr == 32 (lines 149-152, 190-192). */
  lemma LoadMiddle(n: Udwords, k: nat)
    requires k == 32
    ensures Udwords(n.high, 0).All() * Pow2(k) + n.low == n.All()
    ensures Udwords(0, n.low).All() == n.low * Pow2(64 - k)
    ensures n.low < Pow2(k)
  {
    Pow2Consts();
  }

  lemma Pow2Over(k: nat)
    requires k >= 32
    ensures Pow2(k) == Pow2(k - 32) * W32
  {
    Pow2Add(k - 32, 32);
    Pow2Consts();
  }

  /** Loads with 33 <= sr <= 63 (lines 163-167); the bits still to be shifted in span both words. */
  lemma LoadHigh(n: Udwords, k: nat) returns (m: nat)
    requires 33 <= k <= 63
    ensures Udwords(Shr(n.high, k - 32), 0).All() * Pow2(k) + m == n.All() && m < Pow2(k)
    ensures Udwords(Shl32(n.low, 64 - k), Funnel(n.high, n.low, k - 32)).All() == m * Pow2(64 - k)
  {
    var t := k - 32;
    ShrLow(n.high, t);
    ShrLow(n.low, t);
    ShlDropsHigh(n.low, t);
    Pow2Over(k);
    m := Low(n.high, t) * W32 + n.low;
    LoadHighArith(n, Shr(n.high, t), Low(n.high, t), Shr(n.low, t), Low(n.low, t), Pow2(t), Pow2(32 - t));
  }

  lemma LoadHighArith(n: Udwords, c: nat, e: nat, u: nat, v: nat, p: nat, s: nat)
    requires p * s == W32 && e < p
    requires n.high == c * p + e && n.low == u * p + v
    ensures c * (p * W32) + e * W32 + n.low == n.All()
    ensures (e * s + u) * W32 + v * s == (e * W32 + n.low) * s
    ensures e * W32 + n.low < p * W32
  {
    assert u * p * s == u * W32 by { assert u * p * s == u * (p * s); }
    assert (e * W32 + (u * p + v)) * s == e * s * W32 + u * p * s + v * s;
  }

  lemma BelowPow2(n: Udwords)
    requires n.high != 0
    ensures Pow2(BitLen(n.high) + 31) <= n.All() < Pow2(BitLen(n.high) + 32)
  {
    var k := BitLen(n.high);
    BitLenRange(n.high);
    var lo, hi := Pow2(k - 1), Pow2(k);
    assert Pow2(k + 31) == lo * W32 by { Pow2Over(k + 31); }
    assert Pow2(k + 32) == hi * W32 by { Pow2Over(k + 32); }
  }

  /** r = n >> sr is below d because sr drops at least as many bits as n has above the top bit of d. */
  lemma RemainderBelow(n: Udwords, d: u64, sr: nat, r: nat, m: nat, b: nat)
    requires n.high != 0 && n.All() == r * Pow2(sr) + m
    requires BitLen(n.high) + 32 == b + sr
    requires Pow2(b) <= d
    ensures r < d
  {
    BelowPow2(n);
    Pow2Add(b, sr);
    if r >= Pow2(b) {
      MulMono(Pow2(b), r, Pow2(sr));
      assert false;
    }
  }

  lemma ScaleByWord(h: nat, e: nat, quot: nat, rem: nat, low: u32)
    requires h == quot * e + rem && rem < e
    ensures h * W32 + low == quot * (e * W32) + (rem * W32 + low) && rem * W32 + low < e * W32
  {
  }

  /** Lines 88-97: d is 2^k in the high word. */
  method DivideByHighPower(n: Udwords, d: Udwords) returns (quot: u64, rem: u64)
    requires d.low == 0 && d.high != 0 && And(d.high, d.high - 1) == 0
    ensures n.All() == quot * d.All() + rem && rem < d.All()
  {
    var k := Ctz(d.high);
    PowerOfTwoTest(d.high);
    AndLow(n.high, k);
    ShrLow(n.high, k);
    ScaleByWord(n.high, d.high, Shr(n.high, k), Low(n.high, k), n.low);
    rem := Udwords(n.low, And(n.high, d.high - 1)).All();
    quot := Shr(n.high, k);
  }

  /** Lines 102 and 176: an unsigned difference, so it is huge when d is longer than n. */
  method ShiftCount(n: Udwords, d: Udwords) returns (sr: u32)
    requires n.high != 0 && d.high != 0
    ensures if Clz32(d.high) >= Clz32(n.high) then sr == Clz32(d.high) - Clz32(n.high) else sr > 31
  {
    sr := ToU32(Clz32(d.high) - Clz32(n.high));
  }

  /** Hardware 32-bit division. */
  method DivideWords(x: u32, y: u32) returns (quot: u32, rem: u32)
    requires y != 0
    ensures x == quot * y + rem && rem < y
  {
    quot, rem := x / y, x % y;
  }

  /** Lines 70-83: neither word has a low half. */
  method DivideHighWords(n: Udwords, d: Udwords) returns (quot: u64, rem: u64)
    requires n.low == 0 && d.low == 0 && d.high != 0
    ensures n.All() == quot * d.All() + rem && rem < d.All()
  {
    quot, rem := DivideWords(n.high, d.high);
    ScaleByWord(n.high, d.high, quot, rem, 0);
    rem := Udwords(0, rem).All();
  }

  /** Lines 57-118: the divisor has no low word. */
  method DivideByHigh(n: Udwords, d: Udwords) returns (quot: u64, rem: u64)
    requires n.high != 0 && d.low == 0 && d.high != 0
    ensures n.All() == quot * d.All() + rem && rem < d.All()
  {
    if n.low == 0 {
      quot, rem := DivideHighWords(n, d);
      return;
    }
    if And(d.high, d.high - 1) == 0 {
      quot, rem := DivideByHighPower(n, d);
      return;
    }
    var sr := ShiftCount(n, d);
    NotOne(d.high);
    if sr > 30 {
      TooSmall(n, d);
      quot, rem := 0, n.All();
      return;
    }
    quot, rem := DivideShifted(n, d, sr + 1);
  }

  lemma NotOne(x: u32)
    requires x != 0 && And(x, x - 1) != 0
    ensures Clz32(x) <= 30
  {
    assert x != 1 by { assert And(1, 0) == 0; }
    BitLenRange(x / 2);
  }

  /** Lines 111-117 and 185-199, then the loop, for 1 <= sr <= 32. */
  method DivideShifted(n: Udwords, d: Udwords, sr: nat) returns (quot: u64, rem: u64)
    requires n.high != 0 && d.high != 0
    requires sr == Clz32(d.high) - Clz32(n.high) + 1 && 1 <= sr
    ensures n.All() == quot * d.All() + rem && rem < d.All()
  {
    if sr == 32 {
      var q, r := Udwords(0, n.low), Udwords(n.high, 0);
      LoadMiddle(n, sr);
      LoadedHigh(n, d, sr, q, r, n.low);
      quot, rem := ShiftSubtract(n.All(), d.All(), sr, q, r, n.low);
    } else {
      var q := Udwords(0, Shl32(n.low, 32 - sr));
      var r := Udwords(Funnel(n.high, n.low, sr), Shr(n.high, sr));
      LoadLow(n, sr);
      LoadedHigh(n, d, sr, q, r, Low(n.low, sr));
      quot, rem := ShiftSubtract(n.All(), d.All(), sr, q, r, Low(n.low, sr));
    }
  }

  lemma TooSmall(n: Udwords, d: Udwords)
    requires n.high != 0 && d.high != 0
    requires Clz32(d.high) < Clz32(n.high)
    ensures n.All() < d.All()
  {
    BitLenRange(n.high);
    BitLenRange(d.high);
    Pow2Mono(BitLen(n.high), BitLen(d.high) - 1);
  }

  lemma LoadedHigh(n: Udwords, d: Udwords, sr: nat, q: Udwords, r: Udwords, m: nat)
    requires n.high != 0 && d.high != 0
    requires sr == Clz32(d.high) - Clz32(n.high) + 1 && 1 <= sr <= 32
    requires n.All() == r.All() * Pow2(sr) + m && m < Pow2(sr) && q.All() == m * Pow2(64 - sr)
    ensures Loaded(n.All(), d.All(), sr, q.All(), r.All(), m)
  {
    BelowPow2(d);
    RemainderBelow(n, d.All(), sr, r.All(), m, BitLen(d.high) + 31);
    if d.All() >= W63 {
      BelowPow2(n);
      HighBitSet(d.high);
      Pow2Consts();
    }
  }

  lemma HighBitSet(x: u32)
    requires x >= W31
    ensures BitLen(x) == 32
  {
    Pow2Consts();
    BitLenBound(x, 32);
    BitLenRange(x);
    if BitLen(x) < 32 {
      Pow2Mono(BitLen(x), 31);
      assert false;
    }
  }

  /** Lines 127-137: d is 2^k in the low word. */
  method DivideByLowPower(n: Udwords, d: Udwords) returns (quot: u64, rem: u64)
    requires d.high == 0 && d.low != 0 && And(d.low, d.low - 1) == 0
    ensures n.All() == quot * d.All() + rem && rem < d.All()
  {
    var k := Ctz(d.low);
    PowerOfTwoTest(d.low);
    AndLow(n.low, k);
    rem := And(n.low, d.low - 1);
    if d.low == 1 {
      quot := n.All();
    } else {
      Pow2Consts();
      CtzBound(d.low, 32);
      LoadLow(n, k);
      quot := Udwords(Funnel(n.high, n.low, k), Shr(n.high, k)).All();
    }
  }

  /** Lines 138-168, then the loop. */
  method DivideByLow(n: Udwords, d: Udwords) returns (quot: u64, rem: u64)
    requires n.high != 0 && d.high == 0 && d.low != 0
    ensures n.All() == quot * d.All() + rem && rem < d.All()
  {
    if And(d.low, d.low - 1) == 0 {
      quot, rem := DivideByLowPower(n, d);
      return;
    }
    NotOne(d.low);
    var sr := 1 + 32 + Clz32(d.low) - Clz32(n.high);
    var q, r: Udwords;
    ghost var m: nat;
    if sr == 32 {
      q, r, m := Udwords(0, n.low), Udwords(n.high, 0), n.low;
      LoadMiddle(n, sr);
    } else if sr < 32 {
      q := Udwords(0, Shl32(n.low, 32 - sr));
      r := Udwords(Funnel(n.high, n.low, sr), Shr(n.high, sr));
      m := Low(n.low, sr);
      LoadLow(n, sr);
    } else {
      q := Udwords(Shl32(n.low, 64 - sr), Funnel(n.high, n.low, sr - 32));
      r := Udwords(Shr(n.high, sr - 32), 0);
      m := LoadHigh(n, sr);
    }
    LoadedLow(n, d, sr, q, r, m);
    quot, rem := ShiftSubtract(n.All(), d.All(), sr, q, r, m);
  }

  lemma LoadedLow(n: Udwords, d: Udwords, sr: nat, q: Udwords, r: Udwords, m: nat)
    requires n.high != 0 && d.high == 0 && d.low != 0 && Clz32(d.low) <= 30
    requires sr == 33 + Clz32(d.low) - Clz32(n.high)
    requires n.All() == r.All() * Pow2(sr) + m && m < Pow2(sr) && q.All() == m * Pow2(64 - sr)
    ensures Loaded(n.All(), d.All(), sr, q.All(), r.All(), m)
  {
    BitLenRange(d.low);
    RemainderBelow(n, d.All(), sr, r.All(), m, BitLen(d.low) - 1);
  }

  /** Lines 170-200, then the loop. */
  method DivideByBoth(n: Udwords, d: Udwords) returns (quot: u64, rem: u64)
    requires n.high != 0 && d.high != 0
    ensures n.All() == quot * d.All() + rem && rem < d.All()
  {
    var sr := ShiftCount(n, d);
    if sr > 31 {
      TooSmall(n, d);
      quot, rem := 0, n.All();
      return;
    }
    quot, rem := DivideShifted(n, d, sr + 1);
  }

  /** __udivmoddi4: the exact 64-bit quotient and remainder, for every dividend and every divisor but 0. */
  method UDivModDi4(a: u64, b: u64) returns (quot: u64, rem: u64)
    requires b != 0
    ensures a == quot * b + rem && rem < b
  {
    var n, d := Udwords.Of(a), Udwords.Of(b);
    if n.high == 0 {
      if d.high == 0 {
        quot, rem := DivideWords(n.low, d.low);
      } else {
        quot, rem := 0, n.low;
      }
    } else if d.low == 0 {
      quot, rem := DivideByHigh(n, d);
    } else if d.high == 0 {
      quot, rem := DivideByLow(n, d);
    } else {
      quot, rem := DivideByBoth(n, d);
    }
  }
}
