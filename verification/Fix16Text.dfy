/** abstract-machine/libs/fixmath: what a text means as a number, and on which texts fix16_from_str computes that. */
module Fix16Text {
  import opened Bits
  import opened Ctype
  import opened Fix16Mul
  import opened Fix16Div
  import opened Fix16Str

  /** The parts of the text of a number. */
  datatype Text = Text(lead: string, sign: string, a: string, point: string, b: string, tail: string) {
    function Join(): string { lead + sign + a + point + b + tail }

    predicate Negative() { sign == "-" }

    /**
     * At most five decimals; nothing but spaces and, as the code has it, further digits behind them. A digit that follows
     * the integer part or fewer than five decimals belongs to them.
     */
    predicate Formed() {
      && AllSpaces(lead) && (sign == "" || sign == "+" || sign == "-")
      && a != "" && AllDigits(a) && AllDigits(b) && |b| <= 5
      && (if point == "" then b == "" else point == "." || point == ",")
      && Clean(tail, 0) && (tail != "" && IsDigit(tail[0]) ==> |b| == 5)
    }

    function Whole(): nat
      requires Formed()
    {
      Number(a, 0, |a|)
    }

    /** The decimals to the nearest raw unit. */
    function Frac(): nat
      requires Formed()
    {
      Nearest(Number(b, 0, |b|), Pow10(|b|))
    }

    /** The magnitude is Digits / 10^|b|. */
    function Digits(): nat
      requires Formed()
    {
      Scaled(Whole(), Number(b, 0, |b|), |b|)
    }

    /** The value in raw units, rounded to nearest, or overflow if it does not fit. */
    function Meant(): i32
      requires Formed()
    {
      var r: int := Nearest(Digits(), Pow10(|b|));
      Fit(if Negative() then -r else r)
    }
  }

  function Scaled(whole: nat, frac: nat, k: nat): nat { whole * Pow10(k) + frac }

  predicate AllSpaces(s: string) { forall k :: 0 <= k < |s| ==> IsSpace(s[k]) }

  /** n / d in raw units, rounded half up. */
  function Nearest(n: nat, d: nat): nat {
    if d == 0 then 0 else Quotient(2 * (n * W16) + d, 2 * d)
  }

  lemma NearestMeans(n: nat, d: nat, r: nat)
    requires d > 0
    ensures r == Nearest(n, d) <==> (2 * r - 1) * d <= 2 * (n * W16) < (2 * r + 1) * d
  {
    var x, q: int := 2 * (n * W16) + d, Nearest(n, d);
    assert x == 2 * d * (x / (2 * d)) + x % (2 * d);
    Between(q, d, x);
    if (2 * r - 1) * d <= 2 * (n * W16) < (2 * r + 1) * d {
      MulOrder(2 * r - 1, 2 * q + 1, d);
      MulOrder(2 * q - 1, 2 * r + 1, d);
    }
  }

  lemma Between(q: int, d: nat, x: nat)
    requires d > 0 && 2 * d * q <= x < 2 * d * q + 2 * d
    ensures (2 * q - 1) * d <= x - d < (2 * q + 1) * d
  {
    assert (2 * q - 1) * d == 2 * d * q - d;
    assert (2 * q + 1) * d == 2 * d * q + d;
  }

  lemma MulOrder(a: int, b: int, d: nat)
    requires a * d < b * d
    ensures a < b
  {
    if a >= b {
      MulMono(b, a, d);
    }
  }

  lemma NearestWhole(w: nat, n: nat, d: nat)
    requires d > 0
    ensures Nearest(w * d + n, d) == w * W16 + Nearest(n, d)
  {
    var r := Nearest(n, d);
    NearestMeans(n, d, r);
    NearestMeans(w * d + n, d, w * W16 + r);
    assert (2 * (w * W16 + r) - 1) * d == 2 * W16 * (w * d) + (2 * r - 1) * d;
    assert (2 * (w * W16 + r) + 1) * d == 2 * W16 * (w * d) + (2 * r + 1) * d;
    assert 2 * ((w * d + n) * W16) == 2 * W16 * (w * d) + 2 * (n * W16);
  }

  /** Up to five decimals are read as they are meant. */
  lemma DecimalsMeant(n: nat, k: nat)
    requires k <= 5 && n < Pow10(k)
    ensures DecimalPart(n, k) == Nearest(n, Pow10(k)) < W16
  {
    ScaleBound(k);
    var d, r := Pow10(k), DecimalPart(n, k);
    DecimalPartNearest(n, k, d);
    if r < 0 {
      MulMono(2 * r + 1, -1, d);
    }
    NearestMeans(n, d, r);
    if r >= W16 {
      MulMono(0x1_FFFF, 2 * r - 1, d);
    }
  }

  lemma FracSmall(x: Text)
    requires x.Formed()
    ensures x.Frac() < W16 && DecimalPart(Number(x.b, 0, |x.b|), |x.b|) == x.Frac()
  {
    NumberBound(x.b, 0, |x.b|);
    DecimalsMeant(Number(x.b, 0, |x.b|), |x.b|);
  }

  lemma MeantParts(x: Text)
    requires x.Formed()
    ensures x.Meant() == Fit(if x.Negative() then -(x.Whole() * W16 + x.Frac()) else x.Whole() * W16 + x.Frac())
  {
    ScaleBound(|x.b|);
    NearestWhole(x.Whole(), Number(x.b, 0, |x.b|), Pow10(|x.b|));
  }

  // ---- What is read ----

  lemma {:induction false} SkipSpacesIs(s: string, i: nat, j: nat)
    requires i <= j <= |s| && forall k :: i <= k < j ==> IsSpace(s[k])
    requires j < |s| ==> !IsSpace(s[j])
    ensures SkipSpaces(s, i) == j
    decreases j - i
  {
    if i < j {
      SkipSpacesIs(s, i + 1, j);
    }
  }

  lemma Laid(s: string, x: Text)
    requires s == x.Join()
    ensures Lies(s, x)
  {
  }

  predicate Lies(s: string, x: Text) {
    Holds(s, 0, x.lead) && Holds(s, |x.lead|, x.sign) && LiesBehind(s, |x.lead| + |x.sign|, x)
  }

  /** From j on, where the sign ends. */
  predicate LiesBehind(s: string, j: nat, x: Text) {
    && j + |x.a| + |x.point| + |x.b| + |x.tail| == |s| && Holds(s, j, x.a) && Holds(s, j + |x.a|, x.point)
    && Holds(s, j + |x.a| + |x.point|, x.b) && Holds(s, j + |x.a| + |x.point| + |x.b|, x.tail)
  }

  lemma ReadFront(s: string, lead: string, sign: string, a: string)
    requires AllSpaces(lead) && (sign == "" || sign == "+" || sign == "-") && AllDigits(a) && a != ""
    requires Holds(s, 0, lead) && Holds(s, |lead|, sign) && Holds(s, |lead| + |sign|, a)
    ensures FromStr(s) == ParseWhole(s, |lead| + |sign|, sign == "-")
  {
    forall k | 0 <= k < |lead| ensures IsSpace(s[k]) {
      assert s[0 + k] == lead[k];
    }
    if sign == "" {
      assert s[|lead| + |sign| + 0] == a[0];
    } else {
      assert s[|lead| + 0] == sign[0];
    }
    SkipSpacesIs(s, 0, |lead|);
  }

  /** The integer part ends where the point or the tail begins. */
  lemma ReadInteger(s: string, j: nat, a: string, next: string)
    requires AllDigits(a) && j + |a| + |next| == |s| && (next != "" ==> !IsDigit(next[0]))
    requires Holds(s, j, a) && Holds(s, j + |a|, next)
    ensures forall k :: j <= k < j + |a| ==> IsDigit(s[k])
    ensures DigitsEnd(s, j, |s|) == j + |a| && Number(s, j, j + |a|) == Number(a, 0, |a|)
  {
    NumberShift(s, a, j, |a|);
    if next != "" {
      assert s[j + |a| + 0] == next[0];
    }
    DigitsEndIs(s, j, |s|, j + |a|);
  }

  lemma ReadTail(s: string, m: nat, tail: string)
    requires m + |tail| == |s| && Holds(s, m, tail) && Clean(tail, 0)
    ensures Clean(s, m)
  {
    forall k | m <= k < |s| ensures IsDigit(s[k]) || IsSpace(s[k]) {
      assert s[m + (k - m)] == tail[k - m];
    }
  }

  /** The decimals end after five, or where the tail begins. */
  lemma ReadPlaces(s: string, k: nat, b: string, tail: string)
    requires AllDigits(b) && |b| <= 5 && Point(s, k) && k + 1 + |b| + |tail| == |s|
    requires Holds(s, k + 1, b) && Holds(s, k + 1 + |b|, tail) && (tail != "" && IsDigit(tail[0]) ==> |b| == 5)
    ensures FractionEnd(s, k) == k + 1 + |b| && Fraction(s, k) == DecimalPart(Number(b, 0, |b|), |b|)
  {
    NumberShift(s, b, k + 1, |b|);
    if tail != "" {
      assert s[k + 1 + |b| + 0] == tail[0];
    }
    DigitsEndIs(s, k + 1, 5, k + 1 + |b|);
  }

  lemma ReadFrac(s: string, k: nat, x: Text)
    requires x.Formed() && k + |x.point| + |x.b| + |x.tail| == |s|
    requires Holds(s, k, x.point) && Holds(s, k + |x.point|, x.b) && Holds(s, k + |x.point| + |x.b|, x.tail)
    ensures FractionEnd(s, k) == k + |x.point| + |x.b| && Fraction(s, k) == x.Frac()
  {
    FracSmall(x);
    if x.point == "" {
      if x.tail != "" {
        assert s[k + 0 + 0 + 0] == x.tail[0];
      }
      NoDecimals(x);
    } else {
      assert s[k + 0] == x.point[0];
      ReadPlaces(s, k, x.b, x.tail);
    }
  }

  lemma NoDecimals(x: Text)
    requires x.Formed() && x.b == ""
    ensures x.Frac() == 0
  {
  }

  /** What fix16_from_str makes of a text. */
  function Read(x: Text): i32
    requires x.Formed() && x.Frac() < W16
  {
    if |x.a| > 5 || x.Whole() > 32768 || (!x.Negative() && x.Whole() > 32767) then OVERFLOW
    else Signed(x.Whole(), x.Frac(), x.Negative())
  }

  lemma ReadIs(x: Text)
    requires x.Formed()
    ensures x.Frac() < W16 && FromStr(x.Join()) == Read(x)
  {
    FracSmall(x);
    Laid(x.Join(), x);
    ReadLaid(x.Join(), x);
  }

  lemma ReadLaid(s: string, x: Text)
    requires x.Formed() && x.Frac() < W16 && Lies(s, x)
    ensures FromStr(s) == Read(x)
  {
    ReadFront(s, x.lead, x.sign, x.a);
    ReadBack(s, |x.lead| + |x.sign|, x);
  }

  lemma ReadBack(s: string, j: nat, x: Text)
    requires x.Formed() && x.Frac() < W16 && LiesBehind(s, j, x)
    ensures ParseWhole(s, j, x.Negative()) == Read(x)
  {
    ReadDigits(s, j, x);
    ReadRest(s, j + |x.a|, x);
  }

  lemma ReadDigits(s: string, j: nat, x: Text)
    requires x.Formed() && LiesBehind(s, j, x)
    ensures ParseWhole(s, j, x.Negative()) ==
      if |x.a| > 5 || x.Whole() > 32768 || (!x.Negative() && x.Whole() > 32767) then OVERFLOW
      else ParseRest(s, j + |x.a|, x.Whole(), x.Negative())
  {
    Behind(s, x, j + |x.a|);
    ReadInteger(s, j, x.a, x.point + x.b + x.tail);
  }

  lemma ReadRest(s: string, k: nat, x: Text)
    requires x.Formed() && x.Frac() < W16 && k + |x.point| + |x.b| + |x.tail| == |s|
    requires Holds(s, k, x.point) && Holds(s, k + |x.point|, x.b) && Holds(s, k + |x.point| + |x.b|, x.tail)
    ensures ParseRest(s, k, x.Whole(), x.Negative()) == Signed(x.Whole(), x.Frac(), x.Negative())
  {
    ReadFrac(s, k, x);
    ReadTail(s, k + |x.point| + |x.b|, x.tail);
  }

  /** Everything behind the integer part. */
  lemma Behind(s: string, x: Text, k: nat)
    requires x.Formed() && k + |x.point| + |x.b| + |x.tail| == |s|
    requires Holds(s, k, x.point) && Holds(s, k + |x.point|, x.b) && Holds(s, k + |x.point| + |x.b|, x.tail)
    ensures var next := x.point + x.b + x.tail; Holds(s, k, next) && (next != "" ==> !IsDigit(next[0]))
  {
    var next := x.point + x.b + x.tail;
    forall l | 0 <= l < |next| ensures s[k + l] == next[l] {
      if l < |x.point| {
        assert s[k + l] == x.point[l];
      } else if l < |x.point| + |x.b| {
        assert s[k + |x.point| + (l - |x.point|)] == x.b[l - |x.point|];
      } else {
        assert s[k + |x.point| + |x.b| + (l - |x.point| - |x.b|)] == x.tail[l - |x.point| - |x.b|];
      }
    }
  }

  /**
   * The value that is meant is read, up to rounding to the nearest raw unit, and overflow for what does not fit, on exactly
   * these texts: those with at most five digits in front of the point that do not begin with -32768 and go on with decimals;
   * and longer ones that do overflow.
   */
  predicate ReadsRight(x: Text)
    requires x.Formed()
  {
    if |x.a| > 5 then x.Whole() >= 32768 else !(x.Negative() && x.Whole() == 32768 && x.Frac() != 0)
  }

  lemma TextRead(x: Text)
    requires x.Formed()
    ensures FromStr(x.Join()) == x.Meant() <==> ReadsRight(x)
  {
    ReadIs(x);
    MeantParts(x);
    if x.Whole() <= 32768 && (!x.Negative() ==> x.Whole() <= 32767) {
      SignedIs(x.Whole(), x.Frac(), x.Negative());
    }
  }

  /** Only behind 32768 do decimals turn the sum around. */
  lemma SignedIs(whole: nat, frac: i32, negative: bool)
    requires whole <= 32768 && 0 <= frac < W16 && (!negative ==> whole <= 32767)
    ensures Signed(whole, frac, negative) ==
      if whole == 32768 && frac > 0 then W31 - frac
      else if negative then -(whole * W16 + frac) else whole * W16 + frac
  {
    if whole == 32768 {
      Around(frac);
    } else {
      InRange(whole * W16 + frac);
      InRange(-(whole * W16 + frac));
    }
  }

  lemma Around(frac: i32)
    requires 0 <= frac < W16
    ensures ToI32(W31 + frac) == frac - W31 && ToI32(W31 - frac) == if frac == 0 then -W31 else W31 - frac
  {
  }

  /** A text that is read wrong: as 32767.5. */
  lemma FractionTurnsAround()
    ensures FromStr("-32768.5") == 0x7FFF_8000
  {
    var x := Text("", "-", "32768", ".", "5", "");
    assert x.Join() == "-32768.5";
    FiveIs(x.a, 32768);
    assert Number(x.b, 0, 1) == 5;
    assert Pow10(1) == 10;
    assert Nearest(5, 10) == 0x8000;
    ReadIs(x);
    SignedIs(32768, 0x8000, true);
  }

  lemma FiveIs(a: string, n: nat)
    requires a == "32768" && n == 32768
    ensures AllDigits(a) && Number(a, 0, 5) == n
  {
    assert Number(a, 0, 1) == 3;
    assert Number(a, 0, 2) == 32;
    assert Number(a, 0, 3) == 327;
    assert Number(a, 0, 4) == 3276;
  }

  /** And one that is not read at all. */
  lemma ZeroesCount()
    ensures FromStr("000001") == OVERFLOW
  {
    var x := Text("", "", "000001", "", "", "");
    assert x.Join() == "000001";
    ReadIs(x);
  }

  /** Digits behind a space are no garbage to the code. */
  lemma MixtureIsRead()
    ensures FromStr("1 2") == W16
  {
    var x := Text("", "", "1", "", "", " 2");
    assert x.Join() == "1 2";
    assert Number(x.a, 0, 1) == 1;
    NoDecimals(x);
    ReadIs(x);
    SignedIs(1, 0, false);
  }

  // ---- Nothing else is read ----

  lemma {:induction false} SkipSpacesStops(s: string, i: nat)
    requires i <= |s|
    ensures forall k :: i <= k < SkipSpaces(s, i) ==> IsSpace(s[k])
    decreases |s| - i
  {
    if i < |s| && IsSpace(s[i]) {
      SkipSpacesStops(s, i + 1);
    }
  }

  lemma {:induction false} DigitsEndStops(s: string, i: nat, n: nat)
    requires i <= |s|
    ensures var j := DigitsEnd(s, i, n); j < |s| && j - i < n ==> !IsDigit(s[j])
    decreases n
  {
    if n > 0 && i < |s| && IsDigit(s[i]) {
      DigitsEndStops(s, i + 1, n - 1);
    }
  }

  /** Whatever is not refused is a text of this form: everything else gives the overflow value. */
  lemma ReadIsText(s: string) returns (x: Text)
    requires FromStr(s) != OVERFLOW
    ensures x.Formed() && x.Join() == s
  {
    var i := SkipSpaces(s, 0);
    var j := SkipSign(s, i);
    var k := DigitsEnd(s, j, |s|);
    var p, m := if Point(s, k) then k + 1 else k, FractionEnd(s, k);
    x := Cut(s, i, j, k, p, m);
    CutSpaces(s);
    CutDigits(s, j, |s|);
    DigitsEndStops(s, j, |s|);
    CutPlaces(s, k, p, m);
    CutTail(s, m);
  }

  lemma CutSpaces(s: string)
    ensures AllSpaces(s[..SkipSpaces(s, 0)])
  {
    SkipSpacesStops(s, 0);
  }

  lemma CutDigits(s: string, i: nat, n: nat)
    requires i <= |s|
    ensures AllDigits(s[i..DigitsEnd(s, i, n)])
  {
    DigitsUpTo(s, i, n);
  }

  lemma CutTail(s: string, m: nat)
    requires m <= |s| && Clean(s, m)
    ensures Clean(s[m..], 0)
  {
  }

  lemma CutPlaces(s: string, k: nat, p: nat, m: nat)
    requires k <= |s| && (k < |s| ==> !IsDigit(s[k]))
    requires p == (if Point(s, k) then k + 1 else k) && m == FractionEnd(s, k)
    ensures p <= m <= p + 5 && AllDigits(s[p..m]) && (p == k ==> m == k) && (m < |s| && IsDigit(s[m]) ==> m - p == 5)
    ensures s[k..p] == if p == k then "" else [s[k]]
  {
    TailStops(s, k);
    if Point(s, k) {
      CutDigits(s, k + 1, 5);
    }
  }

  lemma TailStops(s: string, k: nat)
    requires k <= |s| && (k < |s| ==> !IsDigit(s[k]))
    ensures var m := FractionEnd(s, k); m < |s| && IsDigit(s[m]) ==> Point(s, k) && m - (k + 1) == 5
  {
    if Point(s, k) {
      DigitsEndStops(s, k + 1, 5);
    }
  }

  lemma Cut(s: string, i: nat, j: nat, k: nat, p: nat, m: nat) returns (x: Text)
    requires i <= j <= k <= p <= m <= |s|
    ensures x == Text(s[..i], s[i..j], s[j..k], s[k..p], s[p..m], s[m..]) && x.Join() == s
  {
    x := Text(s[..i], s[i..j], s[j..k], s[k..p], s[p..m], s[m..]);
  }

  // ---- What is printed ----

  /**
   * What is printed is the text of the value, rounded half up in magnitude to the decimals asked for, of which there are at
   * most five: without blanks, with a minus sign or none, without leading zeros, and with a point when decimals follow.
   */
  lemma PrintedText(value: i32, decimals: int) returns (x: Text)
    requires value != -W31
    ensures x.Formed() && x.Join() == ToStr(value, decimals)
    ensures x.lead == "" && x.tail == "" && x.sign == (if value < 0 then "-" else "")
    ensures |x.a| <= 5 && (|x.a| > 1 ==> x.a[0] != '0') && x.point == (if x.b == "" then "" else ".")
    ensures |x.b| == if decimals % 8 < 5 then decimals % 8 else 5
    ensures x.Digits() == (Abs(value) * Pow10(|x.b|) + 0x8000) / W16
  {
    var n := ScalePlaces(decimals);
    var scale := Scale(decimals);
    SeparateRounds(Abs(value), scale);
    x := PrintedParts(value < 0, Separate(Abs(value), scale), scale, 10000, n);
  }

  /** The table of scales holds the powers of ten, and the last one for all larger numbers of decimals. */
  lemma ScalePlaces(decimals: int) returns (n: nat)
    ensures n == (if decimals % 8 < 5 then decimals % 8 else 5) && Scale(decimals) == Pow10(n)
  {
    n := if decimals % 8 < 5 then decimals % 8 else 5;
    SmallPowers(n, Scale(decimals));
  }

  lemma SmallPowers(n: nat, scale: nat)
    requires n <= 5 && scale == [1, 10, 100, 1000, 10000, 100000][n]
    ensures Pow10(n) == scale
  {
    FivePlaces();
    if n < 5 {
      assert Pow10(n + 1) == 10 * Pow10(n);
    }
    if n < 4 {
      assert Pow10(n + 2) == 10 * Pow10(n + 1);
    }
    if n < 3 {
      assert Pow10(n + 3) == 10 * Pow10(n + 2);
    }
  }

  lemma Places(scale: u32, n: nat)
    requires IsScale(scale) && n <= 5 && scale == Pow10(n)
    ensures n == 0 <==> scale == 1
    ensures scale != 1 ==> IsPow10(scale / 10) && scale == scale / 10 * 10
  {
    if n > 0 {
      Pow10Mono(1, n);
    }
  }

  lemma PrintedParts(negative: bool, d: Decimal, scale: u32, top: nat, n: nat) returns (x: Text)
    requires IsScale(scale) && d.whole < 100000 && d.frac < scale && top == 10000 && n <= 5 && scale == Pow10(n)
    ensures x.Formed() && x.Join() == Print(negative, d, scale)
    ensures x.lead == "" && x.tail == "" && x.sign == (if negative then "-" else "")
    ensures |x.a| <= 5 && (|x.a| > 1 ==> x.a[0] != '0') && x.point == (if x.b == "" then "" else ".")
    ensures |x.b| == n && x.Whole() == d.whole && Number(x.b, 0, n) == d.frac
  {
    FivePlaces();
    ItoaDenotes(top, d.whole, true, 5);
    NoLeadingZero(top, d.whole);
    var point, b := PrintedDecimals(scale, d.frac, n);
    x := Text("", if negative then "-" else "", Itoa(top, d.whole, true), point, b, "");
    Joined(x);
  }

  lemma Joined(x: Text)
    requires x.lead == "" && x.tail == ""
    ensures x.Join() == x.sign + x.a + (x.point + x.b)
  {
  }

  lemma PrintedDecimals(scale: u32, frac: nat, n: nat) returns (point: string, b: string)
    requires IsScale(scale) && frac < scale && n <= 5 && scale == Pow10(n)
    ensures point + b == Decimals(scale, frac) && point == (if b == "" then "" else ".")
    ensures AllDigits(b) && |b| == n && Number(b, 0, n) == frac
  {
    Places(scale, n);
    if scale == 1 {
      point, b := "", "";
    } else {
      point, b := ".", Itoa(scale / 10, frac, false);
      ItoaDenotes(scale / 10, frac, false, n);
    }
  }

  // ---- The round trip ----

  /** The two roundings cancel when the scale is larger than 2^16: so many decimals determine the number. */
  lemma RoundingsCancel(u: nat, scale: nat, digits: nat)
    requires scale > W16 && digits == (u * scale + 0x8000) / W16
    ensures Nearest(digits, scale) == u
  {
    assert (2 * u - 1) * scale == 2 * (u * scale) - scale;
    assert (2 * u + 1) * scale == 2 * (u * scale) + scale;
    NearestMeans(digits, scale, u);
  }

  /** Printing with five decimals and parsing again gives back every number. */
  lemma RoundTrip(value: i32, decimals: int)
    requires value != -W31 && decimals % 8 >= 5
    ensures FromStr(ToStr(value, decimals)) == value
  {
    var x := PrintedText(value, decimals);
    FivePlaces();
    RoundingsCancel(Abs(value), Pow10(|x.b|), x.Digits());
    NearestWhole(x.Whole(), Number(x.b, 0, |x.b|), Pow10(|x.b|));
    assert x.Whole() < 32768;
    TextRead(x);
  }

  lemma NoZeroByte(value: i32, decimals: int)
    requires value != -W31
    ensures '\0' !in ToStr(value, decimals)
  {
    var x := PrintedText(value, decimals);
    assert '\0' !in x.lead && '\0' !in x.a && '\0' !in x.b && '\0' !in x.tail;
  }

  /** Formatting into a buffer and parsing it gives back the number. */
  method FormatAndParse(value: i32, buf: array<char>, decimals: int) returns (r: i32)
    requires value != -W31 && buf.Length >= 13 && decimals % 8 >= 5
    modifies buf
    ensures r == value
  {
    Format(value, buf, decimals);
    ToStrFits(value, decimals);
    NoZeroByte(value, decimals);
    WroteText(buf, ToStr(value, decimals));
    RoundTrip(value, decimals);
    r := Parse(buf, ToStr(value, decimals));
  }
}
