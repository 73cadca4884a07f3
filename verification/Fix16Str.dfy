/** abstract-machine/libs/fixmath: decimal printing and parsing of Q16.16 numbers. */
module Fix16Str {
  import opened Bits
  import opened Ctype
  import opened Fix16Mul
  import opened Fix16Div

  const SCALES: seq<u32> := [1, 10, 100, 1000, 10000, 100000, 100000, 100000]

  /** The scale for a number of decimals: `& 7` is the remainder by 8 for negative numbers as well. */
  function Scale(decimals: int): (s: u32)
    ensures s == 1 || s == 10 || s == 100 || s == 1000 || s == 10000 || s == 100000
  {
    SCALES[decimals % 8]
  }

  // ---- Printing ----

  predicate IsPow10(scale: nat) {
    scale == 1 || scale == 10 || scale == 100 || scale == 1000 || scale == 10000
  }

  /** The first digit of value at a scale, and what is left for the next scale. */
  lemma DigitParts(value: nat, scale: nat)
    requires IsPow10(scale) && value < 10 * scale
    ensures value / scale < 10 && value % scale < scale && value == (value / scale) * scale + value % scale
    ensures if scale == 1 then scale / 10 == 0 else IsPow10(scale / 10) && scale == 10 * (scale / 10)
    ensures value / scale == 0 <==> value < scale
  {
    if scale == 1 {
    } else if scale == 10 {
    } else if scale == 100 {
    } else if scale == 1000 {
    }
  }

  /** itoa_loop: the digits of value from scale down; skip leaves out leading zeros. */
  function Itoa(scale: nat, value: nat, skip: bool): string
    requires scale == 0 || (IsPow10(scale) && value < 10 * scale)
    decreases scale
  {
    if scale == 0 then ""
    else
      DigitParts(value, scale);
      if !skip || value / scale != 0 || scale == 1 then
        [DigitChar(value / scale)] + Itoa(scale / 10, value % scale, false)
      else
        Itoa(scale / 10, value, true)
  }

  function Pow10(k: nat): nat { if k == 0 then 1 else 10 * Pow10(k - 1) }

  /** The number that the characters of s from i to j denote. */
  function Number(s: string, i: nat, j: nat): nat
    requires j <= |s| && forall k :: i <= k < j ==> IsDigit(s[k])
    decreases j
  {
    if j <= i then 0 else 10 * Number(s, i, j - 1) + DigitValue(s[j - 1])
  }

  predicate AllDigits(s: string) { forall k :: 0 <= k < |s| ==> IsDigit(s[k]) }

  lemma {:induction false} NumberCons(c: char, s: string, j: nat)
    requires j <= |s| && AllDigits(s) && IsDigit(c)
    ensures AllDigits([c] + s)
    ensures Number([c] + s, 0, j + 1) == DigitValue(c) * Pow10(j) + Number(s, 0, j)
  {
    DigitsCons(c, s);
    if j > 0 {
      NumberCons(c, s, j - 1);
      assert ([c] + s)[j] == s[j - 1];
      TenTimes(DigitValue(c), Pow10(j - 1));
    }
  }

  lemma TenTimes(d: nat, p: nat)
    ensures d * (10 * p) == 10 * (d * p)
  {
  }

  lemma DigitsCons(c: char, s: string)
    requires AllDigits(s) && IsDigit(c)
    ensures AllDigits([c] + s)
  {
  }

  /** What itoa_loop prints denotes value: at most one digit for each scale, and all of them unless zeros are skipped. */
  lemma {:induction false} ItoaDenotes(scale: nat, value: nat, skip: bool, n: nat)
    requires IsPow10(scale) && value < 10 * scale && scale * 10 == Pow10(n)
    ensures var s := Itoa(scale, value, skip);
      AllDigits(s) && 1 <= |s| <= n && (!skip ==> |s| == n) && Number(s, 0, |s|) == value
  {
    DigitParts(value, scale);
    if scale == 1 {
      assert Pow10(1) == 10;
      ItoaLast(value, skip);
    } else {
      assert Pow10(n) == 10 * Pow10(n - 1);
      if !skip || value / scale != 0 {
        ItoaDenotes(scale / 10, value % scale, false, n - 1);
        FirstDigit(value / scale, Itoa(scale / 10, value % scale, false), scale, n - 1, value % scale);
      } else {
        ItoaDenotes(scale / 10, value, true, n - 1);
      }
    }
  }

  /** Skipping leaves no zero in front, but for the number zero. */
  lemma {:induction false} NoLeadingZero(scale: nat, value: nat)
    requires IsPow10(scale) && value < 10 * scale
    ensures var s := Itoa(scale, value, true); |s| > 1 ==> s[0] != '0'
  {
    DigitParts(value, scale);
    if value / scale != 0 {
      assert Itoa(scale, value, true)[0] == DigitChar(value / scale);
    } else if scale != 1 {
      NoLeadingZero(scale / 10, value);
    }
  }

  lemma FirstDigit(digit: nat, rest: string, scale: nat, n: nat, value: nat)
    requires digit < 10 && AllDigits(rest) && |rest| == n && Number(rest, 0, n) == value && scale == Pow10(n)
    ensures var s := [DigitChar(digit)] + rest; AllDigits(s) && |s| == n + 1 && Number(s, 0, |s|) == digit * scale + value
  {
    NumberCons(DigitChar(digit), rest, n);
  }

  lemma ItoaLast(value: nat, skip: bool)
    requires value < 10
    ensures var s := Itoa(1, value, skip); s == [DigitChar(value)] && Number(s, 0, 1) == value
  {
  }

  /** A number by its integer part and its decimals. */
  datatype Decimal = Decimal(whole: nat, frac: nat)

  predicate IsScale(scale: nat) { IsPow10(scale) || scale == 100000 }

  lemma FracScaled(f: nat, scale: nat)
    requires f < W16 && IsScale(scale)
    ensures Mul(f, scale) == (f * scale + 0x8000) / W16 <= scale
  {
    MulSmall(f, scale);
    MulMono(f, 0xFFFF, scale);
    MulMono(0, f, scale);
    var x := f * scale;
    assert MulSpec(f, scale) == Fit(Rounded(x));
  }

  /** The part of fix16_to_str that separates integer part and decimals and carries between them. */
  function Separate(u: u32, scale: u32): (d: Decimal)
    requires IsScale(scale)
    ensures d.frac < scale && d.whole <= u / W16 + 1
  {
    FracScaled(u % W16, scale);
    Carry(u / W16, Mul(u % W16, scale), scale)
  }

  function Carry(whole: nat, frac: nat, scale: nat): Decimal {
    if frac >= scale then Decimal(whole + 1, frac - scale) else Decimal(whole, frac)
  }

  /** It is u / 65536 rounded to the scale, half up: the carry is right. */
  lemma SeparateRounds(u: u32, scale: u32)
    requires IsScale(scale)
    ensures var d := Separate(u, scale); d.whole * scale + d.frac == (u * scale + 0x8000) / W16
  {
    FracScaled(u % W16, scale);
    RoundParts(u / W16, u % W16, u, scale, u * scale, (u % W16) * scale);
    assert (u / W16 + 1) * scale == (u / W16) * scale + scale;
  }

  lemma RoundParts(i: nat, f: nat, u: nat, scale: nat, us: int, fs: int)
    requires u == i * W16 + f && us == u * scale && fs == f * scale
    ensures (us + 0x8000) / W16 == i * scale + (fs + 0x8000) / W16
  {
    assert us == (i * scale) * W16 + fs;
    AddWhole(i * scale, fs + 0x8000);
  }

  lemma AddWhole(q: int, x: int)
    ensures (q * W16 + x) / W16 == q + x / W16
  {
  }

  /** fix16_to_str, without the final zero byte. */
  function ToStr(value: i32, decimals: int): string
    requires value != -W31
  {
    Print(value < 0, Separate(Abs(value), Scale(decimals)), Scale(decimals))
  }

  function Print(negative: bool, d: Decimal, scale: u32): string
    requires IsScale(scale) && d.whole < 100000 && d.frac < scale
  {
    (if negative then "-" else "") + Itoa(10000, d.whole, true) + Decimals(scale, d.frac)
  }

  function Decimals(scale: u32, frac: nat): string
    requires IsScale(scale) && frac < scale
  {
    if scale != 1 then "." + Itoa(scale / 10, frac, false) else ""
  }

  // ---- Parsing ----

  function SkipSpaces(s: string, i: nat): (j: nat)
    requires i <= |s|
    ensures i <= j <= |s|
    decreases |s| - i
  {
    if i < |s| && IsSpace(s[i]) then SkipSpaces(s, i + 1) else i
  }

  function SkipSign(s: string, i: nat): (j: nat)
    requires i <= |s|
    ensures i <= j <= |s|
  {
    if i < |s| && (s[i] == '+' || s[i] == '-') then i + 1 else i
  }

  /** Where the digits from i on end, when at most n of them are read. */
  function DigitsEnd(s: string, i: nat, n: nat): (j: nat)
    requires i <= |s|
    ensures i <= j <= |s| && j - i <= n
    decreases n
  {
    if n > 0 && i < |s| && IsDigit(s[i]) then DigitsEnd(s, i + 1, n - 1) else i
  }

  lemma {:induction false} DigitsUpTo(s: string, i: nat, n: nat)
    requires i <= |s|
    ensures forall k :: i <= k < DigitsEnd(s, i, n) ==> IsDigit(s[k])
    decreases n
  {
    if n > 0 && i < |s| && IsDigit(s[i]) {
      DigitsUpTo(s, i + 1, n - 1);
    }
  }

  /** Nothing but digits and spaces from i on. */
  predicate Clean(s: string, i: nat) {
    forall k :: i <= k < |s| ==> IsDigit(s[k]) || IsSpace(s[k])
  }

  predicate Point(s: string, i: nat) { i < |s| && (s[i] == '.' || s[i] == ',') }

  /** Where the decimals behind an integer part that ends at k end, and what they are worth. */
  function FractionEnd(s: string, k: nat): (m: nat)
    requires k <= |s|
    ensures k <= m <= |s|
  {
    if Point(s, k) then DigitsEnd(s, k + 1, 5) else k
  }

  function Fraction(s: string, k: nat): i32
    requires k <= |s|
  {
    if Point(s, k) then
      DigitsUpTo(s, k + 1, 5);
      DecimalPart(Number(s, k + 1, FractionEnd(s, k)), FractionEnd(s, k) - k - 1)
    else 0
  }

  /** What is left of fix16_from_str after the integer part, which ends at k. */
  function ParseRest(s: string, k: nat, whole: nat, negative: bool): i32
    requires k <= |s|
  {
    Conclusion(s, FractionEnd(s, k), whole, Fraction(s, k), negative)
  }

  function Conclusion(s: string, m: nat, whole: nat, frac: i32, negative: bool): i32 {
    if Clean(s, m) then Signed(whole, frac, negative) else OVERFLOW
  }

  /** n / 10^k in raw units. */
  function DecimalPart(n: nat, k: nat): i32 { DivResult(ToI32(n), ToI32(Pow10(k))) }

  /** Decimals are read to the nearest raw unit, ties up. */
  lemma DecimalPartNearest(n: nat, k: nat, scale: nat)
    requires k <= 5 && scale == Pow10(k) && n < scale
    ensures var r := DecimalPart(n, k); (2 * r - 1) * scale <= 2 * (n * W16) < (2 * r + 1) * scale
  {
    ScaleBound(k);
    InRange(n);
    InRange(scale);
    DivSmall(n, scale);
    HalfNearest(n, scale, Twice(n, scale));
  }

  lemma HalfNearest(n: nat, scale: nat, twice: nat)
    requires 0 < scale && n < scale && twice == Quotient(n * 0x20000, scale)
    ensures var r := Halved(twice, false); (2 * r - 1) * scale <= 2 * (n * W16) < (2 * r + 1) * scale
  {
    QuotientBound(n * 0x20000, scale, 0x20000);
    HalvedFits(twice);
    HalvedIsNearest(n * W16, scale, twice);
  }

  lemma HalvedFits(t: nat)
    requires t <= 0x20000
    ensures Halved(t, false) == (t + 1) / 2
  {
  }

  lemma {:induction false} ScaleBound(k: nat)
    requires k <= 5
    ensures 1 <= Pow10(k) <= 100000
  {
    FivePlaces();
    Pow10Mono(k, 5);
    Pow10Mono(0, k);
  }

  function Signed(whole: nat, frac: i32, negative: bool): i32 {
    var v: int := ToI32(whole * W16 + frac);
    if negative then ToI32(-v) else v
  }

  /** fix16_from_str from the integer part on, which begins at j. */
  function ParseWhole(s: string, j: nat, negative: bool): i32
    requires j <= |s|
  {
    var k := DigitsEnd(s, j, |s|);
    DigitsUpTo(s, j, |s|);
    var whole := Number(s, j, k);
    if k == j || k - j > 5 || whole > 32768 || (!negative && whole > 32767) then OVERFLOW
    else ParseRest(s, k, whole, negative)
  }

  /** fix16_from_str on the characters before the zero byte. */
  function FromStr(s: string): i32 {
    var i := SkipSpaces(s, 0);
    ParseWhole(s, SkipSign(s, i), i < |s| && s[i] == '-')
  }

  // ---- Strings inside strings ----

  /** The string t stands in buf from off on. */
  predicate Holds(buf: seq<char>, off: nat, t: string) {
    off + |t| <= |buf| && forall k :: 0 <= k < |t| ==> buf[off + k] == t[k]
  }

  lemma {:induction false} DigitsEndIs(s: string, i: nat, n: nat, j: nat)
    requires i <= j <= |s| && j - i <= n && forall k :: i <= k < j ==> IsDigit(s[k])
    requires j == |s| || !IsDigit(s[j]) || j - i == n
    ensures DigitsEnd(s, i, n) == j
    decreases n
  {
    if i < j {
      DigitsEndIs(s, i + 1, n - 1, j);
    }
  }

  /** A number keeps its value inside a longer string. */
  lemma {:induction false} NumberShift(s: string, t: string, off: nat, j: nat)
    requires j <= |t| && Holds(s, off, t) && AllDigits(t)
    ensures forall k :: off <= k < off + j ==> IsDigit(s[k])
    ensures Number(s, off, off + j) == Number(t, 0, j)
  {
    forall k | off <= k < off + j ensures IsDigit(s[k]) {
      assert s[off + (k - off)] == t[k - off];
    }
    if j > 0 {
      NumberShift(s, t, off, j - 1);
      assert s[off + (j - 1)] == t[j - 1];
    }
  }

  lemma InRange(v: int)
    requires -W31 <= v < W31
    ensures ToI32(v) == v
  {
  }

  lemma FivePlaces()
    ensures Pow10(5) == 100000
  {
  }

  // ---- The buffers ----

  /** buf2 is buf with t written at off. */
  predicate Wrote(buf: seq<char>, buf2: seq<char>, off: nat, t: string) {
    |buf2| == |buf| && Holds(buf2, off, t) && forall k :: 0 <= k < |buf| && !(off <= k < off + |t|) ==> buf2[k] == buf[k]
  }

  lemma WroteThen(a: seq<char>, b: seq<char>, c: seq<char>, off: nat, t: string, u: string)
    requires Wrote(a, b, off, t) && Wrote(b, c, off + |t|, u)
    ensures Wrote(a, c, off, t + u)
  {
    forall k | 0 <= k < |t + u| ensures c[off + k] == (t + u)[k] {
      if k >= |t| {
        assert c[off + |t| + (k - |t|)] == u[k - |t|];
      }
    }
  }

  lemma WroteNothing(a: seq<char>, off: nat)
    requires off <= |a|
    ensures Wrote(a, a, off, "")
  {
  }

  method Put(buf: array<char>, pos: nat, c: char)
    requires pos < buf.Length
    modifies buf
    ensures Wrote(old(buf[..]), buf[..], pos, [c])
  {
    buf[pos] := c;
  }

  /** *buf++ = c */
  method PutNext(buf: array<char>, pos: nat, c: char, ghost start: seq<char>, ghost off: nat, ghost done: string)
    requires pos < buf.Length && pos == off + |done| && Wrote(start, buf[..], off, done)
    modifies buf
    ensures Wrote(start, buf[..], off, done + [c])
  {
    ghost var before := buf[..];
    Put(buf, pos, c);
    WroteThen(start, before, buf[..], off, done, [c]);
  }

  lemma Concat(a: string, b: string, c: string)
    ensures a + (b + c) == a + b + c
  {
  }

  /** itoa_loop, writing at pos; it returns where it has stopped. */
  method ItoaLoop(buf: array<char>, pos0: nat, scale0: u32, value0: u32, skip0: bool) returns (pos: nat)
    requires IsPow10(scale0) && value0 < 10 * scale0 && pos0 + |Itoa(scale0, value0, skip0)| <= buf.Length
    modifies buf
    ensures Wrote(old(buf[..]), buf[..], pos0, Itoa(scale0, value0, skip0)) && pos == pos0 + |Itoa(scale0, value0, skip0)|
  {
    pos := pos0;
    var scale, value, skip := scale0, value0, skip0;
    ghost var done := "";
    ghost var all := Itoa(scale0, value0, skip0);
    WroteNothing(buf[..], pos0);
    while scale != 0
      invariant scale == 0 || (IsPow10(scale) && value < 10 * scale)
      invariant all == done + Itoa(scale, value, skip) && pos == pos0 + |done|
      invariant Wrote(old(buf[..]), buf[..], pos0, done)
      decreases scale
    {
      DigitParts(value, scale);
      var digit := value / scale;
      if !skip || digit != 0 || scale == 1 {
        skip := false;
        Concat(done, [DigitChar(digit)], Itoa(scale / 10, value % scale, false));
        PutNext(buf, pos, DigitChar(digit), old(buf[..]), pos0, done);
        done := done + [DigitChar(digit)];
        pos := pos + 1;
        value := value % scale;
      }
      scale := scale / 10;
    }
    assert done == all;
  }

  /** The longest result has twelve characters; with the zero byte it fits the thirteen the header asks for. */
  lemma ToStrFits(value: i32, decimals: int)
    requires value != -W31
    ensures |ToStr(value, decimals)| <= 12
  {
    var scale := Scale(decimals);
    PrintFits(value < 0, Separate(Abs(value), scale), scale, 10000);
  }

  lemma PrintFits(negative: bool, d: Decimal, scale: u32, top: nat)
    requires IsScale(scale) && d.whole < 100000 && d.frac < scale && top == 10000
    ensures |Print(negative, d, scale)| <= 12
  {
    FivePlaces();
    ItoaDenotes(top, d.whole, true, 5);
    if scale != 1 {
      DecimalsFit(scale, d.frac);
    }
  }

  lemma DecimalsFit(scale: u32, frac: nat)
    requires IsScale(scale) && scale != 1 && frac < scale
    ensures |Decimals(scale, frac)| <= 6
  {
    FivePlaces();
    var n := if scale == 10 then 1 else if scale == 100 then 2 else if scale == 1000 then 3 else if scale == 10000 then 4 else 5;
    ItoaDenotes(scale / 10, frac, false, n);
  }

  /** fix16_to_str */
  method Format(value: i32, buf: array<char>, decimals: int)
    requires value != -W31 && buf.Length >= 13
    modifies buf
    ensures Wrote(old(buf[..]), buf[..], 0, ToStr(value, decimals) + ['\0'])
  {
    ToStrFits(value, decimals);
    ghost var start := buf[..];
    var uvalue, scale := Abs(value), Scale(decimals);
    var pos := 0;
    WroteNothing(start, 0);
    if value < 0 {
      PutNext(buf, pos, '-', start, 0, "");
      pos := pos + 1;
    }
    ghost var sign := if value < 0 then "-" else "";
    assert Wrote(start, buf[..], 0, sign) by {
      assert "" + ['-'] == "-";
    }
    FracScaled(uvalue % W16, scale);
    var intpart, fracpart: nat := uvalue / W16, Mul(uvalue % W16, scale);
    if fracpart >= scale {
      intpart, fracpart := intpart + 1, fracpart - scale;
    }
    assert Decimal(intpart, fracpart) == Separate(uvalue, scale);
    FormatParts(buf, pos, intpart, fracpart, scale, start, sign);
  }

  method FormatParts(buf: array<char>, pos0: nat, intpart: nat, fracpart: nat, scale: u32, ghost start: seq<char>, ghost sign: string)
    requires IsScale(scale) && intpart < 100000 && fracpart < scale && pos0 == |sign|
    requires Wrote(start, buf[..], 0, sign)
    requires |sign + Itoa(10000, intpart, true) + Decimals(scale, fracpart)| < buf.Length
    modifies buf
    ensures Wrote(start, buf[..], 0, sign + Itoa(10000, intpart, true) + Decimals(scale, fracpart) + ['\0'])
  {
    ghost var before := buf[..];
    var pos := ItoaLoop(buf, pos0, 10000, intpart, true);
    WroteThen(start, before, buf[..], 0, sign, Itoa(10000, intpart, true));
    ghost var done := sign + Itoa(10000, intpart, true);
    if scale != 1 {
      pos := FormatDecimals(buf, pos, fracpart, scale, start, done);
    } else {
      assert done + "" == done;
    }
    PutNext(buf, pos, '\0', start, 0, done + Decimals(scale, fracpart));
  }

  method FormatDecimals(buf: array<char>, pos0: nat, fracpart: nat, scale: u32, ghost start: seq<char>, ghost done: string)
      returns (pos: nat)
    requires IsScale(scale) && scale != 1 && fracpart < scale && pos0 == |done| && Wrote(start, buf[..], 0, done)
    requires |done| + |Decimals(scale, fracpart)| < buf.Length
    modifies buf
    ensures Wrote(start, buf[..], 0, done + Decimals(scale, fracpart)) && pos == |done| + |Decimals(scale, fracpart)|
  {
    PutNext(buf, pos0, '.', start, 0, done);
    ghost var before := buf[..];
    pos := ItoaLoop(buf, pos0 + 1, scale / 10, fracpart, false);
    WroteThen(start, before, buf[..], 0, done + ['.'], Itoa(scale / 10, fracpart, false));
    Concat(done, ".", Itoa(scale / 10, fracpart, false));
  }

  /** s is what stands in the buffer before its zero byte. */
  ghost predicate Text(buf: array<char>, s: string)
    reads buf
  {
    |s| < buf.Length && buf[..|s|] == s && buf[|s|] == '\0' && '\0' !in s
  }

  lemma TextAt(buf: array<char>, s: string, i: nat)
    requires Text(buf, s) && i <= |s|
    ensures buf[i] == '\0' <==> i == |s|
    ensures i < |s| ==> buf[i] == s[i]
  {
    if i < |s| {
      assert buf[..|s|][i] == s[i];
    }
  }

  lemma {:induction false} NumberBound(s: string, i: nat, j: nat)
    requires i <= j <= |s| && forall k :: i <= k < j ==> IsDigit(s[k])
    ensures Number(s, i, j) < Pow10(j - i)
    decreases j
  {
    if i < j {
      NumberBound(s, i, j - 1);
    }
  }

  lemma {:induction false} Pow10Mono(a: nat, b: nat)
    requires a <= b
    ensures Pow10(a) <= Pow10(b)
  {
    if a < b {
      Pow10Mono(a, b - 1);
    }
  }

  /** Up to five digits are worth less than 100000. */
  lemma FiveDigits(s: string, i: nat, j: nat)
    requires i <= j <= |s| && j - i <= 5 && forall k :: i <= k < j ==> IsDigit(s[k])
    ensures Number(s, i, j) < 100000
  {
    NumberBound(s, i, j);
    Pow10Mono(j - i, 5);
    FivePlaces();
  }

  method ReadSpaces(buf: array<char>, ghost s: string) returns (p: nat)
    requires Text(buf, s)
    ensures p == SkipSpaces(s, 0)
  {
    p := 0;
    TextAt(buf, s, 0);
    while IsSpace(buf[p])
      invariant p <= |s| && SkipSpaces(s, 0) == SkipSpaces(s, p) && (IsSpace(buf[p]) ==> p < |s| && buf[p] == s[p])
      invariant p < |s| ==> buf[p] == s[p]
      decreases |s| - p
    {
      p := p + 1;
      TextAt(buf, s, p);
    }
  }

  /** The integer part; the word wraps when there are many digits. */
  method ReadWhole(buf: array<char>, ghost s: string, j: nat) returns (p: nat, intpart: u32, count: nat)
    requires Text(buf, s) && j <= |s|
    ensures p == DigitsEnd(s, j, |s|) && count == p - j && forall k :: j <= k < p ==> IsDigit(s[k])
    ensures count <= 5 ==> intpart == Number(s, j, p)
  {
    p, intpart, count := j, 0, 0;
    TextAt(buf, s, p);
    while IsDigit(buf[p])
      invariant j <= p <= |s| && count == p - j && forall k :: j <= k < p ==> IsDigit(s[k])
      invariant DigitsEnd(s, j, |s|) == DigitsEnd(s, p, |s| - count)
      invariant count <= 5 ==> intpart == Number(s, j, p)
      invariant p < |s| ==> buf[p] == s[p]
      invariant p == |s| ==> buf[p] == '\0'
      decreases |s| - p
    {
      if count < 5 {
        FiveDigits(s, j, p);
      }
      intpart := ToU32(intpart * 10);
      intpart := ToU32(intpart + DigitValue(buf[p]));
      p, count := p + 1, count + 1;
      TextAt(buf, s, p);
    }
  }

  /** At most five decimals, and the scale they are at. */
  method ReadDecimals(buf: array<char>, ghost s: string, j: nat) returns (p: nat, fracpart: u32, scale: u32)
    requires Text(buf, s) && j <= |s|
    ensures p == DigitsEnd(s, j, 5) && (forall k :: j <= k < p ==> IsDigit(s[k])) && fracpart == Number(s, j, p) < 100000
    ensures scale == Pow10(p - j) && 1 <= scale <= 100000
  {
    p, fracpart, scale := j, 0, 1;
    FivePlaces();
    TextAt(buf, s, p);
    while IsDigit(buf[p]) && scale < 100000
      invariant j <= p <= |s| && p - j <= 5 && forall k :: j <= k < p ==> IsDigit(s[k])
      invariant DigitsEnd(s, j, 5) == DigitsEnd(s, p, 5 - (p - j))
      invariant fracpart == Number(s, j, p) < 100000 && scale == Pow10(p - j) && 1 <= scale <= 100000
      invariant p < |s| ==> buf[p] == s[p]
      invariant p == |s| ==> buf[p] == '\0'
      decreases |s| - p
    {
      ScaleOfPlaces(scale, p - j);
      scale := scale * 10;
      fracpart := fracpart * 10;
      fracpart := fracpart + DigitValue(buf[p]);
      p := p + 1;
      FiveDigits(s, j, p);
      TextAt(buf, s, p);
    }
    ScaleOfPlaces(scale, p - j);
  }

  lemma ScaleOfPlaces(scale: u32, n: nat)
    requires scale == Pow10(n) && n <= 5
    ensures scale < 100000 <==> n < 5
  {
    FivePlaces();
    if n < 5 {
      Pow10Mono(n, 4);
      assert Pow10(5) == 10 * Pow10(4);
    }
  }

  /** The check for garbage. */
  method ReadClean(buf: array<char>, ghost s: string, j: nat) returns (clean: bool)
    requires Text(buf, s) && j <= |s|
    ensures clean == Clean(s, j)
  {
    var p := j;
    TextAt(buf, s, p);
    while buf[p] != '\0'
      invariant j <= p <= |s| && forall k :: j <= k < p ==> IsDigit(s[k]) || IsSpace(s[k])
      invariant p < |s| ==> buf[p] == s[p]
      invariant buf[p] == '\0' <==> p == |s|
      decreases |s| - p
    {
      if !IsDigit(buf[p]) && !IsSpace(buf[p]) {
        return false;
      }
      p := p + 1;
      TextAt(buf, s, p);
    }
    return true;
  }

  lemma WrapTwice(x: int, y: int)
    ensures ToI32(ToI32(x) + y) == ToI32(x + y)
  {
  }

  /** The rest of fix16_from_str, after the integer part. */
  method ReadRest(buf: array<char>, ghost s: string, k: nat, intpart: u32, negative: bool) returns (r: i32)
    requires Text(buf, s) && k <= |s| && intpart <= 32768
    ensures r == ParseRest(s, k, intpart, negative)
  {
    var value: i32 := ToI32(intpart * W16);
    var p;
    ghost var f;
    p, value, f := ReadPoint(buf, s, k, value, intpart * W16);
    r := Conclude(buf, s, p, value, negative, intpart, f);
  }

  method ReadPoint(buf: array<char>, ghost s: string, k: nat, value0: i32, ghost x: int)
      returns (p: nat, value: i32, ghost f: i32)
    requires Text(buf, s) && k <= |s| && value0 == ToI32(x)
    ensures p == FractionEnd(s, k) && f == Fraction(s, k) && value == ToI32(x + f)
  {
    p, value, f := k, value0, 0;
    TextAt(buf, s, k);
    if buf[k] == '.' || buf[k] == ',' {
      var d;
      p, d := ReadFraction(buf, s, k);
      value := AddWrapped(value, d, x);
      f := d;
    }
  }

  method AddWrapped(value: i32, d: i32, ghost x: int) returns (r: i32)
    requires value == ToI32(x)
    ensures r == ToI32(x + d)
  {
    var v: int := value;
    WrapTwice(x, d);
    r := ToI32(v + d);
  }

  method ReadFraction(buf: array<char>, ghost s: string, k: nat) returns (p: nat, d: i32)
    requires Text(buf, s) && Point(s, k)
    ensures p == FractionEnd(s, k) && d == Fraction(s, k)
  {
    var fracpart, scale;
    p, fracpart, scale := ReadDecimals(buf, s, k + 1);
    InRange(fracpart);
    InRange(scale);
    d := Div(ToI32(fracpart), ToI32(scale));
    FractionIs(s, k, p, fracpart, scale, d);
  }

  lemma FractionIs(s: string, k: nat, p: nat, n: nat, scale: nat, d: i32)
    requires Point(s, k) && p == FractionEnd(s, k) && (forall l :: k < l < p ==> IsDigit(s[l])) && n == Number(s, k + 1, p) && scale == Pow10(p - k - 1)
    requires d == DivResult(ToI32(n), ToI32(scale))
    ensures d == Fraction(s, k)
  {
  }

  method Conclude(buf: array<char>, ghost s: string, p: nat, value: i32, negative: bool, ghost whole: nat, ghost d: i32)
      returns (r: i32)
    requires Text(buf, s) && p <= |s| && value == ToI32(whole * W16 + d)
    ensures r == Conclusion(s, p, whole, d, negative)
  {
    var clean := ReadClean(buf, s, p);
    if !clean {
      return OVERFLOW;
    }
    return if negative then ToI32(0 - value) else value;
  }

  /** fix16_from_str */
  method Parse(buf: array<char>, ghost s: string) returns (r: i32)
    requires Text(buf, s)
    ensures r == FromStr(s)
  {
    var i := ReadSpaces(buf, s);
    TextAt(buf, s, i);
    var negative := buf[i] == '-';
    var j := if buf[i] == '+' || buf[i] == '-' then i + 1 else i;
    var k, intpart, count := ReadWhole(buf, s, j);
    if count == 0 || count > 5 || intpart > 32768 || (!negative && intpart > 32767) {
      return OVERFLOW;
    }
    r := ReadRest(buf, s, k, intpart, negative);
  }

  lemma WroteText(buf: array<char>, s: string)
    requires Holds(buf[..], 0, s + ['\0']) && '\0' !in s
    ensures Text(buf, s)
  {
    assert (s + ['\0'])[|s|] == '\0';
    assert buf[..][0 + |s|] == '\0';
    forall k | 0 <= k < |s| ensures buf[k] == s[k] {
      assert buf[..][0 + k] == (s + ['\0'])[k];
    }
  }
}