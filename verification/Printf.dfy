/** The number printers of SEGGER_RTT_printf on top of a buffer that is flushed whenever it is full. */
module Printf {
  import opened Bytes

  /** FORMAT_FLAG_LEFT_JUSTIFY, PAD_ZERO and PRINT_SIGN. */
  datatype Flags = Flags(left: bool, zero: bool, sign: bool)

  // ----- numerals -----

  /** `_aV2C`. */
  function DigitChar(d: nat): (c: char)
    requires d < 16
    ensures IsDigit(c)
  {
    if d < 10 then '0' + d as char else 'A' + (d - 10) as char
  }

  lemma DigitTable(d: nat)
    requires d < 16
    ensures DigitChar(d) == "0123456789ABCDEF"[d]
  {
  }

  predicate IsDigit(c: char) { '0' <= c <= '9' || 'A' <= c <= 'F' }

  /** The two bases the printers are called with. */
  type Base = b: int | b == 10 || b == 16 witness 10

  function Pow(b: Base, n: nat): (p: nat)
    ensures p > 0
  {
    if n == 0 then 1 else b * Pow(b, n - 1)
  }

  function Max(a: nat, b: nat): nat { if a > b then a else b }

  /** Number of digits without leading zeros. */
  function Digits(v: nat, b: Base): (n: nat)
    ensures n >= 1
    decreases v
  {
    if v < b then 1 else Digits(v / b, b) + 1
  }

  /** How often `p` fits into `v`. */
  function Fits(v: nat, p: nat): (d: nat)
    requires p > 0
  {
    if v < p then 0 else 1 + Fits(v - p, p)
  }

  lemma {:induction false} FitsAndRest(v: nat, p: nat)
    requires p > 0
    ensures v == Fits(v, p) * p + Remainder(v, p) && Fits(v, p) == v / p && Remainder(v, p) == v % p
  {
    if v >= p {
      FitsAndRest(v - p, p);
      DivisionIsUnique(v, Fits(v, p), p, Remainder(v, p));
    } else {
      DivisionIsUnique(v, 0, p, v);
    }
  }

  lemma {:induction false} DigitFits(v: nat, p: nat, b: nat)
    requires p > 0 && v < b * p
    ensures Fits(v, p) < b
  {
    if v >= p {
      assert v - p < (b - 1) * p;
      DigitFits(v - p, p, b - 1);
    }
  }

  /** Exactly `n` digits, the highest first. */
  function Numeral(v: nat, b: Base, n: nat): (s: string)
    requires v < Pow(b, n)
    ensures |s| == n
  {
    if n == 0 then ""
    else
      var p := Pow(b, n - 1);
      DigitFits(v, p, b);
      [DigitChar(Fits(v, p))] + Numeral(Remainder(v, p), b, n - 1)
  }

  predicate AllDigits(s: string) { forall i :: 0 <= i < |s| ==> IsDigit(s[i]) }

  /** Positional value. */
  function Value(s: string, b: Base): nat
    requires AllDigits(s)
  {
    if s == "" then 0 else DigitValue(s[0]) * Pow(b, |s| - 1) + Value(s[1..], b)
  }

  function DigitValue(c: char): (d: nat)
    requires IsDigit(c)
    ensures d < 16 && DigitChar(d) == c
  {
    if c <= '9' then c as int - '0' as int else c as int - 'A' as int + 10
  }

  lemma DigitValueOf(d: nat)
    requires d < 16
    ensures DigitValue(DigitChar(d)) == d
  {
  }

  /** A numeral stands for its number. */
  lemma {:induction false} NumeralValue(v: nat, b: Base, n: nat)
    requires v < Pow(b, n)
    ensures AllDigits(Numeral(v, b, n)) && Value(Numeral(v, b, n), b) == v
  {
    if n > 0 {
      var p := Pow(b, n - 1);
      DigitFits(v, p, b);
      NumeralValue(Remainder(v, p), b, n - 1);
      OneMoreDigit(Fits(v, p), Remainder(v, p), Numeral(Remainder(v, p), b, n - 1), b);
      FitsAndRest(v, p);
    }
  }

  lemma OneMoreDigit(q: nat, r: nat, s: string, b: Base)
    requires q < b && AllDigits(s) && Value(s, b) == r
    ensures AllDigits([DigitChar(q)] + s) && Value([DigitChar(q)] + s, b) == q * Pow(b, |s|) + r
  {
    DigitValueOf(q);
    Prepend(DigitChar(q), s, b);
  }

  lemma Prepend(c: char, s: string, b: Base)
    requires IsDigit(c) && AllDigits(s)
    ensures AllDigits([c] + s) && Value([c] + s, b) == DigitValue(c) * Pow(b, |s|) + Value(s, b)
  {
    assert ([c] + s)[1..] == s;
  }

  /** Digits counts exactly: the value fits and there is no leading zero. */
  lemma {:induction false} DigitsBound(v: nat, b: Base)
    ensures v < Pow(b, Digits(v, b)) && (v > 0 ==> Pow(b, Digits(v, b) - 1) <= v)
    decreases v
  {
    if v >= b {
      DigitsBound(v / b, b);
      Tenfold(v, b, Pow(b, Digits(v / b, b)), Pow(b, Digits(v / b, b) - 1));
    }
  }

  lemma Tenfold(v: nat, b: Base, above: nat, below: nat)
    requires v / b < above && below <= v / b
    ensures v < b * above && b * below <= v
  {
  }

  lemma {:induction false} PowMono(b: Base, m: nat, n: nat)
    requires m <= n
    ensures Pow(b, m) <= Pow(b, n)
  {
    if m < n { PowMono(b, m, n - 1); }
  }

  function Repeat(c: char, n: nat): (s: string)
    ensures |s| == n
  {
    seq(n, _ => c)
  }

  function Minus(a: nat, b: nat): nat { if a > b then a - b else 0 }

  /** The largest precision whose highest digit weight still fits 32 bits. */
  function MaxPrecision(b: Base): nat { if b == 10 then 10 else 8 }

  lemma PrecisionLimit()
    ensures Pow(10, 9) < U32 <= Pow(10, 10) && Pow(16, 7) < U32 == Pow(16, 8)
  {
    assert Pow(10, 3) == 1000 && Pow(10, 6) == 1_000_000;
    assert Pow(10, 9) == 1_000_000_000;
    assert Pow(16, 4) == 0x1_0000 && Pow(16, 7) == 0x1000_0000;
  }

  function Width(v: nat, b: Base, precision: nat): nat {
    Max(Digits(v, b), precision)
  }

  lemma FitsWidth(v: nat, b: Base, precision: nat)
    ensures v < Pow(b, Width(v, b, precision))
  {
    DigitsBound(v, b);
    PowMono(b, Digits(v, b), Width(v, b, precision));
  }

  /** The number with leading zeros up to the precision. */
  function Number(v: nat, b: Base, precision: nat): (s: string)
    ensures |s| == Width(v, b, precision)
  {
    FitsWidth(v, b, precision);
    Numeral(v, b, Width(v, b, precision))
  }

  /** max(precision, digits of v) digits with positional value v. */
  lemma NumberMeans(v: nat, b: Base, precision: nat)
    ensures var s := Number(v, b, precision);
            && |s| == Max(Digits(v, b), precision)
            && AllDigits(s) && Value(s, b) == v
  {
    FitsWidth(v, b, precision);
    NumeralValue(v, b, Width(v, b, precision));
  }

  // ----- the weight of the highest digit, for every precision -----

  /** The product after `n - 1` multiplications in 32 bits. */
  function StartWeight(b: Base, n: nat): (d: nat)
    ensures d < U32
  {
    if n <= 1 then 1 else StartWeight(b, n - 1) * b % U32
  }

  /** The weight grows until it extracts the highest digit. */
  function Grown(v: nat, b: Base, d: nat): (w: nat)
    requires v < U32 && 0 < d < U32
    ensures d <= w < U32
    decreases U32 - d
  {
    if v / d < b then d
    else
      GrowsWithin(v, b, d);
      Grown(v, b, d * b)
  }

  lemma GrowsWithin(v: nat, b: Base, d: nat)
    requires v < U32 && 0 < d && v / d >= b
    ensures d < d * b <= v
  {
    DivMod(v, d);
    MulMono(b, v / d, d);
  }

  /** The loop; a weight that has become 0 is divided by as soon as the precision is used up. */
  function WeightFrom(v: nat, b: Base, left: nat, d: nat): (w: nat)
    requires v < U32 && d < U32
    ensures w < U32
    decreases left
  {
    if left > 1 then WeightFrom(v, b, left - 1, d * b % U32)
    else if d == 0 then 0
    else Grown(v, b, d)
  }

  function Weight(v: nat, b: Base, precision: nat): (w: nat)
    requires v < U32
    ensures w < U32
  {
    WeightFrom(v, b, precision, 1)
  }

  lemma GrowStep(v: nat, b: Base, left: nat, d: nat)
    requires v < U32 && left <= 1 && 0 < d < U32 && v / d >= b
    ensures d < d * b % U32 && WeightFrom(v, b, left, d * b % U32) == WeightFrom(v, b, left, d)
  {
    GrowsWithin(v, b, d);
    NoWrap(d, b, d * b);
  }

  lemma GrownStops(v: nat, b: Base, left: nat, d: nat)
    requires v < U32 && left <= 1 && 0 < d < U32 && v / d < b
    ensures WeightFrom(v, b, left, d) == d
  {
  }

  lemma {:induction false} WeightStarts(v: nat, b: Base, left: nat, k: nat)
    requires v < U32 && k > 0
    ensures WeightFrom(v, b, left, StartWeight(b, k))
         == WeightFrom(v, b, 1, StartWeight(b, k + if left > 1 then left - 1 else 0))
    decreases left
  {
    if left > 1 {
      assert StartWeight(b, k + 1) == StartWeight(b, k) * b % U32;
      WeightStarts(v, b, left - 1, k + 1);
    }
  }

  /** What the output loop stores: the quotient looks up the digit table, and whatever lies behind it. */
  function Emitted(v: nat, d: nat, b: Base, table: nat -> char): (s: string)
    requires d > 0
    ensures |s| == Digits(d, b)
    decreases d
  {
    [table(v / d)] + if d < b then "" else NextWeight(d, b); Emitted(v % d, d / b, b, table)
  }

  lemma NextWeight(d: nat, b: Base)
    requires d >= b
    ensures 0 < d / b < d
  {
  }

  /** The table begins with the sixteen digits. */
  ghost predicate IsTable(table: nat -> char) {
    forall d :: 0 <= d < 16 ==> table(d) == DigitChar(d)
  }

  /** With the right weight these are the digits of the number. */
  lemma {:induction false} EmittedIsNumeral(v: nat, b: Base, n: nat, table: nat -> char)
    requires n > 0 && v < Pow(b, n) && IsTable(table)
    ensures Emitted(v, Pow(b, n - 1), b, table) == Numeral(v, b, n)
  {
    var p := Pow(b, n - 1);
    FitsAndRest(v, p);
    DigitFits(v, p, b);
    if n > 1 {
      assert p == b * Pow(b, n - 2) && p >= b && p / b == Pow(b, n - 2) by { TimesOver(Pow(b, n - 2), b); }
      EmittedIsNumeral(v % p, b, n - 1, table);
    } else {
      assert Numeral(v % p, b, 0) == "";
    }
  }

  // ----- up to which precision it is the right one -----

  lemma {:induction false} StartInLimit(b: Base, n: nat)
    requires 0 < n <= MaxPrecision(b)
    ensures StartWeight(b, n) == Pow(b, n - 1) < U32
  {
    PrecisionLimit();
    PowMono(b, n - 1, MaxPrecision(b) - 1);
    if n > 1 {
      StartInLimit(b, n - 1);
      NoWrap(StartWeight(b, n - 1), b, Pow(b, n - 1));
    }
  }

  lemma NoWrap(d: nat, b: Base, p: nat)
    requires b * d == p < U32
    ensures d * b % U32 == p
  {
  }

  lemma {:induction false} GrownIsPower(v: nat, b: Base, n: nat)
    requires v < U32 && n > 0 && Pow(b, n - 1) < U32
    ensures Grown(v, b, Pow(b, n - 1)) == Pow(b, Max(Digits(v, b), n) - 1)
    decreases U32 - Pow(b, n - 1)
  {
    if v / Pow(b, n - 1) < b {
      AtLeast(v, b, n);
    } else {
      GrowsWithin(v, b, Pow(b, n - 1));
      OneMoreWeight(v, b, n);
      GrownIsPower(v, b, n + 1);
    }
  }

  lemma WeightInLimit(v: nat, b: Base, precision: nat)
    requires v < U32 && precision <= MaxPrecision(b)
    ensures Weight(v, b, precision) == Pow(b, Width(v, b, precision) - 1) > 0
  {
    var n := Max(precision, 1);
    WeightStarts(v, b, precision, 1);
    StartInLimit(b, n);
    GrownIsPower(v, b, n);
  }

  lemma {:induction false} DigitsOfWeight(b: Base, k: nat)
    ensures Digits(Pow(b, k), b) == k + 1
  {
    if k > 0 {
      TimesOver(Pow(b, k - 1), b);
      DigitsOfWeight(b, k - 1);
    }
  }

  lemma TimesOver(x: nat, b: Base)
    ensures b * x / b == x && (x > 0 ==> b * x >= b)
  {
  }

  /** A 32-bit value has at most 10 decimal or 8 hexadecimal digits. */
  lemma DigitsFit(v: nat, b: Base)
    requires v < U32
    ensures Digits(v, b) <= MaxPrecision(b)
  {
    PrecisionLimit();
    DigitsBound(v, b);
    if Digits(v, b) > MaxPrecision(b) { PowMono(b, MaxPrecision(b), Digits(v, b) - 1); }
  }

  /** The printers emit max(precision, digits) characters exactly up to 10 decimal or 8 hexadecimal digits
      of precision; then these are the digits of the number.  Beyond, the weight has wrapped: either it
      is 0 and divided by, or too few characters come out. */
  lemma PrecisionIff(v: nat, b: Base, precision: nat, table: nat -> char)
    requires v < U32 && IsTable(table)
    ensures var w := Weight(v, b, precision);
            && (w > 0 && |Emitted(v, w, b, table)| == Width(v, b, precision) <==> precision <= MaxPrecision(b))
            && (precision <= MaxPrecision(b) ==> Emitted(v, w, b, table) == Number(v, b, precision))
  {
    var w, n := Weight(v, b, precision), Width(v, b, precision);
    if precision <= MaxPrecision(b) {
      WeightInLimit(v, b, precision);
      DigitsOfWeight(b, n - 1);
      FitsWidth(v, b, precision);
      EmittedIsNumeral(v, b, n, table);
    } else if w > 0 {
      DigitsFit(w, b);
    }
  }

  /** One multiplication. */
  lemma NextStart(n: nat, d: nat, e: nat)
    requires n >= 1 && StartWeight(10, n) == d && d * 10 % U32 == e
    ensures StartWeight(10, n + 1) == e
  {
  }

  /** The decimal weights from the eleventh digit on, as they wrap: the first ones, */
  lemma DecimalStarts()
    ensures StartWeight(10, 11) == 1_410_065_408 && StartWeight(10, 22) == 3_735_027_712
    ensures forall n :: 1 <= n <= 22 ==> StartWeight(10, n) != 0
  {
    hide StartWeight;
    StartInLimit(10, 10);
    assert Pow(10, 9) == 1_000_000_000;
    NextStart(10, 1_000_000_000, 1_410_065_408);
    NextStart(11, 1_410_065_408, 1_215_752_192);
    NextStart(12, 1_215_752_192, 3_567_587_328);
    NextStart(13, 3_567_587_328, 1_316_134_912);
    NextStart(14, 1_316_134_912, 276_447_232);
    NextStart(15, 276_447_232, 2_764_472_320);
    NextStart(16, 2_764_472_320, 1_874_919_424);
    NextStart(17, 1_874_919_424, 1_569_325_056);
    NextStart(18, 1_569_325_056, 2_808_348_672);
    NextStart(19, 2_808_348_672, 2_313_682_944);
    NextStart(20, 2_313_682_944, 1_661_992_960);
    NextStart(21, 1_661_992_960, 3_735_027_712);
    forall n | 1 <= n <= 10 ensures StartWeight(10, n) != 0 {
      StartInLimit(10, n);
    }
  }

  /** and the others, up to the 33rd, which is 0. */
  lemma MoreDecimalStarts()
    ensures StartWeight(10, 33) == 0 && forall n :: 22 <= n <= 32 ==> StartWeight(10, n) != 0
  {
    hide StartWeight;
    DecimalStarts();
    NextStart(22, 3_735_027_712, 2_990_538_752);
    NextStart(23, 2_990_538_752, 4_135_583_744);
    NextStart(24, 4_135_583_744, 2_701_131_776);
    NextStart(25, 2_701_131_776, 1_241_513_984);
    NextStart(26, 1_241_513_984, 3_825_205_248);
    NextStart(27, 3_825_205_248, 3_892_314_112);
    NextStart(28, 3_892_314_112, 268_435_456);
    NextStart(29, 268_435_456, 2_684_354_560);
    NextStart(30, 2_684_354_560, 1_073_741_824);
    NextStart(31, 1_073_741_824, 2_147_483_648);
    NextStart(32, 2_147_483_648, 0);
  }

  lemma {:induction false} ZeroStays(b: Base, k: nat, n: nat)
    requires 1 < k <= n && StartWeight(b, k) == 0
    ensures StartWeight(b, n) == 0
  {
    if k < n { ZeroStays(b, k, n - 1); }
  }

  lemma DecimalStartIsZeroIff(n: nat)
    requires n >= 1
    ensures StartWeight(10, n) == 0 <==> n >= 33
  {
    hide StartWeight;
    DecimalStarts();
    MoreDecimalStarts();
    if n >= 33 { ZeroStays(10, 33, n); }
  }

  lemma HexStartIsZeroIff(n: nat)
    requires n >= 1
    ensures StartWeight(16, n) == 0 <==> n >= 9
  {
    hide StartWeight;
    NinthHexStart();
    if n >= 9 { ZeroStays(16, 9, n); } else { StartInLimit(16, n); }
  }

  lemma NinthHexStart()
    ensures StartWeight(16, 9) == 0
  {
    StartInLimit(16, 8);
    PrecisionLimit();
    assert Pow(16, 8) == 16 * Pow(16, 7);
    WrapsToZero(StartWeight(16, 8));
  }

  lemma WrapsToZero(d: nat)
    requires 16 * d == U32
    ensures d * 16 % U32 == 0
  {
  }

  /** The division by zero happens exactly from 33 decimal or 9 hexadecimal digits of precision on. */
  lemma DividesByZeroIff(v: nat, b: Base, precision: nat)
    requires v < U32
    ensures Weight(v, b, precision) == 0 <==> precision >= if b == 10 then 33 else 9
  {
    WeightStarts(v, b, precision, 1);
    hide StartWeight;
    if b == 10 { DecimalStartIsZeroIff(Max(precision, 1)); } else { HexStartIsZeroIff(Max(precision, 1)); }
  }

  /** A decimal precision of 11: the weight is 1410065408, and ten characters come out instead of eleven. */
  lemma ElevenDigits(v: nat, table: nat -> char)
    requires v < U32 && IsTable(table)
    ensures Weight(v, 10, 11) == 1_410_065_408 && |Emitted(v, 1_410_065_408, 10, table)| == 10
  {
    WeightStarts(v, 10, 11, 1);
    DecimalStarts();
    TenDigits();
  }

  lemma TenDigits()
    ensures Digits(1_410_065_408, 10) == 10
  {
    assert Digits(141_006, 10) == 6;
    assert Digits(1_410_065_408, 10) == Digits(141_006, 10) + 4;
  }

  // ----- what is to be printed -----

  /** Filling up to the field width. */
  function Fill(c: char, wanted: bool, field: nat, width: nat): (s: string)
    ensures |s| == if wanted then Minus(field, width) else 0
  {
    Repeat(c, if wanted then Minus(field, width) else 0)
  }

  /** What filling leaves of the field width. */
  function Left(wanted: bool, field: nat, width: nat): nat {
    if wanted then Min(width, field) else field
  }

  function LeadChar(precision: nat, f: Flags): char { if f.zero && precision == 0 then '0' else ' ' }

  /** The digits and what follows them; nothing if the weight is 0. */
  function Tail(v: nat, b: Base, precision: nat, field: nat, f: Flags, table: nat -> char): string
    requires v < U32
  {
    var d := Weight(v, b, precision);
    if d == 0 then "" else Emitted(v, d, b, table) + Fill(' ', f.left, field, Width(v, b, precision))
  }

  function UnsignedText(v: nat, b: Base, precision: nat, field: nat, f: Flags, table: nat -> char): string
    requires v < U32
  {
    var w := Width(v, b, precision);
    Fill(LeadChar(precision, f), !f.left, field, w) + Tail(v, b, precision, Left(!f.left, field, w), f, table)
  }

  /** In the limit: padding, the number, padding; never shorter than the field. */
  lemma UnsignedMeans(v: nat, b: Base, precision: nat, field: nat, f: Flags, table: nat -> char)
    requires v < U32 && IsTable(table) && precision <= MaxPrecision(b)
    ensures var w := Width(v, b, precision); var s := UnsignedText(v, b, precision, field, f, table);
            && s == Fill(LeadChar(precision, f), !f.left, field, w)
                    + (Number(v, b, precision) + Fill(' ', f.left, field, w))
            && |s| == Max(field, w)
  {
    PrecisionIff(v, b, precision, table);
  }

  function SignText(v: int, f: Flags): string {
    if v < 0 then "-" else if f.sign then "+" else ""
  }

  const INT_MIN: int := -0x8000_0000

  predicate IsInt(v: int) { INT_MIN <= v < 0x8000_0000 }

  /** What is printed behind the sign. */
  function Magnitude(v: int): (u: nat)
    requires IsInt(v)
    ensures u < U32
  {
    if v < 0 then -v else v
  }

  /** The width `_PrintInt` counts; the negation of INT_MIN wraps to itself and is taken for one digit. */
  function IntWidth(v: int, precision: nat): nat
    requires IsInt(v)
  {
    Max(if v == INT_MIN then 1 else Digits(Magnitude(v), 10), precision)
  }

  /** The field width less the sign. */
  function Inner(v: int, field: nat, f: Flags): nat { if field > 0 then field - |SignText(v, f)| else 0 }

  predicate WantsSpaces(precision: nat, f: Flags) { !f.left && LeadChar(precision, f) == ' ' }
  predicate WantsZeros(precision: nat, f: Flags) { !f.left && LeadChar(precision, f) == '0' }

  /** From the zeros on, with `field` as the spaces have left it. */
  function UnderSign(v: int, precision: nat, field: nat, f: Flags, table: nat -> char): string
    requires IsInt(v)
  {
    var w, zeros := IntWidth(v, precision), WantsZeros(precision, f);
    Fill('0', zeros, field, w) + UnsignedText(Magnitude(v), 10, precision, Left(zeros, field, w), f, table)
  }

  function IntText(v: int, precision: nat, field: nat, f: Flags, table: nat -> char): string
    requires IsInt(v)
  {
    var w, inner, spaces := IntWidth(v, precision), Inner(v, field, f), WantsSpaces(precision, f);
    Fill(' ', spaces, inner, w) + (SignText(v, f) + UnderSign(v, precision, Left(spaces, inner, w), f, table))
  }

  /** Spaces, sign, zeros, the number, spaces: under every flag combination the field width or what sign and
      number need, whichever is more.  For INT_MIN only the length can be wrong. */
  lemma IntMeans(v: int, precision: nat, field: nat, f: Flags, table: nat -> char)
    requires IsInt(v) && v != INT_MIN && precision <= MaxPrecision(10) && IsTable(table)
    ensures var w := |SignText(v, f)| + Width(Magnitude(v), 10, precision);
            var s := IntText(v, precision, field, f, table);
            && s == Fill(' ', WantsSpaces(precision, f), field, w)
                    + (SignText(v, f) + (Fill('0', WantsZeros(precision, f), field, w)
                    + (Number(Magnitude(v), 10, precision) + Fill(' ', f.left, field, w))))
            && |s| == Max(field, w)
  {
    hide UnsignedText, Number, Digits;
    var w, inner := IntWidth(v, precision), Inner(v, field, f);
    assert Minus(inner, w) == Minus(field, |SignText(v, f)| + w);
    var left := Left(WantsZeros(precision, f), Left(WantsSpaces(precision, f), inner, w), w);
    assert !f.left ==> left <= w;
    UnsignedMeans(Magnitude(v), 10, precision, left, f, table);
    assert Fill(LeadChar(precision, f), !f.left, left, w) == "";
    assert Fill(' ', f.left, left, w) == Fill(' ', f.left, field, |SignText(v, f)| + w);
  }

  /** INT_MIN is padded as a one-digit number: the length is right exactly if it is left-justified, the
      precision covers all ten digits, or the field is no wider than the sign and the width counted. */
  lemma IntMinIff(precision: nat, field: nat, f: Flags, table: nat -> char)
    requires precision <= MaxPrecision(10) && IsTable(table)
    ensures |IntText(INT_MIN, precision, field, f, table)| == Max(field, 1 + Width(0x8000_0000, 10, precision))
            <==> f.left || precision == 10 || field <= 1 + Max(1, precision)
  {
    hide UnsignedText, Number;
    var w, inner := IntWidth(INT_MIN, precision), Inner(INT_MIN, field, f);
    var left := Left(WantsZeros(precision, f), Left(WantsSpaces(precision, f), inner, w), w);
    UnsignedMeans(0x8000_0000, 10, precision, left, f, table);
    TenDigitsToo();
    assert !f.left ==> left <= w;
  }

  lemma TenDigitsToo()
    ensures Digits(0x8000_0000, 10) == 10
  {
    assert Digits(214_748, 10) == 6;
    assert Digits(2_147_483_648, 10) == Digits(214_748, 10) + 4;
  }

  // ----- the printer -----

  /** The `n` characters of `all` from `p` on stand there once more, `t` further. */
  ghost predicate Repeats(all: string, p: nat, t: nat, n: nat) {
    p + t + n <= |all| && all[p..p + n] == all[p + t..p + t + n]
  }

  lemma PrefixGoesOn(all: string, a: nat, x: string)
    requires a <= |all|
    ensures all[..a] + x <= all <==> a + |x| <= |all| && x == all[a..a + |x|]
  {
    if a + |x| <= |all| {
      assert all[..a + |x|] == all[..a] + all[a..a + |x|];
      assert (all[..a] + x)[a..] == x && (all[..a] + all[a..a + |x|])[a..] == all[a..a + |x|];
    }
  }

  class Printer {
    const buffer: array<char>
    const sink: nat -> nat         // how many characters the k-th `SEGGER_RTT_Write` is ready to take
    const table: nat -> char       // `_aV2C`
    var flushes: nat
    var cnt: nat
    var returnValue: int
    var sent: string               // what the sink has taken
    ghost var flushed: string      // the buffers it has taken whole, up to the first refusal
    ghost var refusal: nat         // the flush that was refused first,
    ghost var held: string         // the buffer it was about,
    ghost var retried: bool        // and whether that buffer was sent again

    ghost predicate Valid()
      reads this
    {
      && 0 < buffer.Length && cnt <= buffer.Length && IsTable(table)
      && (returnValue >= 0 ==>
            cnt < buffer.Length && sent == flushed && !retried && |flushed| == flushes * buffer.Length && Took(flushes))
      && (returnValue < 0 ==>
            && |held| == buffer.Length && |flushed| == refusal * buffer.Length
            && Took(refusal) && sink(refusal) < buffer.Length
            && flushes == refusal + (if retried then 2 else 1)
            && sent == flushed + held[..sink(refusal)] + if retried then held[..Again()] else "")
    }

    /** The first `n` flushes are taken whole. */
    ghost predicate Took(n: nat)
    {
      forall k: nat :: k < n ==> sink(k) >= buffer.Length
    }

    /** What the sink takes of the refused buffer when it is sent again. */
    ghost function Again(): (n: nat)
      reads this
      ensures n <= buffer.Length
    {
      Min(sink(refusal + 1), buffer.Length)
    }

    /** No flush within the first `n` characters is refused. */
    ghost predicate Takes(n: nat)
    {
      forall k: nat :: (k + 1) * buffer.Length <= n ==> sink(k) >= buffer.Length
    }

    /** When the padding behind a number sends a refused buffer again: `n` characters before the number, a
        flush within its digits is refused, and spaces are to follow. */
    ghost predicate Resends(v: nat, b: Base, precision: nat, field: nat, f: Flags, n: nat)
      requires v < U32
    {
      var d := Weight(v, b, precision);
      f.left && Width(v, b, precision) < field && d > 0 && !Takes(n + Digits(d, b))
    }

    /** Everything stored: taken by the sink, in the buffer, or refused. */
    ghost function Output(): string
      reads this, buffer
      requires cnt <= buffer.Length
    {
      if returnValue >= 0 then flushed + buffer[..cnt] else flushed + held
    }

    /** The whole text, or after a refusal a prefix of it. */
    ghost predicate Printed(before: string, count: int, text: string)
      reads this, buffer
    {
      && Valid()
      && (returnValue >= 0 ==> Output() == before + text && returnValue == count + |text|)
      && (returnValue < 0 ==> Output() <= before + text)
    }

    /** A refusal leaves the buffer full; it has not been sent again. */
    ghost predicate Settled()
      reads this, buffer
    {
      returnValue < 0 ==> cnt == buffer.Length && buffer[..] == held && !retried
    }

    /** The printer goes on exactly if no flush within the text is refused. */
    lemma Outcome(before: string, count: int, text: string)
      requires Printed(before, count, text)
      ensures returnValue >= 0 <==> Takes(|before + text|)
    {
      var l, n := buffer.Length, |before + text|;
      if returnValue >= 0 {
        forall k: nat | (k + 1) * l <= n ensures sink(k) >= l {
          if k >= flushes { MulMono(flushes + 1, k + 1, l); }
        }
      } else {
        assert (refusal + 1) * l == |Output()| <= n;
      }
    }

    /** Two parts of the refused buffer: `all` up to `taken` of it, and then `again` of it once more. */
    ghost predicate SentOf(all: string)
      reads this
    {
      var p, l := refusal * buffer.Length, buffer.Length;
      && Took(refusal) && sink(refusal) < l && p + l <= |all|
      && sent == all[..p + sink(refusal)] + if retried then all[p..p + Again()] else ""
    }

    /** What the sink has after a refusal. */
    lemma SentAfterRefusal(before: string, count: int, text: string)
      requires Printed(before, count, text) && returnValue < 0
      ensures SentOf(before + text)
    {
      var all, p, l := before + text, refusal * buffer.Length, buffer.Length;
      assert all[..p + l] == flushed + held;
      assert all[..p] == flushed && all[p..p + l] == held;
      assert all[..p + sink(refusal)] == flushed + held[..sink(refusal)];
      assert all[p..p + Again()] == held[..Again()];
    }

    /** It is still a prefix of the text exactly unless the buffer was sent again and the text does not
        happen to repeat itself there. */
    lemma SentIsPrefixIff(all: string)
      requires SentOf(all)
      ensures sent <= all <==> !retried || Repeats(all, refusal * buffer.Length, sink(refusal), Again())
    {
      var p, t := refusal * buffer.Length, sink(refusal);
      if retried {
        PrefixGoesOn(all, p + t, all[p..p + Again()]);
      }
    }

    lemma FirstRefused(n: nat)
      requires sink(0) < buffer.Length <= n
      ensures !Takes(n)
    {
      assert (0 + 1) * buffer.Length <= n;
    }

    /** A buffer of two that first gets one character out and then both. */
    lemma OneAndTwo(all: string)
      requires Accounted(all) && retried && returnValue < 0 && |all| >= 2
      requires buffer.Length == 2 && sink(0) == 1 && sink(1) == 2
      ensures sent == all[..1] + all[..2]
    {
      assert refusal == 0;
      assert all[0..2] == all[..2];
    }

    /** Whether the text came out whole, and if not, what did. */
    ghost predicate Accounted(all: string)
      reads this
    {
      && (returnValue >= 0 <==> Takes(|all|))
      && (returnValue < 0 ==> SentOf(all))
    }

    lemma Account(before: string, count: int, text: string)
      requires Printed(before, count, text)
      ensures Accounted(before + text)
    {
      Outcome(before, count, text);
      if returnValue < 0 { SentAfterRefusal(before, count, text); }
    }

    constructor (size: nat, sink: nat -> nat, table: nat -> char)
      requires size > 0 && IsTable(table)
      ensures Valid() && Output() == "" && returnValue == 0
      ensures buffer.Length == size && this.sink == sink && this.table == table && fresh(buffer)
    {
      buffer := new char[size];
      this.sink, this.table := sink, table;
      flushes, cnt, returnValue, sent := 0, 0, 0, "";
      flushed, held, refusal, retried := "", "", 0, false;
    }

    /** `_StoreChar`.  A full buffer is sent; unless all of it is taken, the part that was stays counted as
        unsent, and the next call sends it again. */
    method StoreChar(c: char)
      requires Valid() && Settled()
      modifies this, buffer
      ensures old(returnValue) >= 0 ==> Printed(old(Output()), old(returnValue), [c]) && Settled()
      ensures old(returnValue) < 0 ==> Valid() && returnValue < 0 && Output() == old(Output()) && retried
    {
      if cnt + 1 <= buffer.Length {
        ghost var was := buffer[..cnt];
        buffer[cnt] := c;
        cnt := cnt + 1;
        returnValue := returnValue + 1;
        assert flushed + buffer[..cnt] == flushed + was + [c];
      } else {
        retried := true;
      }
      if cnt == buffer.Length {
        FlushBuffer();
      }
    }

    /** The flush. */
    method FlushBuffer()
      requires 0 < cnt == buffer.Length && IsTable(table)
      requires returnValue >= 0 ==> sent == flushed && !retried && |flushed| == flushes * buffer.Length && Took(flushes)
      requires returnValue < 0 ==>
        && retried && buffer[..] == held && |flushed| == refusal * buffer.Length && Took(refusal)
        && sink(refusal) < buffer.Length && flushes == refusal + 1 && sent == flushed + held[..sink(refusal)]
      modifies this
      ensures Valid() && Output() == old(Output()) && retried == old(retried)
      ensures returnValue >= 0 ==> returnValue == old(returnValue)
      ensures old(returnValue) < 0 ==> returnValue < 0
      ensures old(returnValue) >= 0 ==> Settled()
    {
      hide Took, IsTable;
      var took := Min(sink(flushes), cnt);
      sent := sent + buffer[..took];
      ghost var f := flushes;
      flushes := flushes + 1;
      if took != cnt {
        if returnValue >= 0 {
          refusal, held := f, buffer[..];
        }
        returnValue := -1;
      } else {
        if returnValue >= 0 {
          flushed := flushed + buffer[..];
          NextBuffer(f);
          assert flushed + buffer[..0] == flushed;
        }
        cnt := 0;
      }
    }

    lemma NextBuffer(f: nat)
      requires Took(f) && sink(f) >= buffer.Length
      ensures Took(f + 1) && (f + 1) * buffer.Length == f * buffer.Length + buffer.Length
    {
    }

    /** A character after `done`; after a refusal nothing is stored. */
    method Emit(c: char, ghost before: string, ghost start: int, ghost done: string)
      requires Printed(before, start, done) && Settled()
      modifies this, buffer
      ensures Printed(before, start, done + [c])
      ensures old(returnValue) >= 0 ==> Settled()
      ensures old(returnValue) < 0 ==> returnValue < 0 && retried
    {
      ghost var mid, count := Output(), returnValue;
      StoreChar(c);
      if count >= 0 {
        Continues(before, start, done, mid, count, [c]);
      } else {
        Stops(before, start, done, [c]);
      }
    }

    /** Two pieces printed one after the other. */
    lemma Continues(before: string, start: int, first: string, mid: string, count: int, second: string)
      requires mid == before + first && count == start + |first| && Printed(mid, count, second)
      ensures Printed(before, start, first + second)
    {
      assert before + first + second == before + (first + second);
    }

    /** Nothing printed yet. */
    lemma Begins()
      requires Valid() && returnValue >= 0
      ensures Printed(Output(), returnValue, "")
    {
      assert Output() + "" == Output();
    }

    /** A refusal may leave less than asked for. */
    lemma Stops(before: string, start: int, done: string, more: string)
      requires returnValue < 0 && Printed(before, start, done)
      ensures Printed(before, start, done + more)
    {
      assert before + done <= before + (done + more);
    }

    /** A padding loop with its guards: fills up from `width` to `field`. */
    method Pad(c: char, wanted: bool, field: nat, width: nat, ghost before: string, ghost start: int,
               ghost done: string)
        returns (left: nat)
      requires Printed(before, start, done) && Settled()
      modifies this, buffer
      ensures Printed(before, start, done + Fill(c, wanted, field, width))
      ensures old(returnValue) >= 0 ==> Settled()
      ensures retried <==> old(returnValue) < 0 && wanted && width < field
      ensures old(returnValue) < 0 ==> returnValue < 0
      ensures old(returnValue) >= 0 && !(wanted && width < field) ==> returnValue >= 0
      ensures returnValue >= 0 ==> left == Left(wanted, field, width)
    {
      hide Took, Again, IsTable, Output;
      left := field;
      ghost var pad := "";
      assert done + pad == done;
      if wanted && field != 0 {
        while left != 0 && width < left
          invariant |pad| + left == field && pad == Repeat(c, |pad|) && left >= Min(width, field)
          invariant Settled() && Printed(before, start, done + pad) && (returnValue < 0 <==> old(returnValue) < 0)
          invariant returnValue < 0 ==> left == field
          decreases left
        {
          left := left - 1;
          Emit(c, before, start, done + pad);
          assert done + pad + [c] == done + (pad + [c]);
          pad := pad + [c];
          if returnValue < 0 {
            var more := Repeat(c, Minus(field, width) - |pad|);
            Stops(before, start, done + pad, more);
            assert done + pad + more == done + Fill(c, wanted, field, width);
            return;
          }
        }
        assert pad == Fill(c, wanted, field, width);
      } else {
        assert pad == Fill(c, wanted, field, width);
      }
    }

    /** `_PrintUnsigned`; `ok` is false where it divides by zero. */
    method PrintUnsigned(v: nat, b: Base, numDigits: nat, fieldWidth: nat, f: Flags) returns (ok: bool)
      requires Valid() && returnValue >= 0 && v < U32
      modifies this, buffer
      ensures Printed(old(Output()), old(returnValue), UnsignedText(v, b, numDigits, fieldWidth, f, table))
      ensures !ok <==> Weight(v, b, numDigits) == 0 && returnValue >= 0
      ensures retried <==> Resends(v, b, numDigits, fieldWidth, f, |old(Output())|)
      ensures Accounted(old(Output()) + UnsignedText(v, b, numDigits, fieldWidth, f, table))
    {
      hide Takes, SentOf, Accounted, Tail, Took, Again, IsTable, Output, Weight, Digits, Repeat;
      var width := CountDigits(v, b);
      if numDigits > width {
        width := numDigits;
      }
      ghost var before, start := Output(), returnValue;
      ghost var tail := Tail(v, b, numDigits, Left(!f.left, fieldWidth, width), f, table);
      ghost var lead := Fill(LeadChar(numDigits, f), !f.left, fieldWidth, width);
      Begins();
      assert "" + lead == lead;
      var field := Pad(if f.zero && numDigits == 0 then '0' else ' ', !f.left, fieldWidth, width, before, start, "");
      ok := true;
      assert f.left ==> lead == "" && returnValue >= 0;
      if returnValue >= 0 {
        ghost var mid, count := Output(), returnValue;
        ok := PrintTail(v, b, numDigits, field, width, f);
        assert retried <==> Resends(v, b, numDigits, fieldWidth, f, |before|);
        Continues(before, start, lead, mid, count, tail);
      } else {
        assert !retried && !Resends(v, b, numDigits, fieldWidth, f, |before|);
        Stops(before, start, lead, tail);
      }
      assert Printed(before, start, lead + tail);
      Account(before, start, lead + tail);
    }

    /** The weight, the digits and the trailing spaces. */
    method PrintTail(v: nat, b: Base, numDigits: nat, field: nat, width: nat, f: Flags) returns (ok: bool)
      requires Valid() && returnValue >= 0 && v < U32 && width == Width(v, b, numDigits)
      modifies this, buffer
      ensures Printed(old(Output()), old(returnValue), Tail(v, b, numDigits, field, f, table))
      ensures !ok <==> Weight(v, b, numDigits) == 0
      ensures !ok ==> returnValue >= 0
      ensures retried <==> Resends(v, b, numDigits, field, f, |old(Output())|)
    {
      ghost var before, start := Output(), returnValue;
      var digit := FirstDivisor(v, b, numDigits);
      if digit == 0 {
        Begins();
        return false;
      }
      PrintDigits(v, digit, b);
      Outcome(before, start, Emitted(v, digit, b, table));
      var left := Pad(' ', f.left, field, width, before, start, Emitted(v, digit, b, table));
      return true;
    }

    /** `_PrintInt` in base 10. */
    method PrintInt(v: int, numDigits: nat, fieldWidth: nat, f: Flags) returns (ok: bool)
      requires Valid() && returnValue >= 0 && IsInt(v)
      modifies this, buffer
      ensures Printed(old(Output()), old(returnValue), IntText(v, numDigits, fieldWidth, f, table))
      ensures !ok <==> Weight(Magnitude(v), 10, numDigits) == 0 && returnValue >= 0
      ensures retried <==>
        var n := |old(Output())| + |SignText(v, f)|;
        Takes(n) && Resends(Magnitude(v), 10, numDigits, Inner(v, fieldWidth, f), f, n)
      ensures Accounted(old(Output()) + IntText(v, numDigits, fieldWidth, f, table))
    {
      hide Weight, IntText, SpacedText, Takes, Resends, Accounted, SentOf;
      var width := CountDigits(Negated(v), 10);
      if numDigits > width {
        width := numDigits;
      }
      var field := fieldWidth;
      if field > 0 && (v < 0 || f.sign) {
        field := field - 1;
      }
      IntTextIs(v, numDigits, fieldWidth, f, width, field);
      ghost var before, start := Output(), returnValue;
      ok := PrintSpaced(v, numDigits, field, width, f);
      Account(before, start, IntText(v, numDigits, fieldWidth, f, table));
    }

    /** The text of `IntText` for the field without the sign. */
    ghost function SpacedText(v: int, numDigits: nat, inner: nat, width: nat, f: Flags): string
      requires IsInt(v)
    {
      Fill(' ', WantsSpaces(numDigits, f), inner, width)
      + (SignText(v, f) + UnderSign(v, numDigits, Left(WantsSpaces(numDigits, f), inner, width), f, table))
    }

    /** The leading spaces and what follows them. */
    method PrintSpaced(v: int, numDigits: nat, inner: nat, width: nat, f: Flags) returns (ok: bool)
      requires Valid() && returnValue >= 0 && IsInt(v) && width == IntWidth(v, numDigits)
      modifies this, buffer
      ensures Printed(old(Output()), old(returnValue), SpacedText(v, numDigits, inner, width, f))
      ensures !ok <==> Weight(Magnitude(v), 10, numDigits) == 0 && returnValue >= 0
      ensures retried <==>
        var n := |old(Output())| + |SignText(v, f)|; Takes(n) && Resends(Magnitude(v), 10, numDigits, inner, f, n)
    {
      hide UnderSign, Weight, IntWidth, Takes, Resends;
      ghost var before, start := Output(), returnValue;
      ghost var spaces := Fill(' ', WantsSpaces(numDigits, f), inner, width);
      ghost var rest :=
        SignText(v, f) + UnderSign(v, numDigits, Left(WantsSpaces(numDigits, f), inner, width), f, table);
      Begins();
      assert "" + spaces == spaces;
      var field := Pad(' ', (!f.zero || numDigits != 0) && !f.left, inner, width, before, start, "");
      ok := true;
      ghost var n := |before| + |SignText(v, f)|;
      OnlyLeft(v, numDigits, inner, f, n);
      OnlyLeft(v, numDigits, field, f, n + |spaces|);
      assert f.left ==> spaces == "" && returnValue >= 0 && field == inner;
      if returnValue >= 0 {
        ghost var mid, count := Output(), returnValue;
        ok := PrintSigned(v, numDigits, field, width, f);
        Continues(before, start, spaces, mid, count, rest);
      } else {
        Stops(before, start, spaces, rest);
      }
    }

    lemma IntTextIs(v: int, numDigits: nat, fieldWidth: nat, f: Flags, width: nat, inner: nat)
      requires IsInt(v) && width == IntWidth(v, numDigits) && inner == Inner(v, fieldWidth, f)
      ensures IntText(v, numDigits, fieldWidth, f, table) == SpacedText(v, numDigits, inner, width, f)
    {
      hide UnderSign;
    }

    lemma OnlyLeft(v: int, numDigits: nat, field: nat, f: Flags, n: nat)
      requires IsInt(v)
      ensures Resends(Magnitude(v), 10, numDigits, field, f, n) ==> f.left
    {
    }

    /** `(v < 0) ? -v : v`, wrapping in 32 bits. */
    static function Negated(v: int): int
      requires IsInt(v)
    {
      if v == INT_MIN then INT_MIN else if v < 0 then -v else v
    }

    /** The sign, the zeros and the number without its sign. */
    method PrintSigned(v: int, numDigits: nat, field: nat, width: nat, f: Flags) returns (ok: bool)
      requires Valid() && returnValue >= 0 && IsInt(v) && width == IntWidth(v, numDigits)
      modifies this, buffer
      ensures Printed(old(Output()), old(returnValue), SignText(v, f) + UnderSign(v, numDigits, field, f, table))
      ensures !ok <==> Weight(Magnitude(v), 10, numDigits) == 0 && returnValue >= 0
      ensures retried <==>
        var n := |old(Output())| + |SignText(v, f)|; Takes(n) && Resends(Magnitude(v), 10, numDigits, field, f, n)
    {
      hide UnderSign, Weight, IntWidth, Takes, Resends;
      ghost var before, start := Output(), returnValue;
      ghost var sign, rest := SignText(v, f), UnderSign(v, numDigits, field, f, table);
      StoreSign(v, f, before, start);
      Outcome(before, start, sign);
      ok := true;
      if returnValue >= 0 {
        ghost var mid, count := Output(), returnValue;
        ok := PrintUnderSign(v, numDigits, field, width, f);
        Continues(before, start, sign, mid, count, rest);
      } else {
        Stops(before, start, sign, rest);
      }
    }

    method PrintUnderSign(v: int, numDigits: nat, field: nat, width: nat, f: Flags) returns (ok: bool)
      requires Valid() && returnValue >= 0 && IsInt(v) && width == IntWidth(v, numDigits)
      modifies this, buffer
      ensures Printed(old(Output()), old(returnValue), UnderSign(v, numDigits, field, f, table))
      ensures !ok <==> Weight(Magnitude(v), 10, numDigits) == 0 && returnValue >= 0
      ensures retried <==> Resends(Magnitude(v), 10, numDigits, field, f, |old(Output())|)
    {
      hide UnsignedText, Weight, IntWidth, Takes, Resends, SentOf, Accounted;
      ghost var before, start := Output(), returnValue;
      ghost var zeros := Fill('0', WantsZeros(numDigits, f), field, width);
      ghost var rest :=
        UnsignedText(Magnitude(v), 10, numDigits, Left(WantsZeros(numDigits, f), field, width), f, table);
      Begins();
      assert "" + zeros == zeros;
      var left := Pad('0', f.zero && !f.left && numDigits == 0, field, width, before, start, "");
      ok := true;
      OnlyLeft(v, numDigits, field, f, |before|);
      OnlyLeft(v, numDigits, left, f, |before| + |zeros|);
      assert f.left ==> zeros == "" && returnValue >= 0;
      if returnValue >= 0 {
        ghost var mid, count := Output(), returnValue;
        ok := PrintUnsigned(if v < 0 then -v else v, 10, numDigits, left, f);
        Continues(before, start, zeros, mid, count, rest);
      } else {
        Stops(before, start, zeros, rest);
      }
    }

    method StoreSign(v: int, f: Flags, ghost before: string, ghost start: int)
      requires returnValue >= 0 && Valid() && before == Output() && start == returnValue
      modifies this, buffer
      ensures Printed(before, start, SignText(v, f)) && Settled() && !retried
    {
      if v < 0 {
        StoreChar('-');
      } else if f.sign {
        StoreChar('+');
      } else {
        Begins();
      }
    }

    /** The width loop; a negative number counts as one digit. */
    static method CountDigits(v: int, b: Base) returns (width: nat)
      ensures width == if v < 0 then 1 else Digits(v, b)
    {
      var number := v;
      width := 1;
      while number >= b
        invariant v >= 0 ==> number >= 0 && Digits(v, b) == Digits(number, b) + width - 1
        invariant v < 0 ==> number == v && width == 1
        decreases number
      {
        Shrinks(number, b);
        number := number / b;
        width := width + 1;
      }
    }

    /** The divisor loop; the products wrap in 32 bits. */
    static method FirstDivisor(v: nat, b: Base, numDigits: nat) returns (digit: nat)
      requires v < U32
      ensures digit == Weight(v, b, numDigits)
    {
      hide Grown;
      var left := numDigits;
      digit := 1;
      while true
        invariant digit < U32 && WeightFrom(v, b, left, digit) == Weight(v, b, numDigits)
        decreases left, U32 - digit
      {
        if left > 1 {
          left := left - 1;
          digit := digit * b % U32;
        } else {
          if digit == 0 {
            return;
          }
          var div := v / digit;
          if div < b {
            GrownStops(v, b, left, digit);
            break;
          }
          GrowStep(v, b, left, digit);
          digit := digit * b % U32;
        }
      }
    }

    /** The output loop. */
    method PrintDigits(v: nat, first: nat, b: Base)
      requires Valid() && returnValue >= 0 && first > 0
      modifies this, buffer
      ensures Printed(old(Output()), old(returnValue), Emitted(v, first, b, table)) && Settled() && !retried
    {
      hide Emitted, Behind;
      ghost var before, start, text := Output(), returnValue, Emitted(v, first, b, table);
      ghost var done := "";
      var digit: nat, rest: nat := first, v;
      Begins();
      assert "" + text == text;
      while true
        invariant digit > 0 && done + Emitted(rest, digit, b, table) == text
        invariant returnValue >= 0 && Printed(before, start, done)
        decreases digit
      {
        ghost var more := Behind(rest, digit, b, table);
        NextChar(rest, digit, b, done);
        var div;
        div, rest := TakeDigit(rest, digit);
        Emit(table(div), before, start, done);
        done := done + [table(div)];
        if returnValue < 0 {
          Stops(before, start, done, more);
          break;
        }
        LastDigit(digit, b);
        digit := digit / b;
        if digit == 0 {
          break;
        }
      }
    }

    /** Divide, multiply back and subtract. */
    static method TakeDigit(v: nat, digit: nat) returns (div: nat, next: nat)
      requires digit > 0
      ensures div == v / digit && next == v % digit
    {
      div := v / digit;
      Subtract(v, div, digit);
      next := v - div * digit;
    }

    lemma NextChar(v: nat, d: nat, b: Base, done: string)
      requires d > 0
      ensures done + [table(v / d)] + Behind(v, d, b, table) == done + Emitted(v, d, b, table)
      ensures d < b ==> done + [table(v / d)] == done + Emitted(v, d, b, table)
      ensures d >= b ==> d / b > 0 && Behind(v, d, b, table) == Emitted(v % d, d / b, b, table)
    {
      hide Emitted, Behind;
      FirstAndBehind(v, d, b, table);
      var c, more := [table(v / d)], Behind(v, d, b, table);
      assert done + c + more == done + (c + more);
      assert c + "" == c;
    }
  }

  lemma FirstAndBehind(v: nat, d: nat, b: Base, table: nat -> char)
    requires d > 0
    ensures Emitted(v, d, b, table) == [table(v / d)] + Behind(v, d, b, table)
    ensures d < b ==> Behind(v, d, b, table) == ""
    ensures d >= b ==> d / b > 0 && Behind(v, d, b, table) == Emitted(v % d, d / b, b, table)
  {
    if d >= b { NextWeight(d, b); }
  }

  /** The characters behind the first. */
  function Behind(v: nat, d: nat, b: Base, table: nat -> char): string
    requires d > 0
  {
    if d < b then "" else NextWeight(d, b); Emitted(v % d, d / b, b, table)
  }

  lemma Shrinks(number: nat, b: Base)
    requires number >= b
    ensures 0 <= number / b < number && Digits(number, b) == Digits(number / b, b) + 1
  {
    if b == 10 { assert number / 10 < number; } else { assert number / 16 < number; }
  }

  lemma Subtract(v: nat, q: nat, d: nat)
    requires d > 0 && q == v / d
    ensures v - q * d == v % d && v % d >= 0
  {
    DivMod(v, d);
  }

  lemma LastDigit(d: nat, b: Base)
    ensures d / b == 0 <==> d < b
    ensures d > 0 ==> d / b < d
  {
  }

  lemma AtLeast(v: nat, b: Base, n: nat)
    requires n > 0 && v / Pow(b, n - 1) < b
    ensures Digits(v, b) <= n
  {
    var p := Pow(b, n - 1);
    DivMod(v, p);
    Below(v, v / p, p, v % p, b);
    DigitsBound(v, b);
    if Digits(v, b) > n { PowMono(b, n, Digits(v, b) - 1); }
  }

  lemma Below(v: nat, q: nat, p: nat, r: nat, b: nat)
    requires v == q * p + r && r < p && q < b
    ensures v < b * p
  {
    MulMono(q + 1, b, p);
  }

  lemma OneMoreWeight(v: nat, b: Base, n: nat)
    requires n > 0 && v / Pow(b, n - 1) >= b
    ensures Pow(b, n) <= v && n < Digits(v, b)
  {
    DivMod(v, Pow(b, n - 1));
    MulMono(b, v / Pow(b, n - 1), Pow(b, n - 1));
    DigitsBound(v, b);
    if Digits(v, b) <= n { PowMono(b, Digits(v, b), n); }
  }

  /** A buffer of two, a sink that takes one character and then two: of a left-justified 10 in a field of
      four it gets the first digit twice. */
  method SentTwice() returns (sent: string)
    ensures sent == "110"
  {
    hide Width, Digits, Weight, UnsignedText, Fill, Numeral;
    var sink := (k: nat) => if k == 0 then 1 else 2;
    var table := (d: nat) => if d < 16 then DigitChar(d) else ' ';
    var p := new Printer(2, sink, table);
    var f := Flags(true, false, false);
    TenOnPaper(f, table);
    p.FirstRefused(2);
    p.FirstRefused(4);
    assert "" + "10  " == "10  ";
    var ok := p.PrintUnsigned(10, 10, 0, 4, f);
    p.OneAndTwo("10  ");
    sent := p.sent;
  }

  lemma TenOnPaper(f: Flags, table: nat -> char)
    requires f == Flags(true, false, false) && IsTable(table)
    ensures Weight(10, 10, 0) == 10 && Digits(10, 10) == Width(10, 10, 0) == 2
    ensures UnsignedText(10, 10, 0, 4, f, table) == "10  "
  {
    hide Numeral, UnsignedText, Weight;
    assert Digits(1, 10) == 1;
    TwoDigits();
    WeightInLimit(10, 10, 0);
    UnsignedMeans(10, 10, 0, 4, f, table);
    FitsWidth(10, 10, 0);
    assert Fill(' ', true, 4, 2) == "  ";
    assert Fill(LeadChar(0, f), false, 4, 2) == "";
  }

  lemma TwoDigits()
    ensures Pow(10, 1) == 10 && Pow(10, 2) == 100 && Numeral(10, 10, 2) == "10"
  {
    assert Pow(10, 0) == 1 && Pow(10, 1) == 10;
    FitsAndRest(10, 10);
    FitsAndRest(0, 1);
    assert Numeral(0, 10, 0) == "";
    assert Numeral(0, 10, 1) == [DigitChar(0)] + "";
    assert Numeral(10, 10, 2) == [DigitChar(1)] + Numeral(0, 10, 1);
  }
}
