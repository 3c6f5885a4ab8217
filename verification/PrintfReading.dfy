/** Reading back what the number printers print. */
module PrintfReading {
  import opened Bytes
  import opened Printf

  /** What a reader makes of a text: spaces are skipped, a sign may follow, and digits up to the first
      other character. */
  function ReadNumber(s: string, b: Base): int {
    if s == "" then 0
    else if s[0] == ' ' then ReadNumber(s[1..], b)
    else if s[0] == '-' then 0 - Scan(s[1..], b, 0)
    else if s[0] == '+' then Scan(s[1..], b, 0)
    else Scan(s, b, 0)
  }

  function Scan(s: string, b: Base, acc: nat): nat
    decreases |s|
  {
    if s == "" || !IsDigit(s[0]) then acc else Scan(s[1..], b, acc * b + DigitValue(s[0]))
  }

  /** How many digits a text has. */
  function DigitsIn(s: string): nat {
    if s == "" then 0 else (if IsDigit(s[0]) then 1 else 0) + DigitsIn(s[1..])
  }

  predicate NoDigitFirst(s: string) { s == "" || !IsDigit(s[0]) }

  lemma {:induction false} ScanDigits(d: string, rest: string, b: Base, acc: nat)
    requires AllDigits(d) && NoDigitFirst(rest)
    ensures Scan(d + rest, b, acc) == acc * Pow(b, |d|) + Value(d, b)
    decreases |d|
  {
    if d == "" {
      assert d + rest == rest;
    } else {
      assert (d + rest)[1..] == d[1..] + rest;
      ScanDigits(d[1..], rest, b, acc * b + DigitValue(d[0]));
      Horner(acc, DigitValue(d[0]), b, Pow(b, |d| - 1));
    }
  }

  lemma Horner(acc: nat, x: nat, b: nat, p: nat)
    ensures (acc * b + x) * p == acc * (b * p) + x * p
  {
    assert (acc * b + x) * p == acc * b * p + x * p;
    assert acc * b * p == acc * (b * p);
  }

  lemma {:induction false} SkipSpaces(n: nat, s: string, b: Base)
    ensures ReadNumber(Repeat(' ', n) + s, b) == ReadNumber(s, b)
  {
    if n == 0 {
      assert Repeat(' ', 0) + s == s;
    } else {
      var all := Repeat(' ', n) + s;
      assert all[0] == ' ' && all[1..] == Repeat(' ', n - 1) + s;
      SkipSpaces(n - 1, s, b);
    }
  }

  lemma {:induction false} SkipZeros(n: nat, s: string, b: Base)
    ensures Scan(Repeat('0', n) + s, b, 0) == Scan(s, b, 0)
  {
    if n == 0 {
      assert Repeat('0', 0) + s == s;
    } else {
      var all := Repeat('0', n) + s;
      assert all[0] == '0' && all[1..] == Repeat('0', n - 1) + s;
      SkipZeros(n - 1, s, b);
    }
  }

  lemma ReadDigits(s: string, b: Base)
    requires s != "" && IsDigit(s[0])
    ensures ReadNumber(s, b) == Scan(s, b, 0)
  {
  }

  /** The digits of a number, with zeros in front and spaces behind. */
  lemma ScanNumber(zeros: nat, v: nat, b: Base, precision: nat, spaces: nat)
    ensures Scan(Repeat('0', zeros) + (Number(v, b, precision) + Repeat(' ', spaces)), b, 0) == v
  {
    NumberMeans(v, b, precision);
    var d, rest := Number(v, b, precision), Repeat(' ', spaces);
    SkipZeros(zeros, d + rest, b);
    ScanDigits(d, rest, b, 0);
  }

  lemma FirstIsDigit(zeros: nat, v: nat, b: Base, precision: nat, rest: string)
    ensures var s := Repeat('0', zeros) + (Number(v, b, precision) + rest); s != "" && IsDigit(s[0])
  {
    NumberMeans(v, b, precision);
    var d := Number(v, b, precision);
    assert IsDigit(d[0]);
  }

  /** Within the limit an unsigned number reads back, whatever the flags. */
  lemma UnsignedReadsBack(v: nat, b: Base, precision: nat, field: nat, f: Flags, table: nat -> char)
    requires v < U32 && IsTable(table) && precision <= MaxPrecision(b)
    ensures ReadNumber(UnsignedText(v, b, precision, field, f, table), b) == v
  {
    hide UnsignedText, Number;
    UnsignedMeans(v, b, precision, field, f, table);
    var w := Width(v, b, precision);
    var lead, behind := |Fill(LeadChar(precision, f), !f.left, field, w)|, |Fill(' ', f.left, field, w)|;
    var tail := Number(v, b, precision) + Repeat(' ', behind);
    if LeadChar(precision, f) == '0' {
      ReadsPadded(0, "", lead, v, b, precision, behind);
      assert UnsignedText(v, b, precision, field, f, table) == Repeat(' ', 0) + ("" + (Repeat('0', lead) + tail));
    } else {
      ReadsPadded(lead, "", 0, v, b, precision, behind);
      assert UnsignedText(v, b, precision, field, f, table) == Repeat(' ', lead) + ("" + (Repeat('0', 0) + tail));
    }
  }

  /** Spaces, sign, zeros, number, spaces. */
  lemma ReadsPadded(spaces: nat, sign: string, zeros: nat, v: nat, b: Base, precision: nat, behind: nat)
    requires sign in {"", "+", "-"}
    ensures ReadNumber(Repeat(' ', spaces)
                       + (sign + (Repeat('0', zeros) + (Number(v, b, precision) + Repeat(' ', behind)))), b)
            == if sign == "-" then 0 - v else v
  {
    hide Number, Scan;
    var digits := Repeat('0', zeros) + (Number(v, b, precision) + Repeat(' ', behind));
    SkipSpaces(spaces, sign + digits, b);
    ScanNumber(zeros, v, b, precision, behind);
    FirstIsDigit(zeros, v, b, precision, Repeat(' ', behind));
    if sign == "" {
      assert sign + digits == digits;
      ReadDigits(digits, b);
    } else {
      assert (sign + digits)[0] == sign[0] && (sign + digits)[1..] == digits;
    }
  }

  /** The parts of a signed text, INT_MIN included. */
  lemma IntParts(v: int, precision: nat, field: nat, f: Flags, table: nat -> char)
      returns (spaces: nat, zeros: nat, behind: nat)
    requires IsInt(v) && precision <= MaxPrecision(10) && IsTable(table)
    ensures IntText(v, precision, field, f, table)
            == Repeat(' ', spaces) + (SignText(v, f)
               + (Repeat('0', zeros) + (Number(Magnitude(v), 10, precision) + Repeat(' ', behind))))
    ensures spaces > 0 ==> !f.left && !(f.zero && precision == 0)
    ensures zeros > 0 ==> !f.left && f.zero && precision == 0
    ensures behind > 0 ==> f.left
  {
    hide UnsignedText, Number, Digits;
    var w, inner := IntWidth(v, precision), Inner(v, field, f);
    var left := Left(WantsZeros(precision, f), Left(WantsSpaces(precision, f), inner, w), w);
    assert !f.left ==> left <= w;
    UnsignedMeans(Magnitude(v), 10, precision, left, f, table);
    assert w <= Width(Magnitude(v), 10, precision) by { OneDigit(Magnitude(v)); }
    assert Fill(LeadChar(precision, f), !f.left, left, Width(Magnitude(v), 10, precision)) == "";
    spaces := |Fill(' ', WantsSpaces(precision, f), inner, w)|;
    zeros := |Fill('0', WantsZeros(precision, f), Left(WantsSpaces(precision, f), inner, w), w)|;
    behind := |Fill(' ', f.left, left, Width(Magnitude(v), 10, precision))|;
    var tail := Number(Magnitude(v), 10, precision) + Repeat(' ', behind);
    assert "" + tail == tail;
  }

  lemma OneDigit(v: nat)
    ensures Digits(v, 10) >= 1
  {
  }

  /** Within the limit a signed number reads back, whatever the flags, INT_MIN included. */
  lemma IntReadsBack(v: int, precision: nat, field: nat, f: Flags, table: nat -> char)
    requires IsInt(v) && precision <= MaxPrecision(10) && IsTable(table)
    ensures ReadNumber(IntText(v, precision, field, f, table), 10) == v
  {
    hide IntText, Number;
    var spaces, zeros, behind := IntParts(v, precision, field, f, table);
    ReadsPadded(spaces, SignText(v, f), zeros, Magnitude(v), 10, precision, behind);
  }

  lemma {:induction false} CountDigitsOf(a: string, b: string)
    ensures DigitsIn(a + b) == DigitsIn(a) + DigitsIn(b)
  {
    if a == "" {
      assert a + b == b;
    } else {
      assert (a + b)[1..] == a[1..] + b;
      CountDigitsOf(a[1..], b);
    }
  }

  lemma {:induction false} AllCounted(s: string)
    requires AllDigits(s)
    ensures DigitsIn(s) == |s|
  {
    if s != "" { AllCounted(s[1..]); }
  }

  lemma {:induction false} NoneCounted(s: string)
    requires forall i :: 0 <= i < |s| ==> !IsDigit(s[i])
    ensures DigitsIn(s) == 0
  {
    if s != "" { NoneCounted(s[1..]); }
  }

  /** Padding and sign: a minus exactly for negative numbers, a plus exactly for the others under the sign flag;
      zero padding leaves no space, and otherwise there are exactly max(precision, digits) digits; spaces stand
      on one side only. */
  lemma PaddingMeans(v: int, precision: nat, field: nat, f: Flags, table: nat -> char)
    requires IsInt(v) && precision <= MaxPrecision(10) && IsTable(table)
    ensures var s := IntText(v, precision, field, f, table);
            && s != "" && ('-' in s <==> v < 0) && ('+' in s <==> v >= 0 && f.sign)
            && (f.zero && precision == 0 && !f.left ==> ' ' !in s)
            && (!f.zero || precision > 0 || f.left ==> DigitsIn(s) == Width(Magnitude(v), 10, precision))
            && (f.left ==> s[0] != ' ') && (!f.left ==> s[|s| - 1] != ' ')
  {
    hide IntText, Number, Digits;
    var spaces, zeros, behind := IntParts(v, precision, field, f, table);
    var s, sign, number := IntText(v, precision, field, f, table), SignText(v, f), Number(Magnitude(v), 10, precision);
    NumberMeans(Magnitude(v), 10, precision);
    OneDigit(Magnitude(v));
    PartsSay(spaces, sign, zeros, number, behind);
  }

  lemma PartsSay(spaces: nat, sign: string, zeros: nat, number: string, behind: nat)
    requires AllDigits(number) && number != "" && sign in {"", "+", "-"}
    ensures var s := Repeat(' ', spaces) + (sign + (Repeat('0', zeros) + (number + Repeat(' ', behind))));
            && s != "" && ('-' in s <==> sign == "-") && ('+' in s <==> sign == "+")
            && (' ' in s <==> spaces > 0 || behind > 0) && DigitsIn(s) == zeros + |number|
            && (s[0] == ' ' <==> spaces > 0) && (s[|s| - 1] == ' ' <==> behind > 0)
  {
    hide AllDigits, DigitsIn;
    PartsIn(' ', spaces, sign, zeros, number, behind);
    PartsIn('-', spaces, sign, zeros, number, behind);
    PartsIn('+', spaces, sign, zeros, number, behind);
    PartsCounted(spaces, sign, zeros, number, behind);
    EndsOf(spaces, sign, zeros, number, behind);
  }

  lemma EndsOf(spaces: nat, sign: string, zeros: nat, number: string, behind: nat)
    requires AllDigits(number) && number != "" && sign in {"", "+", "-"}
    ensures var s := Repeat(' ', spaces) + (sign + (Repeat('0', zeros) + (number + Repeat(' ', behind))));
            s != "" && (s[0] == ' ' <==> spaces > 0) && (s[|s| - 1] == ' ' <==> behind > 0)
  {
    assert IsDigit(number[0]) && IsDigit(number[|number| - 1]);
  }

  lemma InBoth(c: char, a: string, b: string)
    ensures c in a + b <==> c in a || c in b
  {
  }

  lemma InRepeat(c: char, d: char, n: nat)
    ensures c in Repeat(d, n) <==> c == d && n > 0
  {
    if c == d && n > 0 { assert Repeat(d, n)[0] == c; }
  }

  /** Where a character that is no digit can come from. */
  lemma PartsIn(c: char, spaces: nat, sign: string, zeros: nat, number: string, behind: nat)
    requires AllDigits(number) && !IsDigit(c)
    ensures c in Repeat(' ', spaces) + (sign + (Repeat('0', zeros) + (number + Repeat(' ', behind))))
            <==> (c == ' ' && (spaces > 0 || behind > 0)) || c in sign
  {
    var tail := number + Repeat(' ', behind);
    InBoth(c, Repeat(' ', spaces), sign + (Repeat('0', zeros) + tail));
    InBoth(c, sign, Repeat('0', zeros) + tail);
    InBoth(c, Repeat('0', zeros), tail);
    InBoth(c, number, Repeat(' ', behind));
    InRepeat(c, ' ', spaces);
    InRepeat(c, '0', zeros);
    InRepeat(c, ' ', behind);
  }

  lemma PartsCounted(spaces: nat, sign: string, zeros: nat, number: string, behind: nat)
    requires AllDigits(number) && sign in {"", "+", "-"}
    ensures DigitsIn(Repeat(' ', spaces) + (sign + (Repeat('0', zeros) + (number + Repeat(' ', behind)))))
            == zeros + |number|
  {
    hide DigitsIn;
    var tail := number + Repeat(' ', behind);
    CountDigitsOf(Repeat(' ', spaces), sign + (Repeat('0', zeros) + tail));
    CountDigitsOf(sign, Repeat('0', zeros) + tail);
    CountDigitsOf(Repeat('0', zeros), tail);
    CountDigitsOf(number, Repeat(' ', behind));
    NoneCounted(Repeat(' ', spaces));
    NoneCounted(sign);
    AllCounted(Repeat('0', zeros));
    AllCounted(number);
    NoneCounted(Repeat(' ', behind));
  }
}
