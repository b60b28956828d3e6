// The temperature as text: char_device_read prints hundredths of a degree with
// snprintf, the server parses the text back with atof (temp_sensor.cpp).
module TempText {
  import opened CLanguage
  import Bmp280

  const OUT_STRING_SIZE := 10

  // ----- snprintf ----------------------------------------------------------

  /** %d */
  function Printed(v: int): string {
    if v >= 0 then Decimal(v) else "-" + Decimal(-v)
  }

  /** %02d: zeros go between the sign and the digits, the sign counts as width. */
  function PrintedTwoWide(v: int): string {
    if 0 <= v < 10 then "0" + Decimal(v) else Printed(v)
  }

  /** "%d.%02d\n" of the quotient and the remainder by 100. */
  function Formatted(t: int): string {
    Printed(TruncDiv(t, 100)) + "." + PrintedTwoWide(TruncRem(t, 100)) + "\n"
  }

  /** snprintf keeps one character less than the buffer, for the terminator. */
  function Kept(s: string, size: nat): (r: string)
    requires size >= 1
    ensures r <= s
    ensures |s| < size ==> r == s
    ensures |s| >= size ==> |r| == size - 1
  {
    if |s| < size then s else s[..size - 1]
  }

  datatype ReadResult = Failed | Copied(bytes: string)

  /** char_device_read, with a copy to user space that does not fail. */
  method CharDeviceRead(temperature: int, count: nat) returns (r: ReadResult)
    ensures r.Failed? <==> temperature == -6666
    ensures r.Copied? ==> r.bytes <= Kept(Formatted(temperature), OUT_STRING_SIZE) + "\0"
    ensures r.Copied? ==>
              var whole := |Kept(Formatted(temperature), OUT_STRING_SIZE)| + 1;
              |r.bytes| == if count < whole then count else whole
  {
    if temperature == Bmp280.READ_ERROR {
      return Failed;
    }
    var outString := Kept(Formatted(temperature), OUT_STRING_SIZE);
    var toCopy := if count < |outString| + 1 then count else |outString| + 1;
    return Copied((outString + "\0")[..toCopy]);
  }

  // ----- atof --------------------------------------------------------------

  /** How many digits s starts with. */
  function Span(s: string): (k: nat)
    ensures k <= |s| && AllDigits(s[..k])
    ensures k < |s| ==> !IsDigit(s[k])
  {
    if s == [] || !IsDigit(s[0]) then 0 else 1 + Span(s[1..])
  }

  /** Digits, optionally followed by a point and more digits; the rest is ignored. */
  function Unsigned(s: string): real {
    var k := Span(s);
    Value(s[..k]) as real + Fraction(s[k..])
  }

  function Fraction(s: string): real {
    if s != [] && s[0] == '.' then Decimals(s[1..]) else 0.0
  }

  function Decimals(s: string): real {
    Value(s[..Span(s)]) as real / Ten(Span(s)) as real
  }

  /** atof on texts without leading blanks and without an exponent. */
  function Atof(s: string): real {
    if s != [] && s[0] == '-' then -Unsigned(s[1..]) else Unsigned(s)
  }

  /** A C string ends at its terminator. */
  function CString(s: string): (r: string)
    ensures r <= s
  {
    if s == [] || s[0] == '\0' then [] else [s[0]] + CString(s[1..])
  }

  lemma {:induction false} CStringOfTerminated(s: string)
    requires '\0' !in s
    ensures CString(s + "\0") == s
  {
    if s != [] {
      CStringOfTerminated(s[1..]);
      assert (s + "\0")[1..] == s[1..] + "\0";
    }
  }

  lemma {:induction false} SpanOfDigits(d: string, rest: string)
    requires AllDigits(d) && (rest == [] || !IsDigit(rest[0]))
    ensures Span(d + rest) == |d|
  {
    if d == [] {
      assert d + rest == rest;
    } else {
      assert (d + rest)[1..] == d[1..] + rest;
      SpanOfDigits(d[1..], rest);
    }
  }

  lemma UnsignedSplit(d: string, rest: string)
    requires AllDigits(d) && (rest == [] || !IsDigit(rest[0]))
    ensures Unsigned(d + rest) == Value(d) as real + Fraction(rest)
  {
    SpanOfDigits(d, rest);
    assert (d + rest)[..|d|] == d && (d + rest)[|d|..] == rest;
  }

  lemma FractionSplit(f: string, rest: string)
    requires AllDigits(f) && (rest == [] || !IsDigit(rest[0]))
    ensures Fraction("." + (f + rest)) == Value(f) as real / Ten(|f|) as real
  {
    assert ("." + (f + rest))[1..] == f + rest;
    assert Decimals(f + rest) == Value(f) as real / Ten(|f|) as real by {
      SpanOfDigits(f, rest);
      assert (f + rest)[..|f|] == f;
    }
  }

  /** Digits, a point and digits, with or without a sign in front. */
  lemma AtofOfPoint(d: string, f: string, rest: string)
    requires |d| >= 1 && AllDigits(d) && AllDigits(f)
    requires rest == [] || !IsDigit(rest[0])
    ensures var s := d + ("." + (f + rest));
            var x := Value(d) as real + Value(f) as real / Ten(|f|) as real;
            Atof(s) == x && Atof("-" + s) == -x
  {
    FractionSplit(f, rest);
    UnsignedSplit(d, "." + (f + rest));
    AtofOfSigned(d, "." + (f + rest));
  }

  lemma AtofOfSigned(d: string, tail: string)
    requires |d| >= 1 && AllDigits(d)
    ensures Atof(d + tail) == Unsigned(d + tail)
    ensures Atof("-" + (d + tail)) == -Unsigned(d + tail)
  {
    var s := d + tail;
    assert s[0] == d[0] && d[0] in d;
    assert ("-" + s)[1..] == s;
  }

  /** Without a point there is no fraction. */
  lemma AtofOfInteger(d: string, rest: string)
    requires |d| >= 1 && AllDigits(d) && (rest == [] || (!IsDigit(rest[0]) && rest[0] != '.'))
    ensures Atof(d + rest) == Value(d) as real && Atof("-" + (d + rest)) == -(Value(d) as real)
  {
    UnsignedSplit(d, rest);
    AtofOfSigned(d, rest);
  }

  /** A second sign ends the parse before any fraction digit. */
  lemma AtofOfBroken(sign: string, d: string, rest: string)
    requires sign == "" || sign == "-"
    requires |d| >= 1 && AllDigits(d)
    requires rest != [] && rest[0] == '-'
    ensures Atof(sign + (d + ("." + ([] + rest)))) == if sign == "" then Value(d) as real else -(Value(d) as real)
  {
    NoDigits();
    AtofOfPoint(d, [], rest);
    if sign == "" {
      NoSign(d + ("." + ([] + rest)));
    }
  }

  lemma NoDigits()
    ensures Value("") as real / Ten(|""|) as real == 0.0
  {
    assert Ten(0) == 1;
  }

  lemma NoSign(s: string)
    ensures "" + s == s
  {
  }

  lemma TwoDigits(n: nat)
    requires n < 100
    ensures |PrintedTwoWide(n)| == 2 && AllDigits(PrintedTwoWide(n)) && Value(PrintedTwoWide(n)) == n
  {
    DecimalRoundTrip(n);
    var s := PrintedTwoWide(n);
    if n < 10 {
      assert s[..1] == "0" && Value("0") == 0;
      assert Decimal(n) == [DigitOf(n)];
    } else {
      assert Decimal(n) == Decimal(n / 10) + [DigitOf(n % 10)];
    }
  }

  lemma SplitByHundred(t: nat)
    ensures t as real / 100.0 == (t / 100) as real + (t % 100) as real / 100.0
  {
    assert t == 100 * (t / 100) + t % 100;
  }

  // ----- End to end --------------------------------------------------------

  /** What the server makes of a read of at least ten bytes. */
  function ServerReading(t: int): real {
    Atof(CString(Kept(Formatted(t), OUT_STRING_SIZE) + "\0"))
  }

  lemma NoTerminator(t: int)
    ensures '\0' !in Formatted(t)
  {
    var n := if t >= 0 then t else -t;
    assert AllDigits(Decimal(n / 100)) && AllDigits(Decimal(n % 100));
  }

  lemma ServerParsesKept(t: int, s: string)
    requires Kept(Formatted(t), OUT_STRING_SIZE) == s
    ensures ServerReading(t) == Atof(s)
  {
    NoTerminator(t);
    CStringOfTerminated(s);
  }

  /** A text of zero degrees and up: the degrees, a point, two digits of hundredths and the only newline. */
  lemma TextOf(t: nat) returns (d: string, f: string)
    ensures Formatted(t) == d + "." + f + "\n"
    ensures AllDigits(d) && Value(d) == t / 100 && |f| == 2 && AllDigits(f) && Value(f) == t % 100
    ensures '\n' !in d && '\n' !in f
  {
    d, f := Decimal(t / 100), PrintedTwoWide(t % 100);
    TwoDigits(t % 100);
    DecimalRoundTrip(t / 100);
  }

  /** Below zero the degrees and the hundredths each have their sign, or the hundredths are 00. */
  lemma TextBelowZero(n: nat) returns (d: string, f: string)
    requires n > 0
    ensures Formatted(-(n as int)) == (if n < 100 then "" else "-") + d + "." + f + "\n"
    ensures AllDigits(d) && Value(d) == n / 100
    ensures if n % 100 == 0 then f == "00" else f == "-" + Decimal(n % 100)
  {
    d, f := Decimal(n / 100), if n % 100 == 0 then "00" else "-" + Decimal(n % 100);
    DecimalRoundTrip(n / 100);
    if n % 100 != 0 {
      FormattedNegative(n);
    } else {
      assert TruncDiv(-(n as int), 100) == -((n / 100) as int) && TruncRem(-(n as int), 100) == 0;
      assert PrintedTwoWide(0) == "00";
    }
  }

  /** The text of a reading below 10^7 is not truncated, at 10^7 it is. */
  lemma FitsExactlyBelowTenMillion(t: nat)
    ensures |Formatted(t)| < OUT_STRING_SIZE <==> t < 1000_0000
  {
    TwoDigits(t % 100);
    DecimalLength(t / 100, 5);
    assert Ten(5) == 10_0000;
  }

  lemma FiveDigits(n: nat)
    requires n < 1000_0000
    ensures |Decimal(n / 100)| <= 5
  {
    DecimalLength(n / 100, 5);
    assert Ten(5) == 10_0000;
  }

  lemma ReadsBackPositive(t: nat)
    requires t < 1000_0000
    ensures ServerReading(t) == t as real / 100.0
  {
    var d, f := Decimal(t / 100), PrintedTwoWide(t % 100);
    assert Kept(Formatted(t), OUT_STRING_SIZE) == d + ("." + (f + "\n")) by {
      FitsExactlyBelowTenMillion(t);
    }
    ServerParsesKept(t, d + ("." + (f + "\n")));
    ValueOfParts(t);
    AtofOfPoint(d, f, "\n");
  }

  lemma ValueOfParts(t: nat)
    ensures var f := PrintedTwoWide(t % 100);
            AllDigits(f) && |f| == 2 && Ten(|f|) == 100 &&
            Value(Decimal(t / 100)) as real + Value(f) as real / Ten(|f|) as real == t as real / 100.0
  {
    TwoDigits(t % 100);
    DecimalRoundTrip(t / 100);
    SplitByHundred(t);
    assert Ten(2) == 10 * Ten(1);
  }

  /** Of "-D.00\n" the number is left, and perhaps the newline. */
  lemma KeptWholeDegrees(d: string) returns (rest: string)
    requires |d| <= 5
    ensures rest == [] || rest == "\n"
    ensures Kept("-" + d + "." + "00" + "\n", OUT_STRING_SIZE) == "-" + (d + ("." + ("00" + rest)))
  {
    rest := if |d| <= 4 then "\n" else [];
    var s := "-" + d + "." + "00" + "\n";
    assert |s| == |d| + 5;
    if |d| == 5 {
      assert s[..9] == "-" + d + "." + "00";
    }
    assert Kept(s, OUT_STRING_SIZE) == "-" + d + "." + "00" + rest;
  }

  lemma ReadsBackWholeDegrees(n: int)
    requires 0 < n < 1000_0000 && n % 100 == 0
    ensures ServerReading(-n) == -(n as real / 100.0)
  {
    var d := Decimal(n / 100);
    FiveDigits(n);
    assert Formatted(-n) == "-" + d + "." + "00" + "\n" by {
      assert TruncDiv(-n, 100) == -(n / 100) && TruncRem(-n, 100) == 0;
      assert PrintedTwoWide(0) == "00";
    }
    var rest := KeptWholeDegrees(d);
    ServerParsesKept(-n, "-" + (d + ("." + ("00" + rest))));
    assert PrintedTwoWide(0) == "00";
    ValueOfParts(n);
    AtofOfPoint(d, "00", rest);
  }

  /** Of "D.-r\n" or "-D.-r\n" at least the second sign is left. */
  lemma KeptNegativeFraction(sign: string, d: string, tail: string) returns (rest: string)
    requires |sign| <= 1 && |d| <= 5 && tail != [] && tail[0] == '-'
    ensures rest != [] && rest[0] == '-'
    ensures Kept(sign + d + "." + tail, OUT_STRING_SIZE) == sign + (d + ("." + ([] + rest)))
  {
    var x := sign + d + ".";
    rest := if |x| + |tail| < OUT_STRING_SIZE then tail else tail[..OUT_STRING_SIZE - 1 - |x|];
    assert Kept(x + tail, OUT_STRING_SIZE) == x + rest;
  }

  /** Below zero the fraction is dropped: whole degrees arrive, rounded to zero. */
  lemma LosesNegativeFraction(n: int)
    requires 0 < n < 1000_0000 && n % 100 != 0
    ensures ServerReading(-n) == -((n / 100) as real)
  {
    var d, sign := Decimal(n / 100), if n < 100 then "" else "-";
    var tail := Printed(-(n % 100)) + "\n";
    FiveDigits(n);
    assert Formatted(-n) == sign + d + "." + tail by {
      FormattedNegative(n);
    }
    var rest := KeptNegativeFraction(sign, d, tail);
    ServerParsesKept(-n, sign + (d + ("." + ([] + rest))));
    AtofOfBroken(sign, d, rest);
    DecimalRoundTrip(n / 100);
  }

  lemma FormattedNegative(n: int)
    requires n > 0 && n % 100 != 0
    ensures Formatted(-n) == (if n < 100 then "" else "-") + Decimal(n / 100) + "."
                             + (Printed(-(n % 100)) + "\n")
  {
    assert TruncDiv(-n, 100) == -(n / 100) && TruncRem(-n, 100) == -(n % 100);
    assert PrintedTwoWide(-(n % 100)) == Printed(-(n % 100));
    assert Printed(-(n / 100)) == (if n < 100 then "" else "-") + Decimal(n / 100);
  }

  /**
   * The server reads back the temperature the driver printed exactly when it
   * is not negative or a whole number of degrees.
   */
  lemma ReadsBackExactlyWhen(t: int)
    requires -1000_0000 < t < 1000_0000
    ensures ServerReading(t) == t as real / 100.0 <==> t >= 0 || TruncRem(t, 100) == 0
  {
    if t >= 0 {
      ReadsBackPositive(t);
    } else if TruncRem(t, 100) == 0 {
      ReadsBackWholeDegrees(-t);
      Negates(t);
    } else {
      LosesNegativeFraction(-t);
      FractionCounts(-t);
      Negates(t);
    }
  }

  lemma Negates(t: int)
    ensures -((-t) as real / 100.0) == t as real / 100.0
  {
  }

  lemma FractionCounts(n: nat)
    requires n % 100 != 0
    ensures n as real / 100.0 != (n / 100) as real
  {
    SplitByHundred(n);
  }
}
