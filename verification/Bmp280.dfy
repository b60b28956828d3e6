// The BMP280 temperature compensation of bmp280.c: 32-bit fixed-point arithmetic
// against the exact polynomial of section 3.11.3 of the BMP280 data sheet, and
// what the missing sign extension of dig_T2 and dig_T3 does to it.
module Bmp280 {
  import opened Arithmetic
  import opened CLanguage

  // What bmp280_read_temperature returns on error: BMP280_ERROR.
  const READ_ERROR := -6666
  const FAILED_READ := -1          // what cotti_i2c_read returns on error

  datatype Unit = Celsius | Kelvin | Fahrenheit

  /** hi << 8 | lo of two results of cotti_i2c_read, -1 included. */
  function Assemble(hi: int, lo: int): int {
    if lo == FAILED_READ then -1 else hi * 256 + lo
  }

  /** Two bytes make a word; an error of the low byte makes -1, one of the high byte 256 less than the low one. */
  lemma AssembleCases(hi: int, lo: int)
    ensures 0 <= hi < 256 && 0 <= lo < 256 ==>
              0 <= Assemble(hi, lo) < 65536 && Assemble(hi, lo) / 256 == hi && Assemble(hi, lo) % 256 == lo
    ensures lo == -1 ==> Assemble(hi, lo) == -1
    ensures hi == -1 && 0 <= lo < 256 ==> Assemble(hi, lo) == lo - 256
  {
  }

  // ----- The compensation --------------------------------------------------

  // The two differences the compensation starts from; >> is floor division.
  function Fine(raw: int, t1: int): int { raw / 8 - 2 * t1 }
  function Coarse(raw: int, t1: int): int { raw / 16 - t1 }

  /** ((raw>>4) - T1)^2 >> 12. */
  function Square(raw: int, t1: int): int {
    Coarse(raw, t1) * Coarse(raw, t1) / 4096
  }

  function Linear(raw: int, t1: int, t2: int): int {
    Fine(raw, t1) * t2 / 2048
  }

  function Quadratic(raw: int, t1: int, t3: int): int {
    Square(raw, t1) * t3 / 16384
  }

  function Rounded(v: int): int { (v * 5 + 128) / 256 }

  /** Division by 256 with rounding: half a unit off at most. */
  lemma RoundedIsNearest(v: int)
    ensures -128 < 256 * Rounded(v) - 5 * v <= 128
  {
  }

  /** The data sheet's integer formula, in hundredths of a degree Celsius. */
  function Hundredths(raw: int, t1: int, t2: int, t3: int): int {
    Rounded(Linear(raw, t1, t2) + Quadratic(raw, t1, t3))
  }

  /** The three products of the compensation stay in 32 bits. */
  predicate ProductsFit(raw: int, t1: int, t2: int, t3: int) {
    && IsS32(Fine(raw, t1) * t2)
    && IsS32(Coarse(raw, t1) * Coarse(raw, t1))
    && IsS32(Square(raw, t1) * t3)
  }

  /** What 20 raw bits and the 16 bits of T1 can be. */
  predicate InRange(raw: int, t1: int) {
    0 <= raw < 0x10_0000 && 0 <= t1 < 0x1_0000
  }

  /** What 20 raw bits and 16 calibration bits give without sign extension. */
  predicate Unsigned(raw: int, t1: int, t2: int, t3: int) {
    InRange(raw, t1) && 0 <= t2 < 0x1_0000 && 0 <= t3 < 0x1_0000
  }

  class Sensor {
    var digT1: int
    var digT2: int
    var digT3: int
    var unit: Unit

    constructor (t1Msb: int, t1Lsb: int, t2Msb: int, t2Lsb: int, t3Msb: int, t3Lsb: int)
      ensures digT1 == Assemble(t1Msb, t1Lsb)
      ensures digT2 == Assemble(t2Msb, t2Lsb)
      ensures digT3 == Assemble(t3Msb, t3Lsb)
      ensures unit == Celsius
    {
      digT1 := Assemble(t1Msb, t1Lsb);
      digT2 := Assemble(t2Msb, t2Lsb);
      digT3 := Assemble(t3Msb, t3Lsb);
      unit := Celsius;
    }

    method SetUnit(u: Unit)
      modifies this`unit
      ensures unit == u
    {
      unit := u;
    }

    // d1, d2, d3 are the results of reading the three temperature registers.
    method ReadTemperature(d1: int, d2: int, d3: int) returns (temp: int)
      requires -1 <= d1 < 256 && -1 <= d2 < 256 && -1 <= d3 < 256
      requires IsS32(digT1) && IsS32(digT2) && IsS32(digT3)
      ensures d1 == FAILED_READ || d2 == FAILED_READ || d3 == FAILED_READ ==> temp == READ_ERROR
      ensures d1 >= 0 && d2 >= 0 && d3 >= 0 ==>
                var raw := (d1 * 65536 + d2 * 256 + d3) / 16;
                var celsius := Wrapped(raw, digT1, digT2, digT3);
                && temp == InUnit(celsius, unit)
                && (Unsigned(raw, digT1, digT2, digT3) && ProductsFit(raw, digT1, digT2, digT3) ==>
                      celsius == Hundredths(raw, digT1, digT2, digT3))
    {
      if d1 == FAILED_READ || d2 == FAILED_READ || d3 == FAILED_READ {
        return READ_ERROR;
      }
      var rawTemp := (d1 * 65536 + d2 * 256 + d3) / 16;
      temp := Wrapped(rawTemp, digT1, digT2, digT3);
      if Unsigned(rawTemp, digT1, digT2, digT3) && ProductsFit(rawTemp, digT1, digT2, digT3) {
        WrappedIsExact(rawTemp, digT1, digT2, digT3);
      }
      match unit {
        case Celsius =>
        case Fahrenheit => temp := S32(TruncDiv(S32(temp * 9), 5) + 3200);
        case Kelvin => temp := S32(temp + 27315);
      }
    }
  }

  // The same formula with every operation wrapped to 32 bits.

  function WrappedLinear(raw: int, t1: int, t2: int): (v: int)
    ensures -0x10_0000 <= v < 0x10_0000
  {
    S32(S32(raw / 8 - S32(t1 * 2)) * t2) / 2048
  }

  function WrappedQuadratic(raw: int, t1: int, t3: int): (v: int)
    ensures -0x2_0000 <= v < 0x2_0000
  {
    var coarse := S32(raw / 16 - t1);
    S32((S32(coarse * coarse) / 4096) * t3) / 16384
  }

  function Wrapped(raw: int, t1: int, t2: int, t3: int): (t: int)
    ensures -0x80_0000 <= t < 0x80_0000
  {
    S32(S32(S32(WrappedLinear(raw, t1, t2) + WrappedQuadratic(raw, t1, t3)) * 5) + 128) / 256
  }

  /** Once the two terms are there, nothing wraps any more. */
  lemma SumNeverWraps(raw: int, t1: int, t2: int, t3: int)
    ensures Wrapped(raw, t1, t2, t3) == Rounded(WrappedLinear(raw, t1, t2) + WrappedQuadratic(raw, t1, t3))
  {
  }

  /** A Celsius reading in the configured unit, hundredths throughout. */
  function InUnit(celsius: int, unit: Unit): (t: int)
    ensures unit == Kelvin ==> t - celsius == 27315
    ensures unit == Celsius ==> t == celsius
    ensures unit == Fahrenheit ==>
              var lost := 9 * celsius - 5 * (t - 3200);
              if celsius >= 0 then 0 <= lost < 5 else -5 < lost <= 0
  {
    match unit
    case Celsius => celsius
    case Kelvin => celsius + 27315
    case Fahrenheit => TruncDiv(celsius * 9, 5) + 3200
  }

  // ----- Overflow ----------------------------------------------------------

  /** When the products fit, so does everything computed from them. */
  lemma SumFits(raw: int, t1: int, t2: int, t3: int)
    requires Unsigned(raw, t1, t2, t3) && ProductsFit(raw, t1, t2, t3)
    ensures IsS32(2 * t1) && IsS32(Fine(raw, t1)) && IsS32(Coarse(raw, t1))
    ensures -0x10_0000 <= Linear(raw, t1, t2) < 0x10_0000
    ensures 0 <= Square(raw, t1) && 0 <= Quadratic(raw, t1, t3) < 0x2_0000
  {
    assert Coarse(raw, t1) * Coarse(raw, t1) >= 0;
    assert Square(raw, t1) >= 0;
    assert Square(raw, t1) * t3 >= 0;
  }

  lemma TermsAreExact(raw: int, t1: int, t2: int, t3: int)
    requires Unsigned(raw, t1, t2, t3) && ProductsFit(raw, t1, t2, t3)
    ensures WrappedLinear(raw, t1, t2) == Linear(raw, t1, t2)
    ensures WrappedQuadratic(raw, t1, t3) == Quadratic(raw, t1, t3)
  {
    SumFits(raw, t1, t2, t3);
  }

  lemma WrappedIsExact(raw: int, t1: int, t2: int, t3: int)
    requires Unsigned(raw, t1, t2, t3) && ProductsFit(raw, t1, t2, t3)
    ensures Wrapped(raw, t1, t2, t3) == Hundredths(raw, t1, t2, t3)
  {
    TermsAreExact(raw, t1, t2, t3);
    SumNeverWraps(raw, t1, t2, t3);
  }

  /** A raw reading within 2^18 of 16*T1, with both T2 and T3 below 2^15, never overflows. */
  lemma NearCalibrationFits(raw: int, t1: int, t2: int, t3: int)
    requires Unsigned(raw, t1, t2, t3) && t2 < 0x8000 && t3 < 0x8000
    requires -0x4000 <= Coarse(raw, t1) <= 0x4000
    ensures ProductsFit(raw, t1, t2, t3)
  {
    var c, f, q := Coarse(raw, t1), Fine(raw, t1), Square(raw, t1);
    assert 2 * c <= f <= 2 * c + 1;
    Magnitude(f, t2, 0x8001, 0x7FFF);
    Magnitude(c, c, 0x4000, 0x4000);
    assert 0 <= c * c;
    Magnitude(q, t3, 0x1_0000, 0x7FFF);
  }

  lemma Scaled(x: int, y: int, a: int)
    requires -a <= x <= a && y >= 0
    ensures -(a * y) <= x * y <= a * y
  {
    assert (a - x) * y >= 0 && (a + x) * y >= 0;
    assert (a - x) * y == a * y - x * y;
    assert (a + x) * y == a * y + x * y;
  }

  lemma Negated(x: int, y: int)
    ensures x * -y == -(x * y)
  {
  }

  lemma Magnitude(x: int, y: int, a: int, b: int)
    requires -a <= x <= a && -b <= y <= b
    ensures -(a * b) <= x * y <= a * b
  {
    var size := if y >= 0 then y else -y;
    Scaled(x, size, a);
    Scaled(size, a, b);
    Commutes(size, a);
    Commutes(b, a);
    Negated(x, y);
  }

  // ----- Accuracy ----------------------------------------------------------

  /** The data sheet's polynomial, evaluated exactly, in hundredths of a degree. */
  function Exact(raw: int, t1: int, t2: int, t3: int): real {
    (ExactLinear(raw, t1, t2) + ExactQuadratic(raw, t1, t3)) * 5.0 / 256.0
  }

  function ExactLinear(raw: int, t1: int, t2: int): real {
    (raw as real / 16384.0 - t1 as real / 1024.0) * t2 as real
  }

  function ExactQuadratic(raw: int, t1: int, t3: int): real {
    var d := raw as real / 131072.0 - t1 as real / 8192.0;
    d * d * t3 as real
  }

  /** >> drops less than one unit. */
  lemma FloorOf(x: int, d: int)
    requires d > 0
    ensures 0.0 <= x as real / d as real - (x / d) as real < 1.0
  {
    var q, r := x / d, x % d;
    assert x as real == d as real * q as real + r as real by {
      assert x == d * q + r;
      ProductAsReal(d, q);
    }
    QuotientFloor(x as real, q as real, r as real, d as real);
  }

  lemma QuotientFloor(x: real, q: real, r: real, d: real)
    requires x == d * q + r && 0.0 <= r < d
    ensures 0.0 <= x / d - q < 1.0
  {
    var e := x / d - q;
    assert d * (x / d) == x;
    assert d * e == r;
  }

  lemma ProductAsReal(x: int, y: int)
    ensures (x * y) as real == x as real * y as real
  {
  }

  /** The linear term loses less than one unit plus T2/2048. */
  lemma LinearError(raw: int, t1: int, t2: int)
    requires 0 <= t2 < 0x8000
    ensures 0.0 <= ExactLinear(raw, t1, t2) - Linear(raw, t1, t2) as real < 17.0
  {
    var product := Fine(raw, t1) * t2;
    var rest := ExactOfFine(raw, t1, t2);
    ProductAsReal(Fine(raw, t1), t2);
    FloorOf(product, 2048);
    RestsAdd(ExactLinear(raw, t1, t2), product as real / 2048.0, rest, Linear(raw, t1, t2) as real);
  }

  lemma RestsAdd(exact: real, whole: real, rest: real, floor: real)
    requires exact == whole + rest && 0.0 <= rest < 16.0 && 0.0 <= whole - floor < 1.0
    ensures 0.0 <= exact - floor < 17.0
  {
  }

  /** The exact term is that of the floored difference and a rest. */
  lemma ExactOfFine(raw: int, t1: int, t2: int) returns (rest: real)
    requires 0 <= t2 < 0x8000
    ensures ExactLinear(raw, t1, t2) == Fine(raw, t1) as real * t2 as real / 2048.0 + rest
    ensures 0.0 <= rest < 16.0
  {
    FloorOf(raw, 8);
    var lost := raw as real / 8.0 - (raw / 8) as real;
    rest := Distribute(raw as real / 16384.0 - t1 as real / 1024.0, Fine(raw, t1) as real, lost, t2 as real);
  }

  lemma Distribute(slope: real, f: real, lost: real, t: real) returns (rest: real)
    requires slope == (f + lost) / 2048.0
    requires 0.0 <= lost < 1.0 && 0.0 <= t < 32768.0
    ensures slope * t == f * t / 2048.0 + rest
    ensures 0.0 <= rest < 16.0
  {
    rest := lost * t / 2048.0;
    assert slope * 2048.0 == f + lost;
    assert slope * t * 2048.0 == f * t + lost * t;
    assert 0.0 <= lost * t <= t;
  }

  /** The square under the quadratic term is off by less than 24 units either way. */
  lemma SquareError(raw: int, t1: int) returns (e: real)
    requires IsS32(Coarse(raw, t1) * Coarse(raw, t1))
    ensures var x := raw as real / 16.0 - t1 as real;
            x * x / 4096.0 == Square(raw, t1) as real + e
    ensures -23.0 < e < 24.0
  {
    var c := Coarse(raw, t1);
    FloorOf(raw, 16);
    FloorOf(c * c, 4096);
    CoarseBound(c);
    var lost := raw as real / 16.0 - (raw / 16) as real;
    var r := c as real;
    var x := raw as real / 16.0 - t1 as real;
    assert x == r + lost;
    assert x * x == r * r + (2.0 * r + lost) * lost;
    CrossTerm(r, lost);
    assert (c * c) as real == r * r;
    e := x * x / 4096.0 - Square(raw, t1) as real;
  }

  lemma CoarseBound(c: int)
    requires IsS32(c * c)
    ensures -46340 <= c <= 46340
  {
  }

  lemma CrossTerm(r: real, lost: real)
    requires -46340.0 <= r <= 46340.0 && 0.0 <= lost < 1.0
    ensures -92680.0 <= (2.0 * r + lost) * lost <= 92681.0
  {
    var y := 2.0 * r + lost;
    if y >= 0.0 {
      assert 0.0 <= y * lost <= y;
    } else {
      assert y <= y * lost <= 0.0;
    }
  }

  lemma QuadraticError(raw: int, t1: int, t3: int)
    requires 0 <= t3 < 0x8000
    requires IsS32(Coarse(raw, t1) * Coarse(raw, t1))
    ensures -46.0 < ExactQuadratic(raw, t1, t3) - Quadratic(raw, t1, t3) as real < 49.0
  {
    var e := SquareError(raw, t1);
    var q, t := Square(raw, t1) as real, t3 as real;
    FloorOf(Square(raw, t1) * t3, 16384);
    var x := raw as real / 16.0 - t1 as real;
    var d := raw as real / 131072.0 - t1 as real / 8192.0;
    assert d == x / 8192.0;
    assert d * d == (x * x / 4096.0) / 16384.0;
    var whole := (Square(raw, t1) * t3) as real / 16384.0;
    assert (Square(raw, t1) * t3) as real == q * t;
    assert ExactQuadratic(raw, t1, t3) == whole + e * t / 16384.0 by {
      assert d * d == (q + e) / 16384.0;
      Split(q, e, t);
    }
    ScaledError(e, t);
  }

  lemma Split(q: real, e: real, t: real)
    ensures (q + e) / 16384.0 * t == q * t / 16384.0 + e * t / 16384.0
  {
    assert (q + e) * t == q * t + e * t;
    assert (q + e) / 16384.0 * t == (q + e) * t / 16384.0;
  }

  lemma ScaledError(e: real, t: real)
    requires -23.0 < e < 24.0 && 0.0 <= t < 32768.0
    ensures -46.0 < e * t / 16384.0 < 48.0
  {
    if e >= 0.0 {
      assert 0.0 <= e * t <= e * 32768.0;
    } else {
      assert e * 32768.0 <= e * t <= 0.0;
    }
  }

  /** The reading is within 0.02 degrees Celsius of the exact polynomial. */
  lemma WithinTwoHundredths(raw: int, t1: int, t2: int, t3: int)
    requires Unsigned(raw, t1, t2, t3) && ProductsFit(raw, t1, t2, t3)
    requires t2 < 0x8000 && t3 < 0x8000
    ensures -2.0 < Wrapped(raw, t1, t2, t3) as real - Exact(raw, t1, t2, t3) < 2.0
  {
    LinearError(raw, t1, t2);
    QuadraticError(raw, t1, t3);
    WrappedIsExact(raw, t1, t2, t3);
    var v := Linear(raw, t1, t2) + Quadratic(raw, t1, t3);
    FloorOf(v * 5 + 128, 256);
  }

  // ----- The missing sign extension ----------------------------------------

  /** The 16 bits of a signed calibration word, as the driver stores them. */
  function Stored(signed: int): (u: int)
    requires -0x8000 <= signed < 0x8000
    ensures 0 <= u < 0x1_0000
  {
    if signed < 0 then signed + 0x1_0000 else signed
  }

  /** The two register bytes of a signed word are assembled without their sign. */
  lemma AssembledIsStored(signed: int, hi: int, lo: int)
    requires -0x8000 <= signed < 0x8000
    requires 0 <= hi < 256 && 0 <= lo < 256 && (hi * 256 + lo - signed) % 0x1_0000 == 0
    ensures Assemble(hi, lo) == Stored(signed)
  {
    var k := (hi * 256 + lo - signed) / 0x1_0000;
    assert hi * 256 + lo == signed + k * 0x1_0000;
    assert k == if signed < 0 then 1 else 0;
  }

  lemma ShiftedFloor(x: int, k: int, d: int)
    requires d > 0
    ensures (x + k * d) / d == x / d + k
  {
    var r := x - d * (x / d);
    assert x + k * d == (x / d + k) * d + r by {
      assert (x / d + k) * d == (x / d) * d + k * d;
    }
    QuotientIs(x + k * d, x / d + k, r, d);
  }

  /** The remainder of least size: what is left of a term that wraps around. */
  function Centered(x: int, m: int): (r: int)
    requires m > 0 && m % 2 == 0
    ensures -(m / 2) <= r < m / 2
  {
    (x + m / 2) % m - m / 2
  }

  lemma S32Wraps(y: int) returns (k: int)
    ensures S32(y) == y - k * 0x1_0000_0000
  {
    k := if IsS32(y) then 0 else (y + 0x8000_0000) / 0x1_0000_0000;
  }

  lemma Centered21(x: int, k: int)
    requires -0x10_0000 <= x - k * 0x20_0000 < 0x10_0000
    ensures Centered(x, 0x20_0000) == x - k * 0x20_0000
  {
  }

  lemma Centered18(x: int, k: int)
    requires -0x2_0000 <= x - k * 0x4_0000 < 0x2_0000
    ensures Centered(x, 0x4_0000) == x - k * 0x4_0000
  {
  }

  /** Shifting a wrapped product by eleven bits leaves the shifted product wrapped to 21. */
  lemma ShiftBy11(y: int)
    ensures S32(y) / 2048 == Centered(y / 2048, 0x20_0000)
  {
    var k := S32Wraps(y);
    assert S32(y) == y + (-k * 0x20_0000) * 2048;
    ShiftedFloor(y, -k * 0x20_0000, 2048);
    Centered21(y / 2048, k);
  }

  lemma ShiftBy14(y: int)
    ensures S32(y) / 16384 == Centered(y / 16384, 0x4_0000)
  {
    var k := S32Wraps(y);
    assert S32(y) == y + (-k * 0x4_0000) * 16384;
    ShiftedFloor(y, -k * 0x4_0000, 16384);
    Centered18(y / 16384, k);
  }

  predicate Signed16(t: int) {
    -0x8000 <= t < 0x8000
  }

  /** The driver's linear term: with T2 negative, displaced by 32 times its difference and wrapped. */
  lemma LinearSignError(raw: int, t1: int, t2: int)
    requires InRange(raw, t1) && Signed16(t2)
    ensures WrappedLinear(raw, t1, Stored(t2))
         == Centered(Linear(raw, t1, t2) + (if t2 < 0 then 32 * Fine(raw, t1) else 0), 0x20_0000)
  {
    var f := Fine(raw, t1);
    ShiftBy11(f * Stored(t2));
    if t2 < 0 {
      assert f * (t2 + 0x1_0000) == f * t2 + (32 * f) * 2048;
      ShiftedFloor(f * t2, 32 * f, 2048);
    }
  }

  /** The driver's quadratic term: with T3 negative, displaced by 4 times its square and wrapped. */
  lemma QuadraticSignError(raw: int, t1: int, t3: int)
    requires InRange(raw, t1) && Signed16(t3) && IsS32(Coarse(raw, t1) * Coarse(raw, t1))
    ensures WrappedQuadratic(raw, t1, Stored(t3))
         == Centered(Quadratic(raw, t1, t3) + (if t3 < 0 then 4 * Square(raw, t1) else 0), 0x4_0000)
  {
    var q := Square(raw, t1);
    ShiftBy14(q * Stored(t3));
    if t3 < 0 {
      assert q * (t3 + 0x1_0000) == q * t3 + (4 * q) * 16384;
      ShiftedFloor(q * t3, 4 * q, 16384);
    }
  }

  /** The driver's linear term is right for a negative T2 exactly on multiples of 2^16. */
  lemma LinearRightExactlyWhen(raw: int, t1: int, t2: int)
    requires InRange(raw, t1) && Signed16(t2) && IsS32(Fine(raw, t1) * t2)
    ensures WrappedLinear(raw, t1, Stored(t2)) == Linear(raw, t1, t2)
       <==> t2 >= 0 || Fine(raw, t1) % 0x1_0000 == 0
  {
    LinearSignError(raw, t1, t2);
    CenteredMoves21(Linear(raw, t1, t2), Fine(raw, t1));
  }

  lemma QuadraticRightExactlyWhen(raw: int, t1: int, t3: int)
    requires InRange(raw, t1) && Signed16(t3)
    requires IsS32(Coarse(raw, t1) * Coarse(raw, t1)) && IsS32(Square(raw, t1) * t3)
    ensures WrappedQuadratic(raw, t1, Stored(t3)) == Quadratic(raw, t1, t3)
       <==> t3 >= 0 || Square(raw, t1) % 0x1_0000 == 0
  {
    QuadraticSignError(raw, t1, t3);
    QuadraticRange(raw, t1, t3);
    CenteredMoves18(Quadratic(raw, t1, t3), Square(raw, t1));
  }

  lemma CenteredMoves21(x: int, f: int)
    requires -0x10_0000 <= x < 0x10_0000
    ensures Centered(x + 32 * f, 0x20_0000) == x <==> f % 0x1_0000 == 0
    ensures Centered(x, 0x20_0000) == x
  {
    assert f == 0x1_0000 * (f / 0x1_0000) + f % 0x1_0000;
  }

  lemma CenteredMoves18(x: int, f: int)
    requires -0x2_0000 <= x < 0x2_0000
    ensures Centered(x + 4 * f, 0x4_0000) == x <==> f % 0x1_0000 == 0
    ensures Centered(x, 0x4_0000) == x
  {
    assert f == 0x1_0000 * (f / 0x1_0000) + f % 0x1_0000;
  }

  lemma QuadraticRange(raw: int, t1: int, t3: int)
    requires IsS32(Square(raw, t1) * t3)
    ensures -0x2_0000 <= Quadratic(raw, t1, t3) < 0x2_0000
  {
  }

  /** The driver on the signed words of a sensor. */
  function DriverReads(raw: int, t1: int, t2: int, t3: int): int
    requires Signed16(t2) && Signed16(t3)
  {
    Wrapped(raw, t1, Stored(t2), Stored(t3))
  }

  /**
   * How far off: while the products of the stored words fit, the driver's
   * error is 5/256 of the displacement of the two terms, to less than one
   * hundredth.
   */
  lemma SignErrorSize(raw: int, t1: int, t2: int, t3: int)
    requires InRange(raw, t1) && Signed16(t2) && Signed16(t3)
    requires ProductsFit(raw, t1, Stored(t2), Stored(t3))
    ensures var moved := (if t2 < 0 then 32 * Fine(raw, t1) else 0) + (if t3 < 0 then 4 * Square(raw, t1) else 0);
            var error := DriverReads(raw, t1, t2, t3) - Hundredths(raw, t1, t2, t3);
            -256 < 256 * error - 5 * moved < 256
  {
    WrappedIsExact(raw, t1, Stored(t2), Stored(t3));
    StoredLinear(raw, t1, t2);
    StoredQuadratic(raw, t1, t3);
  }

  lemma StoredLinear(raw: int, t1: int, t2: int)
    requires Signed16(t2)
    ensures Linear(raw, t1, Stored(t2)) == Linear(raw, t1, t2) + if t2 < 0 then 32 * Fine(raw, t1) else 0
  {
    var f := Fine(raw, t1);
    if t2 < 0 {
      assert f * (t2 + 0x1_0000) == f * t2 + (32 * f) * 2048;
      ShiftedFloor(f * t2, 32 * f, 2048);
    }
  }

  lemma StoredQuadratic(raw: int, t1: int, t3: int)
    requires Signed16(t3)
    ensures Quadratic(raw, t1, Stored(t3)) == Quadratic(raw, t1, t3) + if t3 < 0 then 4 * Square(raw, t1) else 0
  {
    var q := Square(raw, t1);
    if t3 < 0 {
      assert q * (t3 + 0x1_0000) == q * t3 + (4 * q) * 16384;
      ShiftedFloor(q * t3, 4 * q, 16384);
    }
  }

  /** A raw reading one coarse step away from 16*T1, inside its 20 bits. */
  lemma OneStepAway(t1: int) returns (raw: int)
    requires 0 <= t1 < 0x1_0000
    ensures InRange(raw, t1) && Square(raw, t1) == 0
    ensures Coarse(raw, t1) in {-1, 1} && Fine(raw, t1) in {-2, 2}
  {
    raw := if t1 < 0xFFFF then 16 * t1 + 16 else 16 * t1 - 16;
  }

  /** 256 coarse steps away. */
  lemma FartherAway(t1: int) returns (raw: int)
    requires 0 <= t1 < 0x1_0000
    ensures InRange(raw, t1) && Square(raw, t1) == 16
    ensures Coarse(raw, t1) in {-256, 256} && Fine(raw, t1) in {-512, 512}
  {
    raw := if t1 < 0xFF00 then 16 * t1 + 4096 else 16 * t1 - 4096;
    assert Coarse(raw, t1) in {-256, 256};
  }

  /** One step away from 16*T1 a negative T2 already changes the reading. */
  lemma MissesNegativeT2(t1: int, t2: int, t3: int) returns (raw: int)
    requires 0 <= t1 < 0x1_0000 && Signed16(t2) && Signed16(t3) && t2 < 0
    ensures 0 <= raw < 0x10_0000 && ProductsFit(raw, t1, t2, t3)
    ensures DriverReads(raw, t1, t2, t3) != Hundredths(raw, t1, t2, t3)
  {
    raw := OneStepAway(t1);
    SignErrorSize(raw, t1, t2, t3);
  }

  /** 256 steps away a negative T3 does. */
  lemma MissesNegativeT3(t1: int, t2: int, t3: int) returns (raw: int)
    requires 0 <= t1 < 0x1_0000 && 0 <= t2 < 0x8000 && Signed16(t3) && t3 < 0
    ensures 0 <= raw < 0x10_0000 && ProductsFit(raw, t1, t2, t3)
    ensures DriverReads(raw, t1, t2, t3) != Hundredths(raw, t1, t2, t3)
  {
    raw := FartherAway(t1);
    SignErrorSize(raw, t1, t2, t3);
  }

  /**
   * The driver gives the data sheet's value for every raw reading for which
   * the data sheet's own arithmetic fits 32 bits, exactly when neither T2 nor
   * T3 is negative.
   */
  lemma MeetsDataSheetExactlyWhen(t1: int, t2: int, t3: int)
    requires 0 <= t1 < 0x1_0000 && Signed16(t2) && Signed16(t3)
    ensures (forall raw :: 0 <= raw < 0x10_0000 && ProductsFit(raw, t1, t2, t3) ==>
                             DriverReads(raw, t1, t2, t3) == Hundredths(raw, t1, t2, t3))
       <==> t2 >= 0 && t3 >= 0
  {
    if t2 < 0 {
      var raw := MissesNegativeT2(t1, t2, t3);
    } else if t3 < 0 {
      var raw := MissesNegativeT3(t1, t2, t3);
    } else {
      forall raw | 0 <= raw < 0x10_0000 && ProductsFit(raw, t1, t2, t3)
        ensures DriverReads(raw, t1, t2, t3) == Hundredths(raw, t1, t2, t3)
      {
        WrappedIsExact(raw, t1, t2, t3);
      }
    }
  }

  /**
   * With T3 negative, the coarse difference at 832 or more and products that
   * still fit, the driver reads 0.13 degrees too much or worse.
   */
  lemma NegativeT3IsMissed(raw: int, t1: int, t2: int, t3: int)
    requires InRange(raw, t1) && 0 <= t2 < 0x8000 && -0x8000 <= t3 < 0
    requires ProductsFit(raw, t1, Stored(t2), Stored(t3))
    requires !(-832 < Coarse(raw, t1) < 832)
    ensures DriverReads(raw, t1, t2, t3) - Hundredths(raw, t1, t2, t3) >= 13
  {
    SignErrorSize(raw, t1, t2, t3);
    FarSquare(raw, t1);
  }

  lemma FarSquare(raw: int, t1: int)
    requires !(-832 < Coarse(raw, t1) < 832)
    ensures Square(raw, t1) >= 169
  {
    var c := Coarse(raw, t1);
    if c >= 832 {
      Grows(c);
    } else {
      Grows(-c);
      Negated(c, c);
      assert -c * -c == c * c;
    }
  }

  lemma Grows(c: int)
    requires c >= 832
    ensures c * c >= 832 * 832
  {
    assert c * c >= c * 832;
  }

  /**
   * Where the products no longer fit, the wrap-around can undo the missing
   * sign: at a coarse difference of 2^14 the driver is right again for every
   * negative T3.
   */
  lemma WrapAroundHidesNegativeT3(t1: int, t2: int, t3: int)
    requires 0 <= t1 <= 0xBFFF && 0 <= t2 < 0x8000 && -0x8000 <= t3 < 0
    ensures var raw := (t1 + 0x4000) * 16;
            DriverReads(raw, t1, t2, t3) == Hundredths(raw, t1, t2, t3)
  {
    var raw := (t1 + 0x4000) * 16;
    assert Coarse(raw, t1) == 0x4000 && Square(raw, t1) == 0x1_0000 && Fine(raw, t1) == 0x8000;
    LinearRightExactlyWhen(raw, t1, t2);
    QuadraticRightExactlyWhen(raw, t1, t3);
    SumNeverWraps(raw, t1, t2, Stored(t3));
  }

  /** The data sheet's own example: 25.08 degrees, which the driver reports as 29.83. */
  lemma DataSheetExample()
    ensures Hundredths(519888, 27504, 26435, -1000) == 2508
    ensures ProductsFit(519888, 27504, Stored(26435), Stored(-1000))
    ensures Wrapped(519888, 27504, Stored(26435), Stored(-1000)) == 2983
  {
    assert Fine(519888, 27504) == 9978 && Coarse(519888, 27504) == 4989;
    assert 4989 * 4989 == 24890121;
    assert Square(519888, 27504) == 6076;
    assert Linear(519888, 27504, 26435) == 128793;
    assert Quadratic(519888, 27504, -1000) == -371;
    assert Quadratic(519888, 27504, 64536) == 23933;
    WrappedIsExact(519888, 27504, 26435, 64536);
  }
}
