// The two pseudo-random routines of the kernels, both x -> a*x + c on 32-bit
// words: __get_random (common.c) and the address generator random (boot.s).
// Their parameters put them at the two ends of the theory in Lcg.dfy.

/** __get_random keeps its last value in a static and returns the next one. */
module KernelRandom {
  import opened Arithmetic
  import opened Words
  import opened Lcg

  // The literal of the source needs 34 bits, so the expression is a signed
  // 64-bit one and only its lowest 32 bits survive the assignment.
  const TIMES: int := 0x314159265
  const PLUS: int := 0x1234567
  // What the truncation leaves of the multiplier.
  const EFFECTIVE_TIMES: int := 0x14159265

  /** Two's complement wrap-around of a signed 64-bit expression. */
  function Wrap64(x: int): int {
    (x + 0x8000_0000_0000_0000) % 0x1_0000_0000_0000_0000 - 0x8000_0000_0000_0000
  }

  /** The value of the static after n calls. */
  function Value(n: nat): int {
    Orbit(32, EFFECTIVE_TIMES, PLUS, 0, n)
  }

  class RandomSource {
    var lastValue: Word
    ghost var calls: nat

    ghost predicate Valid()
      reads this
    {
      lastValue == Value(calls)
    }

    constructor ()
      ensures Valid() && calls == 0 && lastValue == 0
    {
      lastValue, calls := 0, 0;
    }

    method GetRandom() returns (r: Word)
      requires Valid()
      modifies this
      ensures Valid() && calls == old(calls) + 1
      ensures r == lastValue == Value(old(calls) + 1)
      ensures r == (0x14159265 * old(lastValue) + 0x1234567) % 0x1_0000_0000
    {
      Pow2Of32();
      TruncatedStep(lastValue);
      lastValue := Wrap64(Wrap64(TIMES * lastValue) + PLUS) % WORDS;
      calls := calls + 1;
      return lastValue;
    }
  }

  lemma Wrap64Residue(x: int)
    ensures Wrap64(x) % WORDS == x % WORDS
  {
    var y := x + 0x8000_0000_0000_0000;
    var q := y / 0x1_0000_0000_0000_0000;
    assert Wrap64(x) == x + (-q * WORDS) * WORDS;
    AddMultiple(x, -q * WORDS, WORDS);
  }

  /** Overflowing in 64 bits first does not change the 32 bits kept. */
  lemma TruncatedStep(x: int)
    ensures Wrap64(Wrap64(TIMES * x) + PLUS) % WORDS == (EFFECTIVE_TIMES * x + PLUS) % WORDS
  {
    var w := Wrap64(TIMES * x);
    Wrap64Residue(w + PLUS);
    Wrap64Residue(TIMES * x);
    AffineResidue(1, PLUS, w, WORDS);
    AffineResidue(1, PLUS, TIMES * x, WORDS);
    assert TIMES == EFFECTIVE_TIMES + 3 * WORDS;
    assert TIMES * x + PLUS == (EFFECTIVE_TIMES * x + PLUS) + (3 * x) * WORDS;
    AddMultiple(EFFECTIVE_TIMES * x + PLUS, 3 * x, WORDS);
  }

  /** Two calls return the same word exactly when 2^32 divides their distance. */
  lemma RepeatsOnlyAfterFullPeriod(m: nat, n: nat)
    ensures Value(m) == Value(n) <==> (m - n) % WORDS == 0
  {
    Pow2Of32();
    FullPeriod(32, EFFECTIVE_TIMES, PLUS, 0, m, n);
  }

  /** Any 2^32 consecutive calls return every word, each exactly once. */
  lemma EveryWindowVisitsEveryWord(start: nat, v: Word) returns (n: nat)
    ensures start <= n < start + WORDS
    ensures forall m: nat :: start <= m < start + WORDS ==> (Value(m) == v <==> m == n)
  {
    Pow2Of32();
    var n0 := VisitsEverything(32, EFFECTIVE_TIMES, PLUS, 0, v);
    n := start + (n0 - start) % WORDS;
    AddMultiple(n - n0, (n0 - start) / WORDS, WORDS);
    RepeatsOnlyAfterFullPeriod(n, n0);
    forall m: nat | start <= m < start + WORDS ensures Value(m) == v <==> m == n {
      RepeatsOnlyAfterFullPeriod(m, n);
    }
  }
}

/** random multiplies by a multiple of four, so it forgets its seed. */
module AddressGenerator {
  import opened Arithmetic
  import opened Words
  import opened Lcg

  const SEED_TIMES: int := 314159260
  const SEED_PLUS: int := 0x1234560
  const ODD_PART: int := 78539815   // SEED_TIMES == 4 * ODD_PART

  /** w_random_number after n calls, from an arbitrary initial word. */
  function Value(seed: Word, n: nat): int {
    Orbit(32, SEED_TIMES, SEED_PLUS, seed, n)
  }

  class Generator {
    var randomNumber: Word
    ghost const seed: Word
    ghost var calls: nat

    ghost predicate Valid()
      reads this
    {
      randomNumber == Value(seed, calls)
    }

    constructor (initial: Word)
      ensures Valid() && calls == 0 && seed == initial == randomNumber
    {
      randomNumber, seed, calls := initial, initial, 0;
      new;
      Pow2Of32();
    }

    // mul and add each keep the low 32 bits of their result.
    method Random() returns (r: Word)
      requires Valid()
      modifies this
      ensures Valid() && calls == old(calls) + 1
      ensures r == randomNumber == Value(seed, old(calls) + 1)
      ensures r == (314159260 * old(randomNumber) + 0x1234560) % 0x1_0000_0000
    {
      Pow2Of32();
      AffineResidue(1, SEED_PLUS, SEED_TIMES * randomNumber, WORDS);
      var product := (randomNumber * SEED_TIMES) % WORDS;
      randomNumber := (product + SEED_PLUS) % WORDS;
      calls := calls + 1;
      return randomNumber;
    }
  }

  lemma Interchange(p: int, q: int, a: int, b: int)
    ensures (p * q) * (a * b) == (p * a) * (q * b)
  {
    assert (p * q) * (a * b) == p * (q * (a * b));
    assert q * (a * b) == a * (q * b);
    assert p * (a * (q * b)) == (p * a) * (q * b);
  }

  lemma {:induction false} PowOfProduct(p: int, q: int, n: nat)
    ensures Pow(p * q, n) == Pow(p, n) * Pow(q, n)
  {
    if n > 0 {
      PowOfProduct(p, q, n - 1);
      Interchange(p, q, Pow(p, n - 1), Pow(q, n - 1));
    }
  }

  lemma {:induction false} PowOfFour(n: nat)
    ensures Pow(4, n) == Pow2(2 * n)
  {
    if n > 0 {
      PowOfFour(n - 1);
      assert Pow2(2 * n) == 2 * Pow2(2 * n - 1);
      assert Pow2(2 * n - 1) == 2 * Pow2(2 * (n - 1));
    }
  }

  lemma {:induction false} OddPower(q: int, n: nat)
    requires q % 2 == 1
    ensures Pow(q, n) % 2 == 1
  {
    if n > 0 {
      OddPower(q, n - 1);
      OddProduct(q, Pow(q, n - 1));
    }
  }

  lemma DoubledFactor(j: nat, k: nat, x: int)
    requires j >= 1 && k >= 1
    ensures (Pow2(j) * x) % Pow2(k) == 0 <==> (Pow2(j - 1) * x) % Pow2(k - 1) == 0
  {
    var half := Pow2(j - 1) * x;
    assert Pow2(j) * x == 2 * half;
    HalfDivides(k, 2 * half);
  }

  lemma {:induction false} ShiftedDivisibility(j: nat, k: nat, x: int)
    ensures (Pow2(j) * x) % Pow2(k) == 0 <==> j >= k || x % Pow2(k - j) == 0
  {
    if j == 0 {
      assert Pow2(0) * x == x;
    } else if k > 0 {
      DoubledFactor(j, k, x);
      ShiftedDivisibility(j - 1, k - 1, x);
      assert (k - 1) - (j - 1) == k - j;
    }
  }

  /** The factor a^n of a difference contributes exactly 2n binary zeros. */
  lemma MultiplierPower(n: nat, d: int)
    ensures (Pow(SEED_TIMES, n) * d) % Pow2(32) == 0 <==> n >= 16 || d % Pow2(32 - 2 * n) == 0
  {
    var f, q := Pow2(2 * n), Pow(ODD_PART, n);
    assert Pow(SEED_TIMES, n) == f * q by {
      assert SEED_TIMES == 4 * ODD_PART;
      PowOfProduct(4, ODD_PART, n);
      PowOfFour(n);
    }
    assert q % 2 == 1 by {
      OddPower(ODD_PART, n);
    }
    Interchange(q, f, 1, d);
    OddFactorCancels(32, q, f * d);
    ShiftedDivisibility(2 * n, 32, d);
  }

  lemma {:induction false} IterateDifference(a: int, c: int, x: int, y: int, n: nat)
    ensures Iterate(a, c, x, n) - Iterate(a, c, y, n) == Pow(a, n) * (x - y)
  {
    if n > 0 {
      IterateDifference(a, c, x, y, n - 1);
      AffineOfProduct(a, Pow(a, n - 1), x - y, 0);
    }
  }

  /** After n calls two seeds have met exactly when 2^(32-2n) divides their difference. */
  lemma SeedsMeet(s: Word, t: Word, n: nat)
    ensures Value(s, n) == Value(t, n) <==> n >= 16 || (s - t) % Pow2(32 - 2 * n) == 0
  {
    OrbitIsReducedIterate(32, SEED_TIMES, SEED_PLUS, s, n);
    OrbitIsReducedIterate(32, SEED_TIMES, SEED_PLUS, t, n);
    var x, y := Iterate(SEED_TIMES, SEED_PLUS, s, n), Iterate(SEED_TIMES, SEED_PLUS, t, n);
    SameResidue(x, y, Pow2(32));
    IterateDifference(SEED_TIMES, SEED_PLUS, s, t, n);
    MultiplierPower(n, s - t);
  }

  /**
   * Call n+1 repeats the word of call n exactly when 2^(32-2n) divides the
   * first step (a-1)*seed + c; from call 16 on, always.
   */
  lemma StuckExactlyWhen(seed: Word, n: nat)
    ensures Value(seed, n + 1) == Value(seed, n)
       <==> n >= 16 || ((SEED_TIMES - 1) * seed + SEED_PLUS) % Pow2(32 - 2 * n) == 0
  {
    var next := SEED_TIMES * seed + SEED_PLUS;
    OrbitIsReducedIterate(32, SEED_TIMES, SEED_PLUS, seed, n);
    OrbitIsReducedIterate(32, SEED_TIMES, SEED_PLUS, seed, n + 1);
    assert Iterate(SEED_TIMES, SEED_PLUS, seed, 1) == next by {
      assert Iterate(SEED_TIMES, SEED_PLUS, seed, 0) == seed;
    }
    IterateCompose(SEED_TIMES, SEED_PLUS, seed, 1, n);
    var x, y := Iterate(SEED_TIMES, SEED_PLUS, next, n), Iterate(SEED_TIMES, SEED_PLUS, seed, n);
    SameResidue(x, y, Pow2(32));
    IterateDifference(SEED_TIMES, SEED_PLUS, next, seed, n);
    MultiplierPower(n, next - seed);
  }

  /** Whatever the seed, one and the same word is returned from call 16 on. */
  lemma {:induction false} CollapsesToOneWord(s: Word, t: Word, m: nat, n: nat)
    requires m >= 16 && n >= 16
    ensures Value(s, m) == Value(t, n)
  {
    if m > 16 {
      StuckExactlyWhen(s, m - 1);
      CollapsesToOneWord(s, t, m - 1, n);
    } else if n > 16 {
      StuckExactlyWhen(t, n - 1);
      CollapsesToOneWord(s, t, m, n - 1);
    } else {
      SeedsMeet(s, t, 16);
    }
  }

  /** Sixteen calls are needed by every odd seed: nothing repeats before. */
  lemma OddSeedMovesSixteenTimes(seed: Word, n: nat)
    requires seed % 2 == 1 && n < 16
    ensures Value(seed, n + 1) != Value(seed, n)
  {
    var d := (SEED_TIMES - 1) * seed + SEED_PLUS;
    assert d % 2 == 1;
    assert d % Pow2(32 - 2 * n) != 0 by {
      HalfDivides(32 - 2 * n, d);
    }
    StuckExactlyWhen(seed, n);
  }

  /** Every word returned by a call is a word-aligned address. */
  lemma AlwaysAligned(seed: Word, n: nat)
    requires n >= 1
    ensures Value(seed, n) % 4 == 0
  {
    Pow2Of32();
    var x := Value(seed, n - 1);
    var y := SEED_TIMES * x + SEED_PLUS;
    assert y == 4 * (ODD_PART * x + SEED_PLUS / 4);
    FourTimes(ODD_PART * x + SEED_PLUS / 4);
  }

  lemma FourTimes(k: int)
    ensures ((4 * k) % WORDS) % 4 == 0
  {
    assert (4 * k) % WORDS == 4 * (k - 0x4000_0000 * ((4 * k) / WORDS));
  }
}
