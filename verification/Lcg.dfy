// Linear congruential generators modulo a power of two: the arithmetic behind
// the kernel's __get_random and the address generator of boot.s.
//
// The orbit of x -> a*x + c is followed on unbounded integers (Iterate) and
// reduced modulo 2^k afterwards (Orbit), so that the period is a question about
// which powers of two divide the geometric sum 1 + a + ... + a^(n-1).
module Lcg {
  import opened Arithmetic

  function Pow2(k: nat): (p: nat)
    ensures p >= 1
  {
    if k == 0 then 1 else 2 * Pow2(k - 1)
  }

  lemma Pow2Of32()
    ensures Pow2(32) == 0x1_0000_0000
  {
    assert Pow2(8) == 0x100;
    assert Pow2(16) == 0x1_0000;
    assert Pow2(24) == 0x100_0000;
  }

  function Pow(a: int, n: nat): int {
    if n == 0 then 1 else a * Pow(a, n - 1)
  }

  /** 1 + a + ... + a^(n-1). */
  function Geo(a: int, n: nat): int {
    if n == 0 then 0 else a * Geo(a, n - 1) + 1
  }

  /** The n-th iterate of x -> a*x + c, without reduction. */
  function Iterate(a: int, c: int, x: int, n: nat): int {
    if n == 0 then x else a * Iterate(a, c, x, n - 1) + c
  }

  /** The n-th value a generator modulo 2^k returns, started on x. */
  function Orbit(k: nat, a: int, c: int, x: int, n: nat): int {
    if n == 0 then x % Pow2(k) else (a * Orbit(k, a, c, x, n - 1) + c) % Pow2(k)
  }

  // ----- Congruences ------------------------------------------------------

  lemma SameResidue(x: int, y: int, m: int)
    requires m >= 1
    ensures x % m == y % m <==> (x - y) % m == 0
  {
    var q := (x - y) / m;
    if (x - y) % m == 0 {
      assert x == y + q * m;
      AddMultiple(y, q, m);
    }
    if x % m == y % m {
      var p := x / m - y / m;
      assert x - y == 0 + p * m by {
        assert x == m * (x / m) + x % m;
        assert y == m * (y / m) + y % m;
      }
      AddMultiple(0, p, m);
    }
  }

  lemma AffineResidue(a: int, c: int, x: int, m: int)
    requires m >= 1
    ensures (a * (x % m) + c) % m == (a * x + c) % m
  {
    var q := a * (x / m);
    assert a * x + c == (a * (x % m) + c) + q * m by {
      assert x == m * (x / m) + x % m;
      assert a * x == a * (m * (x / m)) + a * (x % m);
      assert a * (m * (x / m)) == q * m;
    }
    AddMultiple(a * (x % m) + c, q, m);
  }

  lemma {:induction false} OrbitIsReducedIterate(k: nat, a: int, c: int, x: int, n: nat)
    ensures Orbit(k, a, c, x, n) == Iterate(a, c, x, n) % Pow2(k)
  {
    if n > 0 {
      OrbitIsReducedIterate(k, a, c, x, n - 1);
      AffineResidue(a, c, Iterate(a, c, x, n - 1), Pow2(k));
    }
  }

  // ----- Divisibility by powers of two ------------------------------------

  lemma HalfDivides(k: nat, x: int)
    requires k >= 1
    ensures x % Pow2(k) == 0 <==> x % 2 == 0 && (x / 2) % Pow2(k - 1) == 0
  {
    var p := Pow2(k - 1);
    if x % Pow2(k) == 0 {
      var q := x / Pow2(k);
      assert x == 2 * (p * q) by {
        assert x == Pow2(k) * q;
        assert (2 * p) * q == 2 * (p * q);
      }
      assert x / 2 == 0 + q * p;
      AddMultiple(0, q, p);
    }
    if x % 2 == 0 && (x / 2) % p == 0 {
      var q := (x / 2) / p;
      assert x == 0 + q * (2 * p) by {
        assert x / 2 == p * q;
        assert 2 * (p * q) == q * (2 * p);
      }
      AddMultiple(0, q, Pow2(k));
    }
  }

  lemma OddProduct(q: int, x: int)
    requires q % 2 == 1
    ensures (q * x) % 2 == x % 2
  {
    var h := q / 2;
    assert q * x == x + (h * x) * 2 by {
      assert (2 * h + 1) * x == 2 * (h * x) + x;
    }
    AddMultiple(x, h * x, 2);
  }

  /** An odd factor does not change which powers of two divide a number. */
  lemma {:induction false} OddFactorCancels(k: nat, q: int, x: int)
    requires q % 2 == 1
    ensures (q * x) % Pow2(k) == 0 <==> x % Pow2(k) == 0
  {
    if k > 0 {
      OddProduct(q, x);
      HalfDivides(k, x);
      HalfDivides(k, q * x);
      if x % 2 == 0 {
        assert q * x == 2 * (q * (x / 2)) by {
          assert x == 2 * (x / 2);
          assert q * (2 * (x / 2)) == 2 * (q * (x / 2));
        }
        OddFactorCancels(k - 1, q, x / 2);
      }
    }
  }

  // ----- Geometric sums ---------------------------------------------------

  lemma AffineOfProduct(a: int, p: int, g: int, h: int)
    ensures a * (p * g + h) == (a * p) * g + a * h
  {
    assert a * (p * g + h) == a * (p * g) + a * h;
    assert a * (p * g) == (a * p) * g;
  }

  lemma {:induction false} GeoAdd(a: int, m: nat, n: nat)
    ensures Geo(a, m + n) == Pow(a, n) * Geo(a, m) + Geo(a, n)
  {
    if n > 0 {
      var p, g, h := Pow(a, n - 1), Geo(a, m), Geo(a, n - 1);
      assert Geo(a, m + (n - 1)) == p * g + h by {
        GeoAdd(a, m, n - 1);
      }
      AffineOfProduct(a, p, g, h);
    }
  }

  lemma ProductIsOneMod4(x: int, y: int)
    requires x % 4 == 1 && y % 4 == 1
    ensures (x * y) % 4 == 1
  {
    var q := x / 4;
    assert x * y == y + (q * y) * 4 by {
      assert x == 4 * q + 1;
      assert (4 * q + 1) * y == 4 * (q * y) + y;
    }
    AddMultiple(y, q * y, 4);
  }

  lemma {:induction false} PowIsOneMod4(a: int, n: nat)
    requires a % 4 == 1
    ensures Pow(a, n) % 4 == 1
  {
    if n > 0 {
      PowIsOneMod4(a, n - 1);
      ProductIsOneMod4(a, Pow(a, n - 1));
    }
  }

  lemma {:induction false} GeoParity(a: int, n: nat)
    requires a % 4 == 1
    ensures Geo(a, n) % 2 == n % 2
  {
    if n > 0 {
      GeoParity(a, n - 1);
      StepFlipsParity(a, Geo(a, n - 1));
    }
  }

  lemma StepFlipsParity(a: int, g: int)
    requires a % 4 == 1
    ensures (a * g + 1) % 2 == 1 - g % 2
  {
    var q := a / 4;
    assert a * g + 1 == g + 1 + (2 * (q * g)) * 2 by {
      assert (4 * q + 1) * g == 4 * (q * g) + g;
    }
    AddMultiple(g + 1, 2 * (q * g), 2);
  }

  lemma DoubleSum(p: int, q: int, g: int)
    requires p + 1 == 2 * q
    ensures p * g + g == 2 * (q * g)
  {
    assert (p + 1) * g == p * g + g;
    assert (2 * q) * g == 2 * (q * g);
  }

  lemma GeoOfEven(a: int, h: nat) returns (q: int)
    requires a % 4 == 1
    ensures q % 2 == 1 && Geo(a, 2 * h) == 2 * (q * Geo(a, h))
  {
    var p, g := Pow(a, h), Geo(a, h);
    assert Geo(a, 2 * h) == p * g + g by {
      GeoAdd(a, h, h);
    }
    assert p % 4 == 1 by {
      PowIsOneMod4(a, h);
    }
    q := (p + 1) / 2;
    assert p + 1 == 2 * q && q % 2 == 1;
    DoubleSum(p, q, g);
  }

  /**
   * v2(1 + a + ... + a^(n-1)) == v2(n) for every a that is 1 modulo 4, said
   * without valuations: the same powers of two divide both.
   */
  lemma {:induction false} GeoDivisibility(a: int, k: nat, n: nat)
    requires a % 4 == 1
    ensures Geo(a, n) % Pow2(k) == 0 <==> n % Pow2(k) == 0
  {
    if k > 0 {
      if n % 2 == 1 {
        GeoOfOdd(a, k, n);
      } else {
        GeoDivisibility(a, k - 1, n / 2);
        GeoDoubles(a, k, n / 2, n);
      }
    }
  }

  lemma GeoOfOdd(a: int, k: nat, n: nat)
    requires a % 4 == 1 && k > 0 && n % 2 == 1
    ensures Geo(a, n) % Pow2(k) == 0 <==> n % Pow2(k) == 0
  {
    GeoParity(a, n);
    BothOddNotDivided(k, Geo(a, n), n);
  }

  lemma BothOddNotDivided(k: nat, x: int, y: int)
    requires k > 0 && x % 2 == 1 && y % 2 == 1
    ensures x % Pow2(k) == 0 <==> y % Pow2(k) == 0
  {
    OddIsNotDivided(k, x);
    OddIsNotDivided(k, y);
  }

  lemma GeoDoubles(a: int, k: nat, h: nat, n: nat)
    requires a % 4 == 1 && k > 0 && n == 2 * h
    requires Geo(a, h) % Pow2(k - 1) == 0 <==> h % Pow2(k - 1) == 0
    ensures Geo(a, n) % Pow2(k) == 0 <==> n % Pow2(k) == 0
  {
    GeoHalves(a, k, h);
    DoubleIsDivided(k, h);
  }

  lemma OddIsNotDivided(k: nat, x: int)
    requires k > 0 && x % 2 == 1
    ensures x % Pow2(k) != 0
  {
    HalfDivides(k, x);
  }

  lemma DoubleIsDivided(k: nat, x: int)
    requires k > 0
    ensures (2 * x) % Pow2(k) == 0 <==> x % Pow2(k - 1) == 0
  {
    HalfDivides(k, 2 * x);
  }

  lemma GeoHalves(a: int, k: nat, h: nat)
    requires a % 4 == 1 && k > 0
    ensures Geo(a, 2 * h) % Pow2(k) == 0 <==> Geo(a, h) % Pow2(k - 1) == 0
  {
    var q := GeoOfEven(a, h);
    DoubleIsDivided(k, q * Geo(a, h));
    OddFactorCancels(k - 1, q, Geo(a, h));
  }

  // ----- Orbits -----------------------------------------------------------

  lemma AffineOfSum(a: int, c: int, x: int, g: int, d: int)
    requires d == (a - 1) * x + c
    ensures a * (x + g * d) + c == x + (a * g + 1) * d
  {
    assert (a - 1) * x == a * x - x;
    assert a * (x + g * d) == a * x + a * (g * d);
    assert a * (g * d) == (a * g) * d;
    assert (a * g + 1) * d == (a * g) * d + d;
  }

  lemma {:induction false} IterateDistance(a: int, c: int, x: int, n: nat)
    ensures Iterate(a, c, x, n) - x == Geo(a, n) * ((a - 1) * x + c)
  {
    if n > 0 {
      IterateDistance(a, c, x, n - 1);
      AffineOfSum(a, c, x, Geo(a, n - 1), (a - 1) * x + c);
    }
  }

  lemma {:induction false} IterateCompose(a: int, c: int, x: int, m: nat, n: nat)
    ensures Iterate(a, c, x, m + n) == Iterate(a, c, Iterate(a, c, x, m), n)
  {
    if n > 0 {
      IterateCompose(a, c, x, m, n - 1);
    }
  }

  /**
   * Full period: with a = 1 (mod 4) and c odd, two values of the orbit are
   * equal exactly when their positions agree modulo 2^k, for every seed.
   */
  lemma FullPeriod(k: nat, a: int, c: int, x: int, m: nat, n: nat)
    requires a % 4 == 1 && c % 2 == 1
    ensures Orbit(k, a, c, x, m) == Orbit(k, a, c, x, n) <==> (m - n) % Pow2(k) == 0
  {
    if m < n {
      FullPeriodOrdered(k, a, c, x, n, m);
      SameResidue(m, n, Pow2(k));
      SameResidue(n, m, Pow2(k));
    } else {
      FullPeriodOrdered(k, a, c, x, m, n);
    }
  }

  lemma FullPeriodOrdered(k: nat, a: int, c: int, x: int, m: nat, n: nat)
    requires a % 4 == 1 && c % 2 == 1 && n <= m
    ensures Orbit(k, a, c, x, m) == Orbit(k, a, c, x, n) <==> (m - n) % Pow2(k) == 0
  {
    var y, z, d := Iterate(a, c, x, n), Iterate(a, c, x, m), m - n;
    OrbitIsReducedIterate(k, a, c, x, m);
    OrbitIsReducedIterate(k, a, c, x, n);
    SameResidue(z, y, Pow2(k));
    assert z == Iterate(a, c, y, d) by {
      IterateCompose(a, c, x, n, d);
    }
    DistanceDivisibility(k, a, c, y, d);
  }

  /** d steps on, a value has moved by a multiple of 2^k exactly when 2^k divides d. */
  lemma DistanceDivisibility(k: nat, a: int, c: int, y: int, d: nat)
    requires a % 4 == 1 && c % 2 == 1
    ensures (Iterate(a, c, y, d) - y) % Pow2(k) == 0 <==> d % Pow2(k) == 0
  {
    var q, g := (a - 1) * y + c, Geo(a, d);
    OddStep(a, c, y);
    IterateDistance(a, c, y, d);
    Commutes(g, q);
    OddFactorCancels(k, q, g);
    GeoDivisibility(a, k, d);
  }

  lemma OddStep(a: int, c: int, y: int)
    requires a % 4 == 1 && c % 2 == 1
    ensures ((a - 1) * y + c) % 2 == 1
  {
    var q := a / 4;
    assert (a - 1) * y + c == c + (2 * (q * y)) * 2 by {
      assert (4 * q) * y == 4 * (q * y);
    }
    AddMultiple(c, 2 * (q * y), 2);
  }

  // ----- An orbit without repetition visits everything --------------------

  function Below(n: nat): (s: set<int>)
    ensures |s| == n
    ensures forall v :: v in s <==> 0 <= v < n
  {
    if n == 0 then {} else Below(n - 1) + {n - 1}
  }

  lemma {:induction false} DistinctCount(s: seq<int>)
    requires forall i, j :: 0 <= i < j < |s| ==> s[i] != s[j]
    ensures |set v | v in s| == |s|
  {
    if s != [] {
      var t := s[..|s| - 1];
      DistinctCount(t);
      var last := s[|s| - 1];
      assert (set v | v in s) == (set v | v in t) + {last} by {
        assert s == t + [last];
      }
      assert last !in t;
    }
  }

  lemma DistinctCovers(s: seq<int>, v: int)
    requires forall i, j :: 0 <= i < j < |s| ==> s[i] != s[j]
    requires forall i :: 0 <= i < |s| ==> 0 <= s[i] < |s|
    requires 0 <= v < |s|
    ensures v in s
  {
    var image := set w | w in s;
    DistinctCount(s);
    var all := Below(|s|);
    assert image <= all;
    assert all == image + (all - image);
    assert v in all;
  }

  lemma OrbitBounds(k: nat, a: int, c: int, x: int, n: nat)
    ensures 0 <= Orbit(k, a, c, x, n) < Pow2(k)
  {
  }

  lemma SmallResidue(d: int, m: int)
    requires 0 < d < m
    ensures d % m != 0
  {
  }

  lemma DistinctInOnePeriod(k: nat, a: int, c: int, x: int, m: nat, n: nat)
    requires a % 4 == 1 && c % 2 == 1
    requires n < m < Pow2(k)
    ensures Orbit(k, a, c, x, m) != Orbit(k, a, c, x, n)
  {
    FullPeriod(k, a, c, x, m, n);
    SmallResidue(m - n, Pow2(k));
  }

  function Period(k: nat, a: int, c: int, x: int, size: nat): (s: seq<int>)
    ensures |s| == size
    ensures forall n :: 0 <= n < size ==> s[n] == Orbit(k, a, c, x, n)
  {
    if size == 0 then [] else Period(k, a, c, x, size - 1) + [Orbit(k, a, c, x, size - 1)]
  }

  /** Every k-bit value is the n-th result for exactly one n below 2^k. */
  lemma VisitsEverything(k: nat, a: int, c: int, x: int, v: int) returns (n: nat)
    requires a % 4 == 1 && c % 2 == 1
    requires 0 <= v < Pow2(k)
    ensures n < Pow2(k)
    ensures forall m: nat :: m < Pow2(k) ==> (Orbit(k, a, c, x, m) == v <==> m == n)
  {
    var s := Period(k, a, c, x, Pow2(k));
    forall i, j | 0 <= i < j < |s| ensures s[i] != s[j] {
      DistinctInOnePeriod(k, a, c, x, j, i);
    }
    forall i | 0 <= i < |s| ensures 0 <= s[i] < |s| {
      OrbitBounds(k, a, c, x, i);
    }
    DistinctCovers(s, v);
    n :| 0 <= n < |s| && s[n] == v;
    forall m: nat | m < Pow2(k) ensures Orbit(k, a, c, x, m) == v <==> m == n {
      assert s[m] == Orbit(k, a, c, x, m);
    }
  }
}
