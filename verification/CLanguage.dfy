/** Unsigned 32-bit words as integers. */
module Words {
  const WORDS: int := 0x1_0000_0000
  type Word = x: int | 0 <= x < WORDS
}

// What the modelled C and C++ code takes from its language and its library.
module CLanguage {

  datatype Option<T> = None | Some(value: T)

  // ----- Integers ----------------------------------------------------------

  predicate IsS32(x: int) {
    -0x8000_0000 <= x < 0x8000_0000
  }

  /** Two's complement wrap-around of a 32-bit signed expression. */
  function S32(x: int): (r: int)
    ensures IsS32(r)
    ensures IsS32(x) ==> r == x
  {
    if IsS32(x) then x else (x + 0x8000_0000) % 0x1_0000_0000 - 0x8000_0000
  }

  /** Division truncates toward zero. */
  function TruncDiv(x: int, d: int): int
    requires d > 0
  {
    if x >= 0 then x / d else -(-x / d)
  }

  /** The remainder has the sign of the dividend. */
  function TruncRem(x: int, d: int): int
    requires d > 0
  {
    if x >= 0 then x % d else -(-x % d)
  }

  // ----- Decimal numerals --------------------------------------------------

  predicate IsDigit(c: char) { '0' <= c <= '9' }

  function DigitOf(n: nat): (c: char)
    requires n < 10
    ensures IsDigit(c)
  {
    '0' + n as char
  }

  function DigitValue(c: char): (n: nat)
    requires IsDigit(c)
    ensures n < 10
  {
    (c - '0') as int
  }

  predicate AllDigits(s: string) {
    forall c :: c in s ==> IsDigit(c)
  }

  /** %d of a number that is not negative. */
  function Decimal(n: nat): (s: string)
    ensures |s| >= 1 && AllDigits(s)
  {
    if n < 10 then [DigitOf(n)] else Decimal(n / 10) + [DigitOf(n % 10)]
  }

  function Value(s: string): nat
    requires AllDigits(s)
  {
    if s == [] then 0 else Value(s[..|s| - 1]) * 10 + DigitValue(s[|s| - 1])
  }

  function Ten(k: nat): (p: nat)
    ensures p >= 1
  {
    if k == 0 then 1 else 10 * Ten(k - 1)
  }

  lemma {:induction false} DecimalRoundTrip(n: nat)
    ensures Value(Decimal(n)) == n
  {
    if n >= 10 {
      DecimalRoundTrip(n / 10);
      var s := Decimal(n);
      assert s[..|s| - 1] == Decimal(n / 10);
    } else {
      assert Decimal(n)[..0] == [];
    }
  }

  /** A numeral has at most k digits exactly below 10^k. */
  lemma {:induction false} DecimalLength(n: nat, k: nat)
    requires k >= 1
    ensures |Decimal(n)| <= k <==> n < Ten(k)
  {
    if n >= 10 {
      if k > 1 {
        DecimalLength(n / 10, k - 1);
        assert n / 10 < Ten(k - 1) <==> n < 10 * Ten(k - 1);
      }
    } else {
      assert Ten(k) == 10 * Ten(k - 1);
    }
  }

  // ----- Strings -----------------------------------------------------------

  /** strcspn with one character: how many characters precede the first c. */
  function Before(s: string, c: char): (k: nat)
    ensures k <= |s| && c !in s[..k]
    ensures k < |s| ==> s[k] == c
  {
    if s == [] || s[0] == c then 0 else 1 + Before(s[1..], c)
  }

  lemma {:induction false} BeforeSeparator(s: string, c: char, rest: string)
    requires c !in s
    ensures Before(s + [c] + rest, c) == |s|
    ensures Before(s, c) == |s|
  {
    if s == [] {
      assert s + [c] + rest == [c] + rest;
    } else {
      assert (s + [c] + rest)[1..] == s[1..] + [c] + rest;
      BeforeSeparator(s[1..], c, rest);
    }
  }

  // ----- Sequences ---------------------------------------------------------

  function Map<A, B>(f: A -> B, s: seq<A>): (r: seq<B>)
    ensures |r| == |s|
  {
    if s == [] then [] else Map(f, s[..|s| - 1]) + [f(s[|s| - 1])]
  }

  lemma {:induction false} MapFromFront<A, B>(f: A -> B, s: seq<A>)
    requires s != []
    ensures Map(f, s) == [f(s[0])] + Map(f, s[1..])
  {
    if |s| == 1 {
      assert s[..0] == [] && s[1..] == [];
    } else {
      var before := s[..|s| - 1];
      MapFromFront(f, before);
      assert before[0] == s[0] && before[1..] == s[1..][..|s| - 2];
      assert s[1..][|s| - 2] == s[|s| - 1];
    }
  }

  lemma {:induction false} MapSuffix<A, B>(f: A -> B, s: seq<A>, k: nat)
    requires k <= |s|
    ensures Map(f, s)[k..] == Map(f, s[k..])
  {
    if k < |s| {
      var before := s[..|s| - 1];
      MapSuffix(f, before, k);
      assert s[k..][..|s| - k - 1] == before[k..];
    }
  }
}
