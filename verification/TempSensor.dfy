// The sensor thread of the server (temp_sensor.cpp): a ring of samples whose
// size follows the configuration, and the moving average it publishes.
// Readings and averages are exact reals.
module TempSensor {
  import opened Arithmetic
  import opened CLanguage

  const INITIAL_SAMPLE := 25.0

  /** One turn of the loop: the configured sample count it sees and what it reads. */
  datatype Round = Round(samples: nat, reading: real)

  function Sum(s: seq<real>): real {
    if s == [] then 0.0 else Sum(s[..|s| - 1]) + s[|s| - 1]
  }

  /** A sum over the configured number of samples. */
  function Average(s: seq<real>, n: nat): real
    requires n > 0
  {
    Sum(s) / n as real
  }

  function Init<T>(s: seq<T>): seq<T>
    requires s != []
  {
    s[..|s| - 1]
  }

  function Last<T>(s: seq<T>): T
    requires s != []
  {
    s[|s| - 1]
  }

  function Filled(n: nat): (s: seq<real>)
    ensures |s| == n && forall i :: 0 <= i < n ==> s[i] == 25.0
  {
    seq(n, _ => INITIAL_SAMPLE)
  }

  // ----- The loop as a fold over its rounds --------------------------------

  /** temps, current_sample and prev_samples. */
  datatype Thread = Thread(ring: seq<real>, index: nat, inForce: nat)

  const START := Thread([], 0, 0)

  /** The ring as a round finds it, refilled if the count has changed. */
  function BeforeStore(t: Thread, samples: nat): seq<real> {
    if t.inForce != samples then Filled(samples) else t.ring
  }

  /** The reading of a round falls inside the ring. */
  predicate StoresInside(t: Thread, r: Round) {
    r.samples == 0 || t.index < |BeforeStore(t, r.samples)|
  }

  function Advanced(index: nat, samples: nat): nat {
    if index + 1 >= samples then 0 else index + 1
  }

  function Step(t: Thread, r: Round): Thread
    requires StoresInside(t, r)
  {
    if r.samples == 0 then t.(index := Advanced(t.index, 0))
    else Thread(BeforeStore(t, r.samples)[t.index := r.reading], Advanced(t.index, r.samples), r.samples)
  }

  /** The state after a run, unless some round stored its reading outside the ring. */
  function Run(rs: seq<Round>): (t: Option<Thread>)
    ensures t.Some? ==> |t.value.ring| == t.value.inForce
  {
    if rs == [] then Some(START)
    else
      var before := Run(Init(rs));
      if before.Some? && StoresInside(before.value, Last(rs)) then Some(Step(before.value, Last(rs)))
      else None
  }

  predicate Safe(rs: seq<Round>) {
    Run(rs).Some?
  }

  function After(rs: seq<Round>): Thread
    requires Safe(rs)
  {
    Run(rs).value
  }

  /** What the last round of a run publishes, if anything. */
  function Published(rs: seq<Round>): Option<real>
    requires rs != [] && Safe(rs)
  {
    if Last(rs).samples == 0 then None else Some(Average(After(rs).ring, Last(rs).samples))
  }

  function AllPublished(rs: seq<Round>): (all: seq<Option<real>>)
    requires Safe(rs)
    ensures |all| == |rs|
  {
    if rs == [] then [] else AllPublished(Init(rs)) + [Published(rs)]
  }

  lemma {:induction false} SafePrefix(rs: seq<Round>, k: nat)
    requires k <= |rs|
    ensures Safe(rs) ==> Safe(rs[..k])
  {
    if k < |rs| {
      assert rs[..k] == Init(rs)[..k];
      SafePrefix(Init(rs), k);
    } else {
      assert rs[..k] == rs;
    }
  }

  /** Each published value only depends on the rounds up to its own. */
  lemma {:induction false} PublishedAt(rs: seq<Round>, k: nat)
    requires k < |rs| && Safe(rs)
    ensures Safe(rs[..k + 1]) && AllPublished(rs)[k] == Published(rs[..k + 1])
  {
    if k + 1 < |rs| {
      assert rs[..k + 1] == Init(rs)[..k + 1];
      PublishedAt(Init(rs), k);
    } else {
      assert rs[..k + 1] == rs;
    }
  }

  /** What one round publishes. */
  function Result(t: Thread, r: Round): Option<real>
    requires StoresInside(t, r)
  {
    if r.samples == 0 then None else Some(Average(Step(t, r).ring, r.samples))
  }

  lemma OneMore(rs: seq<Round>, k: nat)
    requires k < |rs| && Safe(rs[..k])
    ensures Safe(rs[..k + 1]) <==> StoresInside(After(rs[..k]), rs[k])
    ensures Safe(rs[..k + 1]) ==>
              && After(rs[..k + 1]) == Step(After(rs[..k]), rs[k])
              && AllPublished(rs[..k + 1]) == AllPublished(rs[..k]) + [Result(After(rs[..k]), rs[k])]
  {
    assert Init(rs[..k + 1]) == rs[..k] && Last(rs[..k + 1]) == rs[k];
  }

  /** With a configured count of zero nothing is read or published, and the index starts over. */
  lemma ZeroRound(t: Thread, x: real)
    ensures StoresInside(t, Round(0, x)) && Step(t, Round(0, x)) == Thread(t.ring, 0, t.inForce)
    ensures Result(t, Round(0, x)) == None
  {
  }

  /** The locals of read_sensor. */
  class Sensor {
    var temps: array<real>
    var currentSample: nat
    var prevSamples: nat

    ghost predicate Valid()
      reads this, temps
    {
      temps.Length == prevSamples
    }

    ghost function State(): Thread
      reads this, temps
    {
      Thread(temps[..], currentSample, prevSamples)
    }

    constructor ()
      ensures Valid() && State() == START && fresh(temps)
    {
      temps := new real[0];
      currentSample, prevSamples := 0, 0;
    }

    /** The body of the loop; overrun is set where the source would write outside temps. */
    method Turn(samples: nat, reading: real) returns (result: Option<real>, overrun: bool)
      requires Valid()
      modifies this, temps
      ensures Valid()
      ensures temps == old(temps) || fresh(temps)
      ensures !overrun <==> StoresInside(old(State()), Round(samples, reading))
      ensures !overrun ==>
                && State() == Step(old(State()), Round(samples, reading))
                && result == Result(old(State()), Round(samples, reading))
    {
      result, overrun := None, false;
      if samples != 0 {
        if prevSamples != samples {
          temps := Refill(samples);
          prevSamples := samples;
        }
        if currentSample >= samples {
          return None, true;
        }
        temps[currentSample] := reading;
        var temp := SumOf(temps, samples);
        assert temps[..samples] == temps[..];
        result := Some(temp / samples as real);
      }
      currentSample := currentSample + 1;
      if currentSample >= samples {
        currentSample := 0;
      }
    }
  }

  /** read_sensor, for as many rounds as there are before it is told to quit. */
  method ReadSensor(rounds: seq<Round>) returns (published: seq<Option<real>>, overrun: bool)
    ensures |published| <= |rounds| && Safe(rounds[..|published|])
    ensures published == AllPublished(rounds[..|published|])
    ensures !overrun <==> Safe(rounds)
    ensures !overrun ==> |published| == |rounds|
  {
    var sensor := new Sensor();
    published := [];
    for k := 0 to |rounds|
      invariant fresh(sensor) && fresh(sensor.temps) && sensor.Valid()
      invariant Safe(rounds[..k]) && sensor.State() == After(rounds[..k])
      invariant published == AllPublished(rounds[..k])
    {
      OneMore(rounds, k);
      SafePrefix(rounds, k + 1);
      var result, outside := sensor.Turn(rounds[k].samples, rounds[k].reading);
      if outside {
        return published, true;
      }
      published := published + [result];
    }
    assert rounds[..|rounds|] == rounds;
    overrun := false;
  }

  /** reallocarray and the loop that overwrites all it returns. */
  method Refill(samples: nat) returns (temps: array<real>)
    ensures fresh(temps) && temps[..] == Filled(samples)
  {
    temps := new real[samples];
    for i := 0 to samples
      invariant forall j :: 0 <= j < i ==> temps[j] == INITIAL_SAMPLE
    {
      temps[i] := INITIAL_SAMPLE;
    }
  }

  method SumOf(temps: array<real>, samples: nat) returns (temp: real)
    requires samples <= temps.Length
    ensures temp == Sum(temps[..samples])
  {
    temp := 0.0;
    for i := 0 to samples
      invariant temp == Sum(temps[..i])
    {
      assert temps[..i + 1][..i] == temps[..i];
      temp := temp + temps[i];
    }
  }

  // ----- The average is that of the last readings --------------------------

  /** The last count that was not zero. */
  function InForce(rs: seq<Round>): nat {
    if rs == [] then 0
    else if Last(rs).samples == 0 then InForce(Init(rs))
    else Last(rs).samples
  }

  /** Readings stored since the count last changed, oldest first. */
  function SinceRefill(rs: seq<Round>): seq<real> {
    if rs == [] then []
    else if Last(rs).samples == 0 then SinceRefill(Init(rs))
    else if InForce(Init(rs)) != Last(rs).samples then [Last(rs).reading]
    else SinceRefill(Init(rs)) + [Last(rs).reading]
  }

  /** The last n of the readings, padded with initial samples in front. */
  function Window(readings: seq<real>, n: nat): (w: seq<real>)
    ensures |w| == n
  {
    (Filled(n) + readings)[|readings|..]
  }

  /** The sample count, once set, is never cleared: the configuration only stores 1 and up. */
  predicate NeverCleared(rs: seq<Round>) {
    rs == [] || (NeverCleared(Init(rs)) && (Last(rs).samples == 0 ==> InForce(Init(rs)) == 0))
  }

  /** Oldest sample first. */
  function Rotated(ring: seq<real>, i: nat): seq<real>
    requires i <= |ring|
  {
    ring[i..] + ring[..i]
  }

  lemma RotatedStore(ring: seq<real>, i: nat, x: real)
    requires i < |ring|
    ensures Rotated(ring[i := x], if i + 1 >= |ring| then 0 else i + 1) == Rotated(ring, i)[1..] + [x]
  {
    var r := ring[i := x];
    if i + 1 >= |ring| {
      assert Rotated(r, 0) == r == ring[..i] + [x];
      assert Rotated(ring, i)[1..] == ring[..i];
    } else {
      assert r[i + 1..] == ring[i + 1..] && r[..i + 1] == ring[..i] + [x];
      assert Rotated(ring, i)[1..] == ring[i + 1..] + ring[..i];
    }
  }

  lemma WindowSlides(readings: seq<real>, n: nat, x: real)
    requires n > 0
    ensures Window(readings + [x], n) == Window(readings, n)[1..] + [x]
  {
    assert Filled(n) + (readings + [x]) == (Filled(n) + readings) + [x];
  }

  /** One round slides the window along the ring. */
  lemma StepSlides(t: Thread, r: Round, readings: seq<real>)
    requires r.samples > 0 && |t.ring| == t.inForce && StoresInside(t, r)
    requires t.inForce == r.samples ==> Rotated(t.ring, t.index) == Window(readings, r.samples)
    requires t.inForce != r.samples ==> readings == []
    ensures var t' := Step(t, r);
            Rotated(t'.ring, t'.index) == Window(readings + [r.reading], r.samples)
  {
    var ring := BeforeStore(t, r.samples);
    RotatedStore(ring, t.index, r.reading);
    WindowSlides(readings, r.samples, r.reading);
    if t.inForce != r.samples {
      assert Rotated(ring, t.index) == Filled(r.samples) == Window([], r.samples);
    }
  }

  /** Read from the next slot to be overwritten, the ring is the window. */
  lemma {:induction false} RingIsWindow(rs: seq<Round>)
    requires Safe(rs) && NeverCleared(rs)
    ensures After(rs).inForce == InForce(rs)
    ensures After(rs).index < InForce(rs) || After(rs) == START
    ensures Rotated(After(rs).ring, After(rs).index) == Window(SinceRefill(rs), InForce(rs))
  {
    if rs != [] {
      RingIsWindow(Init(rs));
      var t, r := After(Init(rs)), Last(rs);
      if r.samples > 0 {
        StepSlides(t, r, if t.inForce != r.samples then [] else SinceRefill(Init(rs)));
        assert [] + [r.reading] == [r.reading];
      }
    }
  }

  lemma {:induction false} SumOfConcat(a: seq<real>, b: seq<real>)
    ensures Sum(a + b) == Sum(a) + Sum(b)
  {
    if b == [] {
      assert a + b == a;
    } else {
      assert (a + b)[..|a + b| - 1] == a + b[..|b| - 1];
      SumOfConcat(a, b[..|b| - 1]);
    }
  }

  lemma SumCommutes(a: seq<real>, b: seq<real>)
    ensures Sum(a + b) == Sum(b + a)
  {
    SumOfConcat(a, b);
    SumOfConcat(b, a);
  }

  lemma SumOfOne(x: real)
    ensures Sum([x]) == x && Sum([]) == 0.0
  {
    assert [x][..0] == [];
  }

  lemma SumOfRotated(ring: seq<real>, i: nat)
    requires i <= |ring|
    ensures Sum(Rotated(ring, i)) == Sum(ring)
  {
    SumCommutes(ring[i..], ring[..i]);
    assert ring[..i] + ring[i..] == ring;
  }

  /** The published value is the mean of the last N readings, padded with 25s. */
  lemma PublishesMovingAverage(rs: seq<Round>)
    requires rs != [] && Safe(rs) && NeverCleared(rs) && Last(rs).samples > 0
    ensures Published(rs) == Some(Average(Window(SinceRefill(rs), Last(rs).samples), Last(rs).samples))
  {
    RingIsWindow(rs);
    SumOfRotated(After(rs).ring, After(rs).index);
  }

  lemma {:induction false} SumBounds(s: seq<real>, lo: real, hi: real)
    requires forall x :: x in s ==> lo <= x <= hi
    ensures lo * |s| as real <= Sum(s) <= hi * |s| as real
  {
    if s != [] {
      var t := s[..|s| - 1];
      forall x | x in t ensures lo <= x <= hi {
        assert x in s;
      }
      SumBounds(t, lo, hi);
      assert s[|s| - 1] in s;
    }
  }

  lemma QuotientBounds(sum: real, n: real, lo: real, hi: real)
    requires n > 0.0 && lo * n <= sum <= hi * n
    ensures lo <= sum / n <= hi
  {
    assert (sum / n) * n == sum;
  }

  /** It never leaves the range of the samples in the window. */
  lemma AverageWithinWindow(rs: seq<Round>, lo: real, hi: real)
    requires rs != [] && Safe(rs) && NeverCleared(rs) && Last(rs).samples > 0
    requires forall x :: x in Window(SinceRefill(rs), Last(rs).samples) ==> lo <= x <= hi
    ensures lo <= Published(rs).value <= hi
  {
    var n := Last(rs).samples;
    PublishesMovingAverage(rs);
    AverageBounds(Window(SinceRefill(rs), n), lo, hi);
  }

  lemma AverageBounds(w: seq<real>, lo: real, hi: real)
    requires w != []
    requires forall x :: x in w ==> lo <= x <= hi
    ensures lo <= Average(w, |w|) <= hi
  {
    SumBounds(w, lo, hi);
    QuotientBounds(Sum(w), |w| as real, lo, hi);
  }

  // ----- When the ring index stays inside ----------------------------------

  /** The count never goes down once it has been set. */
  predicate NeverLowered(rs: seq<Round>) {
    rs == [] || (NeverLowered(Init(rs)) && Last(rs).samples >= InForce(Init(rs)))
  }

  lemma {:induction false} NeverLoweredIsSafe(rs: seq<Round>)
    requires NeverLowered(rs)
    ensures Safe(rs) && NeverCleared(rs)
    ensures After(rs).inForce == InForce(rs)
    ensures After(rs).index < InForce(rs) || After(rs) == START
  {
    if rs != [] {
      NeverLoweredIsSafe(Init(rs));
    }
  }

  /** The configured counts that the rounds see. */
  function Counts(rs: seq<Round>): (counts: seq<nat>)
    ensures |counts| == |rs|
  {
    if rs == [] then [] else Counts(Init(rs)) + [Last(rs).samples]
  }

  /** The ring index after rounds that see these counts, whatever they read. */
  function Index(counts: seq<nat>): nat {
    if counts == [] then 0 else Advanced(Index(Init(counts)), Last(counts))
  }

  /** Every count that is not zero exceeds the index that its round finds. */
  predicate AlwaysAhead(counts: seq<nat>) {
    counts == [] ||
    (AlwaysAhead(Init(counts)) && (Last(counts) == 0 || Index(Init(counts)) < Last(counts)))
  }

  lemma OneMoreCount(counts: seq<nat>, n: nat)
    ensures Index(counts + [n]) == Advanced(Index(counts), n)
    ensures AlwaysAhead(counts + [n]) <==> AlwaysAhead(counts) && (n == 0 || Index(counts) < n)
  {
    assert Init(counts + [n]) == counts;
  }

  /**
   * The ring index stays inside on exactly the runs whose counts stay ahead of
   * it; the readings do not matter.
   */
  lemma {:induction false} SafeExactlyWhen(rs: seq<Round>)
    ensures Safe(rs) <==> AlwaysAhead(Counts(rs))
    ensures Safe(rs) ==> After(rs).index == Index(Counts(rs))
  {
    if rs != [] {
      SafeExactlyWhen(Init(rs));
      OneMoreCount(Counts(Init(rs)), Last(rs).samples);
      if Safe(Init(rs)) {
        RingLength(After(Init(rs)), Last(rs).samples);
      }
    }
  }

  lemma RingLength(t: Thread, samples: nat)
    requires |t.ring| == t.inForce
    ensures |BeforeStore(t, samples)| == samples
  {
  }

  lemma NextResidue(k: nat, n: nat)
    requires n > 0
    ensures (k + 1) % n == if k % n + 1 >= n then 0 else k % n + 1
  {
    var q, r := k / n, k % n;
    if r + 1 >= n {
      assert k + 1 == (q + 1) * n + 0;
      QuotientIs(k + 1, q + 1, 0, n);
    } else {
      assert k + 1 == q * n + (r + 1);
      QuotientIs(k + 1, q, r + 1, n);
    }
  }

  function Repeat(n: nat, k: nat): (counts: seq<nat>)
    ensures |counts| == k
  {
    if k == 0 then [] else Repeat(n, k - 1) + [n]
  }

  /** k places on from place i of a ring of size n. */
  function OnRing(i: nat, k: nat, n: nat): (place: nat)
    requires i < n
    ensures place < n
  {
    if k == 0 then i else Advanced(OnRing(i, k - 1, n), n)
  }

  lemma {:induction false} OnRingIsResidue(i: nat, k: nat, n: nat)
    requires i < n
    ensures OnRing(i, k, n) == (i + k) % n
  {
    if k == 0 {
      QuotientIs(i, 0, i, n);
    } else {
      OnRingIsResidue(i, k - 1, n);
      NextResidue(i + (k - 1), n);
    }
  }

  /** While the count stays at n, ahead of the index, the index runs round the ring. */
  lemma {:induction false} IndexRunsRound(counts: seq<nat>, n: nat, k: nat)
    requires Index(counts) < n
    ensures Index(counts + Repeat(n, k)) == OnRing(Index(counts), k, n)
    ensures AlwaysAhead(counts + Repeat(n, k)) <==> AlwaysAhead(counts)
  {
    if k == 0 {
      assert counts + [] == counts;
    } else {
      IndexRunsRound(counts, n, k - 1);
      assert counts + Repeat(n, k) == (counts + Repeat(n, k - 1)) + [n];
      OneMoreCount(counts + Repeat(n, k - 1), n);
    }
  }

  /** After k rounds with count n the index is k modulo n. */
  lemma SteadyCount(n: nat, k: nat)
    requires n > 0
    ensures Index(Repeat(n, k)) == OnRing(0, k, n) == k % n && AlwaysAhead(Repeat(n, k))
  {
    IndexRunsRound([], n, k);
    OnRingIsResidue(0, k, n);
    assert [] + Repeat(n, k) == Repeat(n, k);
  }

  lemma {:induction false} BehindIsUnsafe(counts: seq<nat>, m: nat, l: nat)
    requires l > 0 && 0 < m <= Index(counts)
    ensures !AlwaysAhead(counts + Repeat(m, l))
  {
    assert counts + Repeat(m, l) == (counts + Repeat(m, l - 1)) + [m];
    OneMoreCount(counts + Repeat(m, l - 1), m);
    if l == 1 {
      assert counts + Repeat(m, 0) == counts;
    } else {
      BehindIsUnsafe(counts, m, l - 1);
    }
  }

  /** A change to a count of m for l rounds is safe exactly when m is ahead of the index. */
  lemma SwitchIsSafeExactlyWhen(counts: seq<nat>, m: nat, l: nat)
    requires AlwaysAhead(counts) && m > 0 && l > 0
    ensures AlwaysAhead(counts + Repeat(m, l)) <==> Index(counts) < m
    ensures Index(counts) < m ==> Index(counts + Repeat(m, l)) == (Index(counts) + l) % m
  {
    if Index(counts) < m {
      IndexRunsRound(counts, m, l);
      OnRingIsResidue(Index(counts), l, m);
    } else {
      BehindIsUnsafe(counts, m, l);
    }
  }

  /**
   * A count of n for k rounds, of m for another l and then of o stays inside
   * exactly when m is ahead of k mod n, and o of what l more rounds make of it
   * modulo m; whether m is more or less than n does not matter.
   */
  lemma ChangingIsSafeExactlyWhen(n: nat, k: nat, m: nat, l: nat, o: nat)
    requires n > 0 && m > 0 && l > 0 && o > 0
    ensures AlwaysAhead((Repeat(n, k) + Repeat(m, l)) + [o]) <==> k % n < m && (k % n + l) % m < o
  {
    SteadyCount(n, k);
    SwitchIsSafeExactlyWhen(Repeat(n, k), m, l);
    OneMoreCount(Repeat(n, k) + Repeat(m, l), o);
  }

  function Steady(n: nat, readings: seq<real>): (rs: seq<Round>)
    ensures |rs| == |readings|
  {
    if readings == [] then [] else Steady(n, Init(readings)) + [Round(n, Last(readings))]
  }

  lemma {:induction false} SteadyCounts(n: nat, readings: seq<real>)
    ensures Counts(Steady(n, readings)) == Repeat(n, |readings|)
  {
    if readings != [] {
      SteadyCounts(n, Init(readings));
      assert Init(Steady(n, readings)) == Steady(n, Init(readings));
    }
  }

  lemma {:induction false} SteadyReadings(n: nat, readings: seq<real>)
    requires n > 0
    ensures NeverLowered(Steady(n, readings)) && SinceRefill(Steady(n, readings)) == readings
    ensures readings != [] ==> InForce(Steady(n, readings)) == n
  {
    if readings != [] {
      SteadyReadings(n, Init(readings));
      assert Init(Steady(n, readings)) == Steady(n, Init(readings));
      assert readings == Init(readings) + [Last(readings)];
    }
  }

  /** With a steady count of n, once n readings have arrived the mean of the last n is published. */
  lemma SteadyPublishes(n: nat, readings: seq<real>)
    requires 0 < n <= |readings|
    ensures var rs := Steady(n, readings);
            Safe(rs) && Published(rs) == Some(Average(readings[|readings| - n..], n))
  {
    var rs := Steady(n, readings);
    SteadyReadings(n, readings);
    NeverLoweredIsSafe(rs);
    PublishesMovingAverage(rs);
    assert Window(readings, n) == readings[|readings| - n..];
  }

  /**
   * Lowering the count from n to m after k readings stays inside the ring
   * exactly when the index, k mod n, is below m.
   */
  lemma LoweringIsSafeExactlyWhen(n: nat, m: nat, readings: seq<real>, x: real)
    requires n > 0 && m > 0
    ensures Safe(Steady(n, readings) + [Round(m, x)]) <==> |readings| % n < m
  {
    var rs := Steady(n, readings) + [Round(m, x)];
    assert Init(rs) == Steady(n, readings);
    SafeExactlyWhen(rs);
    SteadyCounts(n, readings);
    SteadyCount(n, |readings|);
    OneMoreCount(Repeat(n, |readings|), m);
  }
}
