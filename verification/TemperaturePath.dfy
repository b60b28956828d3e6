// From the sensor's raw reading to what the server publishes: compensation,
// text and moving average taken together.
module TemperaturePath {
  import opened CLanguage
  import Bmp280
  import TempText
  import TempSensor

  /**
   * With calibration words below 2^15 and a reading in Celsius that is not
   * negative, what the server parses is within 0.02 degrees of the data
   * sheet's polynomial.
   */
  lemma ServerReadsWithinTwoHundredths(raw: int, t1: int, t2: int, t3: int)
    requires Bmp280.Unsigned(raw, t1, t2, t3) && Bmp280.ProductsFit(raw, t1, t2, t3)
    requires t2 < 0x8000 && t3 < 0x8000
    requires Bmp280.Wrapped(raw, t1, t2, t3) >= 0
    ensures var degrees := Bmp280.Exact(raw, t1, t2, t3) / 100.0;
            -0.02 < TempText.ServerReading(Bmp280.Wrapped(raw, t1, t2, t3)) - degrees < 0.02
  {
    var t := Bmp280.Wrapped(raw, t1, t2, t3);
    Bmp280.WithinTwoHundredths(raw, t1, t2, t3);
    TempText.ReadsBackExactlyWhen(t);
  }

  /** A raw reading of a sensor in Celsius, not negative, with its calibration words. */
  datatype Sample = Sample(raw: int, t1: int, t2: int, t3: int)
  {
    predicate Good() {
      && Bmp280.Unsigned(raw, t1, t2, t3) && Bmp280.ProductsFit(raw, t1, t2, t3)
      && t2 < 0x8000 && t3 < 0x8000
      && Bmp280.Wrapped(raw, t1, t2, t3) >= 0
    }

  }

  /** What the server parses of a sample. */
  function ParsedOf(s: Sample): real {
    TempText.ServerReading(Bmp280.Wrapped(s.raw, s.t1, s.t2, s.t3))
  }

  /** The data sheet's temperature of a sample. */
  function DegreesOf(s: Sample): real {
    Bmp280.Exact(s.raw, s.t1, s.t2, s.t3) / 100.0
  }

  function Parsed(samples: seq<Sample>): seq<real> {
    Map(ParsedOf, samples)
  }

  function Degrees(samples: seq<Sample>): seq<real> {
    Map(DegreesOf, samples)
  }

  predicate AllGood(samples: seq<Sample>) {
    forall i :: 0 <= i < |samples| ==> samples[i].Good()
  }

  lemma {:induction false} SumsStayClose(samples: seq<Sample>)
    requires AllGood(samples)
    ensures var d := TempSensor.Sum(Parsed(samples)) - TempSensor.Sum(Degrees(samples));
            -0.02 * |samples| as real <= d <= 0.02 * |samples| as real
  {
    if samples != [] {
      var s := samples[|samples| - 1];
      SumsStayClose(samples[..|samples| - 1]);
      ServerReadsWithinTwoHundredths(s.raw, s.t1, s.t2, s.t3);
    }
  }

  /** The thread's rounds when the count is n throughout and the samples arrive one by one. */
  function Rounds(n: nat, samples: seq<Sample>): (rs: seq<TempSensor.Round>)
    ensures |rs| == |samples|
  {
    TempSensor.Steady(n, Parsed(samples))
  }

  lemma PublishesMeanOfLatest(n: nat, samples: seq<Sample>)
    requires 0 < n <= |samples|
    ensures TempSensor.Safe(Rounds(n, samples))
    ensures TempSensor.Published(Rounds(n, samples))
         == Some(TempSensor.Average(Parsed(samples[|samples| - n..]), n))
  {
    MapSuffix(ParsedOf, samples, |samples| - n);
    RoundsPublish(n, Parsed(samples), Parsed(samples[|samples| - n..]));
  }

  lemma RoundsPublish(n: nat, parsed: seq<real>, latest: seq<real>)
    requires 0 < n <= |parsed| && latest == parsed[|parsed| - n..]
    ensures var rs := TempSensor.Steady(n, parsed);
            TempSensor.Safe(rs) && TempSensor.Published(rs) == Some(TempSensor.Average(latest, n))
  {
    TempSensor.SteadyPublishes(n, parsed);
  }

  /**
   * Once n good samples have arrived with the count at n, the published value
   * is always within 0.02 degrees of the mean of the exact temperatures of the
   * last n.
   */
  lemma PublishedIsAccurate(n: nat, samples: seq<Sample>)
    requires 0 < n <= |samples| && AllGood(samples[|samples| - n..])
    ensures TempSensor.Safe(Rounds(n, samples))
    ensures var published := TempSensor.Published(Rounds(n, samples));
            && published.Some?
            && var d := published.value - TempSensor.Average(Degrees(samples[|samples| - n..]), n);
               -0.02 <= d <= 0.02
  {
    PublishesMeanOfLatest(n, samples);
    AveragesClose(n, samples[|samples| - n..]);
  }

  lemma AveragesClose(n: nat, samples: seq<Sample>)
    requires |samples| == n > 0 && AllGood(samples)
    ensures -0.02 <= TempSensor.Average(Parsed(samples), n) - TempSensor.Average(Degrees(samples), n) <= 0.02
  {
    SumsStayClose(samples);
    QuotientsClose(TempSensor.Sum(Parsed(samples)), TempSensor.Sum(Degrees(samples)), n as real);
  }

  lemma QuotientsClose(a: real, b: real, n: real)
    requires n > 0.0 && -0.02 * n <= a - b <= 0.02 * n
    ensures -0.02 <= a / n - b / n <= 0.02
  {
    var x := a / n - b / n;
    assert (a / n) * n == a && (b / n) * n == b;
    assert x * n == a - b;
    Cancel(-0.02, x, n);
    Cancel(x, 0.02, n);
  }

  lemma Cancel(x: real, y: real, n: real)
    requires n > 0.0 && x * n <= y * n
    ensures x <= y
  {
  }
}
