// Runs in which the slave stores new values between the three read accesses of
// a temperature, and what they read.
module TornRuns {
  import opened I2cBus
  import opened I2cSafety
  import opened I2cLinearizability
  import opened I2cReturn
  import opened Measurement

  // ----- Runs with changes between the accesses ----------------------------

  /** p has no call, and the bus is idle. */
  predicate Ready(s: State, p: nat) {
    (At(s, p) == Idle || At(s, p).Done?) && s.lock == Nobody && Rested(s.core)
  }

  /** From s to r only p has called. */
  ghost predicate Alone(s: State, r: State, p: nat) {
    Leads(s, r) && forall q :: q != p ==> At(r, q) == At(s, q)
  }

  lemma AloneOn(s: State, m: State, r: State, p: nat)
    requires Alone(s, m, p) && Alone(m, r, p)
    ensures Alone(s, r, p)
  {
    LeadsThrough(s, m, r);
  }

  /** A whole call of cotti_i2c_read that nothing disturbs, at its return and after it. */
  lemma ReadOnce(s: State, p: nat, reg: Byte, slave: Byte) returns (m: State, r: State)
    requires Ready(s, p)
    ensures Alone(s, m, p) && At(m, p) == Return(ReadCall(reg, slave), true)
    ensures m.core.slaves.log == s.core.slaves.log + [Read(slave, reg, m.core.gRead)]
    ensures Alone(m, r, p) && Ready(r, p) && r.core == m.core && m.lock == Nobody
  {
    m := UndisturbedRead(s, p, reg, slave);
    r := Returns(m, p, ReadCall(reg, slave));
  }

  // Registers with the values that the slave stores in them.
  type Stores = seq<(Byte, Byte)>

  function Stored(slave: Byte, stores: Stores): (log: seq<Entry>)
    ensures |log| == |stores|
  {
    if stores == [] then []
    else Stored(slave, stores[..|stores| - 1]) + [Measured(slave, stores[|stores| - 1].0, stores[|stores| - 1].1)]
  }

  /** The register files after the stores. */
  function After(regs: Registers, slave: Byte, stores: Stores): Registers {
    if stores == [] then regs
    else After(regs, slave, stores[..|stores| - 1])[(slave, stores[|stores| - 1].0) := stores[|stores| - 1].1]
  }

  lemma OneStore(s: State, p: nat, slave: Byte, reg: Byte, value: Byte) returns (r: State)
    requires Ready(s, p)
    ensures Alone(s, r, p) && Ready(r, p)
    ensures r.core.slaves.log == s.core.slaves.log + [Measured(slave, reg, value)]
  {
    LeadsNowhere(s);
    LeadsOn(s, s, OnBus(Measure(slave, reg, value)));
    r := Step(s, OnBus(Measure(slave, reg, value)));
  }

  lemma {:induction false} StoresAll(s: State, p: nat, slave: Byte, stores: Stores) returns (r: State)
    requires Ready(s, p)
    ensures Alone(s, r, p) && Ready(r, p)
    ensures r.core.slaves.log == s.core.slaves.log + Stored(slave, stores)
  {
    if stores == [] {
      LeadsNowhere(s);
      r := s;
      assert s.core.slaves.log + [] == s.core.slaves.log;
    } else {
      var last := stores[|stores| - 1];
      var m := StoresAll(s, p, slave, stores[..|stores| - 1]);
      r := OneStore(m, p, slave, last.0, last.1);
      AloneOn(s, m, r, p);
      assert (s.core.slaves.log + Stored(slave, stores[..|stores| - 1])) + [Measured(slave, last.0, last.1)]
          == s.core.slaves.log + Stored(slave, stores);
    }
  }

  /** The stores fall after the first access, or after the second. */
  function TornLog(slave: Byte, early: bool, stores: Stores, d1: Byte, d2: Byte, d3: Byte): (log: seq<Entry>)
    ensures |log| == |stores| + 3
  {
    var second := [Read(slave, TEMP_LSB, d2)];
    [Read(slave, TEMP_MSB, d1)]
    + (if early then Stored(slave, stores) + second else second + Stored(slave, stores))
    + [Read(slave, TEMP_XLSB, d3)]
  }

  lemma StoresAfter(s: State, m: State, p: nat, slave: Byte, stores: Stores) returns (r: State)
    requires Alone(s, m, p) && Ready(m, p)
    ensures Alone(s, r, p) && Ready(r, p)
    ensures r.core.slaves.log == m.core.slaves.log + Stored(slave, stores)
  {
    r := StoresAll(m, p, slave, stores);
    AloneOn(s, m, r, p);
  }

  /** s is the return of a read of p in a run from m, and r follows it. */
  ghost predicate ReturnedAt(m: State, s: State, p: nat, reg: Byte, slave: Byte, r: State) {
    && Alone(m, s, p) && At(s, p) == Return(ReadCall(reg, slave), true)
    && Alone(s, r, p) && Ready(r, p)
  }

  lemma FirstReturn(regs: Registers, p: nat, slave: Byte) returns (s1: State, r: State)
    ensures ReturnedAt(Initial(regs), s1, p, TEMP_MSB, slave, r)
    ensures s1.core.slaves.log == r.core.slaves.log == [Read(slave, TEMP_MSB, s1.core.gRead)]
  {
    s1, r := ReadOnce(Initial(regs), p, TEMP_MSB, slave);
  }

  /** The next read of p, whose last return was at s. */
  lemma NextReturn(s: State, m: State, p: nat, reg: Byte, slave: Byte) returns (t: State, r: State)
    requires Alone(s, m, p) && Ready(m, p)
    ensures ReturnedAt(s, t, p, reg, slave, r)
    ensures r.core.slaves.log == t.core.slaves.log == m.core.slaves.log + [Read(slave, reg, t.core.gRead)]
    ensures t.lock == Nobody
  {
    t, r := ReadOnce(m, p, reg, slave);
    AloneOn(s, m, t, p);
  }

  /** s1, s2 and s3 are the returns of three reads of p, one after the other. */
  ghost predicate ThreeReturns(regs: Registers, p: nat, slave: Byte, s1: State, s2: State, s3: State) {
    && Alone(Initial(regs), s1, p) && At(s1, p) == Return(ReadCall(TEMP_MSB, slave), true)
    && Alone(s1, s2, p) && At(s2, p) == Return(ReadCall(TEMP_LSB, slave), true)
    && Alone(s2, s3, p) && At(s3, p) == Return(ReadCall(TEMP_XLSB, slave), true)
  }

  lemma EarlyLog(log: seq<Entry>, slave: Byte, stores: Stores, d1: Byte, d2: Byte, d3: Byte)
    requires log == (([Read(slave, TEMP_MSB, d1)] + Stored(slave, stores))
                     + [Read(slave, TEMP_LSB, d2)]) + [Read(slave, TEMP_XLSB, d3)]
    ensures log == TornLog(slave, true, stores, d1, d2, d3)
  {
  }

  lemma LateLog(log: seq<Entry>, slave: Byte, stores: Stores, d1: Byte, d2: Byte, d3: Byte)
    requires log == (([Read(slave, TEMP_MSB, d1)] + [Read(slave, TEMP_LSB, d2)])
                     + Stored(slave, stores)) + [Read(slave, TEMP_XLSB, d3)]
    ensures log == TornLog(slave, false, stores, d1, d2, d3)
  {
  }

  lemma EarlyRun(regs: Registers, p: nat, slave: Byte, stores: Stores) returns (s1: State, s2: State, s3: State)
    ensures ThreeReturns(regs, p, slave, s1, s2, s3)
    ensures s1.core.slaves.log == [Read(slave, TEMP_MSB, s1.core.gRead)]
    ensures s3.core.slaves.log == TornLog(slave, true, stores, s1.core.gRead, s2.core.gRead, s3.core.gRead)
    ensures s3.lock == Nobody
  {
    var r;
    s1, r := FirstReturn(regs, p, slave);
    r := StoresAfter(s1, r, p, slave, stores);
    s2, r := NextReturn(s1, r, p, TEMP_LSB, slave);
    s3, r := NextReturn(s2, r, p, TEMP_XLSB, slave);
    EarlyLog(s3.core.slaves.log, slave, stores, s1.core.gRead, s2.core.gRead, s3.core.gRead);
  }

  lemma LateRun(regs: Registers, p: nat, slave: Byte, stores: Stores) returns (s1: State, s2: State, s3: State)
    ensures ThreeReturns(regs, p, slave, s1, s2, s3)
    ensures s1.core.slaves.log == [Read(slave, TEMP_MSB, s1.core.gRead)]
    ensures s3.core.slaves.log == TornLog(slave, false, stores, s1.core.gRead, s2.core.gRead, s3.core.gRead)
    ensures s3.lock == Nobody
  {
    var r;
    s1, r := FirstReturn(regs, p, slave);
    s2, r := NextReturn(s1, r, p, TEMP_LSB, slave);
    r := StoresAfter(s2, r, p, slave, stores);
    s3, r := NextReturn(s2, r, p, TEMP_XLSB, slave);
    LateLog(s3.core.slaves.log, slave, stores, s1.core.gRead, s2.core.gRead, s3.core.gRead);
  }

  lemma TornRun(regs: Registers, p: nat, slave: Byte, early: bool, stores: Stores)
    returns (s1: State, s2: State, s3: State)
    ensures ThreeReturns(regs, p, slave, s1, s2, s3)
    ensures s1.core.slaves.log == [Read(slave, TEMP_MSB, s1.core.gRead)]
    ensures s3.core.slaves.log == TornLog(slave, early, stores, s1.core.gRead, s2.core.gRead, s3.core.gRead)
    ensures s3.lock == Nobody
  {
    if early {
      s1, s2, s3 := EarlyRun(regs, p, slave, stores);
    } else {
      s1, s2, s3 := LateRun(regs, p, slave, stores);
    }
  }

  lemma ReturnsAreReachable(regs: Registers, p: nat, slave: Byte, s1: State, s2: State, s3: State)
    requires ThreeReturns(regs, p, slave, s1, s2, s3)
    ensures Reachable(regs, s1) && Reachable(regs, s2) && Reachable(regs, s3)
  {
    InitialReachable(regs);
    LeadsIsReachable(regs, Initial(regs), s1);
    LeadsIsReachable(regs, s1, s2);
    LeadsIsReachable(regs, s2, s3);
  }

  // ----- What such a run reads, and what was held --------------------------

  lemma {:induction false} ReplayStored(regs: Registers, log: seq<Entry>, slave: Byte, stores: Stores)
    ensures Replay(regs, log + Stored(slave, stores)) == After(Replay(regs, log), slave, stores)
  {
    if stores == [] {
      assert log + [] == log;
    } else {
      var before, last := stores[..|stores| - 1], stores[|stores| - 1];
      ReplayStored(regs, log, slave, before);
      LogOne(regs, log + Stored(slave, before), Measured(slave, last.0, last.1));
      assert log + Stored(slave, stores) == (log + Stored(slave, before)) + [Measured(slave, last.0, last.1)];
    }
  }

  lemma {:induction false} StoredPrefix(slave: Byte, stores: Stores, k: nat)
    requires k <= |stores|
    ensures Stored(slave, stores)[..k] == Stored(slave, stores[..k])
  {
    if k < |stores| {
      StoredPrefix(slave, stores[..|stores| - 1], k);
      assert stores[..|stores| - 1][..k] == stores[..k];
    } else {
      assert stores[..k] == stores;
    }
  }

  /** The registers after reads, some stores and reads. */
  lemma ReplayAround(regs: Registers, first: seq<Entry>, slave: Byte, stores: Stores, last: seq<Entry>, n: nat)
    returns (k: nat)
    requires AllReads(first) && AllReads(last) && n <= |first| + |stores| + |last|
    ensures k <= |stores|
    ensures Replay(regs, (first + Stored(slave, stores) + last)[..n]) == After(regs, slave, stores[..k])
    ensures n <= |first| ==> k == 0
    ensures n >= |first| + |stores| ==> k == |stores|
  {
    var log := first + Stored(slave, stores) + last;
    if n <= |first| {
      k := 0;
      assert log[..n] == first[..n];
      ReadsLeave(regs, [], first[..n]);
      assert [] + first[..n] == first[..n];
    } else {
      k := if n <= |first| + |stores| then n - |first| else |stores|;
      var rest := last[..n - |first| - k];
      StoredPrefix(slave, stores, k);
      assert log[..n] == (first + Stored(slave, stores[..k])) + rest;
      ReadsLeave(regs, [], first);
      assert [] + first == first;
      ReplayStored(regs, first, slave, stores[..k]);
      ReadsLeave(regs, first + Stored(slave, stores[..k]), rest);
    }
    assert stores[..|stores|] == stores;
  }

  predicate AllReads(log: seq<Entry>) {
    forall n :: 0 <= n < |log| ==> log[n].Read?
  }

  lemma {:induction false} ReadsLeave(regs: Registers, log: seq<Entry>, more: seq<Entry>)
    requires AllReads(more)
    ensures Replay(regs, log + more) == Replay(regs, log)
  {
    if more == [] {
      assert log + [] == log;
    } else {
      var before := more[..|more| - 1];
      ReadsLeave(regs, log, before);
      LogOne(regs, log + before, more[|more| - 1]);
      assert log + more == (log + before) + [more[|more| - 1]];
    }
  }

  /** Where the three accesses of a torn run stand in its log. */
  function SecondAt(early: bool, stores: Stores): nat {
    if early then 1 + |stores| else 1
  }

  /** At every position the slave holds what some first stores have left; at each access we know which. */
  lemma TornReplay(regs: Registers, slave: Byte, early: bool, stores: Stores, d1: Byte, d2: Byte, d3: Byte, n: nat)
    returns (k: nat)
    requires n <= |stores| + 3
    ensures k <= |stores|
    ensures Replay(regs, TornLog(slave, early, stores, d1, d2, d3)[..n]) == After(regs, slave, stores[..k])
    ensures n <= 1 ==> k == 0
    ensures n == 1 + |stores| && early ==> k == |stores|
    ensures n == 1 && !early ==> k == 0
    ensures n >= 2 + |stores| ==> k == |stores|
  {
    var log := TornLog(slave, early, stores, d1, d2, d3);
    var r1, r2, r3 := [Read(slave, TEMP_MSB, d1)], [Read(slave, TEMP_LSB, d2)], [Read(slave, TEMP_XLSB, d3)];
    if early {
      assert log == r1 + Stored(slave, stores) + (r2 + r3);
      k := ReplayAround(regs, r1, slave, stores, r2 + r3, n);
    } else {
      assert log == (r1 + r2) + Stored(slave, stores) + r3;
      k := ReplayAround(regs, r1 + r2, slave, stores, r3, n);
    }
  }

  /** The three bytes of a torn run. */
  lemma TornBytes(regs: Registers, slave: Byte, early: bool, stores: Stores, d1: Byte, d2: Byte, d3: Byte)
    requires Legal(regs, TornLog(slave, early, stores, d1, d2, d3))
    ensures ThreeReads(TornLog(slave, early, stores, d1, d2, d3), 0, SecondAt(early, stores), |stores| + 2, slave)
    ensures d1 == Register(regs, slave, TEMP_MSB)
    ensures d2 == Register(if early then After(regs, slave, stores) else regs, slave, TEMP_LSB)
    ensures d3 == Register(After(regs, slave, stores), slave, TEMP_XLSB)
  {
    var log, j := TornLog(slave, early, stores, d1, d2, d3), SecondAt(early, stores);
    assert log[0] == Read(slave, TEMP_MSB, d1);
    assert log[j] == Read(slave, TEMP_LSB, d2);
    assert log[|stores| + 2] == Read(slave, TEMP_XLSB, d3);
    assert stores[..|stores|] == stores && stores[..0] == [];
    LegalRead(regs, log, 0);
    LegalRead(regs, log, j);
    LegalRead(regs, log, |stores| + 2);
    var k := TornReplay(regs, slave, early, stores, d1, d2, d3, 0);
    k := TornReplay(regs, slave, early, stores, d1, d2, d3, j);
    k := TornReplay(regs, slave, early, stores, d1, d2, d3, |stores| + 2);
  }

  /** Only the stored registers change. */
  predicate StoresOnly(stores: Stores, changing: set<Byte>) {
    forall n :: 0 <= n < |stores| ==> stores[n].0 in changing
  }

  lemma {:induction false} StoredAt(slave: Byte, stores: Stores, n: nat)
    requires n < |stores|
    ensures Stored(slave, stores)[n] == Measured(slave, stores[n].0, stores[n].1)
  {
    if n < |stores| - 1 {
      StoredAt(slave, stores[..|stores| - 1], n);
    }
  }

  lemma TornChanges(slave: Byte, early: bool, stores: Stores, d1: Byte, d2: Byte, d3: Byte, changing: set<Byte>)
    requires StoresOnly(stores, changing)
    ensures OnlyChanging(TornLog(slave, early, stores, d1, d2, d3), slave, changing)
  {
    var log, start := TornLog(slave, early, stores, d1, d2, d3), if early then 1 else 2;
    forall n | 0 <= n < |log| && !log[n].Read? ensures log[n].reg in changing {
      assert log[n] == Stored(slave, stores)[n - start];
      StoredAt(slave, stores, n - start);
    }
  }
}
