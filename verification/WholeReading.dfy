// Exactly when the three bytes of a temperature belong together: for three read
// accesses on the bus, and for what three calls of cotti_i2c_read return.
module WholeReading {
  import opened I2cBus
  import opened I2cSafety
  import opened I2cLinearizability
  import opened I2cReturn
  import opened I2cReaders
  import opened Measurement
  import opened TornRuns

  // ----- Three accesses ----------------------------------------------------

  /** The three bytes of a torn run, its log and what was held. */
  lemma TornReading(regs: Registers, p: nat, slave: Byte, early: bool, stores: Stores, changing: set<Byte>)
    returns (s1: State, s2: State, s3: State)
    requires StoresOnly(stores, changing)
    ensures ThreeReturns(regs, p, slave, s1, s2, s3) && Reachable(regs, s3) && s3.lock == Nobody
    ensures s1.core.slaves.log == [Read(slave, TEMP_MSB, s1.core.gRead)]
    ensures OnlyChanging(s3.core.slaves.log, slave, changing)
    ensures s3.core.slaves.log == TornLog(slave, early, stores, s1.core.gRead, s2.core.gRead, s3.core.gRead)
    ensures ThreeReads(s3.core.slaves.log, 0, SecondAt(early, stores), |stores| + 2, slave)
    ensures s1.core.gRead == Register(regs, slave, TEMP_MSB)
    ensures s2.core.gRead == Register(if early then After(regs, slave, stores) else regs, slave, TEMP_LSB)
    ensures s3.core.gRead == Register(After(regs, slave, stores), slave, TEMP_XLSB)
  {
    s1, s2, s3 := TornRun(regs, p, slave, early, stores);
    ReturnsAreReachable(regs, p, slave, s1, s2, s3);
    ReachableInv(regs, s3);
    TornBytes(regs, slave, early, stores, s1.core.gRead, s2.core.gRead, s3.core.gRead);
    TornChanges(slave, early, stores, s1.core.gRead, s2.core.gRead, s3.core.gRead, changing);
  }

  lemma BytesOfTornLog(slave: Byte, early: bool, stores: Stores, d1: Byte, d2: Byte, d3: Byte)
    ensures RawRead(TornLog(slave, early, stores, d1, d2, d3), 0, SecondAt(early, stores), |stores| + 2) == Raw(d1, d2, d3)
  {
  }

  /** A change of a lower register alone already tears a reading. */
  lemma NotWhole(p: nat, slave: Byte, changing: set<Byte>, reg: Byte) returns (s1: State, s2: State, s3: State)
    requires reg in changing && (reg == TEMP_LSB || reg == TEMP_XLSB)
    ensures ThreeReturns(map[], p, slave, s1, s2, s3)
    ensures Reachable(map[], s3) && OnlyChanging(s3.core.slaves.log, slave, changing)
    ensures s1.core.slaves.log == [Read(slave, TEMP_MSB, s1.core.gRead)]
    ensures ThreeReads(s3.core.slaves.log, 0, 2, 3, slave)
    ensures RawRead(s3.core.slaves.log, 0, 2, 3) == Raw(s1.core.gRead, s2.core.gRead, s3.core.gRead)
    ensures RawRead(s3.core.slaves.log, 0, 2, 3) != HeldAt(map[], s3.core.slaves.log, 0, slave)
  {
    var stores := [(reg, 16 as Byte)];
    assert stores[..0] == [];
    assert After(map[], slave, stores) == map[(slave, reg) := 16];
    s1, s2, s3 := TornReading(map[], p, slave, true, stores, changing);
    BytesOfTornLog(slave, true, stores, s1.core.gRead, s2.core.gRead, s3.core.gRead);
  }

  /**
   * Three accesses always give the reading that the slave held at the first
   * exactly when neither of the lower registers ever changes.
   */
  lemma WholeExactlyWhen(slave: Byte, changing: set<Byte>)
    ensures AlwaysWhole(slave, changing) <==> TEMP_LSB !in changing && TEMP_XLSB !in changing
  {
    if reg :| reg in changing && (reg == TEMP_LSB || reg == TEMP_XLSB) {
      var s1, s2, s3 := NotWhole(0, slave, changing, reg);
    } else {
      forall regs: Registers, s: State, i: nat, j: nat, k: nat
        | Reachable(regs, s) && OnlyChanging(s.core.slaves.log, slave, changing) && ThreeReads(s.core.slaves.log, i, j, k, slave)
        ensures RawRead(s.core.slaves.log, i, j, k) == HeldAt(regs, s.core.slaves.log, i, slave)
      {
        NeverChanging(s.core.slaves.log, slave, changing, TEMP_LSB);
        NeverChanging(s.core.slaves.log, slave, changing, TEMP_XLSB);
        BytesOfOneMeasurement(regs, s, i, j, k, slave);
      }
    }
  }

  // ----- A reading held at some time ---------------------------------------

  /** At most one of the three registers may change. */
  predicate AtMostOneChanges(changing: set<Byte>) {
    && !(TEMP_MSB in changing && TEMP_LSB in changing)
    && !(TEMP_MSB in changing && TEMP_XLSB in changing)
    && !(TEMP_LSB in changing && TEMP_XLSB in changing)
  }

  lemma OneChangeIsHeld(regs: Registers, log: seq<Entry>, i: nat, j: nat, k: nat, slave: Byte, changing: set<Byte>)
    requires Legal(regs, log) && OnlyChanging(log, slave, changing) && ThreeReads(log, i, j, k, slave)
    requires AtMostOneChanges(changing)
    ensures EverHeld(regs, log, i, j, k, slave)
  {
    var n := if TEMP_LSB in changing then j else if TEMP_XLSB in changing then k else i;
    if TEMP_MSB !in changing {
      NeverChanging(log, slave, changing, TEMP_MSB);
    }
    if TEMP_LSB !in changing {
      NeverChanging(log, slave, changing, TEMP_LSB);
    }
    if TEMP_XLSB !in changing {
      NeverChanging(log, slave, changing, TEMP_XLSB);
    }
    BytesHeldAt(regs, log, i, j, k, n, slave);
  }

  /** Two stores leave three states of the registers. */
  lemma HeldInTornRun(slave: Byte, early: bool, a: (Byte, Byte), b: (Byte, Byte), d1: Byte, d2: Byte, d3: Byte, n: nat)
    requires n <= 5
    ensures HeldAt(map[], TornLog(slave, early, [a, b], d1, d2, d3), n, slave)
         in {0, RawOf(map[(slave, a.0) := a.1], slave), RawOf(map[(slave, a.0) := a.1][(slave, b.0) := b.1], slave)}
  {
    var stores := [a, b];
    var k := TornReplay(map[], slave, early, stores, d1, d2, d3, n);
    TwoStores(slave, a, b, k);
  }

  lemma TwoStores(slave: Byte, a: (Byte, Byte), b: (Byte, Byte), k: nat)
    requires k <= 2
    ensures After(map[], slave, [a, b][..k])
         == if k == 0 then map[] else if k == 1 then map[(slave, a.0) := a.1] else map[(slave, a.0) := a.1][(slave, b.0) := b.1]
  {
    assert [a, b][..0] == [] && [a, b][..1] == [a] && [a, b][..2] == [a, b];
    assert [a][..0] == [] && After(map[], slave, [a]) == map[(slave, a.0) := a.1];
  }

  predicate InOrder(x: Byte, y: Byte) {
    (x, y) in {(TEMP_MSB, TEMP_LSB), (TEMP_MSB, TEMP_XLSB), (TEMP_LSB, TEMP_XLSB)}
  }

  function Sixteen(stored: bool): Byte {
    if stored then 16 else 0
  }

  lemma HeldAfterOne(slave: Byte, x: Byte)
    ensures RawOf(map[(slave, x) := 16], slave)
         == Raw(Sixteen(x == TEMP_MSB), Sixteen(x == TEMP_LSB), Sixteen(x == TEMP_XLSB))
  {
  }

  lemma HeldAfterTwo(slave: Byte, x: Byte, y: Byte)
    ensures RawOf(map[(slave, x) := 16][(slave, y) := 16], slave)
         == Raw(Sixteen(TEMP_MSB == x || TEMP_MSB == y), Sixteen(TEMP_LSB == x || TEMP_LSB == y), Sixteen(TEMP_XLSB == x || TEMP_XLSB == y))
  {
  }

  /** What a run with two stores reads is none of its three states. */
  lemma NoneOfThree(slave: Byte, x: Byte, y: Byte, d2: Byte, d3: Byte)
    requires InOrder(x, y)
    requires d2 == Sixteen(x == TEMP_MSB && y == TEMP_LSB) && d3 == Sixteen(y == TEMP_XLSB)
    ensures Raw(0, d2, d3)
        !in {0, RawOf(map[(slave, x) := 16], slave), RawOf(map[(slave, x) := 16][(slave, y) := 16], slave)}
  {
    HeldAfterOne(slave, x);
    HeldAfterTwo(slave, x, y);
    SixReadings();
    if x == TEMP_LSB {
      assert Raw(0, d2, d3) == 1;
    } else if y == TEMP_LSB {
      assert Raw(0, d2, d3) == 256;
    } else {
      assert Raw(0, d2, d3) == 1;
    }
  }

  lemma SixReadings()
    ensures Raw(0, 16, 0) == 256 && Raw(0, 0, 16) == 1 && Raw(16, 0, 0) == 65536
    ensures Raw(16, 16, 0) == 65792 && Raw(16, 0, 16) == 65537 && Raw(0, 16, 16) == 257
  {
  }

  lemma AfterTwo(slave: Byte, x: Byte, y: Byte)
    ensures After(map[], slave, [(x, 16 as Byte), (y, 16 as Byte)]) == map[(slave, x) := 16][(slave, y) := 16]
  {
    TwoStores(slave, (x, 16), (y, 16), 2);
    assert [(x, 16 as Byte), (y, 16 as Byte)][..2] == [(x, 16 as Byte), (y, 16 as Byte)];
  }

  lemma LowerAfterTwo(slave: Byte, x: Byte, y: Byte)
    requires InOrder(x, y)
    ensures var m: Registers := map[(slave, x) := 16][(slave, y) := 16];
            && Register(m, slave, TEMP_LSB) == Sixteen(TEMP_LSB == x || TEMP_LSB == y)
            && Register(m, slave, TEMP_XLSB) == Sixteen(TEMP_XLSB == y)
            && Register(map[], slave, TEMP_LSB) == Register(map[], slave, TEMP_MSB) == 0
  {
  }

  /** Two registers that change make a reading that was never held. */
  lemma NeverHeld(slave: Byte, changing: set<Byte>, x: Byte, y: Byte) returns (s: State, j: nat)
    requires x in changing && y in changing && InOrder(x, y)
    ensures Reachable(map[], s) && OnlyChanging(s.core.slaves.log, slave, changing)
    ensures ThreeReads(s.core.slaves.log, 0, j, 4, slave) && !EverHeld(map[], s.core.slaves.log, 0, j, 4, slave)
  {
    var a, b, early := (x, 16 as Byte), (y, 16 as Byte), x == TEMP_MSB;
    var s1, s2, s3 := TornReading(map[], 0, slave, early, [a, b], changing);
    s, j := s3, SecondAt(early, [a, b]);
    AfterTwo(slave, x, y);
    LowerAfterTwo(slave, x, y);
    NoneOfThree(slave, x, y, s2.core.gRead, s3.core.gRead);
    TornLogNeverHeld(s.core.slaves.log, slave, early, x, y, s2.core.gRead, s3.core.gRead);
  }

  lemma TornLogNeverHeld(log: seq<Entry>, slave: Byte, early: bool, x: Byte, y: Byte, d2: Byte, d3: Byte)
    requires log == TornLog(slave, early, [(x, 16 as Byte), (y, 16 as Byte)], 0, d2, d3)
    requires Raw(0, d2, d3)
        !in {0, RawOf(map[(slave, x) := 16], slave), RawOf(map[(slave, x) := 16][(slave, y) := 16], slave)}
    ensures !EverHeld(map[], log, 0, if early then 3 else 1, 4, slave)
  {
    BytesOfTornLog(slave, early, [(x, 16 as Byte), (y, 16 as Byte)], 0, d2, d3);
    forall n | 0 <= n <= 4 ensures HeldAt(map[], log, n, slave) != Raw(0, d2, d3) {
      HeldInTornRun(slave, early, (x, 16), (y, 16), 0, d2, d3, n);
    }
  }

  /**
   * Three accesses always give a reading that the slave has held at some time
   * in between exactly when at most one of the three registers ever changes.
   */
  lemma HeldExactlyWhen(slave: Byte, changing: set<Byte>)
    ensures AlwaysHeld(slave, changing) <==> AtMostOneChanges(changing)
  {
    if AtMostOneChanges(changing) {
      forall regs: Registers, s: State, i: nat, j: nat, k: nat
        | Reachable(regs, s) && OnlyChanging(s.core.slaves.log, slave, changing) && ThreeReads(s.core.slaves.log, i, j, k, slave)
        ensures EverHeld(regs, s.core.slaves.log, i, j, k, slave)
      {
        ReachableInv(regs, s);
        OneChangeIsHeld(regs, s.core.slaves.log, i, j, k, slave, changing);
      }
    } else {
      var x, y := if TEMP_MSB in changing then TEMP_MSB else TEMP_LSB,
                  if TEMP_MSB in changing && TEMP_LSB in changing then TEMP_LSB else TEMP_XLSB;
      var s, j := NeverHeld(slave, changing, x, y);
    }
  }

  // ----- Any two successive readings ---------------------------------------

  lemma {:induction false} StoredIsNoBusOp(log: seq<Entry>, slave: Byte, stores: Stores)
    ensures BusOps(log + Stored(slave, stores)) == BusOps(log)
  {
    if stores == [] {
      assert log + [] == log;
    } else {
      var before, last := stores[..|stores| - 1], stores[|stores| - 1];
      StoredIsNoBusOp(log, slave, before);
      BusOpsAppend(log + Stored(slave, before), Measured(slave, last.0, last.1));
      assert log + Stored(slave, stores) == (log + Stored(slave, before)) + [Measured(slave, last.0, last.1)];
    }
  }

  lemma TornBusOps(slave: Byte, stores: Stores, d1: Byte, d2: Byte, d3: Byte)
    ensures BusOps(TornLog(slave, true, stores, d1, d2, d3))
         == [Read(slave, TEMP_MSB, d1), Read(slave, TEMP_LSB, d2), Read(slave, TEMP_XLSB, d3)]
  {
    var r1, r2, r3 := Read(slave, TEMP_MSB, d1), Read(slave, TEMP_LSB, d2), Read(slave, TEMP_XLSB, d3);
    var l1 := [r1] + Stored(slave, stores);
    var l2 := l1 + [r2];
    assert BusOps(l1) == [r1] by {
      OneBusOp(r1);
      StoredIsNoBusOp([r1], slave, stores);
    }
    assert BusOps(l2) == [r1] + [r2] by {
      BusOpsAppend(l1, r2);
    }
    assert BusOps(l2 + [r3]) == [r1] + [r2] + [r3] by {
      BusOpsAppend(l2, r3);
    }
    assert TornLog(slave, true, stores, d1, d2, d3) == l2 + [r3];
  }

  /** A whole measurement. */
  function Measured3(d1: Byte, d2: Byte, d3: Byte): Stores {
    [(TEMP_MSB, d1), (TEMP_LSB, d2), (TEMP_XLSB, d3)]
  }

  lemma AfterMeasured3(regs: Registers, slave: Byte, d1: Byte, d2: Byte, d3: Byte)
    ensures var after := After(regs, slave, Measured3(d1, d2, d3));
            && Register(after, slave, TEMP_MSB) == d1
            && Register(after, slave, TEMP_LSB) == d2
            && Register(after, slave, TEMP_XLSB) == d3
  {
    var first, second, third := (TEMP_MSB, d1), (TEMP_LSB, d2), (TEMP_XLSB, d3);
    OneMoreStore(regs, slave, [], first);
    OneMoreStore(regs, slave, [first], second);
    OneMoreStore(regs, slave, [first, second], third);
    assert [] + [first] == [first] && [first] + [second] == [first, second];
    assert [first, second] + [third] == Measured3(d1, d2, d3);
  }

  lemma OneMoreStore(regs: Registers, slave: Byte, stores: Stores, last: (Byte, Byte))
    ensures After(regs, slave, stores + [last]) == After(regs, slave, stores)[(slave, last.0) := last.1]
  {
    assert (stores + [last])[..|stores|] == stores;
  }

  lemma RegistersOfLog(regs: Registers, s: State, slave: Byte, stores: Stores, d1: Byte, d2: Byte, d3: Byte)
    requires Reachable(regs, s) && s.core.slaves.log == TornLog(slave, true, stores, d1, d2, d3)
    ensures s.core.slaves.regs == After(regs, slave, stores)
  {
    ReachableInv(regs, s);
    var k := TornReplay(regs, slave, true, stores, d1, d2, d3, |stores| + 3);
    assert stores[..|stores|] == stores;
    assert s.core.slaves.log[..|stores| + 3] == s.core.slaves.log;
  }

  /**
   * For any reading that the slave holds and any next one there is a run in
   * which the driver takes the first byte of the one and the others of the
   * next.
   */
  lemma ReadingCanBeTorn(regs: Registers, p: nat, slave: Byte, d1: Byte, d2: Byte, d3: Byte) returns (s: State)
    ensures Reachable(regs, s)
    ensures s.history == [Read(slave, TEMP_MSB, Register(regs, slave, TEMP_MSB)),
                          Read(slave, TEMP_LSB, d2), Read(slave, TEMP_XLSB, d3)]
    ensures RawOf(s.core.slaves.regs, slave) == Raw(d1, d2, d3)
    ensures ThreeReads(s.core.slaves.log, 0, 4, 5, slave)
    ensures RawRead(s.core.slaves.log, 0, 4, 5) == Raw(Register(regs, slave, TEMP_MSB), d2, d3)
    ensures HeldAt(regs, s.core.slaves.log, 0, slave) == RawOf(regs, slave)
  {
    var stores := Measured3(d1, d2, d3);
    var s1, s2, s3 := TornReading(regs, p, slave, true, stores, {TEMP_MSB, TEMP_LSB, TEMP_XLSB});
    s := s3;
    AfterMeasured3(regs, slave, d1, d2, d3);
    BytesOfTornLog(slave, true, stores, s1.core.gRead, d2, d3);
    TornBusOps(slave, stores, s1.core.gRead, d2, d3);
    RegistersOfLog(regs, s, slave, stores, s1.core.gRead, d2, d3);
    Linearizes(regs, s);
  }

  /**
   * From 0x7FFFF to 0x80000, the smallest step there is: a run on which the
   * driver takes a reading 4095 steps below the one and 4096 below the other.
   */
  lemma TornReadingIsFarOff(p: nat, slave: Byte) returns (regs: Registers, s: State)
    ensures Reachable(regs, s) && ThreeReads(s.core.slaves.log, 0, 4, 5, slave)
    ensures HeldAt(regs, s.core.slaves.log, 0, slave) == 0x7FFFF && RawOf(s.core.slaves.regs, slave) == 0x80000
    ensures RawRead(s.core.slaves.log, 0, 4, 5) == 0x7FFFF - 4095 == 0x80000 - 4096
  {
    regs := map[(slave, TEMP_MSB) := 0x7F, (slave, TEMP_LSB) := 0xFF, (slave, TEMP_XLSB) := 0xF0];
    s := ReadingCanBeTorn(regs, p, slave, 0x80, 0x00, 0x00);
  }

  // ----- What three calls return -------------------------------------------

  /** From m to r nobody but p reads; anybody may write. */
  ghost predicate OneReader(m: State, r: State, p: nat) {
    exists actions :: TimeoutFree(actions) && OnlyReaders(actions, {p}) && r == Run(m, actions)
  }

  lemma OneReaderOn(s: State, m: State, r: State, p: nat)
    requires OneReader(s, m, p) && OneReader(m, r, p)
    ensures OneReader(s, r, p)
  {
    var a :| TimeoutFree(a) && OnlyReaders(a, {p}) && m == Run(s, a);
    var b :| TimeoutFree(b) && OnlyReaders(b, {p}) && r == Run(m, b);
    RunConcat(s, a, b);
    assert TimeoutFree(a + b) && OnlyReaders(a + b, {p}) && r == Run(s, a + b);
  }

  /** The position of the last read access. */
  function LastReadAt(log: seq<Entry>): (n: int)
    ensures -1 <= n < |log| && (n >= 0 ==> log[n].Read?)
    ensures forall k :: n < k < |log| ==> !log[k].Read?
  {
    if log == [] then -1
    else if log[|log| - 1].Read? then |log| - 1
    else LastReadAt(log[..|log| - 1])
  }

  lemma LastReadGrows(log: seq<Entry>, longer: seq<Entry>)
    requires log <= longer
    ensures LastReadAt(log) <= LastReadAt(longer)
  {
    var n := LastReadAt(log);
    if n >= 0 {
      assert longer[n] == log[n];
    }
  }

  lemma {:induction false} LastBusOpIsLastRead(log: seq<Entry>, e: Entry)
    requires BusOps(log) != [] && BusOps(log)[|BusOps(log)| - 1] == e && e.Read?
    ensures LastReadAt(log) >= 0 && log[LastReadAt(log)] == e
  {
    if log[|log| - 1].Measured? {
      LastBusOpIsLastRead(log[..|log| - 1], e);
    }
  }

  /** The slaves' log only grows. */
  lemma LogGrows(s: State, a: Action)
    ensures s.core.slaves.log <= Step(s, a).core.slaves.log
  {
    match a {
      case Caller(p, next) => CallersLeaveSlaves(s, p, next);
      case Timeout(p) =>
      case Interrupt => InterruptLeavesSlaves(s.core);
      case OnBus(e) =>
    }
  }

  lemma {:induction false} LogGrowsOn(s: State, actions: seq<Action>)
    ensures s.core.slaves.log <= Run(s, actions).core.slaves.log
  {
    if actions != [] {
      LogGrowsOn(s, actions[..|actions| - 1]);
      LogGrows(Run(s, actions[..|actions| - 1]), actions[|actions| - 1]);
    }
  }

  /** A byte is only received for the holder of the mutex. */
  lemma ReceivesForHolder(s: State)
    requires Inv(s) && s.core.active && !s.core.tx && s.core.moved < s.core.total
    ensures s.lock.Holds? && Reads(At(s, s.lock.p)) && !At(s, s.lock.p).Return?
  {
    assert s.lock.Holds?;
    assert Phase(s.core, At(s, s.lock.p), s.history);
  }

  /** The log is the same, or one entry longer that is no read. */
  predicate NoReadAdded(log: seq<Entry>, longer: seq<Entry>) {
    longer == log || (|longer| == |log| + 1 && longer[..|log|] == log && !longer[|log|].Read?)
  }

  lemma NoReadByBus(c: Core, e: Bus)
    requires e.Receive? ==> !(c.active && !c.tx && c.moved < c.total)
    ensures NoReadAdded(c.slaves.log, BusStep(c, e).slaves.log)
  {
  }

  lemma NoReadMeanwhile(s: State, a: Action, p: nat)
    requires Inv(s) && Returning(s, p) && !a.Timeout?
    requires forall q :: Reads(At(s, q)) ==> q == p
    ensures NoReadAdded(s.core.slaves.log, Step(s, a).core.slaves.log)
  {
    match a {
      case Caller(q, next) => CallersLeaveSlaves(s, q, next);
      case Interrupt => InterruptLeavesSlaves(s.core);
      case OnBus(e) =>
        if s.core.active && !s.core.tx && s.core.moved < s.core.total {
          ReceivesForHolder(s);
          assert false;
        }
        NoReadByBus(s.core, e);
    }
  }

  lemma SameLastRead(log: seq<Entry>, longer: seq<Entry>)
    requires NoReadAdded(log, longer)
    ensures LastReadAt(longer) == LastReadAt(log)
    ensures LastReadAt(log) >= 0 ==> longer[LastReadAt(log)] == log[LastReadAt(log)]
  {
  }

  /** When the only reader returns, the last read access on the bus is its own, with the value it returns. */
  lemma {:induction false} LastReadIsOwn(regs: Registers, actions: seq<Action>, p: nat)
    requires TimeoutFree(actions) && OnlyReaders(actions, {p})
    requires Returning(Run(Initial(regs), actions), p)
    ensures var s := Run(Initial(regs), actions);
            var log, call := s.core.slaves.log, At(s, p).call;
            LastReadAt(log) >= 0 && log[LastReadAt(log)] == Read(call.slave, call.reg, s.core.gRead)
  {
    var before, a := actions[..|actions| - 1], actions[|actions| - 1];
    var s := Run(Initial(regs), before);
    if a.Caller? && a.p == p {
      ComesFromUnlock(s, p, a.next);
      assert Reachable(regs, s);
      UnlocksLastRead(regs, s, p, a.next);
    } else {
      StaysPut(s, a, p);
      LastReadIsOwn(regs, before, p);
      OnlyOneReads(regs, before, {p}, p);
      NoReadMeanwhile(s, a, p);
      NothingFetchedMeanwhile(s, a, p);
      SameLastRead(s.core.slaves.log, Step(s, a).core.slaves.log);
    }
  }

  lemma UnlocksLastRead(regs: Registers, s: State, p: nat, next: Call)
    requires Reachable(regs, s) && At(s, p).Unlock? && At(s, p).call.ReadCall?
    ensures var r := CallerStep(s, p, next);
            var log, call := r.core.slaves.log, At(s, p).call;
            && LastReadAt(log) >= 0 && log[LastReadAt(log)] == Read(call.slave, call.reg, r.core.gRead)
            && At(r, p).Return? && At(r, p).call == call
  {
    UnlockSeesItsOwnAccess(regs, s, p);
    LastBusOpIsLastRead(s.core.slaves.log, Effect(At(s, p).call, s.core));
  }

  /** s1, s2 and s3 are three returns of p, which reads the three registers in order, with writers and the slave at work. */
  ghost predicate ThreeCalls(regs: Registers, p: nat, slave: Byte, s1: State, s2: State, s3: State) {
    && OneReader(Initial(regs), s1, p) && At(s1, p) == Return(ReadCall(TEMP_MSB, slave), true)
    && OneReader(s1, s2, p) && At(s2, p) == Return(ReadCall(TEMP_LSB, slave), true)
    && OneReader(s2, s3, p) && At(s3, p) == Return(ReadCall(TEMP_XLSB, slave), true)
  }

  /** What a call returns whose caller stands at its return. */
  function Returned(s: State, p: nat): int {
    var pc := At(CallerStep(s, p, ReadCall(0, 0)), p);
    if pc.Done? then pc.result else -1
  }

  lemma ReturnedIs(s: State, p: nat)
    requires Returning(s, p)
    ensures Returned(s, p) == s.core.gRead
  {
    ReturnGives(s, p, ReadCall(0, 0));
  }

  /** The reading that the slave held at the access of the first call. */
  function HeldAtLastRead(regs: Registers, s: State, slave: Byte): int {
    var n := LastReadAt(s.core.slaves.log);
    HeldAt(regs, s.core.slaves.log, if n >= 0 then n else 0, slave)
  }

  /** The values that three such calls return always are the reading held at the access of the first. */
  ghost predicate AlwaysReturnsWhole(p: nat, slave: Byte, changing: set<Byte>) {
    forall regs: Registers, s1: State, s2: State, s3: State ::
      ThreeCalls(regs, p, slave, s1, s2, s3) && OnlyChanging(s3.core.slaves.log, slave, changing)
      ==> Raw(Returned(s1, p), Returned(s2, p), Returned(s3, p)) == HeldAtLastRead(regs, s1, slave)
  }

  lemma OwnAccess(regs: Registers, s: State, p: nat)
    requires OneReader(Initial(regs), s, p) && Returning(s, p)
    ensures Reachable(regs, s)
    ensures var log, call := s.core.slaves.log, At(s, p).call;
            LastReadAt(log) >= 0 && log[LastReadAt(log)] == Read(call.slave, call.reg, Returned(s, p))
  {
    var actions :| TimeoutFree(actions) && OnlyReaders(actions, {p}) && s == Run(Initial(regs), actions);
    LastReadIsOwn(regs, actions, p);
    ReturnedIs(s, p);
  }

  lemma LaterPosition(log: seq<Entry>, longer: seq<Entry>)
    requires log <= longer && LastReadAt(log) >= 0 && LastReadAt(longer) >= 0
    requires log[LastReadAt(log)] != longer[LastReadAt(longer)]
    ensures LastReadAt(log) < LastReadAt(longer)
  {
    LastReadGrows(log, longer);
    assert longer[LastReadAt(log)] == log[LastReadAt(log)];
  }

  lemma OneReaderLogGrows(s: State, r: State, p: nat)
    requires OneReader(s, r, p)
    ensures s.core.slaves.log <= r.core.slaves.log
  {
    var actions :| TimeoutFree(actions) && OnlyReaders(actions, {p}) && r == Run(s, actions);
    LogGrowsOn(s, actions);
  }

  /** Three calls make three accesses, whose values they return. */
  lemma ThreeCallsRead(regs: Registers, p: nat, slave: Byte, s1: State, s2: State, s3: State)
    returns (i: nat, j: nat, k: nat)
    requires ThreeCalls(regs, p, slave, s1, s2, s3)
    ensures Reachable(regs, s3) && ThreeReads(s3.core.slaves.log, i, j, k, slave)
    ensures RawRead(s3.core.slaves.log, i, j, k) == Raw(Returned(s1, p), Returned(s2, p), Returned(s3, p))
    ensures HeldAt(regs, s3.core.slaves.log, i, slave) == HeldAtLastRead(regs, s1, slave)
  {
    OneReaderOn(Initial(regs), s1, s2, p);
    OneReaderOn(Initial(regs), s2, s3, p);
    OwnAccess(regs, s1, p);
    OwnAccess(regs, s2, p);
    OwnAccess(regs, s3, p);
    OneReaderLogGrows(s1, s2, p);
    OneReaderLogGrows(s2, s3, p);
    LaterPosition(s1.core.slaves.log, s2.core.slaves.log);
    LaterPosition(s2.core.slaves.log, s3.core.slaves.log);
    i, j, k := LastReadAt(s1.core.slaves.log), LastReadAt(s2.core.slaves.log), LastReadAt(s3.core.slaves.log);
    assert s3.core.slaves.log[..i] == s1.core.slaves.log[..i];
  }

  lemma AloneIsOneReader(regs: Registers, m: State, r: State, p: nat)
    requires Alone(m, r, p) && forall q :: q != p ==> At(m, q) == Idle
    ensures OneReader(m, r, p) && forall q :: q != p ==> At(r, q) == Idle
  {
    var actions :| TimeoutFree(actions) && r == Run(m, actions);
    OnlyTheseMoved(m, actions, {p});
  }

  lemma ReturnsAreCalls(regs: Registers, p: nat, slave: Byte, s1: State, s2: State, s3: State)
    requires ThreeReturns(regs, p, slave, s1, s2, s3)
    ensures ThreeCalls(regs, p, slave, s1, s2, s3)
  {
    forall q | q != p ensures At(Initial(regs), q) == Idle {
      StartIsIdle(regs, q);
    }
    AloneIsOneReader(regs, Initial(regs), s1, p);
    AloneIsOneReader(regs, s1, s2, p);
    AloneIsOneReader(regs, s2, s3, p);
  }

  lemma CallsNotWhole(p: nat, slave: Byte, changing: set<Byte>, reg: Byte) returns (s1: State, s2: State, s3: State)
    requires reg in changing && (reg == TEMP_LSB || reg == TEMP_XLSB)
    ensures ThreeCalls(map[], p, slave, s1, s2, s3) && OnlyChanging(s3.core.slaves.log, slave, changing)
    ensures Raw(Returned(s1, p), Returned(s2, p), Returned(s3, p)) != HeldAtLastRead(map[], s1, slave)
  {
    s1, s2, s3 := NotWhole(p, slave, changing, reg);
    ReturnsAreCalls(map[], p, slave, s1, s2, s3);
    ReturnedIs(s1, p);
    ReturnedIs(s2, p);
    ReturnedIs(s3, p);
    assert s1.core.slaves.log[..0] == s3.core.slaves.log[..0];
  }

  /**
   * The same for the calls themselves: with one reader, what three calls in a
   * row return is always the reading that the slave held at the access of the
   * first exactly when neither of the lower registers ever changes.
   */
  lemma ReturnsWholeExactlyWhen(p: nat, slave: Byte, changing: set<Byte>)
    ensures AlwaysReturnsWhole(p, slave, changing) <==> TEMP_LSB !in changing && TEMP_XLSB !in changing
  {
    if reg :| reg in changing && (reg == TEMP_LSB || reg == TEMP_XLSB) {
      var s1, s2, s3 := CallsNotWhole(p, slave, changing, reg);
    } else {
      WholeExactlyWhen(slave, changing);
      forall regs: Registers, s1: State, s2: State, s3: State
        | ThreeCalls(regs, p, slave, s1, s2, s3) && OnlyChanging(s3.core.slaves.log, slave, changing)
        ensures Raw(Returned(s1, p), Returned(s2, p), Returned(s3, p)) == HeldAtLastRead(regs, s1, slave)
      {
        var i, j, k := ThreeCallsRead(regs, p, slave, s1, s2, s3);
      }
    }
  }
}
