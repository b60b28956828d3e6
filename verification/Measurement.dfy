// bmp280_read_temperature (bmp280.c) fetches the three bytes of a reading by
// three calls of cotti_i2c_read, each under the mutex for itself. When do they
// belong to one measurement? Here for three read accesses on the bus.
module Measurement {
  import opened I2cBus
  import opened I2cLinearizability

  const TEMP_MSB: Byte := 0xFA
  const TEMP_LSB: Byte := 0xFB
  const TEMP_XLSB: Byte := 0xFC

  /** The raw reading that three bytes make up. */
  function Raw(d1: int, d2: int, d3: int): int {
    (d1 * 65536 + d2 * 256 + d3) / 16
  }

  /** The raw reading that the slave holds. */
  function RawOf(regs: Registers, slave: Byte): int {
    Raw(Register(regs, slave, TEMP_MSB), Register(regs, slave, TEMP_LSB), Register(regs, slave, TEMP_XLSB))
  }

  /** The entry changes that register, whoever does it. */
  predicate Changes(e: Entry, slave: Byte, reg: Byte) {
    !e.Read? && e.slave == slave && e.reg == reg
  }

  /** Nothing changes that register from position i up to position k of the log. */
  predicate Unchanged(log: seq<Entry>, i: nat, k: nat, slave: Byte, reg: Byte)
    requires i <= k <= |log|
  {
    forall n :: i <= n < k ==> !Changes(log[n], slave, reg)
  }

  lemma {:induction false} UnchangedHolds(regs: Registers, log: seq<Entry>, i: nat, k: nat, slave: Byte, reg: Byte)
    requires i <= k <= |log| && Unchanged(log, i, k, slave, reg)
    ensures Register(Replay(regs, log[..k]), slave, reg) == Register(Replay(regs, log[..i]), slave, reg)
  {
    if i < k {
      UnchangedHolds(regs, log, i, k - 1, slave, reg);
      assert log[..k] == log[..k - 1] + [log[k - 1]];
      LogOne(regs, log[..k - 1], log[k - 1]);
    }
  }

  lemma {:induction false} LegalRead(regs: Registers, log: seq<Entry>, k: nat)
    requires Legal(regs, log) && k < |log| && log[k].Read?
    ensures log[k].value == Register(Replay(regs, log[..k]), log[k].slave, log[k].reg)
  {
    if k + 1 < |log| {
      assert log[..|log| - 1][..k] == log[..k];
      LegalRead(regs, log[..|log| - 1], k);
    }
  }

  // ----- Three read accesses -----------------------------------------------

  /** The accesses at i, j and k read the three registers in order, for whomever. */
  predicate ThreeReads(log: seq<Entry>, i: nat, j: nat, k: nat, slave: Byte) {
    && i < j < k < |log|
    && log[i] == Read(slave, TEMP_MSB, log[i].value)
    && log[j] == Read(slave, TEMP_LSB, log[j].value)
    && log[k] == Read(slave, TEMP_XLSB, log[k].value)
  }

  function RawRead(log: seq<Entry>, i: nat, j: nat, k: nat): int
    requires i < j < k < |log|
  {
    Raw(log[i].value, log[j].value, log[k].value)
  }

  /** The reading that the slave holds before position n of the log. */
  function HeldAt(regs: Registers, log: seq<Entry>, n: nat, slave: Byte): int
    requires n <= |log|
  {
    RawOf(Replay(regs, log[..n]), slave)
  }

  /**
   * On every run: if neither of the lower registers changes between the first
   * access and its own, the three bytes are one reading, the one that the slave
   * held at the first access.
   */
  lemma BytesOfOneMeasurement(regs: Registers, s: State, i: nat, j: nat, k: nat, slave: Byte)
    requires Reachable(regs, s) && ThreeReads(s.core.slaves.log, i, j, k, slave)
    requires Unchanged(s.core.slaves.log, i, j, slave, TEMP_LSB)
    requires Unchanged(s.core.slaves.log, i, k, slave, TEMP_XLSB)
    ensures RawRead(s.core.slaves.log, i, j, k) == HeldAt(regs, s.core.slaves.log, i, slave)
  {
    ReachableInv(regs, s);
    BytesHeldAt(regs, s.core.slaves.log, i, j, k, i, slave);
  }

  /** More generally: the bytes are the reading held at n if each of them does not change between n and its own access. */
  lemma BytesHeldAt(regs: Registers, log: seq<Entry>, i: nat, j: nat, k: nat, n: nat, slave: Byte)
    requires Legal(regs, log) && ThreeReads(log, i, j, k, slave) && i <= n <= k
    requires Unchanged(log, i, n, slave, TEMP_MSB)
    requires if n <= j then Unchanged(log, n, j, slave, TEMP_LSB) else Unchanged(log, j, n, slave, TEMP_LSB)
    requires Unchanged(log, n, k, slave, TEMP_XLSB)
    ensures RawRead(log, i, j, k) == HeldAt(regs, log, n, slave)
  {
    LegalRead(regs, log, i);
    LegalRead(regs, log, j);
    LegalRead(regs, log, k);
    UnchangedHolds(regs, log, i, n, slave, TEMP_MSB);
    if n <= j {
      UnchangedHolds(regs, log, n, j, slave, TEMP_LSB);
    } else {
      UnchangedHolds(regs, log, j, n, slave, TEMP_LSB);
    }
    UnchangedHolds(regs, log, n, k, slave, TEMP_XLSB);
  }

  // ----- Which registers may change ----------------------------------------

  /** Of the registers of the slave only the given ones ever change. */
  predicate OnlyChanging(log: seq<Entry>, slave: Byte, changing: set<Byte>) {
    forall n :: 0 <= n < |log| && !log[n].Read? && log[n].slave == slave ==> log[n].reg in changing
  }

  /** Three accesses always give the reading held at the first. */
  ghost predicate AlwaysWhole(slave: Byte, changing: set<Byte>) {
    forall regs: Registers, s: State, i: nat, j: nat, k: nat ::
      Reachable(regs, s) && OnlyChanging(s.core.slaves.log, slave, changing) && ThreeReads(s.core.slaves.log, i, j, k, slave)
      ==> RawRead(s.core.slaves.log, i, j, k) == HeldAt(regs, s.core.slaves.log, i, slave)
  }

  /** The reading was held at some time from the first to the last access. */
  ghost predicate EverHeld(regs: Registers, log: seq<Entry>, i: nat, j: nat, k: nat, slave: Byte)
    requires i < j < k < |log|
  {
    exists n :: i <= n <= k && RawRead(log, i, j, k) == HeldAt(regs, log, n, slave)
  }

  /** Three accesses always give a reading held at some time in between. */
  ghost predicate AlwaysHeld(slave: Byte, changing: set<Byte>) {
    forall regs: Registers, s: State, i: nat, j: nat, k: nat ::
      Reachable(regs, s) && OnlyChanging(s.core.slaves.log, slave, changing) && ThreeReads(s.core.slaves.log, i, j, k, slave)
      ==> EverHeld(regs, s.core.slaves.log, i, j, k, slave)
  }

  lemma NeverChanging(log: seq<Entry>, slave: Byte, changing: set<Byte>, reg: Byte)
    requires OnlyChanging(log, slave, changing) && reg !in changing
    ensures forall i, k :: 0 <= i <= k <= |log| ==> Unchanged(log, i, k, slave, reg)
  {
  }
}
