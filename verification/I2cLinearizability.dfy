// Interleaved calls of the I2C driver amount to sequential register accesses.
module I2cLinearizability {
  import opened I2cBus
  import opened I2cSafety

  // ----- The invariant on every timeout-free run ---------------------------

  /** The caller waits for a transfer of its own. */
  predicate Waits(pc: Pc) {
    pc.WaitEmpty? || pc.WaitStop? || pc.WaitRead? || pc.WaitRxStop?
  }

  lemma OthersAreQuiet(c: Core, pc: Pc, ops: seq<Entry>)
    requires Phase(c, pc, ops) && !Waits(pc)
    ensures Quiet(c)
  {
  }

  /** What a quiet phase depends on, the signals of the handler and the registers of the slaves aside. */
  predicate SameSetup(c: Core, r: Core) {
    && r == c.(isr := r.isr, bits := r.bits, slaves := r.slaves)
    && r.slaves.pointers == c.slaves.pointers && BusOps(r.slaves.log) == BusOps(c.slaves.log)
  }

  lemma SetupCarries(c: Core, r: Core, pc: Pc, ops: seq<Entry>)
    requires Phase(c, pc, ops) && PcSetup(pc) && Quiet(r) && SameSetup(c, r)
    ensures Phase(r, pc, ops)
  {
  }

  lemma QuietCarries(c: Core, r: Core, pc: Pc, ops: seq<Entry>)
    requires Phase(c, pc, ops) && !Waits(pc) && Quiet(r) && SameSetup(c, r)
    ensures Phase(r, pc, ops)
  {
    if PcSetup(pc) {
      SetupCarries(c, r, pc, ops);
    }
  }

  lemma SenderPhaseInterrupt(c: Core, pc: Pc, ops: seq<Entry>)
    requires Phase(c, pc, ops) && (pc.WaitEmpty? || pc.WaitStop?) && IsrOk(c) && !c.outOfBounds
    ensures var r := IsrStep(c);
            Phase(r, pc, ops) && IsrOk(r) && !r.outOfBounds
  {
    SendingInterrupt(c, pc.call, ops);
  }

  lemma ReceiverPhaseInterrupt(c: Core, pc: Pc, ops: seq<Entry>)
    requires Phase(c, pc, ops) && (pc.WaitRead? || pc.WaitRxStop?) && IsrOk(c) && !c.outOfBounds
    ensures var r := IsrStep(c);
            Phase(r, pc, ops) && IsrOk(r) && !r.outOfBounds
  {
    ReceivingInterrupt(c, pc.call, ops, pc.WaitRxStop?);
  }

  lemma SenderPhaseBus(c: Core, pc: Pc, ops: seq<Entry>, e: Bus)
    requires Phase(c, pc, ops) && (pc.WaitEmpty? || pc.WaitStop?) && IsrOk(c) && !c.outOfBounds
    ensures var r := BusStep(c, e);
            Phase(r, pc, ops) && IsrOk(r) && !r.outOfBounds
  {
    SendingBus(c, pc.call, ops, e);
  }

  lemma ReceiverPhaseBus(c: Core, pc: Pc, ops: seq<Entry>, e: Bus)
    requires Phase(c, pc, ops) && (pc.WaitRead? || pc.WaitRxStop?) && IsrOk(c) && !c.outOfBounds
    ensures var r := BusStep(c, e);
            Phase(r, pc, ops) && IsrOk(r) && !r.outOfBounds
  {
    ReceivingBus(c, pc.call, ops, pc.WaitRxStop?, e);
  }

  lemma QuietPhaseInterrupt(c: Core, pc: Pc, ops: seq<Entry>)
    requires Phase(c, pc, ops) && !Waits(pc) && IsrOk(c) && !c.outOfBounds
    ensures var r := IsrStep(c);
            Phase(r, pc, ops) && IsrOk(r) && !r.outOfBounds
  {
    OthersAreQuiet(c, pc, ops);
    QuietInterrupt(c);
    QuietCarries(c, IsrStep(c), pc, ops);
  }

  lemma QuietPhaseBus(c: Core, pc: Pc, ops: seq<Entry>, e: Bus)
    requires Phase(c, pc, ops) && !Waits(pc) && IsrOk(c) && !c.outOfBounds
    ensures var r := BusStep(c, e);
            Phase(r, pc, ops) && IsrOk(r) && !r.outOfBounds
  {
    OthersAreQuiet(c, pc, ops);
    QuietBus(c, e);
    QuietCarries(c, BusStep(c, e), pc, ops);
  }

  lemma InterruptKeepsPhase(c: Core, pc: Pc, ops: seq<Entry>)
    requires Phase(c, pc, ops) && IsrOk(c) && !c.outOfBounds
    ensures var r := IsrStep(c);
            Phase(r, pc, ops) && IsrOk(r) && !r.outOfBounds
  {
    if pc.WaitEmpty? || pc.WaitStop? {
      SenderPhaseInterrupt(c, pc, ops);
    } else if pc.WaitRead? || pc.WaitRxStop? {
      ReceiverPhaseInterrupt(c, pc, ops);
    } else {
      QuietPhaseInterrupt(c, pc, ops);
    }
  }

  lemma BusKeepsPhase(c: Core, pc: Pc, ops: seq<Entry>, e: Bus)
    requires Phase(c, pc, ops) && IsrOk(c) && !c.outOfBounds
    ensures var r := BusStep(c, e);
            Phase(r, pc, ops) && IsrOk(r) && !r.outOfBounds
  {
    if pc.WaitEmpty? || pc.WaitStop? {
      SenderPhaseBus(c, pc, ops, e);
    } else if pc.WaitRead? || pc.WaitRxStop? {
      ReceiverPhaseBus(c, pc, ops, e);
    } else {
      QuietPhaseBus(c, pc, ops, e);
    }
  }

  lemma InterruptKeepsInv(s: State)
    requires Inv(s)
    ensures Inv(Step(s, Interrupt))
  {
    match s.lock {
      case Nobody => QuietInterrupt(s.core);
      case Holds(p) => InterruptKeepsPhase(s.core, At(s, p), s.history);
    }
    StepKeepsLock(s, Interrupt);
  }

  lemma BusKeepsInv(s: State, e: Bus)
    requires Inv(s)
    ensures Inv(Step(s, OnBus(e)))
  {
    match s.lock {
      case Nobody => QuietBus(s.core, e);
      case Holds(p) => BusKeepsPhase(s.core, At(s, p), s.history, e);
    }
    StepKeepsLock(s, OnBus(e));
  }

  lemma StepKeepsInv(s: State, a: Action)
    requires Inv(s) && !a.Timeout?
    ensures Inv(Step(s, a))
  {
    match a {
      case Caller(p, next) => CallerKeepsInv(s, p, next);
      case Interrupt => InterruptKeepsInv(s);
      case OnBus(e) => BusKeepsInv(s, e);
    }
  }

  lemma {:induction false} RunKeepsInv(regs: Registers, actions: seq<Action>)
    requires TimeoutFree(actions)
    ensures Inv(Run(Initial(regs), actions))
  {
    if actions != [] {
      var before := actions[..|actions| - 1];
      RunKeepsInv(regs, before);
      StepKeepsInv(Run(Initial(regs), before), actions[|actions| - 1]);
    }
  }

  // ----- The slaves --------------------------------------------------------

  function Effected(regs: Registers, e: Entry): Registers {
    match e
    case Written(slave, reg, value) => regs[(slave, reg) := value]
    case Measured(slave, reg, value) => regs[(slave, reg) := value]
    case Read(_, _, _) => regs
  }

  /** The register files after the entries of a log, one after the other. */
  function Replay(regs: Registers, log: seq<Entry>): Registers {
    if log == [] then regs else Effected(Replay(regs, log[..|log| - 1]), log[|log| - 1])
  }

  /** Every read of the log returns the register as the entries before leave it. */
  predicate Legal(regs: Registers, log: seq<Entry>) {
    log == [] ||
    var before, e := log[..|log| - 1], log[|log| - 1];
    Legal(regs, before) && (e.Read? ==> e.value == Register(Replay(regs, before), e.slave, e.reg))
  }

  predicate SlavesOk(regs: Registers, c: Core) {
    c.slaves.regs == Replay(regs, c.slaves.log) && Legal(regs, c.slaves.log)
  }

  lemma LogOne(regs: Registers, log: seq<Entry>, e: Entry)
    ensures Replay(regs, log + [e]) == Effected(Replay(regs, log), e)
    ensures Legal(regs, log + [e])
       <==> Legal(regs, log) && (e.Read? ==> e.value == Register(Replay(regs, log), e.slave, e.reg))
  {
    assert (log + [e])[..|log|] == log;
  }

  lemma SendKeepsSlaves(regs: Registers, c: Core)
    requires SlavesOk(regs, c)
    ensures SlavesOk(regs, BusStep(c, Send))
  {
    if c.txFifo != [] {
      LogOne(regs, c.slaves.log, Written(c.slave, Pointer(c.slaves.pointers, c.slave), c.txFifo[0]));
    }
  }

  lemma ReceiveKeepsSlaves(regs: Registers, c: Core)
    requires SlavesOk(regs, c)
    ensures SlavesOk(regs, BusStep(c, Receive))
  {
    LogOne(regs, c.slaves.log, Read(c.slave, Pointer(c.slaves.pointers, c.slave), c.slaves.Answer(c.slave)));
  }

  lemma BusKeepsSlaves(regs: Registers, c: Core, e: Bus)
    requires SlavesOk(regs, c)
    ensures SlavesOk(regs, BusStep(c, e))
  {
    match e {
      case Send => SendKeepsSlaves(regs, c);
      case Receive => ReceiveKeepsSlaves(regs, c);
      case Measure(of, r, value) => LogOne(regs, c.slaves.log, Measured(of, r, value));
      case _ =>
    }
  }

  lemma CallersLeaveSlaves(s: State, p: nat, next: Call)
    ensures var r := CallerStep(s, p, next); r.core.slaves.regs == s.core.slaves.regs && r.core.slaves.log == s.core.slaves.log
  {
    var pc := At(s, p);
    if !Locked(pc) {
      OutsiderStep(s, p, next);
    } else if PcSetup(pc) {
    } else if PcTurnaround(pc) || PcReceiving(pc) {
    } else {
    }
  }

  lemma StepKeepsSlaves(regs: Registers, s: State, a: Action)
    requires SlavesOk(regs, s.core)
    ensures SlavesOk(regs, Step(s, a).core)
  {
    match a {
      case Caller(p, next) => CallersLeaveSlaves(s, p, next);
      case Timeout(p) =>
      case Interrupt => InterruptLeavesSlaves(s.core);
      case OnBus(e) => BusKeepsSlaves(regs, s.core, e);
    }
  }

  lemma InterruptLeavesSlaves(c: Core)
    ensures IsrStep(c).slaves.regs == c.slaves.regs && IsrStep(c).slaves.log == c.slaves.log
  {
    if AtStart(c.isr) {
    } else if c.isr.Rrdy? || c.isr.RrdyDone? {
    } else if c.isr.RrdyRead? {
    } else if AtLoad(c.isr) {
    } else {
    }
  }

  lemma {:induction false} SlavesFollowLog(regs: Registers, actions: seq<Action>)
    ensures SlavesOk(regs, Run(Initial(regs), actions).core)
  {
    if actions != [] {
      var before := actions[..|actions| - 1];
      SlavesFollowLog(regs, before);
      StepKeepsSlaves(regs, Run(Initial(regs), before), actions[|actions| - 1]);
    }
  }

  // ----- Linearization -----------------------------------------------------

  /** A state that some run without timeouts leads to. */
  ghost predicate Reachable(regs: Registers, s: State) {
    exists actions :: TimeoutFree(actions) && s == Run(Initial(regs), actions)
  }

  lemma ReachableInv(regs: Registers, s: State)
    requires Reachable(regs, s)
    ensures Inv(s) && SlavesOk(regs, s.core)
  {
    var actions :| TimeoutFree(actions) && s == Run(Initial(regs), actions);
    RunKeepsInv(regs, actions);
    SlavesFollowLog(regs, actions);
  }

  lemma HolderPhase(s: State, p: nat)
    requires Inv(s) && Locked(At(s, p))
    ensures s.lock == Holds(p) && Phase(s.core, At(s, p), s.history)
  {
  }

  /**
   * Whatever the interleaving of callers, interrupts and bus events, there is
   * one order of register accesses, the log, such that the slaves hold what
   * its writes leave, every read in it returns the register at its place, and
   * the accesses over the bus are the finished calls in the order of their
   * unlocks with the effect their callers saw. Only the holder of the mutex
   * can be one access ahead.
   */
  lemma Linearizes(regs: Registers, s: State)
    requires Reachable(regs, s)
    ensures s.core.slaves.regs == Replay(regs, s.core.slaves.log) && Legal(regs, s.core.slaves.log)
    ensures s.lock == Nobody ==> BusOps(s.core.slaves.log) == s.history
    ensures s.history <= BusOps(s.core.slaves.log) && |BusOps(s.core.slaves.log)| <= |s.history| + 1
  {
    ReachableInv(regs, s);
    if s.lock.Holds? {
      var pc := At(s, s.lock.p);
      assert Phase(s.core, pc, s.history);
    }
  }

  /** At the unlock, the access of the call is the last one on the bus. */
  lemma UnlockSeesItsOwnAccess(regs: Registers, s: State, p: nat)
    requires Reachable(regs, s) && At(s, p).Unlock?
    ensures At(s, p).ok
    ensures BusOps(s.core.slaves.log) == s.history + [Effect(At(s, p).call, s.core)]
  {
    ReachableInv(regs, s);
    HolderPhase(s, p);
    UnlockPhase(s.core, At(s, p), s.history);
  }

  lemma UnlockPhase(c: Core, pc: Pc, ops: seq<Entry>)
    requires pc.Unlock? && Phase(c, pc, ops)
    ensures pc.ok && BusOps(c.slaves.log) == ops + [Effect(pc.call, c)]
  {
  }

  /** After the last access over the bus, the slave has not changed this register by itself. */
  predicate UnmeasuredSince(log: seq<Entry>, slave: Byte, reg: Byte) {
    log == [] || !log[|log| - 1].Measured?
    || ((log[|log| - 1].slave, log[|log| - 1].reg) != (slave, reg) && UnmeasuredSince(log[..|log| - 1], slave, reg))
  }

  lemma {:induction false} LastAccessHolds(regs: Registers, log: seq<Entry>, e: Entry)
    requires Legal(regs, log) && BusOps(log) != [] && BusOps(log)[|BusOps(log)| - 1] == e
    requires UnmeasuredSince(log, e.slave, e.reg)
    ensures Register(Replay(regs, log), e.slave, e.reg) == e.value
  {
    if log[|log| - 1].Measured? {
      LastAccessHolds(regs, log[..|log| - 1], e);
    }
  }

  /**
   * At a reader's unlock g_read is the requested register, and at a writer's
   * unlock the register has the value written, unless the slave itself has
   * changed that very register since the access.
   */
  lemma UnlockAgreesWithSlave(regs: Registers, s: State, p: nat)
    requires Reachable(regs, s) && At(s, p).Unlock?
    requires UnmeasuredSince(s.core.slaves.log, At(s, p).call.slave, At(s, p).call.reg)
    ensures var call := At(s, p).call;
            Register(s.core.slaves.regs, call.slave, call.reg)
            == if call.WriteCall? then call.value else s.core.gRead
  {
    ReachableInv(regs, s);
    UnlockSeesItsOwnAccess(regs, s, p);
    LastAccessHolds(regs, s.core.slaves.log, Effect(At(s, p).call, s.core));
  }

  // ----- Consequences for the driver's statics -----------------------------

  /** g_write is only read inside its bounds, and g_len is only lowered above zero. */
  lemma LengthNeverUnderflows(regs: Registers, s: State)
    requires Reachable(regs, s)
    ensures !s.core.outOfBounds
    ensures s.core.isr.XrdyWrite? ==> s.core.gLen <= 1
    ensures s.core.isr.Rrdy? && s.core.isr.b.rrdy ==> s.core.gLen > 0
    ensures s.core.isr.Xrdy? && s.core.isr.b.xrdy ==> s.core.gLen > 0
  {
    ReachableInv(regs, s);
    if s.lock.Holds? {
      assert Phase(s.core, At(s, s.lock.p), s.history);
    }
  }

  /** During a transmission g_len is the number of bytes the controller still wants. */
  lemma LengthCountsRemaining(regs: Registers, s: State)
    requires Reachable(regs, s) && s.core.active && s.core.tx && !s.core.isr.XrdyWrite?
    ensures s.core.loaded <= s.core.total && s.core.gLen == s.core.total - s.core.loaded
  {
    ReachableInv(regs, s);
    if s.lock.Holds? {
      assert Phase(s.core, At(s, s.lock.p), s.history);
    }
  }

  /** During a reception it is the number of bytes that the handler has still to fetch. */
  lemma LengthCountsUnfetched(regs: Registers, s: State)
    requires Reachable(regs, s) && s.core.active && !s.core.tx && !s.core.isr.RrdyRead?
    ensures s.core.gLen == s.core.total - s.core.moved + |s.core.rxFifo|
  {
    ReachableInv(regs, s);
    if s.lock.Holds? {
      assert Phase(s.core, At(s, s.lock.p), s.history);
    }
  }

  /** Both completions are zero whenever the mutex is free to be acquired. */
  lemma CompletionsZeroAtLock(regs: Registers, s: State)
    requires Reachable(regs, s) && s.lock == Nobody
    ensures s.core.compRead == 0 && s.core.compStop == 0 && !s.core.active
  {
    ReachableInv(regs, s);
  }

  /** What waits in the transmit FIFO is part of the message of one caller, the holder of the mutex. */
  lemma BytesNeverMix(regs: Registers, s: State)
    requires Reachable(regs, s) && s.core.txFifo != []
    ensures s.lock.Holds?
    ensures var pc := At(s, s.lock.p);
            && (pc.WaitEmpty? || pc.WaitStop?)
            && s.core.moved <= s.core.loaded <= Length(pc.call)
            && s.core.txFifo == Message(pc.call)[s.core.moved..s.core.loaded]
            && s.core.slave == pc.call.slave
  {
    ReachableInv(regs, s);
    assert s.lock.Holds?;
    assert Phase(s.core, At(s, s.lock.p), s.history);
  }
}
