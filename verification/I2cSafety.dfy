// Safety of the step system of I2cBus.dfy.
module I2cSafety {
  import opened I2cBus

  // ----- The mutex, on all runs --------------------------------------------

  ghost predicate LockInv(s: State) {
    forall p :: Locked(At(s, p)) <==> s.lock == Holds(p)
  }

  /** A step of p moves no other caller, and takes or frees the mutex only for p. */
  lemma CallerLocksForItself(s: State, p: nat, next: Call)
    requires Locked(At(s, p)) <==> s.lock == Holds(p)
    ensures var r := CallerStep(s, p, next);
            && (Locked(At(r, p)) <==> r.lock == Holds(p))
            && (r.lock == s.lock || (s.lock == Nobody && r.lock == Holds(p)) || (s.lock == Holds(p) && r.lock == Nobody))
  {
  }

  lemma CallerMovesItself(s: State, p: nat, next: Call, q: nat)
    requires q != p
    ensures At(CallerStep(s, p, next), q) == At(s, q)
    ensures At(TimeoutStep(s, p), q) == At(s, q)
  {
  }

  lemma StepKeepsLock(s: State, a: Action)
    requires LockInv(s)
    ensures LockInv(Step(s, a))
  {
    var r := Step(s, a);
    if a.Caller? || a.Timeout? {
      if a.Caller? {
        CallerLocksForItself(s, a.p, a.next);
      }
      forall p ensures Locked(At(r, p)) <==> r.lock == Holds(p) {
        if p != a.p {
          CallerMovesItself(s, a.p, if a.Caller? then a.next else ReadCall(0, 0), p);
        }
      }
    }
  }

  /**
   * On every run, timeouts included: the mutex is held exactly by the one
   * caller between its lock and its unlock, so no caller that has returned, on
   * whatever path, still holds it.
   */
  lemma {:induction false} MutexAlways(regs: Registers, actions: seq<Action>)
    ensures LockInv(Run(Initial(regs), actions))
  {
    if actions != [] {
      MutexAlways(regs, actions[..|actions| - 1]);
      StepKeepsLock(Run(Initial(regs), actions[..|actions| - 1]), actions[|actions| - 1]);
    }
  }

  // ----- What is still on its way ------------------------------------------

  /** The handler works on a copy of the status with the given bits. */
  predicate Sampled(i: Isr) {
    !i.Off?
  }

  /** ARDY events that will still complete comp_stop, or have and were not consumed. */
  function StopTokens(c: Core): nat {
    c.compStop
    + (if c.isr.Ardy? && c.isr.b.ardy then 1 else 0)
    + (if c.bits.ardy && !(Sampled(c.isr) && c.isr.b.ardy) then 1 else 0)
  }

  /** The handler will still load a byte. */
  predicate LoadPending(c: Core) {
    || ((c.isr.Ardy? || c.isr.Rrdy? || c.isr.RrdyRead? || c.isr.RrdyDone? || c.isr.Xrdy? || c.isr.XrdyWrite?)
        && c.isr.b.xrdy)
    || (c.bits.xrdy && !(Sampled(c.isr) && c.isr.b.xrdy))
  }

  /** The handler will still fetch a byte. */
  predicate FetchPending(c: Core) {
    || ((c.isr.Ardy? || c.isr.Rrdy? || c.isr.RrdyRead?) && c.isr.b.rrdy)
    || (c.bits.rrdy && !(Sampled(c.isr) && c.isr.b.rrdy))
  }

  /** The handler's copy was taken from the status, and its branch from its copy. */
  predicate IsrOk(c: Core) {
    Sampled(c.isr) ==>
      && (c.isr.b.xrdy ==> c.bits.xrdy)
      && (c.isr.b.rrdy ==> c.bits.rrdy)
      && (c.isr.b.ardy ==> c.bits.ardy)
      && (c.isr.XrdyWrite? ==> c.isr.b.xrdy)
      && (c.isr.RrdyRead? || c.isr.RrdyDone? ==> c.isr.b.rrdy)
  }

  // ----- The phases of a call ----------------------------------------------

  /** Reads and writes over the bus, in order. */
  function BusOps(log: seq<Entry>): seq<Entry> {
    if log == [] then []
    else BusOps(log[..|log| - 1]) + (if log[|log| - 1].Measured? then [] else [log[|log| - 1]])
  }

  lemma BusOpsAppend(log: seq<Entry>, e: Entry)
    ensures BusOps(log + [e]) == BusOps(log) + (if e.Measured? then [] else [e])
  {
    assert (log + [e])[..|log|] == log;
  }

  lemma OneBusOp(e: Entry)
    requires !e.Measured?
    ensures BusOps([e]) == [e]
  {
    assert [e] == [] + [e];
    BusOpsAppend([], e);
  }

  /** Nothing is in flight. */
  predicate Quiet(c: Core) {
    && !c.active && StopTokens(c) == 0 && !LoadPending(c) && !FetchPending(c)
    && !c.isr.RrdyDone? && c.compRead == 0
    && c.txFifo == [] && c.rxFifo == []
  }

  /** The bytes a call puts on the bus, in order. */
  function Message(call: Call): (m: seq<Byte>)
    ensures |m| == Length(call)
  {
    if call.WriteCall? then [call.reg, call.value] else [call.reg]
  }

  /** g_write holds the message backwards. */
  predicate Buffered(c: Core, call: Call) {
    if call.WriteCall? then c.gWrite1 == call.reg && c.gWrite0 == call.value else c.gWrite0 == call.reg
  }

  /** How much of the message is loaded and sent, and what it has done to the slave. */
  predicate OnWire(c: Core, call: Call, ops: seq<Entry>) {
    && c.tx && c.slave == call.slave && c.total == Length(call) && Buffered(c, call)
    && c.moved <= c.loaded <= c.total && c.txFifo == Message(call)[c.moved..c.loaded]
    && (c.moved >= 1 ==> Pointer(c.slaves.pointers, c.slave) == call.reg)
    && BusOps(c.slaves.log) == ops + (if c.moved == 2 then [Written(call.slave, call.reg, c.gWrite0)] else [])
  }

  /** g_len counts what is left to load; at most one comp_stop is on its way. */
  predicate LoadSignals(c: Core) {
    && c.gLen == c.total - c.loaded - (if c.isr.XrdyWrite? then 1 else 0)
    && (LoadPending(c) ==> c.loaded < c.total)
    && (if c.active then StopTokens(c) == 0 else c.moved == c.total && StopTokens(c) <= 1)
    && !FetchPending(c) && !c.isr.RrdyDone? && c.compRead == 0 && c.rxFifo == []
  }

  /** Between START and the consumed comp_stop of the transmission. */
  predicate Sending(c: Core, call: Call, ops: seq<Entry>) {
    OnWire(c, call, ops) && LoadSignals(c)
  }

  predicate SameWire(c: Core, r: Core) {
    r == c.(isr := r.isr, bits := r.bits, gLen := r.gLen, compStop := r.compStop, active := r.active)
  }

  lemma WireUntouched(c: Core, r: Core, call: Call, ops: seq<Entry>)
    requires OnWire(c, call, ops) && SameWire(c, r)
    ensures OnWire(r, call, ops)
  {
  }

  /** The byte that was received has been fetched by the handler. */
  predicate Fetched(c: Core, call: Call, ops: seq<Entry>) {
    && c.rxFifo == [] && c.gLen == 0 && !FetchPending(c)
    && BusOps(c.slaves.log) == ops + [Read(call.slave, call.reg, c.gRead)]
  }

  /** Between START and the consumed comp_read and comp_stop of the reception. */
  predicate Receiving(c: Core, call: Call, ops: seq<Entry>, consumed: bool) {
    && !c.tx && c.slave == call.slave && c.total == 1 && c.moved <= 1
    && !LoadPending(c) && c.txFifo == []
    && Pointer(c.slaves.pointers, c.slave) == call.reg
    && (if c.active then StopTokens(c) == 0 else c.moved == 1 && StopTokens(c) <= 1)
    && (if consumed then
          c.moved == 1 && Fetched(c, call, ops) && c.compRead == 0 && !c.isr.RrdyDone?
        else if c.moved == 0 then
          && BusOps(c.slaves.log) == ops && c.rxFifo == [] && c.gLen == 1
          && !FetchPending(c) && c.compRead == 0 && !c.isr.RrdyDone?
        else if c.rxFifo != [] then
          && BusOps(c.slaves.log) == ops + [Read(call.slave, call.reg, c.rxFifo[0])] && |c.rxFifo| == 1
          && c.gLen == (if c.isr.RrdyRead? then 0 else 1)
          && c.compRead == 0 && !c.isr.RrdyDone?
        else
          && Fetched(c, call, ops)
          && c.compRead + (if c.isr.RrdyDone? then 1 else 0) <= 1)
  }

  /** What holds of the core while the holder of the mutex stands at pc. */
  predicate Phase(c: Core, pc: Pc, ops: seq<Entry>) {
    match pc
    case SetSlave(call) => Quiet(c) && BusOps(c.slaves.log) == ops
    case SetLen(call) => Quiet(c) && BusOps(c.slaves.log) == ops && c.slave == call.slave
    case SetCnt(call) =>
      Quiet(c) && BusOps(c.slaves.log) == ops && c.slave == call.slave && c.gLen == Length(call)
    case StoreHigh(call) => Prepared(c, call, ops) && call.WriteCall?
    case StoreLow(call) => Prepared(c, call, ops) && (call.WriteCall? ==> c.gWrite1 == call.reg)
    case ClearFifo(call) => Prepared(c, call, ops) && Buffered(c, call)
    case StartTx(call) => Prepared(c, call, ops) && Buffered(c, call)
    case WaitEmpty(call) => Sending(c, call, ops)
    case WaitStop(call) => Sending(c, call, ops)
    case ReinitStop(call, ok) =>
      ok && Quiet(c) && BusOps(c.slaves.log) == ops + Sent(call) && (call.ReadCall? ==> Addressed(c, call))
    case RxLen(call) => call.ReadCall? && Quiet(c) && BusOps(c.slaves.log) == ops && Addressed(c, call)
    case RxCnt(call) => call.ReadCall? && Quiet(c) && BusOps(c.slaves.log) == ops && Addressed(c, call) && c.gLen == 1
    case StartRx(call) =>
      call.ReadCall? && Quiet(c) && BusOps(c.slaves.log) == ops && Addressed(c, call) && c.gLen == 1 && c.cnt == 1
    case WaitRead(call) => call.ReadCall? && Receiving(c, call, ops, false)
    case WaitRxStop(call) => call.ReadCall? && Receiving(c, call, ops, true)
    case ReinitRead(call, ok) => ok && call.ReadCall? && Finished(c, call, ops)
    case ReinitRxStop(call, ok) => ok && call.ReadCall? && Finished(c, call, ops)
    case Unlock(call, ok) => ok && Finished(c, call, ops)
    case _ => false
  }

  predicate Prepared(c: Core, call: Call, ops: seq<Entry>) {
    && Quiet(c) && BusOps(c.slaves.log) == ops
    && c.slave == call.slave && c.gLen == Length(call) && c.cnt == Length(call)
  }

  /** The slave has the register address of a read. */
  predicate Addressed(c: Core, call: Call) {
    c.slave == call.slave && Pointer(c.slaves.pointers, c.slave) == call.reg
  }

  /** The entry that the transmission of a call adds. */
  function Sent(call: Call): seq<Entry> {
    if call.WriteCall? then [Written(call.slave, call.reg, call.value)] else []
  }

  predicate Finished(c: Core, call: Call, ops: seq<Entry>) {
    Quiet(c) && BusOps(c.slaves.log) == ops + [Effect(call, c)]
  }

  ghost predicate Inv(s: State) {
    && LockInv(s) && IsrOk(s.core) && !s.core.outOfBounds
    && (match s.lock
        case Nobody => Quiet(s.core) && BusOps(s.core.slaves.log) == s.history
        case Holds(p) => Phase(s.core, At(s, p), s.history))
  }

  // ----- Interrupts and bus steps ------------------------------------------

  // The handler's states in four groups, to keep each case analysis small.
  predicate AtStart(i: Isr) { i.Off? || i.Ardy? }
  predicate AtFetch(i: Isr) { i.Rrdy? || i.RrdyRead? || i.RrdyDone? }
  predicate AtLoad(i: Isr) { i.Xrdy? || i.XrdyWrite? }

  lemma QuietInterrupt(c: Core)
    requires Quiet(c) && IsrOk(c)
    ensures var r := IsrStep(c);
            Quiet(r) && IsrOk(r) && r == c.(isr := r.isr, bits := r.bits)
  {
    if AtStart(c.isr) {
    } else if AtFetch(c.isr) {
    } else if AtLoad(c.isr) {
    } else {
    }
  }

  lemma QuietBus(c: Core, e: Bus)
    requires Quiet(c) && IsrOk(c)
    ensures var r := BusStep(c, e);
            && Quiet(r) && IsrOk(r)
            && r == c.(slaves := r.slaves) && r.slaves.pointers == c.slaves.pointers
            && BusOps(r.slaves.log) == BusOps(c.slaves.log)
  {
    if e.Measure? {
      BusOpsAppend(c.slaves.log, Measured(e.of, e.reg, e.value));
    }
  }

  lemma SignalsAtStart(c: Core)
    requires LoadSignals(c) && IsrOk(c) && AtStart(c.isr)
    ensures LoadSignals(IsrStep(c)) && IsrOk(IsrStep(c))
    ensures SameWire(c, IsrStep(c))
  {
  }

  lemma SignalsAtFetch(c: Core)
    requires LoadSignals(c) && IsrOk(c) && AtFetch(c.isr)
    ensures LoadSignals(IsrStep(c)) && IsrOk(IsrStep(c))
    ensures SameWire(c, IsrStep(c))
  {
  }

  lemma SignalsAtXrdy(c: Core)
    requires LoadSignals(c) && IsrOk(c) && c.isr.Xrdy?
    ensures LoadSignals(IsrStep(c)) && IsrOk(IsrStep(c))
    ensures SameWire(c, IsrStep(c))
  {
  }

  lemma SignalsAtClear(c: Core)
    requires LoadSignals(c) && IsrOk(c) && c.isr.Clear?
    ensures LoadSignals(IsrStep(c)) && IsrOk(IsrStep(c))
    ensures SameWire(c, IsrStep(c))
  {
  }

  /**
   * What only runs with timeouts can meet: an index beyond the two bytes of
   * g_write is reported for good and loads nothing, and a data register without
   * a byte reads as zero.
   */
  lemma HandlerEdges(c: Core)
    ensures c.isr.XrdyWrite? && c.gLen >= 2 ==>
              IsrStep(c).outOfBounds && IsrStep(c).txFifo == c.txFifo && IsrStep(c).loaded == c.loaded
    ensures c.isr.XrdyWrite? && c.gLen < 2 ==>
              IsrStep(c).outOfBounds == c.outOfBounds && |IsrStep(c).txFifo| == |c.txFifo| + 1
    ensures c.isr.RrdyRead? && c.rxFifo == [] ==> IsrStep(c).gRead == 0 && IsrStep(c).rxFifo == []
    ensures !c.isr.XrdyWrite? ==> IsrStep(c).outOfBounds == c.outOfBounds
  {
  }

  /** The byte written to the FIFO is the next one of the message. */
  lemma LoadsNextByte(c: Core, call: Call, ops: seq<Entry>)
    requires Sending(c, call, ops) && IsrOk(c) && c.isr.XrdyWrite?
    ensures c.gLen <= 1 && c.loaded < c.total
    ensures (if c.gLen == 0 then c.gWrite0 else c.gWrite1) == Message(call)[c.loaded]
    ensures c.txFifo + [Message(call)[c.loaded]] == Message(call)[c.moved..c.loaded + 1]
  {
  }

  lemma SendingAtXrdyWrite(c: Core, call: Call, ops: seq<Entry>)
    requires Sending(c, call, ops) && IsrOk(c) && c.isr.XrdyWrite? && !c.outOfBounds
    ensures Sending(IsrStep(c), call, ops) && IsrOk(IsrStep(c)) && !IsrStep(c).outOfBounds
  {
    LoadsNextByte(c, call, ops);
  }

  lemma SendingInterrupt(c: Core, call: Call, ops: seq<Entry>)
    requires Sending(c, call, ops) && IsrOk(c) && !c.outOfBounds
    ensures var r := IsrStep(c);
            Sending(r, call, ops) && IsrOk(r) && !r.outOfBounds
  {
    if c.isr.XrdyWrite? {
      SendingAtXrdyWrite(c, call, ops);
    } else {
      if AtStart(c.isr) {
        SignalsAtStart(c);
      } else if AtFetch(c.isr) {
        SignalsAtFetch(c);
      } else if c.isr.Xrdy? {
        SignalsAtXrdy(c);
      } else {
        SignalsAtClear(c);
      }
      WireUntouched(c, IsrStep(c), call, ops);
    }
  }

  lemma SendingSend(c: Core, call: Call, ops: seq<Entry>)
    requires Sending(c, call, ops) && IsrOk(c)
    ensures Sending(BusStep(c, Send), call, ops) && IsrOk(BusStep(c, Send))
  {
    if c.txFifo != [] && c.moved > 0 {
      BusOpsAppend(c.slaves.log, Written(c.slave, Pointer(c.slaves.pointers, c.slave), c.txFifo[0]));
    }
  }

  lemma SignalsRaise(c: Core, e: Bus)
    requires LoadSignals(c) && IsrOk(c)
    requires e.RaiseXrdy? || e.RaiseRrdy? || e.RaiseArdy?
    requires c.moved <= c.loaded <= c.total
    ensures LoadSignals(BusStep(c, e)) && IsrOk(BusStep(c, e))
    ensures SameWire(c, BusStep(c, e))
  {
  }

  lemma SendingBus(c: Core, call: Call, ops: seq<Entry>, e: Bus)
    requires Sending(c, call, ops) && IsrOk(c)
    ensures var r := BusStep(c, e);
            Sending(r, call, ops) && IsrOk(r) && r.outOfBounds == c.outOfBounds
  {
    match e {
      case Send => SendingSend(c, call, ops);
      case Receive =>
      case Measure(of, reg, value) => BusOpsAppend(c.slaves.log, Measured(of, reg, value));
      case _ =>
        SignalsRaise(c, e);
        WireUntouched(c, BusStep(c, e), call, ops);
    }
  }

  lemma ReceivingAtStart(c: Core, call: Call, ops: seq<Entry>, consumed: bool)
    requires Receiving(c, call, ops, consumed) && IsrOk(c) && AtStart(c.isr)
    ensures Receiving(IsrStep(c), call, ops, consumed) && IsrOk(IsrStep(c))
  {
  }

  lemma ReceivingAtRrdy(c: Core, call: Call, ops: seq<Entry>, consumed: bool)
    requires Receiving(c, call, ops, consumed) && IsrOk(c) && c.isr.Rrdy?
    ensures Receiving(IsrStep(c), call, ops, consumed) && IsrOk(IsrStep(c))
  {
  }

  lemma ReceivingAtRrdyRead(c: Core, call: Call, ops: seq<Entry>, consumed: bool)
    requires Receiving(c, call, ops, consumed) && IsrOk(c) && c.isr.RrdyRead?
    ensures Receiving(IsrStep(c), call, ops, consumed) && IsrOk(IsrStep(c))
  {
  }

  lemma ReceivingAtRrdyDone(c: Core, call: Call, ops: seq<Entry>, consumed: bool)
    requires Receiving(c, call, ops, consumed) && IsrOk(c) && c.isr.RrdyDone?
    ensures Receiving(IsrStep(c), call, ops, consumed) && IsrOk(IsrStep(c))
  {
  }

  lemma ReceivingAtEnd(c: Core, call: Call, ops: seq<Entry>, consumed: bool)
    requires Receiving(c, call, ops, consumed) && IsrOk(c) && (AtLoad(c.isr) || c.isr.Clear?)
    ensures Receiving(IsrStep(c), call, ops, consumed) && IsrOk(IsrStep(c))
    ensures IsrStep(c).outOfBounds == c.outOfBounds
  {
  }

  lemma ReceivingInterrupt(c: Core, call: Call, ops: seq<Entry>, consumed: bool)
    requires Receiving(c, call, ops, consumed) && IsrOk(c)
    ensures var r := IsrStep(c);
            Receiving(r, call, ops, consumed) && IsrOk(r) && r.outOfBounds == c.outOfBounds
  {
    if AtStart(c.isr) {
      ReceivingAtStart(c, call, ops, consumed);
    } else if c.isr.Rrdy? {
      ReceivingAtRrdy(c, call, ops, consumed);
    } else if c.isr.RrdyRead? {
      ReceivingAtRrdyRead(c, call, ops, consumed);
    } else if c.isr.RrdyDone? {
      ReceivingAtRrdyDone(c, call, ops, consumed);
    } else {
      ReceivingAtEnd(c, call, ops, consumed);
    }
  }

  lemma ReceivingUntouched(c: Core, r: Core, call: Call, ops: seq<Entry>, consumed: bool)
    requires Receiving(c, call, ops, consumed) && r == c.(slaves := r.slaves)
    requires r.slaves.pointers == c.slaves.pointers && BusOps(r.slaves.log) == BusOps(c.slaves.log)
    ensures Receiving(r, call, ops, consumed)
  {
  }

  lemma ReceivingMeasure(c: Core, call: Call, ops: seq<Entry>, consumed: bool, e: Bus)
    requires Receiving(c, call, ops, consumed) && IsrOk(c) && e.Measure?
    ensures var r := BusStep(c, e);
            Receiving(r, call, ops, consumed) && IsrOk(r) && r.outOfBounds == c.outOfBounds
  {
    BusOpsAppend(c.slaves.log, Measured(e.of, e.reg, e.value));
    ReceivingUntouched(c, BusStep(c, e), call, ops, consumed);
  }

  lemma ReceivingReceive(c: Core, call: Call, ops: seq<Entry>, consumed: bool)
    requires Receiving(c, call, ops, consumed) && IsrOk(c)
    ensures var r := BusStep(c, Receive);
            Receiving(r, call, ops, consumed) && IsrOk(r) && r.outOfBounds == c.outOfBounds
  {
    var reg := Pointer(c.slaves.pointers, c.slave);
    BusOpsAppend(c.slaves.log, Read(c.slave, reg, Register(c.slaves.regs, c.slave, reg)));
  }

  lemma ReceivingSignal(c: Core, call: Call, ops: seq<Entry>, consumed: bool, e: Bus)
    requires Receiving(c, call, ops, consumed) && IsrOk(c) && !e.Measure? && !e.Receive?
    ensures var r := BusStep(c, e);
            Receiving(r, call, ops, consumed) && IsrOk(r) && r.outOfBounds == c.outOfBounds
  {
  }

  lemma ReceivingBus(c: Core, call: Call, ops: seq<Entry>, consumed: bool, e: Bus)
    requires Receiving(c, call, ops, consumed) && IsrOk(c)
    ensures var r := BusStep(c, e);
            Receiving(r, call, ops, consumed) && IsrOk(r) && r.outOfBounds == c.outOfBounds
  {
    match e {
      case Measure(_, _, _) => ReceivingMeasure(c, call, ops, consumed, e);
      case Receive => ReceivingReceive(c, call, ops, consumed);
      case _ => ReceivingSignal(c, call, ops, consumed, e);
    }
  }

  // ----- Steps of the callers ----------------------------------------------

  /** The holder of the mutex stands at pc, or has just given it up. */
  predicate HolderOk(s: State, p: nat) {
    && IsrOk(s.core) && !s.core.outOfBounds
    && (if s.lock == Holds(p) then Phase(s.core, At(s, p), s.history)
        else s.lock == Nobody && Quiet(s.core) && BusOps(s.core.slaves.log) == s.history)
  }

  predicate PcSetup(pc: Pc) {
    pc.SetSlave? || pc.SetLen? || pc.SetCnt? || pc.StoreHigh? || pc.StoreLow? || pc.ClearFifo?
  }

  lemma HolderPrepares(s: State, p: nat, next: Call)
    requires s.lock == Holds(p) && HolderOk(s, p) && PcSetup(At(s, p))
    ensures HolderOk(CallerStep(s, p, next), p)
  {
  }

  lemma HolderSends(s: State, p: nat, next: Call)
    requires s.lock == Holds(p) && HolderOk(s, p) && (At(s, p).StartTx? || At(s, p).WaitEmpty?)
    ensures HolderOk(CallerStep(s, p, next), p)
  {
    if At(s, p).StartTx? {
      assert Message(At(s, p).call)[0..0] == [];
    }
  }

  /** A consumed comp_stop means that the whole message is on the wire. */
  lemma HolderSent(s: State, p: nat, next: Call)
    requires s.lock == Holds(p) && HolderOk(s, p) && At(s, p).WaitStop?
    ensures HolderOk(CallerStep(s, p, next), p)
  {
    var call, c := At(s, p).call, s.core;
    if c.compStop > 0 {
      assert !c.active && c.moved == c.total == |Message(call)|;
      assert c.txFifo == [];
    }
  }

  predicate PcTurnaround(pc: Pc) {
    pc.ReinitStop? || pc.RxLen? || pc.RxCnt?
  }

  lemma HolderTurnsAround(s: State, p: nat, next: Call)
    requires s.lock == Holds(p) && HolderOk(s, p) && PcTurnaround(At(s, p))
    ensures HolderOk(CallerStep(s, p, next), p)
  {
  }

  predicate PcReceiving(pc: Pc) {
    pc.StartRx? || pc.WaitRead? || pc.WaitRxStop?
  }

  lemma HolderReceives(s: State, p: nat, next: Call)
    requires s.lock == Holds(p) && HolderOk(s, p) && PcReceiving(At(s, p))
    ensures HolderOk(CallerStep(s, p, next), p)
  {
  }

  lemma HolderLeaves(s: State, p: nat, next: Call)
    requires s.lock == Holds(p) && HolderOk(s, p)
    requires At(s, p).ReinitRead? || At(s, p).ReinitRxStop? || At(s, p).Unlock?
    ensures HolderOk(CallerStep(s, p, next), p)
  {
  }

  /** A caller outside the mutex does not touch the core. */
  lemma OutsiderStep(s: State, p: nat, next: Call)
    requires !Locked(At(s, p))
    ensures var r := CallerStep(s, p, next);
            && r.core == s.core && r.history == s.history
            && (r.lock == s.lock || (s.lock == Nobody && r.lock == Holds(p) && At(r, p).SetSlave?))
  {
  }

  lemma CallerKeepsInv(s: State, p: nat, next: Call)
    requires Inv(s)
    ensures Inv(CallerStep(s, p, next))
  {
    StepKeepsLock(s, Caller(p, next));
    var pc := At(s, p);
    if !Locked(pc) {
      OutsiderStep(s, p, next);
      if s.lock.Holds? {
        CallerMovesItself(s, p, next, s.lock.p);
      }
    } else {
      assert HolderOk(s, p);
      if PcSetup(pc) {
        HolderPrepares(s, p, next);
      } else if pc.StartTx? || pc.WaitEmpty? {
        HolderSends(s, p, next);
      } else if pc.WaitStop? {
        HolderSent(s, p, next);
      } else if PcTurnaround(pc) {
        HolderTurnsAround(s, p, next);
      } else if PcReceiving(pc) {
        HolderReceives(s, p, next);
      } else {
        HolderLeaves(s, p, next);
      }
      assert HolderOk(CallerStep(s, p, next), p);
    }
  }
}
