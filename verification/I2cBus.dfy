// The I2C driver (cotti_i2c.c) as a step system: callers of cotti_i2c_read and
// cotti_i2c_write, the interrupt handler, the bus controller and the slaves,
// each taking one step at a time in any order.
module I2cBus {

  type Byte = x: int | 0 <= x < 256

  // ----- Slaves ------------------------------------------------------------

  // One register file for each slave address.
  type Registers = map<(Byte, Byte), Byte>

  function Register(regs: Registers, slave: Byte, reg: Byte): Byte {
    if (slave, reg) in regs then regs[(slave, reg)] else 0
  }

  function Pointer(pointers: map<Byte, Byte>, slave: Byte): Byte {
    if slave in pointers then pointers[slave] else 0
  }

  /** What happens to the register files, in the order in which it happens. */
  datatype Entry =
    | Written(slave: Byte, reg: Byte, value: Byte)   // by a write over the bus
    | Read(slave: Byte, reg: Byte, value: Byte)      // by a read over the bus
    | Measured(slave: Byte, reg: Byte, value: Byte)  // by the slave itself

  datatype Slaves = Slaves(regs: Registers, pointers: map<Byte, Byte>, log: seq<Entry>)
  {
    /** The first byte of a write selects a register. */
    function Select(slave: Byte, reg: Byte): Slaves {
      this.(pointers := pointers[slave := reg])
    }

    /** Any further byte goes to the selected register. */
    function Store(slave: Byte, value: Byte): Slaves {
      var reg := Pointer(pointers, slave);
      this.(regs := regs[(slave, reg) := value], log := log + [Written(slave, reg, value)])
    }

    /** The byte a slave answers a read with. */
    function Answer(slave: Byte): Byte {
      Register(regs, slave, Pointer(pointers, slave))
    }

    function AnswerOnce(slave: Byte): Slaves {
      this.(log := log + [Read(slave, Pointer(pointers, slave), Answer(slave))])
    }

    function Measure(slave: Byte, reg: Byte, value: Byte): Slaves {
      this.(regs := regs[(slave, reg) := value], log := log + [Measured(slave, reg, value)])
    }
  }

  // ----- Driver, controller and interrupt handler --------------------------

  datatype Bits = Bits(xrdy: bool, rrdy: bool, ardy: bool)

  // prv_isr: b is the copy of IRQSTATUS it works on.
  datatype Isr =
    | Off
    | Ardy(b: Bits)        // if (irq & ARDY) complete(&comp_stop)
    | Rrdy(b: Bits)        // if (irq & RRDY) g_len--
    | RrdyRead(b: Bits)    // g_read = prv_read()
    | RrdyDone(b: Bits)    // complete(&comp_read)
    | Xrdy(b: Bits)        // if (irq & XRDY) g_len--
    | XrdyWrite(b: Bits)   // prv_write(g_write[g_len])
    | Clear(b: Bits)       // write irq back to IRQSTATUS

  datatype Core = Core(
    // statics of the driver
    gLen: nat, gRead: Byte, gWrite0: Byte, gWrite1: Byte, compRead: nat, compStop: nat,
    isr: Isr, outOfBounds: bool,
    // registers and FIFOs of the controller, and its current transfer
    bits: Bits, slave: Byte, cnt: nat, active: bool, tx: bool, total: nat,
    loaded: nat, moved: nat, txFifo: seq<Byte>, rxFifo: seq<Byte>,
    slaves: Slaves)

  /** g_len is 16 bits wide. */
  function Dec16(n: nat): nat {
    if n == 0 then 0xFFFF else n - 1
  }

  lemma Dec16Wraps(n: nat)
    ensures (Dec16(n) + 1) % 0x1_0000 == n % 0x1_0000
  {
  }

  function IsrStep(c: Core): Core {
    match c.isr
    case Off =>
      if c.bits.xrdy || c.bits.rrdy || c.bits.ardy then c.(isr := Ardy(c.bits)) else c
    case Ardy(b) => c.(isr := Rrdy(b), compStop := if b.ardy then c.compStop + 1 else c.compStop)
    case Rrdy(b) => if b.rrdy then c.(isr := RrdyRead(b), gLen := Dec16(c.gLen)) else c.(isr := Xrdy(b))
    case RrdyRead(b) =>
      if c.rxFifo == [] then c.(isr := RrdyDone(b), gRead := 0)
      else c.(isr := RrdyDone(b), gRead := c.rxFifo[0], rxFifo := c.rxFifo[1..])
    case RrdyDone(b) => c.(isr := Xrdy(b), compRead := c.compRead + 1)
    case Xrdy(b) => if b.xrdy then c.(isr := XrdyWrite(b), gLen := Dec16(c.gLen)) else c.(isr := Clear(b))
    case XrdyWrite(b) =>
      if c.gLen > 1 then c.(isr := Clear(b), outOfBounds := true)
      else c.(isr := Clear(b), loaded := c.loaded + 1,
              txFifo := c.txFifo + [if c.gLen == 0 then c.gWrite0 else c.gWrite1])
    case Clear(b) =>
      c.(isr := Off,
         bits := Bits(c.bits.xrdy && !b.xrdy, c.bits.rrdy && !b.rrdy, c.bits.ardy && !b.ardy))
  }

  // Steps of the controller and of the slaves. An event whose bit is already
  // set merges with it, so the model also covers events that get lost.
  datatype Bus = RaiseXrdy | RaiseRrdy | RaiseArdy | Send | Receive | Measure(of: Byte, reg: Byte, value: Byte)

  function BusStep(c: Core, e: Bus): Core {
    match e
    case RaiseXrdy => if c.active && c.tx && c.loaded < c.total then c.(bits := c.bits.(xrdy := true)) else c
    case RaiseRrdy => if c.rxFifo != [] then c.(bits := c.bits.(rrdy := true)) else c
    case RaiseArdy =>
      if c.active && c.moved >= c.total then c.(bits := c.bits.(ardy := true), active := false) else c
    case Send =>
      if c.active && c.tx && c.txFifo != [] then
        c.(txFifo := c.txFifo[1..], moved := c.moved + 1,
           slaves := if c.moved == 0 then c.slaves.Select(c.slave, c.txFifo[0])
                     else c.slaves.Store(c.slave, c.txFifo[0]))
      else c
    case Receive =>
      if c.active && !c.tx && c.moved < c.total then
        c.(rxFifo := c.rxFifo + [c.slaves.Answer(c.slave)], moved := c.moved + 1,
           slaves := c.slaves.AnswerOnce(c.slave))
      else c
    case Measure(of, reg, value) => c.(slaves := c.slaves.Measure(of, reg, value))
  }

  /** I2C_REG_CON with START: a new transfer of CNT bytes. */
  function Start(c: Core, tx: bool): Core {
    c.(active := true, tx := tx, total := c.cnt, loaded := 0, moved := 0)
  }

  // ----- Callers -----------------------------------------------------------

  datatype Call =
    | WriteCall(value: Byte, reg: Byte, slave: Byte)   // cotti_i2c_write
    | ReadCall(reg: Byte, slave: Byte)                 // cotti_i2c_read

  function Length(call: Call): nat {
    if call.WriteCall? then 2 else 1
  }

  // Where a caller stands. ok is false once a wait has timed out.
  datatype Pc =
    | Idle
    | Polling(call: Call, i: nat)     // prv_wait_for_bus_busy
    | Locking(call: Call)
    | SetSlave(call: Call)
    | SetLen(call: Call)
    | SetCnt(call: Call)
    | StoreHigh(call: Call)
    | StoreLow(call: Call)
    | ClearFifo(call: Call)
    | StartTx(call: Call)
    | WaitEmpty(call: Call)
    | WaitStop(call: Call)
    | ReinitStop(call: Call, ok: bool)
    | RxLen(call: Call)
    | RxCnt(call: Call)
    | StartRx(call: Call)
    | WaitRead(call: Call)
    | WaitRxStop(call: Call)
    | ReinitRead(call: Call, ok: bool)
    | ReinitRxStop(call: Call, ok: bool)
    | Unlock(call: Call, ok: bool)
    | Return(call: Call, ok: bool)
    | Done(result: int)

  /** From mutex_lock to mutex_unlock. */
  predicate Locked(pc: Pc) {
    !pc.Idle? && !pc.Polling? && !pc.Locking? && !pc.Return? && !pc.Done?
  }

  datatype Holder = Nobody | Holds(p: nat)

  // history: the calls that unlocked without a timeout, each with its effect.
  datatype State = State(core: Core, lock: Holder, pcs: map<nat, Pc>, history: seq<Entry>)

  function At(s: State, p: nat): Pc {
    if p in s.pcs then s.pcs[p] else Idle
  }

  /** What a finished call amounts to, as its caller sees it at the unlock. */
  function Effect(call: Call, c: Core): Entry {
    match call
    case WriteCall(value, reg, slave) => Written(slave, reg, value)
    case ReadCall(reg, slave) => Read(slave, reg, c.gRead)
  }

  /**
   * What one step does to the place of a caller and to the core. A wait whose
   * condition does not hold stays where it is; free says whether the mutex is
   * not held; next is the call a caller makes when it has none.
   */
  function Local(pc: Pc, c: Core, free: bool, next: Call): (Pc, Core) {
    match pc
    case Idle => (Polling(next, 0), c)
    case Polling(call, i) =>
      if c.active || !free then (if i == 100 then Done(-1) else Polling(call, i + 1), c)
      else (Locking(call), c)
    case Locking(call) => (if free then SetSlave(call) else pc, c)
    case SetSlave(call) => (SetLen(call), c.(slave := call.slave))
    case SetLen(call) => (SetCnt(call), c.(gLen := Length(call)))
    case SetCnt(call) => (if call.WriteCall? then StoreHigh(call) else StoreLow(call), c.(cnt := Length(call)))
    case StoreHigh(call) => (StoreLow(call), c.(gWrite1 := call.reg))
    case StoreLow(call) => (ClearFifo(call), c.(gWrite0 := if call.WriteCall? then call.value else call.reg))
    case ClearFifo(call) => (StartTx(call), c.(txFifo := [], rxFifo := []))
    case StartTx(call) => (WaitEmpty(call), Start(c, true))
    case WaitEmpty(call) => (if c.gLen == 0 then WaitStop(call) else pc, c)
    case WaitStop(call) =>
      if c.compStop > 0 then (ReinitStop(call, true), c.(compStop := c.compStop - 1)) else (pc, c)
    case ReinitStop(call, ok) =>
      (if ok && call.ReadCall? then RxLen(call) else Unlock(call, ok), c.(compStop := 0))
    case RxLen(call) => (RxCnt(call), c.(gLen := 1))
    case RxCnt(call) => (StartRx(call), c.(cnt := 1))
    case StartRx(call) => (WaitRead(call), Start(c, false))
    case WaitRead(call) =>
      if c.compRead > 0 then (WaitRxStop(call), c.(compRead := c.compRead - 1)) else (pc, c)
    case WaitRxStop(call) =>
      if c.compStop > 0 then (ReinitRead(call, true), c.(compStop := c.compStop - 1)) else (pc, c)
    case ReinitRead(call, ok) => (ReinitRxStop(call, ok), c.(compRead := 0))
    case ReinitRxStop(call, ok) => (Unlock(call, ok), c.(compStop := 0))
    case Unlock(call, ok) => (Return(call, ok), c)
    case Return(call, ok) => (Done(if !ok then -1 else if call.WriteCall? then 0 else c.gRead), c)
    case Done(_) => (Polling(next, 0), c)
  }

  /** One step of caller p. Only Locking and Unlock touch the mutex. */
  function CallerStep(s: State, p: nat, next: Call): State {
    var pc := At(s, p);
    var after := Local(pc, s.core, s.lock == Nobody, next);
    State(after.1,
          if pc.Locking? && s.lock == Nobody then Holds(p) else if pc.Unlock? then Nobody else s.lock,
          s.pcs[p := after.0],
          if pc.Unlock? && pc.ok then s.history + [Effect(pc.call, s.core)] else s.history)
  }

  /** Where a wait of a caller goes when it runs into its time limit. */
  function TimedOut(pc: Pc): Pc {
    match pc
    case WaitEmpty(call) => ReinitStop(call, false)
    case WaitStop(call) => ReinitStop(call, false)
    case WaitRead(call) => ReinitRead(call, false)
    case WaitRxStop(call) => ReinitRead(call, false)
    case _ => pc
  }

  function TimeoutStep(s: State, p: nat): State {
    s.(pcs := s.pcs[p := TimedOut(At(s, p))])
  }

  datatype Action = Caller(p: nat, next: Call) | Timeout(p: nat) | Interrupt | OnBus(e: Bus)

  function Step(s: State, a: Action): State {
    match a
    case Caller(p, next) => CallerStep(s, p, next)
    case Timeout(p) => TimeoutStep(s, p)
    case Interrupt => s.(core := IsrStep(s.core))
    case OnBus(e) => s.(core := BusStep(s.core, e))
  }

  function Run(s: State, actions: seq<Action>): State {
    if actions == [] then s else Step(Run(s, actions[..|actions| - 1]), actions[|actions| - 1])
  }

  predicate TimeoutFree(actions: seq<Action>) {
    forall i :: 0 <= i < |actions| ==> !actions[i].Timeout?
  }

  /** After cotti_i2c_init, with slaves that hold regs. */
  function Initial(regs: Registers): State {
    State(
      Core(0, 0, 0, 0, 0, 0, Off, false,
           Bits(false, false, false), 0, 0, false, true, 0, 0, 0, [], [], Slaves(regs, map[], [])),
      Nobody, map[], [])
  }
}
