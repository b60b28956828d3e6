// cotti_i2c_read returns g_read after it has released the mutex. This module
// follows reads that nothing disturbs from beginning to end, and shows what two
// of them can do to each other at that return.
module I2cReturn {
  import opened I2cBus
  import opened I2cSafety
  import opened I2cLinearizability

  // ----- Runs that lead somewhere ------------------------------------------

  ghost predicate Leads(s: State, r: State) {
    exists actions :: TimeoutFree(actions) && r == Run(s, actions)
  }

  lemma LeadsNowhere(s: State)
    ensures Leads(s, s)
  {
    assert TimeoutFree([]) && s == Run(s, []);
  }

  lemma LeadsOn(s: State, r: State, a: Action)
    requires Leads(s, r) && !a.Timeout?
    ensures Leads(s, Step(r, a))
  {
    var actions :| TimeoutFree(actions) && r == Run(s, actions);
    assert (actions + [a])[..|actions|] == actions;
    assert TimeoutFree(actions + [a]) && Step(r, a) == Run(s, actions + [a]);
  }

  lemma {:induction false} RunConcat(s: State, a: seq<Action>, b: seq<Action>)
    ensures Run(s, a + b) == Run(Run(s, a), b)
  {
    if b == [] {
      assert a + b == a;
    } else {
      assert (a + b)[..|a + b| - 1] == a + b[..|b| - 1];
      RunConcat(s, a, b[..|b| - 1]);
    }
  }

  lemma LeadsThrough(s: State, m: State, r: State)
    requires Leads(s, m) && Leads(m, r)
    ensures Leads(s, r)
  {
    var a :| TimeoutFree(a) && m == Run(s, a);
    var b :| TimeoutFree(b) && r == Run(m, b);
    RunConcat(s, a, b);
    assert TimeoutFree(a + b) && r == Run(s, a + b);
  }

  // Interrupts (no bus step) and bus steps only act on the core.
  datatype Turn = Isr | Wire(e: Bus)

  function TurnStep(c: Core, t: Turn): Core {
    match t
    case Isr => IsrStep(c)
    case Wire(e) => BusStep(c, e)
  }

  function Turns(c: Core, ts: seq<Turn>): Core {
    if ts == [] then c else TurnStep(Turns(c, ts[..|ts| - 1]), ts[|ts| - 1])
  }

  ghost predicate CoreLeads(c: Core, d: Core) {
    exists ts :: d == Turns(c, ts)
  }

  lemma CoreNowhere(c: Core)
    ensures CoreLeads(c, c)
  {
    assert c == Turns(c, []);
  }

  lemma CoreTurn(c: Core, d: Core, t: Turn, e: Core)
    requires CoreLeads(c, d) && TurnStep(d, t) == e
    ensures CoreLeads(c, e)
  {
    var ts :| d == Turns(c, ts);
    assert (ts + [t])[..|ts|] == ts;
    assert e == Turns(c, ts + [t]);
  }

  lemma {:induction false} TurnsLead(s: State, ts: seq<Turn>)
    ensures Leads(s, s.(core := Turns(s.core, ts)))
  {
    if ts == [] {
      LeadsNowhere(s);
    } else {
      var t := ts[|ts| - 1];
      TurnsLead(s, ts[..|ts| - 1]);
      LeadsOn(s, s.(core := Turns(s.core, ts[..|ts| - 1])), if t.Isr? then Interrupt else OnBus(t.e));
    }
  }

  // ----- One undisturbed read ----------------------------------------------

  const NONE := Bits(false, false, false)

  /** Nothing is in flight and the handler has returned. */
  predicate Rested(c: Core) {
    !c.active && c.isr == Off && c.bits == NONE && c.compStop == 0 && c.compRead == 0
    && c.txFifo == [] && c.rxFifo == []
  }

  /** From s to r only caller p has moved, to pc, with the given core. */
  ghost predicate Moved(s: State, r: State, p: nat, pc: Pc, core: Core) {
    && Leads(s, r) && At(r, p) == pc && r.core == core && r.history == s.history
    && (forall q :: q != p ==> At(r, q) == At(s, q))
  }

  lemma Advance(s: State, r: State, p: nat, next: Call, pc: Pc, pc': Pc, core: Core, core': Core) returns (t: State)
    requires Moved(s, r, p, pc, core) && !pc.Unlock?
    requires Local(pc, core, r.lock == Nobody, next) == (pc', core')
    ensures Moved(s, t, p, pc', core')
    ensures t.lock == if pc.Locking? && r.lock == Nobody then Holds(p) else r.lock
  {
    t := CallerStep(r, p, next);
    LeadsOn(s, r, Caller(p, next));
    forall q | q != p ensures At(t, q) == At(s, q) {
      CallerMovesItself(r, p, next, q);
    }
  }

  lemma Locks(s: State, p: nat, call: Call) returns (r: State)
    requires (At(s, p) == Idle || At(s, p).Done?) && s.lock == Nobody && Rested(s.core)
    ensures Moved(s, r, p, SetSlave(call), s.core) && r.lock == Holds(p)
  {
    LeadsNowhere(s);
    var c := s.core;
    r := Advance(s, s, p, call, At(s, p), Polling(call, 0), c, c);
    r := Advance(s, r, p, call, Polling(call, 0), Locking(call), c, c);
    r := Advance(s, r, p, call, Locking(call), SetSlave(call), c, c);
  }

  lemma SetsUp(s: State, b: State, p: nat, call: Call) returns (r: State)
    requires call.ReadCall? && Moved(s, b, p, SetSlave(call), b.core) && b.lock == Holds(p)
    ensures Moved(s, r, p, StoreLow(call), b.core.(slave := call.slave, gLen := 1, cnt := 1))
    ensures r.lock == Holds(p)
  {
    var c := b.core;
    var c1 := c.(slave := call.slave);
    var c2 := c1.(gLen := 1);
    var c3 := c2.(cnt := 1);
    r := Advance(s, b, p, call, SetSlave(call), SetLen(call), c, c1);
    r := Advance(s, r, p, call, SetLen(call), SetCnt(call), c1, c2);
    r := Advance(s, r, p, call, SetCnt(call), StoreLow(call), c2, c3);
  }

  lemma Starts(s: State, b: State, p: nat, call: Call) returns (r: State)
    requires call.ReadCall? && Moved(s, b, p, StoreLow(call), b.core) && b.lock == Holds(p)
    ensures Moved(s, r, p, WaitEmpty(call), Start(b.core.(gWrite0 := call.reg, txFifo := [], rxFifo := []), true))
    ensures r.lock == Holds(p)
  {
    var c := b.core;
    var c1 := c.(gWrite0 := call.reg);
    var c2 := c1.(txFifo := [], rxFifo := []);
    r := Advance(s, b, p, call, StoreLow(call), ClearFifo(call), c, c1);
    r := Advance(s, r, p, call, ClearFifo(call), StartTx(call), c1, c2);
    r := Advance(s, r, p, call, StartTx(call), WaitEmpty(call), c2, Start(c2, true));
  }

  lemma CoreMoves(s: State, b: State, p: nat, pc: Pc, d: Core) returns (r: State)
    requires Moved(s, b, p, pc, b.core) && CoreLeads(b.core, d)
    ensures r == b.(core := d) && Moved(s, r, p, pc, d)
  {
    r := b.(core := d);
    var ts :| d == Turns(b.core, ts);
    TurnsLead(b, ts);
    LeadsThrough(s, b, r);
  }

  // What the controller and the handler do while the caller waits.

  /** The handler takes its copy of the status and reaches the RRDY test. */
  lemma Samples(c: Core, d: Core)
    requires CoreLeads(c, d) && d.isr == Off && d.bits != NONE
    ensures CoreLeads(c, d.(isr := Rrdy(d.bits), compStop := if d.bits.ardy then d.compStop + 1 else d.compStop))
  {
    CoreTurn(c, d, Isr, d.(isr := Ardy(d.bits)));
    CoreTurn(c, d.(isr := Ardy(d.bits)), Isr,
             d.(isr := Rrdy(d.bits), compStop := if d.bits.ardy then d.compStop + 1 else d.compStop));
  }

  /** Without RRDY it goes on to the XRDY test. */
  lemma SkipsRrdy(c: Core, d: Core)
    requires CoreLeads(c, d) && d.isr.Rrdy? && !d.isr.b.rrdy
    ensures CoreLeads(c, d.(isr := Xrdy(d.isr.b)))
  {
    CoreTurn(c, d, Isr, d.(isr := Xrdy(d.isr.b)));
  }

  /** Without XRDY it acknowledges what it has handled and ends. */
  lemma Ends(c: Core, d: Core)
    requires CoreLeads(c, d) && d.isr.Xrdy? && !d.isr.b.xrdy && d.bits == d.isr.b
    ensures CoreLeads(c, d.(isr := Off, bits := NONE))
  {
    CoreTurn(c, d, Isr, d.(isr := Clear(d.isr.b)));
    CoreTurn(c, d.(isr := Clear(d.isr.b)), Isr, d.(isr := Off, bits := NONE));
  }

  /** With XRDY and one byte left it loads that byte first. */
  lemma LoadsLast(c: Core, d: Core)
    requires CoreLeads(c, d) && d.isr == Xrdy(d.bits) && d.bits.xrdy && d.gLen == 1
    ensures CoreLeads(c, d.(isr := Off, bits := NONE, gLen := 0, loaded := d.loaded + 1, txFifo := d.txFifo + [d.gWrite0]))
  {
    var counted := d.(gLen := 0);
    var loaded := counted.(loaded := d.loaded + 1, txFifo := d.txFifo + [d.gWrite0]);
    CoreTurn(c, d, Isr, counted.(isr := XrdyWrite(d.bits)));
    CoreTurn(c, counted.(isr := XrdyWrite(d.bits)), Isr, loaded.(isr := Clear(d.bits)));
    CoreTurn(c, loaded.(isr := Clear(d.bits)), Isr, loaded.(isr := Off, bits := NONE));
  }

  /** XRDY, and the handler loads the only byte. */
  lemma LoadsOne(c: Core)
    requires c.isr == Off && c.bits == NONE
    requires c.active && c.tx && c.loaded == 0 && c.total == 1 && c.gLen == 1 && c.txFifo == []
    ensures CoreLeads(c, c.(gLen := 0, loaded := 1, txFifo := [c.gWrite0]))
  {
    var raised := c.(bits := Bits(true, false, false));
    CoreNowhere(c);
    CoreTurn(c, c, Wire(RaiseXrdy), raised);
    Samples(c, raised);
    SkipsRrdy(c, raised.(isr := Rrdy(raised.bits)));
    LoadsLast(c, raised.(isr := Xrdy(raised.bits)));
  }

  /** The byte goes out: it selects the register. */
  lemma SendsOne(c: Core, byte: Byte)
    requires c.active && c.tx && c.moved == 0 && c.txFifo == [byte]
    ensures CoreLeads(c, c.(moved := 1, txFifo := [], slaves := c.slaves.Select(c.slave, byte)))
  {
    CoreNowhere(c);
    CoreTurn(c, c, Wire(Send), c.(moved := 1, txFifo := [], slaves := c.slaves.Select(c.slave, byte)));
  }

  /** ARDY, and the handler completes comp_stop. */
  lemma Stops(c: Core)
    requires c.isr == Off && c.bits == NONE && c.compStop == 0 && c.active && c.moved == c.total
    ensures CoreLeads(c, c.(active := false, compStop := 1))
  {
    var raised := c.(bits := Bits(false, false, true), active := false);
    var stopped := raised.(compStop := 1);
    CoreNowhere(c);
    CoreTurn(c, c, Wire(RaiseArdy), raised);
    Samples(c, raised);
    SkipsRrdy(c, stopped.(isr := Rrdy(raised.bits)));
    Ends(c, stopped.(isr := Xrdy(raised.bits)));
  }

  function Requested(c: Core): Byte {
    c.slaves.Answer(c.slave)
  }

  /** The slave answers and RRDY is raised. */
  lemma Answers(c: Core)
    requires c.active && !c.tx && c.moved == 0 && c.total == 1 && c.rxFifo == [] && c.bits == NONE
    ensures CoreLeads(c, c.(moved := 1, rxFifo := [Requested(c)], bits := Bits(false, true, false),
                            slaves := c.slaves.AnswerOnce(c.slave)))
  {
    var answered := c.(moved := 1, rxFifo := [Requested(c)],
                       slaves := c.slaves.AnswerOnce(c.slave));
    CoreNowhere(c);
    CoreTurn(c, c, Wire(Receive), answered);
    CoreTurn(c, answered, Wire(RaiseRrdy), answered.(bits := Bits(false, true, false)));
  }

  /** With RRDY it fetches the byte and completes comp_read. */
  lemma FetchesByte(c: Core, d: Core, byte: Byte)
    requires CoreLeads(c, d) && d.isr == Rrdy(d.bits) && d.bits.rrdy && d.gLen == 1 && d.rxFifo == [byte]
    ensures CoreLeads(c, d.(isr := Xrdy(d.bits), gLen := 0, gRead := byte, rxFifo := [], compRead := d.compRead + 1))
  {
    var counted := d.(gLen := 0);
    var fetched := counted.(gRead := byte, rxFifo := []);
    CoreTurn(c, d, Isr, counted.(isr := RrdyRead(d.bits)));
    CoreTurn(c, counted.(isr := RrdyRead(d.bits)), Isr, fetched.(isr := RrdyDone(d.bits)));
    CoreTurn(c, fetched.(isr := RrdyDone(d.bits)), Isr, fetched.(isr := Xrdy(d.bits), compRead := d.compRead + 1));
  }

  lemma Fetches(c: Core, byte: Byte)
    requires c.isr == Off && c.bits == Bits(false, true, false) && c.compRead == 0
    requires c.rxFifo == [byte] && c.gLen == 1
    ensures CoreLeads(c, c.(bits := NONE, gLen := 0, gRead := byte, rxFifo := [], compRead := 1))
  {
    CoreNowhere(c);
    Samples(c, c);
    FetchesByte(c, c.(isr := Rrdy(c.bits)), byte);
    Ends(c, c.(isr := Xrdy(c.bits), gLen := 0, gRead := byte, rxFifo := [], compRead := 1));
  }

  // ----- A whole read, undisturbed -----------------------------------------

  lemma CoreThrough(c: Core, d: Core, e: Core)
    requires CoreLeads(c, d) && CoreLeads(d, e)
    ensures CoreLeads(c, e)
  {
    var a :| d == Turns(c, a);
    var b :| e == Turns(d, b);
    TurnsConcat(c, a, b);
    assert e == Turns(c, a + b);
  }

  lemma {:induction false} TurnsConcat(c: Core, a: seq<Turn>, b: seq<Turn>)
    ensures Turns(c, a + b) == Turns(Turns(c, a), b)
  {
    if b == [] {
      assert a + b == a;
    } else {
      assert (a + b)[..|a + b| - 1] == a + b[..|b| - 1];
      TurnsConcat(c, a, b[..|b| - 1]);
    }
  }

  /** The transmission of a register address, from START to comp_stop. */
  lemma Transmits(c: Core)
    requires c.isr == Off && c.bits == NONE && c.compStop == 0
    requires c.active && c.tx && c.loaded == 0 && c.moved == 0 && c.total == 1 && c.gLen == 1 && c.txFifo == []
    ensures CoreLeads(c, c.(gLen := 0, loaded := 1, moved := 1, slaves := c.slaves.Select(c.slave, c.gWrite0),
                            active := false, compStop := 1))
  {
    var loaded := c.(gLen := 0, loaded := 1, txFifo := [c.gWrite0]);
    var sent := loaded.(moved := 1, txFifo := [], slaves := c.slaves.Select(c.slave, c.gWrite0));
    LoadsOne(c);
    SendsOne(loaded, c.gWrite0);
    CoreThrough(c, loaded, sent);
    Stops(sent);
    CoreThrough(c, sent, sent.(active := false, compStop := 1));
  }

  /** The core after the reception of one byte. */
  function Received(c: Core): Core {
    c.(moved := 1, gLen := 0, gRead := Requested(c), compRead := 1, active := false, compStop := 1,
       slaves := c.slaves.AnswerOnce(c.slave))
  }

  lemma Receives(c: Core)
    requires c.isr == Off && c.bits == NONE && c.compStop == 0 && c.compRead == 0
    requires c.active && !c.tx && c.moved == 0 && c.total == 1 && c.gLen == 1 && c.rxFifo == []
    ensures CoreLeads(c, Received(c))
  {
    var byte := Requested(c);
    var answered := c.(moved := 1, rxFifo := [byte], bits := Bits(false, true, false),
                       slaves := c.slaves.AnswerOnce(c.slave));
    var fetched := answered.(bits := NONE, gLen := 0, gRead := byte, rxFifo := [], compRead := 1);
    Answers(c);
    Fetches(answered, byte);
    CoreThrough(c, answered, fetched);
    Stops(fetched);
    CoreThrough(c, fetched, Received(c));
  }

  /** The caller turns from sending to receiving. */
  lemma TurnsAround(s: State, b: State, p: nat, call: Call) returns (r: State)
    requires call.ReadCall? && Moved(s, b, p, WaitEmpty(call), b.core) && b.lock == Holds(p)
    requires b.core.gLen == 0 && b.core.compStop == 1
    ensures Moved(s, r, p, RxLen(call), b.core.(compStop := 0)) && r.lock == Holds(p)
  {
    var c := b.core;
    r := Advance(s, b, p, call, WaitEmpty(call), WaitStop(call), c, c);
    r := Advance(s, r, p, call, WaitStop(call), ReinitStop(call, true), c, c.(compStop := 0));
    r := Advance(s, r, p, call, ReinitStop(call, true), RxLen(call), c.(compStop := 0), c.(compStop := 0));
  }

  lemma SetsRxCount(s: State, b: State, p: nat, call: Call) returns (r: State)
    requires Moved(s, b, p, RxLen(call), b.core) && b.lock == Holds(p)
    ensures Moved(s, r, p, StartRx(call), b.core.(gLen := 1, cnt := 1)) && r.lock == Holds(p)
  {
    var c1 := b.core.(gLen := 1);
    r := Advance(s, b, p, call, RxLen(call), RxCnt(call), b.core, c1);
    r := Advance(s, r, p, call, RxCnt(call), StartRx(call), c1, c1.(cnt := 1));
  }

  lemma StartsReception(s: State, b: State, p: nat, call: Call) returns (r: State)
    requires Moved(s, b, p, RxLen(call), b.core) && b.lock == Holds(p)
    ensures Moved(s, r, p, WaitRead(call), Start(b.core.(gLen := 1, cnt := 1), false)) && r.lock == Holds(p)
  {
    var c := b.core.(gLen := 1, cnt := 1);
    r := SetsRxCount(s, b, p, call);
    r := Advance(s, r, p, call, StartRx(call), WaitRead(call), c, Start(c, false));
  }

  lemma Consumes(s: State, b: State, p: nat, call: Call) returns (r: State)
    requires Moved(s, b, p, WaitRead(call), b.core) && b.lock == Holds(p)
    requires b.core.compRead == 1 && b.core.compStop == 1
    ensures Moved(s, r, p, ReinitRead(call, true), b.core.(compRead := 0, compStop := 0)) && r.lock == Holds(p)
  {
    var c1 := b.core.(compRead := 0);
    r := Advance(s, b, p, call, WaitRead(call), WaitRxStop(call), b.core, c1);
    r := Advance(s, r, p, call, WaitRxStop(call), ReinitRead(call, true), c1, c1.(compStop := 0));
  }

  /** r is s after a call of p has unlocked: it is about to return, and only it has moved. */
  ghost predicate Unlocked(s: State, r: State, p: nat, call: Call) {
    && Leads(s, r) && At(r, p) == Return(call, true) && r.lock == Nobody
    && (forall q :: q != p ==> At(r, q) == At(s, q))
  }

  lemma Unlocks(s: State, b: State, p: nat, call: Call) returns (r: State)
    requires Moved(s, b, p, ReinitRead(call, true), b.core) && b.lock == Holds(p)
    requires b.core.compRead == 0 && b.core.compStop == 0
    ensures Unlocked(s, r, p, call) && r.core == b.core && r.history == s.history + [Effect(call, b.core)]
  {
    var c := b.core;
    r := Advance(s, b, p, call, ReinitRead(call, true), ReinitRxStop(call, true), c, c);
    r := Advance(s, r, p, call, ReinitRxStop(call, true), Unlock(call, true), c, c);
    r := UnlocksNow(s, r, p, call);
  }

  lemma UnlocksNow(s: State, b: State, p: nat, call: Call) returns (r: State)
    requires Moved(s, b, p, Unlock(call, true), b.core)
    ensures Unlocked(s, r, p, call) && r.core == b.core && r.history == s.history + [Effect(call, b.core)]
  {
    r := CallerStep(b, p, call);
    LeadsOn(s, b, Caller(p, call));
    forall q | q != p ensures At(r, q) == At(s, q) {
      CallerMovesItself(b, p, call, q);
    }
  }

  /**
   * A read that starts on an idle bus can always run to its unlock, and then
   * g_read is the requested register and the bus is idle again.
   */
  lemma UndisturbedRead(s: State, p: nat, reg: Byte, slave: Byte) returns (r: State)
    requires (At(s, p) == Idle || At(s, p).Done?) && s.lock == Nobody && Rested(s.core)
    ensures Unlocked(s, r, p, ReadCall(reg, slave)) && Rested(r.core)
    ensures r.core.slaves.regs == s.core.slaves.regs && r.core.gRead == Register(s.core.slaves.regs, slave, reg)
    ensures r.history == s.history + [Read(slave, reg, r.core.gRead)]
    ensures r.core.slaves.log == s.core.slaves.log + [Read(slave, reg, r.core.gRead)]
  {
    var call := ReadCall(reg, slave);
    var a := Locks(s, p, call);
    a := SetsUp(s, a, p, call);
    a := Starts(s, a, p, call);
    Transmits(a.core);
    var sent := a.core.(gLen := 0, loaded := 1, moved := 1, slaves := a.core.slaves.Select(slave, reg),
                        active := false, compStop := 1);
    a := CoreMoves(s, a, p, WaitEmpty(call), sent);
    a := TurnsAround(s, a, p, call);
    a := StartsReception(s, a, p, call);
    assert Requested(a.core) == Register(s.core.slaves.regs, slave, reg);
    Receives(a.core);
    a := CoreMoves(s, a, p, WaitRead(call), Received(a.core));
    a := Consumes(s, a, p, call);
    r := Unlocks(s, a, p, call);
  }

  // ----- Two readers at the return -----------------------------------------

  lemma LeadsIsReachable(regs: Registers, s: State, r: State)
    requires Reachable(regs, s) && Leads(s, r)
    ensures Reachable(regs, r)
  {
    var a :| TimeoutFree(a) && s == Run(Initial(regs), a);
    var b :| TimeoutFree(b) && r == Run(s, b);
    RunConcat(Initial(regs), a, b);
    assert TimeoutFree(a + b) && r == Run(Initial(regs), a + b);
  }

  lemma InitialReachable(regs: Registers)
    ensures Reachable(regs, Initial(regs))
  {
    assert TimeoutFree([]) && Initial(regs) == Run(Initial(regs), []);
  }

  /** The return of a read hands out g_read as it is by then. */
  lemma Returns(n: State, p: nat, call: Call) returns (s: State)
    requires At(n, p) == Return(call, true) && call.ReadCall?
    ensures Leads(n, s) && At(s, p) == Done(n.core.gRead)
    ensures s.core == n.core && s.lock == n.lock && s.history == n.history
    ensures forall q :: q != p ==> At(s, q) == At(n, q)
  {
    s := CallerStep(n, p, call);
    LeadsNowhere(n);
    LeadsOn(n, n, Caller(p, call));
    forall q | q != p ensures At(s, q) == At(n, q) {
      CallerMovesItself(n, p, call, q);
    }
  }

  /** The first read of a run. */
  lemma FirstRead(regs: Registers, p: nat, mine: Call) returns (m: State)
    requires mine.ReadCall?
    ensures Reachable(regs, m) && Unlocked(Initial(regs), m, p, mine) && Rested(m.core)
    ensures m.core.slaves.regs == regs && m.core.gRead == Register(regs, mine.slave, mine.reg)
    ensures m.history == [Read(mine.slave, mine.reg, m.core.gRead)]
  {
    InitialReachable(regs);
    m := UndisturbedRead(Initial(regs), p, mine.reg, mine.slave);
    LeadsIsReachable(regs, Initial(regs), m);
  }

  lemma StartIsIdle(regs: Registers, p: nat)
    ensures At(Initial(regs), p) == Idle
  {
  }

  /** p has unlocked, at m; then q reads, up to its unlock, at n. */
  lemma ReadsBetween(regs: Registers, p: nat, q: nat, mine: Call, other: Call) returns (m: State, n: State)
    requires p != q && mine.ReadCall? && other.ReadCall?
    ensures Reachable(regs, m) && At(m, p) == Return(mine, true)
    ensures m.core.gRead == Register(regs, mine.slave, mine.reg)
    ensures Leads(m, n) && At(n, p) == Return(mine, true)
    ensures n.core.gRead == Register(regs, other.slave, other.reg)
    ensures n.history == [Read(mine.slave, mine.reg, m.core.gRead), Read(other.slave, other.reg, n.core.gRead)]
    ensures forall o :: o != p && o != q ==> At(n, o) == Idle
  {
    m := FirstRead(regs, p, mine);
    StartIsIdle(regs, q);
    n := UndisturbedRead(m, q, other.reg, other.slave);
    forall o | o != p && o != q ensures At(n, o) == Idle {
      StartIsIdle(regs, o);
    }
  }

  /**
   * For any two readers p and q of any two registers there is a run in which p
   * unlocks, at m, with its own register in g_read, and yet returns, at s, the
   * register that q asked for: a wrong value whenever the registers differ.
   */
  lemma ReturnCanBeStolen(regs: Registers, p: nat, q: nat, mine: Call, other: Call) returns (m: State, s: State)
    requires p != q && mine.ReadCall? && other.ReadCall?
    ensures Reachable(regs, m) && At(m, p) == Return(mine, true)
    ensures m.core.gRead == Register(regs, mine.slave, mine.reg)
    ensures Leads(m, s) && At(s, p) == Done(Register(regs, other.slave, other.reg))
  {
    var n;
    m, n := ReadsBetween(regs, p, q, mine, other);
    s := Returns(n, p, mine);
    LeadsThrough(m, n, s);
  }
}
