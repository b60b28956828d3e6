// Why the results of I2cLinearizability.dfy are about runs without timeouts:
// one timeout leaves a transfer behind that can answer for the next caller, so
// runs linearize exactly when nobody times out.
module I2cTimeout {
  import opened I2cBus
  import opened I2cSafety
  import opened I2cLinearizability
  import opened I2cReturn

  lemma Stands(s: State, p: nat)
    ensures Moved(s, s, p, At(s, p), s.core)
  {
    LeadsNowhere(s);
  }

  /** q has seen a free bus and is about to lock. */
  lemma Polls(s: State, q: nat, call: Call) returns (r: State)
    requires At(s, q) == Idle && s.lock == Nobody && Rested(s.core)
    ensures Moved(s, r, q, Locking(call), s.core) && r.lock == Nobody
  {
    Stands(s, q);
    r := Advance(s, s, q, call, Idle, Polling(call, 0), s.core, s.core);
    r := Advance(s, r, q, call, Polling(call, 0), Locking(call), s.core, s.core);
  }

  /** p has given START and waits. */
  lemma Begins(s: State, p: nat, call: Call) returns (r: State)
    requires At(s, p) == Idle && s.lock == Nobody && Rested(s.core) && call.ReadCall?
    ensures Moved(s, r, p, WaitEmpty(call), Addressing(s.core, call.reg, call.slave)) && r.lock == Holds(p)
  {
    r := Locks(s, p, call);
    r := SetsUp(s, r, p, call);
    r := Starts(s, r, p, call);
  }

  function Addressing(c: Core, reg: Byte, slave: Byte): Core {
    Start(c.(slave := slave, gLen := 1, cnt := 1, gWrite0 := reg, txFifo := [], rxFifo := []), true)
  }

  /** After its timeout p gives the mutex back; the transfer goes on. */
  lemma GivesUp(s: State, p: nat, call: Call) returns (r: State)
    requires At(s, p) == ReinitStop(call, false) && s.lock == Holds(p) && s.core.compStop == 0
    ensures Leads(s, r) && r.core == s.core && r.lock == Nobody && r.history == s.history
    ensures forall q :: q != p ==> At(r, q) == At(s, q)
  {
    Stands(s, p);
    var b := Advance(s, s, p, call, ReinitStop(call, false), Unlock(call, false), s.core, s.core);
    r := CallerStep(b, p, call);
    LeadsOn(s, b, Caller(p, call));
    forall q | q != p ensures At(r, q) == At(s, q) {
      CallerMovesItself(b, p, call, q);
    }
  }

  /** The abandoned transfer ends: its register is selected, its comp_stop is left over. */
  function Abandoned(c: Core): Core {
    c.(gLen := 0, loaded := 1, moved := 1, slaves := c.slaves.Select(c.slave, c.gWrite0),
       active := false, compStop := 1)
  }

  lemma AbandonedEnds(s: State) returns (r: State)
    requires s.core.isr == Off && s.core.bits == NONE && s.core.compStop == 0
    requires s.core.active && s.core.tx && s.core.loaded == 0 && s.core.moved == 0
    requires s.core.total == 1 && s.core.gLen == 1 && s.core.txFifo == []
    ensures r == s.(core := Abandoned(s.core)) && Leads(s, r)
  {
    Transmits(s.core);
    var ts :| Abandoned(s.core) == Turns(s.core, ts);
    TurnsLead(s, ts);
    r := s.(core := Abandoned(s.core));
  }

  /** With a comp_stop left over, q takes its own address for sent before it is. */
  lemma Misled(s: State, q: nat, call: Call) returns (r: State)
    requires At(s, q) == Locking(call) && call.ReadCall? && s.lock == Nobody
    requires s.core.isr == Off && s.core.bits == NONE && s.core.compStop == 1 && s.core.compRead == 0
    ensures Unlocked(s, r, q, call)
    ensures r.core.gRead == s.core.slaves.Answer(call.slave)
    ensures r.history == s.history + [Read(call.slave, call.reg, r.core.gRead)]
    ensures r.core.slaves.log
         == s.core.slaves.log + [Read(call.slave, Pointer(s.core.slaves.pointers, call.slave), r.core.gRead)]
  {
    Stands(s, q);
    r := Advance(s, s, q, call, Locking(call), SetSlave(call), s.core, s.core);
    r := SetsUp(s, r, q, call);
    r := Starts(s, r, q, call);
    LoadsOne(r.core);
    r := CoreMoves(s, r, q, WaitEmpty(call), r.core.(gLen := 0, loaded := 1, txFifo := [r.core.gWrite0]));
    r := TurnsAround(s, r, q, call);
    r := StartsReception(s, r, q, call);
    Receives(r.core);
    r := CoreMoves(s, r, q, WaitRead(call), Received(r.core));
    r := Consumes(s, r, q, call);
    r := Unlocks(s, r, q, call);
  }

  /** p waits for its transmission, q for the mutex. */
  lemma BothCall(regs: Registers, p: nat, q: nat, mine: Call, other: Call) returns (s: State)
    requires p != q && mine.ReadCall?
    ensures Reachable(regs, s) && At(s, p) == WaitEmpty(mine) && At(s, q) == Locking(other) && s.lock == Holds(p)
    ensures s.core == Addressing(Initial(regs).core, mine.reg, mine.slave) && s.history == []
  {
    InitialReachable(regs);
    var a := Polls(Initial(regs), q, other);
    LeadsIsReachable(regs, Initial(regs), a);
    s := Begins(a, p, mine);
    LeadsIsReachable(regs, a, s);
  }

  /** p gives up, and q reads. */
  lemma NextReader(late: State, p: nat, q: nat, mine: Call, other: Call) returns (t: State)
    requires p != q && mine.ReadCall? && other.ReadCall? && mine.slave == other.slave
    requires At(late, p) == ReinitStop(mine, false) && At(late, q) == Locking(other) && late.lock == Holds(p)
    requires late.history == [] && Slaves(late.core.slaves.regs, map[], []) == late.core.slaves
    requires late.core == Addressing(Initial(late.core.slaves.regs).core, mine.reg, mine.slave)
    ensures Leads(late, t) && At(t, q) == Return(other, true) && t.lock == Nobody
    ensures t.core.gRead == Register(late.core.slaves.regs, mine.slave, mine.reg)
    ensures t.history == [Read(other.slave, other.reg, t.core.gRead)]
    ensures t.core.slaves.log == [Read(mine.slave, mine.reg, t.core.gRead)]
  {
    var b := GivesUp(late, p, mine);
    var m := AbandonedEnds(b);
    t := Misled(m, q, other);
    LeadsThrough(late, b, m);
    LeadsThrough(late, m, t);
  }

  /**
   * For any two readers p and q of one slave there is a run in which p waits
   * at s, times out, and q then reads with success, but gets the register that
   * p had asked for.
   */
  lemma OneTimeoutMisleadsTheNextReader(regs: Registers, p: nat, q: nat, mine: Call, other: Call)
    returns (s: State, t: State)
    requires p != q && mine.ReadCall? && other.ReadCall? && mine.slave == other.slave
    ensures Reachable(regs, s) && At(s, p) == WaitEmpty(mine)
    ensures Leads(Step(s, Timeout(p)), t) && At(t, q) == Return(other, true)
    ensures t.core.gRead == Register(regs, mine.slave, mine.reg)
    ensures t.history == [Read(other.slave, other.reg, t.core.gRead)]
    ensures t.core.slaves.log == [Read(mine.slave, mine.reg, t.core.gRead)]
    ensures t.lock == Nobody
  {
    s := BothCall(regs, p, q, mine, other);
    CallerMovesItself(s, p, mine, q);
    t := NextReader(Step(s, Timeout(p)), p, q, mine, other);
  }

  // ----- Exactly when timeouts do harm -------------------------------------

  /** Only the given callers ever run into a time limit. */
  predicate OnlyLate(actions: seq<Action>, late: set<nat>) {
    forall i :: 0 <= i < |actions| && actions[i].Timeout? ==> actions[i].p in late
  }

  /** The bus accesses are the finished calls whenever the mutex is free. */
  ghost predicate AlwaysLinearizes(late: set<nat>) {
    forall regs: Registers, actions: seq<Action> :: OnlyLate(actions, late) ==> Linear(Run(Initial(regs), actions))
  }

  predicate Linear(s: State) {
    s.lock == Nobody ==> BusOps(s.core.slaves.log) == s.history
  }

  /**
   * Much less: every call that finished with success has an access of its own
   * kind and result on the bus, whatever else there is and in any order.
   */
  ghost predicate AlwaysExplained(late: set<nat>) {
    forall regs: Registers, actions: seq<Action> :: OnlyLate(actions, late) ==> Explained(Run(Initial(regs), actions))
  }

  predicate Explained(s: State) {
    forall i :: 0 <= i < |s.history| ==> s.history[i] in BusOps(s.core.slaves.log)
  }

  lemma WithoutTimeouts(regs: Registers, actions: seq<Action>)
    requires TimeoutFree(actions)
    ensures Linear(Run(Initial(regs), actions)) && Explained(Run(Initial(regs), actions))
  {
    var s := Run(Initial(regs), actions);
    assert Reachable(regs, s);
    Linearizes(regs, s);
  }

  lemma OnlyOneLate(a: seq<Action>, p: nat, b: seq<Action>, late: set<nat>)
    requires TimeoutFree(a) && TimeoutFree(b) && p in late
    ensures OnlyLate(a + [Timeout(p)] + b, late)
  {
  }

  lemma RunThrough(s: State, a: seq<Action>, p: nat, b: seq<Action>)
    ensures Run(s, a + [Timeout(p)] + b) == Run(Step(Run(s, a), Timeout(p)), b)
  {
    var longer := a + [Timeout(p)];
    assert longer[..|longer| - 1] == a;
    RunConcat(s, longer, b);
  }

  /** A run with one timeout, of p. */
  lemma OneTimeoutRun(regs: Registers, s: State, p: nat, t: State, late: set<nat>) returns (actions: seq<Action>)
    requires Reachable(regs, s) && Leads(Step(s, Timeout(p)), t) && p in late
    ensures OnlyLate(actions, late) && t == Run(Initial(regs), actions)
  {
    var a :| TimeoutFree(a) && s == Run(Initial(regs), a);
    var b :| TimeoutFree(b) && t == Run(Step(s, Timeout(p)), b);
    actions := a + [Timeout(p)] + b;
    OnlyOneLate(a, p, b, late);
    RunThrough(Initial(regs), a, p, b);
  }

  lemma NoSuchRead(t: State, e: Entry, f: Entry)
    requires t.lock == Nobody && t.history == [e] && e != f
    requires BusOps(t.core.slaves.log) == [f]
    ensures !Linear(t) && !Explained(t)
  {
    assert t.history[0] == e;
  }

  /** One late caller is enough: its neighbour finishes a read that never took place. */
  lemma OneLateCallerGoesWrong(p: nat, late: set<nat>) returns (regs: Registers, actions: seq<Action>)
    requires p in late
    ensures OnlyLate(actions, late)
    ensures !Linear(Run(Initial(regs), actions)) && !Explained(Run(Initial(regs), actions))
  {
    regs := map[];
    var s, t := OneTimeoutMisleadsTheNextReader(regs, p, p + 1, ReadCall(0, 0), ReadCall(1, 0));
    actions := OneTimeoutRun(regs, s, p, t, late);
    OneBusOp(Read(0, 0, t.core.gRead));
    NoSuchRead(t, Read(0, 1, t.core.gRead), Read(0, 0, t.core.gRead));
  }

  /**
   * If only the callers of a set time out, all runs linearize exactly when the
   * set is empty; and then only is every successful call explained by the bus
   * at all.
   */
  lemma LinearizesExactlyWhen(late: set<nat>)
    ensures AlwaysLinearizes(late) <==> late == {}
    ensures AlwaysExplained(late) <==> late == {}
  {
    if late == {} {
      forall regs: Registers, actions: seq<Action> | OnlyLate(actions, late)
        ensures Linear(Run(Initial(regs), actions)) && Explained(Run(Initial(regs), actions))
      {
        assert TimeoutFree(actions);
        WithoutTimeouts(regs, actions);
      }
    } else {
      var p :| p in late;
      var regs, actions := OneLateCallerGoesWrong(p, late);
    }
  }
}
