// Does a caller that holds the mutex always get to its unlock? A writer does. A
// reader does exactly when the ARDY of its reception has not been lost: the
// handler acknowledges at the end of a turn what it has read at the beginning,
// so an ARDY that arrives while the one before it is still unacknowledged is
// cleared together with that one and completes nothing.
module I2cProgress {
  import opened I2cBus
  import opened I2cSafety
  import opened I2cLinearizability
  import opened I2cReturn

  /** A reader waits for a comp_stop that nothing will complete any more. */
  predicate StopLost(c: Core, pc: Pc) {
    (pc.WaitRead? || pc.WaitRxStop?) && !c.active && StopTokens(c) == 0
  }

  /** Some run without timeouts takes p to its unlock. */
  ghost predicate CanUnlock(s: State, p: nat) {
    exists r :: Leads(s, r) && At(r, p).Unlock?
  }

  // ----- A lost ARDY stays lost --------------------------------------------

  lemma LostInterrupt(c: Core, pc: Pc)
    requires StopLost(c, pc) && IsrOk(c)
    ensures StopLost(IsrStep(c), pc)
  {
    if AtStart(c.isr) {
    } else if AtFetch(c.isr) {
    } else if AtLoad(c.isr) {
    } else {
    }
  }

  lemma LostBus(c: Core, pc: Pc, e: Bus)
    requires StopLost(c, pc)
    ensures StopLost(BusStep(c, e), pc)
  {
  }

  /** The reader itself only gets as far as its second wait. */
  lemma LostCaller(c: Core, pc: Pc, free: bool, next: Call)
    requires StopLost(c, pc)
    ensures StopLost(Local(pc, c, free, next).1, Local(pc, c, free, next).0)
  {
  }

  lemma LostStays(s: State, a: Action, p: nat)
    requires Inv(s) && StopLost(s.core, At(s, p)) && !a.Timeout?
    ensures StopLost(Step(s, a).core, At(Step(s, a), p))
  {
    match a {
      case Caller(q, next) =>
        if q == p {
          LostCaller(s.core, At(s, p), s.lock == Nobody, next);
        } else {
          CallerMovesItself(s, q, next, p);
          assert !Locked(At(s, q));
          OutsiderStep(s, q, next);
        }
      case Interrupt => LostInterrupt(s.core, At(s, p));
      case OnBus(e) => LostBus(s.core, At(s, p), e);
    }
  }

  lemma {:induction false} LostForever(s: State, actions: seq<Action>, p: nat)
    requires Inv(s) && StopLost(s.core, At(s, p)) && TimeoutFree(actions)
    ensures Inv(Run(s, actions)) && StopLost(Run(s, actions).core, At(Run(s, actions), p))
  {
    if actions != [] {
      LostForever(s, actions[..|actions| - 1], p);
      StepKeepsInv(Run(s, actions[..|actions| - 1]), actions[|actions| - 1]);
      LostStays(Run(s, actions[..|actions| - 1]), actions[|actions| - 1], p);
    }
  }

  lemma LostNeverUnlocks(s: State, p: nat)
    requires Inv(s) && StopLost(s.core, At(s, p))
    ensures !CanUnlock(s, p)
  {
    if r :| Leads(s, r) && At(r, p).Unlock? {
      var actions :| TimeoutFree(actions) && r == Run(s, actions);
      LostForever(s, actions, p);
    }
  }

  // ----- What else holds of every run without timeouts ---------------------

  /** The handler never works on XRDY and ARDY in one turn. */
  predicate OneOfBoth(c: Core) {
    Sampled(c.isr) ==> !(c.isr.b.xrdy && c.isr.b.ardy)
  }

  /** An ARDY of a transmission is never lost, and neither is a byte. */
  predicate Signalled(c: Core, pc: Pc) {
    && (pc.WaitEmpty? || pc.WaitStop? ==>
          (c.active && c.loaded > 0 ==> !c.bits.ardy) && (!c.active ==> StopTokens(c) == 1))
    && (pc.WaitRead? && c.moved == 1 && c.rxFifo == [] ==> c.compRead + (if c.isr.RrdyDone? then 1 else 0) == 1)
  }

  predicate More(s: State) {
    OneOfBoth(s.core) && (s.lock.Holds? ==> Signalled(s.core, At(s, s.lock.p)))
  }

  /** When the handler looks at the status, not both are set. */
  lemma NotBothPending(s: State)
    requires Inv(s) && s.core.isr.Off?
    ensures !(s.core.bits.xrdy && s.core.bits.ardy)
  {
    if s.lock.Holds? {
      assert Phase(s.core, At(s, s.lock.p), s.history);
    }
  }

  lemma InterruptKeepsOneOfBoth(c: Core)
    requires OneOfBoth(c) && (c.isr.Off? ==> !(c.bits.xrdy && c.bits.ardy))
    ensures OneOfBoth(IsrStep(c))
  {
  }

  lemma SendingSignalled(c: Core, pc: Pc, ops: seq<Entry>)
    requires (pc.WaitEmpty? || pc.WaitStop?) && Sending(c, pc.call, ops) && IsrOk(c) && OneOfBoth(c) && Signalled(c, pc)
    ensures Signalled(IsrStep(c), pc)
  {
    if AtStart(c.isr) {
    } else if AtFetch(c.isr) {
    } else if AtLoad(c.isr) {
    } else {
    }
  }

  lemma ReadSignalled(c: Core, pc: Pc, ops: seq<Entry>)
    requires pc.WaitRead? && Receiving(c, pc.call, ops, false) && IsrOk(c) && Signalled(c, pc)
    ensures Signalled(IsrStep(c), pc)
  {
    if AtStart(c.isr) {
    } else if AtFetch(c.isr) {
    } else if AtLoad(c.isr) {
    } else {
    }
  }

  lemma InterruptKeepsMore(s: State)
    requires Inv(s) && More(s)
    ensures More(Step(s, Interrupt))
  {
    if s.core.isr.Off? {
      NotBothPending(s);
    }
    InterruptKeepsOneOfBoth(s.core);
    if s.lock.Holds? {
      var pc := At(s, s.lock.p);
      assert Phase(s.core, pc, s.history);
      if pc.WaitEmpty? || pc.WaitStop? {
        SendingSignalled(s.core, pc, s.history);
      } else if pc.WaitRead? {
        ReadSignalled(s.core, pc, s.history);
      }
    }
  }

  lemma SendingBusSignalled(c: Core, pc: Pc, ops: seq<Entry>, e: Bus)
    requires (pc.WaitEmpty? || pc.WaitStop?) && Sending(c, pc.call, ops) && IsrOk(c) && Signalled(c, pc)
    ensures Signalled(BusStep(c, e), pc)
  {
  }

  lemma ReadBusSignalled(c: Core, pc: Pc, ops: seq<Entry>, e: Bus)
    requires pc.WaitRead? && Receiving(c, pc.call, ops, false) && IsrOk(c) && Signalled(c, pc)
    ensures Signalled(BusStep(c, e), pc)
  {
  }

  lemma BusLeavesIsr(c: Core, e: Bus)
    ensures BusStep(c, e).isr == c.isr
  {
  }

  lemma BusKeepsMore(s: State, e: Bus)
    requires Inv(s) && More(s)
    ensures More(Step(s, OnBus(e)))
  {
    BusLeavesIsr(s.core, e);
    if s.lock.Holds? {
      var pc := At(s, s.lock.p);
      assert Phase(s.core, pc, s.history);
      if pc.WaitEmpty? || pc.WaitStop? {
        SendingBusSignalled(s.core, pc, s.history, e);
      } else if pc.WaitRead? {
        ReadBusSignalled(s.core, pc, s.history, e);
      }
    }
  }

  lemma LocalSignalled(c: Core, pc: Pc, free: bool, next: Call)
    requires Locked(pc) && Signalled(c, pc)
    ensures Signalled(Local(pc, c, free, next).1, Local(pc, c, free, next).0)
  {
  }

  lemma LocalLeavesIsr(c: Core, pc: Pc, free: bool, next: Call)
    ensures Local(pc, c, free, next).1.isr == c.isr
  {
  }

  lemma CallerKeepsMore(s: State, p: nat, next: Call)
    requires Inv(s) && More(s)
    ensures More(Step(s, Caller(p, next)))
  {
    var pc := At(s, p);
    LocalLeavesIsr(s.core, pc, s.lock == Nobody, next);
    if Locked(pc) {
      LocalSignalled(s.core, pc, s.lock == Nobody, next);
    } else {
      OutsiderStep(s, p, next);
      if s.lock.Holds? {
        CallerMovesItself(s, p, next, s.lock.p);
      }
    }
  }

  lemma StepKeepsMore(s: State, a: Action)
    requires Inv(s) && More(s) && !a.Timeout?
    ensures More(Step(s, a))
  {
    match a {
      case Caller(p, next) => CallerKeepsMore(s, p, next);
      case Interrupt => InterruptKeepsMore(s);
      case OnBus(e) => BusKeepsMore(s, e);
    }
  }

  lemma {:induction false} RunKeepsMore(regs: Registers, actions: seq<Action>)
    requires TimeoutFree(actions)
    ensures More(Run(Initial(regs), actions))
  {
    if actions != [] {
      RunKeepsMore(regs, actions[..|actions| - 1]);
      RunKeepsInv(regs, actions[..|actions| - 1]);
      StepKeepsMore(Run(Initial(regs), actions[..|actions| - 1]), actions[|actions| - 1]);
    }
  }

  // ----- The way to the unlock ---------------------------------------------

  /** The wait is over. */
  predicate GoesOn(c: Core, pc: Pc) {
    match pc
    case WaitEmpty(_) => c.gLen == 0
    case WaitStop(_) => c.compStop > 0
    case WaitRead(_) => c.compRead > 0
    case WaitRxStop(_) => c.compStop > 0
    case _ => true
  }

  /** How far the holder of the mutex still is from its unlock. */
  function Distance(pc: Pc): nat {
    match pc
    case SetSlave(_) => 17
    case SetLen(_) => 16
    case SetCnt(_) => 15
    case StoreHigh(_) => 14
    case StoreLow(_) => 13
    case ClearFifo(_) => 12
    case StartTx(_) => 11
    case WaitEmpty(_) => 10
    case WaitStop(_) => 9
    case ReinitStop(_, _) => 8
    case RxLen(_) => 7
    case RxCnt(_) => 6
    case StartRx(_) => 5
    case WaitRead(_) => 4
    case WaitRxStop(_) => 3
    case ReinitRead(_, _) => 2
    case ReinitRxStop(_, _) => 1
    case _ => 0
  }

  lemma WaitOverAdvances(c: Core, pc: Pc, next: Call)
    requires Locked(pc) && !pc.Unlock? && GoesOn(c, pc)
    ensures Distance(Local(pc, c, false, next).0) < Distance(pc)
  {
  }

  /** Steps that the handler needs to the end of its turn. */
  function Left(i: I2cBus.Isr): nat {
    match i
    case Off => 0
    case Clear(_) => 1
    case XrdyWrite(_) => 2
    case Xrdy(_) => 3
    case RrdyDone(_) => 4
    case RrdyRead(_) => 5
    case Rrdy(_) => 6
    case Ardy(_) => 7
  }

  predicate BeforeLoad(i: I2cBus.Isr) { Left(i) >= 2 && i.b.xrdy }
  predicate BeforeFetch(i: I2cBus.Isr) { Left(i) >= 5 && i.b.rrdy }

  // What to wait for next, and how long that can take. Every wait ends the
  // turn the handler is in, raises one event and lets the handler take it.

  /** Until the handler has done its part for a bit: now is whether it is about to, pending the bit. */
  function HandlerRank(i: I2cBus.Isr, now: bool, pending: bool): nat {
    if now then Left(i) else if !i.Off? then 50 + Left(i) else if pending then 20 else 30
  }

  function SendAction(c: Core): Turn {
    if c.moved < c.loaded then Wire(Send)
    else if c.loaded < c.total then (if c.isr.Off? && !c.bits.xrdy then Wire(RaiseXrdy) else Turn.Isr)
    else if c.active && c.isr.Off? then Wire(RaiseArdy)
    else Turn.Isr
  }

  function SendRank(c: Core): int {
    (2 * (2 * c.total - c.loaded - c.moved) + (if c.active then 1 else 0)) * 100
    + (if c.moved < c.loaded then 0
       else if c.loaded < c.total then LoadRank(c)
       else if c.active then HandlerRank(c.isr, false, true)
       else StopRank(c))
  }

  predicate SendReady(c: Core) {
    c.compStop > 0 || c.gLen == 0
  }

  lemma SendsOn(c: Core, call: Call, ops: seq<Entry>)
    requires Sending(c, call, ops) && c.moved < c.loaded
    ensures 0 <= SendRank(TurnStep(c, SendAction(c))) < SendRank(c)
  {
    assert c.active;
  }

  /** The part of the rank that counts while a byte is to be loaded. */
  function LoadRank(c: Core): nat {
    HandlerRank(c.isr, BeforeLoad(c.isr), c.bits.xrdy)
  }

  lemma LoadTurns(c: Core)
    requires !c.isr.XrdyWrite? && IsrOk(c) && (c.isr.Off? ==> c.bits.xrdy)
    ensures LoadRank(IsrStep(c)) < LoadRank(c)
  {
    if AtStart(c.isr) {
    } else if AtFetch(c.isr) {
    } else {
    }
  }

  lemma TurnLeavesWire(c: Core)
    requires !c.isr.XrdyWrite?
    ensures var d := IsrStep(c);
            d.total == c.total && d.loaded == c.loaded && d.moved == c.moved && d.active == c.active
  {
  }

  lemma LoadByteRank(c: Core, call: Call, ops: seq<Entry>)
    requires Sending(c, call, ops) && IsrOk(c) && c.isr.XrdyWrite? && c.moved == c.loaded < c.total
    ensures 0 <= SendRank(IsrStep(c)) < SendRank(c)
  {
    LoadsNextByte(c, call, ops);
  }

  lemma LoadTurnRank(c: Core, d: Core)
    requires c.moved == c.loaded < c.total && LoadRank(d) < LoadRank(c)
    requires d.total == c.total && d.loaded == c.loaded && d.moved == c.moved && d.active == c.active
    ensures 0 <= SendRank(d) < SendRank(c)
  {
  }

  lemma LoadsOn(c: Core, call: Call, ops: seq<Entry>)
    requires Sending(c, call, ops) && IsrOk(c) && !c.outOfBounds && c.moved == c.loaded < c.total
    ensures var d := TurnStep(c, SendAction(c));
            0 <= SendRank(d) < SendRank(c)
  {
    if c.isr.XrdyWrite? {
      LoadByteRank(c, call, ops);
    } else if c.isr.Off? && !c.bits.xrdy {
      LoadTurnRank(c, BusStep(c, RaiseXrdy));
    } else {
      LoadTurns(c);
      TurnLeavesWire(c);
      LoadTurnRank(c, IsrStep(c));
    }
  }

  /** While the handler ends a turn that it need not wait for, what is left of it counts. */
  lemma TurnEnds(c: Core)
    requires !c.isr.Off?
    ensures Left(IsrStep(c).isr) < Left(c.isr)
  {
    if AtStart(c.isr) {
    } else if AtFetch(c.isr) {
    } else if AtLoad(c.isr) {
    } else {
    }
  }

  /** The whole message is on the wire, and ARDY is still to come. */
  lemma RaisesStop(c: Core, call: Call, ops: seq<Entry>)
    requires Sending(c, call, ops) && c.moved == c.loaded == c.total && c.active
    ensures 0 <= SendRank(TurnStep(c, SendAction(c))) < SendRank(c)
  {
    if !c.isr.Off? {
      assert !c.isr.XrdyWrite?;
      TurnEnds(c);
      TurnLeavesWire(c);
    }
  }

  /** ARDY has come, and the handler is still to complete comp_stop. */
  lemma TakesStop(c: Core)
    requires !c.active && StopTokens(c) == 1 && c.compStop == 0 && IsrOk(c)
    ensures var d := IsrStep(c);
            d.compStop > 0 || StopRank(d) < StopRank(c)
  {
    if !c.isr.Off? {
      TurnEnds(c);
    }
    if c.isr.Ardy? {
    } else if AtFetch(c.isr) {
    } else if AtLoad(c.isr) {
    } else {
    }
  }

  function StopRank(c: Core): nat {
    HandlerRank(c.isr, c.isr.Ardy? && c.isr.b.ardy, true)
  }

  lemma StopsOn(c: Core, pc: Pc, ops: seq<Entry>)
    requires pc.WaitStop? && Sending(c, pc.call, ops) && IsrOk(c) && Signalled(c, pc)
    requires c.moved == c.loaded == c.total && c.compStop == 0
    ensures var d := TurnStep(c, SendAction(c));
            d.compStop > 0 || 0 <= SendRank(d) < SendRank(c)
  {
    if c.active {
      RaisesStop(c, pc.call, ops);
    } else {
      assert !c.isr.XrdyWrite?;
      TakesStop(c);
      TurnLeavesWire(c);
    }
  }

  function ReadAction(c: Core): Turn {
    if c.moved == 0 then Wire(Receive)
    else if c.rxFifo != [] && c.isr.Off? && !c.bits.rrdy then Wire(RaiseRrdy)
    else Turn.Isr
  }

  function ReadRank(c: Core): nat {
    if c.moved == 0 then 300
    else if c.rxFifo != [] then 100 + FetchRank(c)
    else 50
  }

  function FetchRank(c: Core): nat {
    HandlerRank(c.isr, BeforeFetch(c.isr), c.bits.rrdy)
  }

  lemma FetchStarts(c: Core)
    requires AtStart(c.isr) && IsrOk(c) && (c.isr.Off? ==> c.bits.rrdy)
    ensures FetchRank(IsrStep(c)) < FetchRank(c)
  {
  }

  lemma FetchEnds(c: Core)
    requires (AtLoad(c.isr) || c.isr.Clear? || c.isr.RrdyDone?) && IsrOk(c)
    ensures FetchRank(IsrStep(c)) < FetchRank(c)
  {
    TurnEnds(c);
  }

  lemma TurnKeepsBytes(c: Core)
    requires !c.isr.RrdyRead?
    ensures IsrStep(c).rxFifo == c.rxFifo && IsrStep(c).moved == c.moved
  {
  }

  lemma FetchTurns(c: Core)
    requires !c.isr.RrdyRead? && IsrOk(c) && (c.isr.Off? ==> c.bits.rrdy)
    ensures FetchRank(IsrStep(c)) < FetchRank(c)
    ensures IsrStep(c).rxFifo == c.rxFifo && IsrStep(c).moved == c.moved
  {
    TurnKeepsBytes(c);
    if AtStart(c.isr) {
      FetchStarts(c);
    } else if c.isr.Rrdy? {
    } else {
      FetchEnds(c);
    }
  }

  lemma ReadsOn(c: Core, pc: Pc, ops: seq<Entry>)
    requires pc.WaitRead? && Receiving(c, pc.call, ops, false) && IsrOk(c) && Signalled(c, pc) && c.compRead == 0
    ensures var d := TurnStep(c, ReadAction(c));
            d.compRead > 0 || ReadRank(d) < ReadRank(c)
  {
    if c.moved == 0 {
    } else if c.rxFifo == [] {
      assert c.isr.RrdyDone?;
    } else if c.isr.RrdyRead? {
    } else if c.isr.Off? && !c.bits.rrdy {
    } else {
      FetchTurns(c);
    }
  }

  // The reader only lets ARDY come when the handler is at rest.

  function RxStopAction(c: Core): Turn {
    if c.active && c.isr.Off? then Wire(RaiseArdy) else Turn.Isr
  }

  function RxStopRank(c: Core): nat {
    if c.active then 100 + HandlerRank(c.isr, false, true)
    else StopRank(c)
  }

  lemma RxStopsOn(c: Core, pc: Pc, ops: seq<Entry>)
    requires pc.WaitRxStop? && Receiving(c, pc.call, ops, true) && IsrOk(c)
    requires c.compStop == 0 && !StopLost(c, pc)
    ensures var d := TurnStep(c, RxStopAction(c));
            (d.compStop > 0 || RxStopRank(d) < RxStopRank(c)) && !StopLost(d, pc)
  {
    if AtStart(c.isr) {
    } else if AtFetch(c.isr) {
    } else if AtLoad(c.isr) {
    } else {
    }
  }

  lemma ReadLosesNothing(c: Core, pc: Pc, ops: seq<Entry>)
    requires pc.WaitRead? && Receiving(c, pc.call, ops, false) && IsrOk(c) && !StopLost(c, pc)
    ensures !StopLost(TurnStep(c, ReadAction(c)), pc)
  {
    if AtStart(c.isr) {
    } else if AtFetch(c.isr) {
    } else if AtLoad(c.isr) {
    } else {
    }
  }

  // ----- All waits together ------------------------------------------------

  function WaitAction(c: Core, pc: Pc): Turn {
    match pc
    case WaitRead(_) => ReadAction(c)
    case WaitRxStop(_) => RxStopAction(c)
    case _ => SendAction(c)
  }

  function WaitRank(c: Core, pc: Pc): int {
    if GoesOn(c, pc) then 0
    else
      match pc
      case WaitRead(_) => 1 + ReadRank(c)
      case WaitRxStop(_) => 1 + RxStopRank(c)
      case _ => 1 + SendRank(c)
  }

  lemma SendRankNat(c: Core, call: Call, ops: seq<Entry>)
    requires Sending(c, call, ops)
    ensures SendRank(c) >= 0
  {
  }

  lemma EmptyWaits(c: Core, pc: Pc, ops: seq<Entry>)
    requires pc.WaitEmpty? && Sending(c, pc.call, ops) && IsrOk(c) && !c.outOfBounds && c.gLen > 0
    ensures 0 <= SendRank(TurnStep(c, SendAction(c))) < SendRank(c)
  {
    if c.moved < c.loaded {
      SendsOn(c, pc.call, ops);
    } else {
      LoadsOn(c, pc.call, ops);
    }
  }

  lemma StopWaits(c: Core, pc: Pc, ops: seq<Entry>)
    requires pc.WaitStop? && Sending(c, pc.call, ops) && IsrOk(c) && !c.outOfBounds && Signalled(c, pc)
    requires c.compStop == 0
    ensures var d := TurnStep(c, SendAction(c));
            d.compStop > 0 || 0 <= SendRank(d) < SendRank(c)
  {
    if c.moved < c.loaded {
      SendsOn(c, pc.call, ops);
    } else if c.loaded < c.total {
      LoadsOn(c, pc.call, ops);
    } else {
      StopsOn(c, pc, ops);
    }
  }

  /** A wait that is not over comes nearer to its end. */
  lemma WaitAdvances(c: Core, pc: Pc, ops: seq<Entry>)
    requires Waits(pc) && Phase(c, pc, ops) && IsrOk(c) && !c.outOfBounds && Signalled(c, pc)
    requires !GoesOn(c, pc) && !StopLost(c, pc)
    ensures var d := TurnStep(c, WaitAction(c, pc));
            0 <= WaitRank(d, pc) < WaitRank(c, pc) && !StopLost(d, pc)
  {
    if pc.WaitEmpty? {
      EmptyWaits(c, pc, ops);
    } else if pc.WaitStop? {
      StopWaits(c, pc, ops);
    } else if pc.WaitRead? {
      ReadsOn(c, pc, ops);
      ReadLosesNothing(c, pc, ops);
    } else {
      RxStopsOn(c, pc, ops);
    }
  }

  /** All that the way of p to its unlock needs. */
  predicate OnItsWay(s: State, p: nat) {
    && s.lock == Holds(p) && Locked(At(s, p)) && More(s)
    && !StopLost(s.core, At(s, p)) && WaitRank(s.core, At(s, p)) >= 0
  }

  function Next(s: State, p: nat): Action {
    if GoesOn(s.core, At(s, p)) then Caller(p, ReadCall(0, 0))
    else
      match WaitAction(s.core, At(s, p))
      case Isr => Interrupt
      case Wire(e) => OnBus(e)
  }

  lemma RankIsNat(c: Core, pc: Pc, ops: seq<Entry>)
    requires Phase(c, pc, ops)
    ensures WaitRank(c, pc) >= 0
  {
    if pc.WaitEmpty? || pc.WaitStop? {
      SendRankNat(c, pc.call, ops);
    }
  }

  lemma CallerLosesNothing(c: Core, pc: Pc, ops: seq<Entry>, next: Call)
    requires Locked(pc) && Phase(c, pc, ops) && GoesOn(c, pc) && !StopLost(c, pc)
    ensures !StopLost(Local(pc, c, false, next).1, Local(pc, c, false, next).0)
  {
  }

  lemma CallerOnItsWay(s: State, p: nat)
    requires Inv(s) && OnItsWay(s, p) && !At(s, p).Unlock? && GoesOn(s.core, At(s, p))
    ensures var r := Step(s, Next(s, p));
            Inv(r) && OnItsWay(r, p) && Distance(At(r, p)) < Distance(At(s, p))
  {
    var next := ReadCall(0, 0);
    HolderPhase(s, p);
    WaitOverAdvances(s.core, At(s, p), next);
    CallerLosesNothing(s.core, At(s, p), s.history, next);
    var r := Step(s, Caller(p, next));
    StepKeepsInv(s, Caller(p, next));
    StepKeepsMore(s, Caller(p, next));
    StillHolds(s, p, next);
    HolderPhase(r, p);
    RankIsNat(r.core, At(r, p), r.history);
  }

  lemma StillHolds(s: State, p: nat, next: Call)
    requires s.lock == Holds(p) && Locked(At(s, p)) && !At(s, p).Unlock?
    ensures var r := CallerStep(s, p, next);
            && r.lock == Holds(p) && Locked(At(r, p))
            && At(r, p) == Local(At(s, p), s.core, false, next).0 && r.core == Local(At(s, p), s.core, false, next).1
  {
  }

  lemma WaitOnItsWay(s: State, p: nat)
    requires Inv(s) && OnItsWay(s, p) && !GoesOn(s.core, At(s, p))
    ensures var r := Step(s, Next(s, p));
            && Inv(r) && OnItsWay(r, p) && At(r, p) == At(s, p)
            && WaitRank(r.core, At(r, p)) < WaitRank(s.core, At(s, p))
  {
    var a := Next(s, p);
    HolderPhase(s, p);
    WaitAdvances(s.core, At(s, p), s.history);
    StepKeepsInv(s, a);
    StepKeepsMore(s, a);
    assert Step(s, a) == s.(core := TurnStep(s.core, WaitAction(s.core, At(s, p))));
  }

  lemma Reaches(s: State, p: nat) returns (r: State)
    requires Inv(s) && OnItsWay(s, p)
    ensures Leads(s, r) && At(r, p).Unlock?
    decreases Distance(At(s, p)), WaitRank(s.core, At(s, p))
  {
    LeadsNowhere(s);
    if At(s, p).Unlock? {
      return s;
    }
    var m := Step(s, Next(s, p));
    if GoesOn(s.core, At(s, p)) {
      CallerOnItsWay(s, p);
    } else {
      WaitOnItsWay(s, p);
    }
    LeadsOn(s, s, Next(s, p));
    r := Reaches(m, p);
    LeadsThrough(s, m, r);
  }

  lemma StartsOut(regs: Registers, s: State, p: nat)
    requires Reachable(regs, s) && s.lock == Holds(p) && !StopLost(s.core, At(s, p))
    ensures Inv(s) && OnItsWay(s, p)
  {
    var actions :| TimeoutFree(actions) && s == Run(Initial(regs), actions);
    RunKeepsMore(regs, actions);
    RunKeepsInv(regs, actions);
    RankIsNat(s.core, At(s, p), s.history);
  }

  /**
   * From every state of every run without timeouts the holder of the mutex can
   * get to its unlock exactly when it is not a reader whose ARDY has been lost.
   */
  lemma CanUnlockExactlyWhen(regs: Registers, s: State, p: nat)
    requires Reachable(regs, s) && s.lock == Holds(p)
    ensures CanUnlock(s, p) <==> !StopLost(s.core, At(s, p))
  {
    ReachableInv(regs, s);
    if StopLost(s.core, At(s, p)) {
      LostNeverUnlocks(s, p);
    } else {
      StartsOut(regs, s, p);
      var r := Reaches(s, p);
    }
  }

  /** So a writer always can. */
  lemma WritersCanUnlock(regs: Registers, s: State, p: nat)
    requires Reachable(regs, s) && Locked(At(s, p)) && At(s, p).call.WriteCall?
    ensures CanUnlock(s, p)
  {
    ReachableInv(regs, s);
    HolderPhase(s, p);
    CanUnlockExactlyWhen(regs, s, p);
  }

  /** And a reader can as long as no ARDY is raised over an unacknowledged one. */
  lemma OnlyOverlapLoses(c: Core, pc: Pc, ops: seq<Entry>, e: Bus)
    requires (pc.WaitRead? || pc.WaitRxStop?) && Phase(c, pc, ops) && IsrOk(c) && !StopLost(c, pc)
    ensures StopLost(BusStep(c, e), pc) <==> e == RaiseArdy && c.active && c.moved >= c.total && c.bits.ardy
  {
  }

  // ----- A run that loses an ARDY ------------------------------------------

  /** The handler has completed comp_stop but not yet acknowledged ARDY. */
  function HalfStopped(c: Core): Core {
    c.(active := false, compStop := 1, bits := Bits(false, false, true), isr := Rrdy(Bits(false, false, true)))
  }

  lemma StopsHalfway(c: Core)
    requires c.isr == Off && c.bits == NONE && c.compStop == 0 && c.active && c.moved == c.total
    ensures CoreLeads(c, HalfStopped(c))
  {
    var raised := c.(bits := Bits(false, false, true), active := false);
    CoreNowhere(c);
    CoreTurn(c, c, Wire(RaiseArdy), raised);
    Samples(c, raised);
  }

  lemma TransmitsHalfway(c: Core)
    requires c.isr == Off && c.bits == NONE && c.compStop == 0
    requires c.active && c.tx && c.loaded == 0 && c.moved == 0 && c.total == 1 && c.gLen == 1 && c.txFifo == []
    ensures CoreLeads(c, HalfStopped(Sent(c)))
  {
    var loaded := c.(gLen := 0, loaded := 1, txFifo := [c.gWrite0]);
    LoadsOne(c);
    SendsOne(loaded, c.gWrite0);
    CoreThrough(c, loaded, Sent(c));
    StopsHalfway(Sent(c));
    CoreThrough(c, Sent(c), HalfStopped(Sent(c)));
  }

  function Sent(c: Core): Core {
    c.(gLen := 0, loaded := 1, moved := 1, txFifo := [], slaves := c.slaves.Select(c.slave, c.gWrite0))
  }

  /** The byte and its ARDY come before the handler acknowledges the first one. */
  lemma ReceivesTooEarly(c: Core)
    requires c.active && !c.tx && c.moved == 0 && c.total == 1 && c.bits == Bits(false, false, true)
    ensures CoreLeads(c, c.(moved := 1, rxFifo := c.rxFifo + [Requested(c)], slaves := c.slaves.AnswerOnce(c.slave), active := false))
  {
    var answered := c.(moved := 1, rxFifo := c.rxFifo + [Requested(c)], slaves := c.slaves.AnswerOnce(c.slave));
    CoreNowhere(c);
    CoreTurn(c, c, Wire(Receive), answered);
    CoreTurn(c, answered, Wire(RaiseArdy), answered.(active := false));
  }

  /** A caller on its first read, at the wait for its byte, with the first ARDY not yet acknowledged. */
  lemma WaitsUnacknowledged(regs: Registers, p: nat, call: Call) returns (r: State)
    requires call.ReadCall?
    ensures Reachable(regs, r) && At(r, p) == WaitRead(call) && r.lock == Holds(p)
    ensures r.core.active && !r.core.tx && r.core.moved == 0 && r.core.total == 1
    ensures r.core.bits == Bits(false, false, true) && r.core.isr == Rrdy(r.core.bits) && r.core.compStop == 0
  {
    var s := Initial(regs);
    InitialReachable(regs);
    StartIsIdle(regs, p);
    r := Locks(s, p, call);
    r := SetsUp(s, r, p, call);
    r := Starts(s, r, p, call);
    TransmitsHalfway(r.core);
    r := CoreMoves(s, r, p, WaitEmpty(call), HalfStopped(Sent(r.core)));
    r := TurnsAround(s, r, p, call);
    r := StartsReception(s, r, p, call);
    LeadsIsReachable(regs, s, r);
  }

  /** Every reader can lose its ARDY: then nothing but a timeout takes it any further. */
  lemma StopCanBeLost(regs: Registers, p: nat, call: Call) returns (s: State)
    requires call.ReadCall?
    ensures Reachable(regs, s) && s.lock == Holds(p) && StopLost(s.core, At(s, p)) && !CanUnlock(s, p)
  {
    var m := WaitsUnacknowledged(regs, p, call);
    ReceivesTooEarly(m.core);
    LeadsNowhere(m);
    assert Moved(m, m, p, WaitRead(call), m.core);
    s := CoreMoves(m, m, p, WaitRead(call),
                   m.core.(moved := 1, rxFifo := m.core.rxFifo + [Requested(m.core)],
                           slaves := m.core.slaves.AnswerOnce(m.core.slave), active := false));
    LeadsIsReachable(regs, m, s);
    ReachableInv(regs, s);
    LostNeverUnlocks(s, p);
  }
}
