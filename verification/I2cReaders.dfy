// What cotti_i2c_read returns. g_read is read after the unlock, so the value
// returned is that of the last byte the handler has fetched for anybody; this
// module says when it is the caller's own.
module I2cReaders {
  import opened I2cBus
  import opened I2cSafety
  import opened I2cLinearizability
  import opened I2cReturn

  // ----- Who changes g_read ------------------------------------------------

  /** The handler only fetches a byte for the holder of the mutex, which waits for it. */
  lemma FetchIsForHolder(s: State)
    requires Inv(s) && s.core.isr.RrdyRead?
    ensures s.lock.Holds? && At(s, s.lock.p).WaitRead? && At(s, s.lock.p).call.ReadCall?
    ensures s.core.rxFifo != []
    ensures BusOps(s.core.slaves.log) == s.history + [Read(At(s, s.lock.p).call.slave, At(s, s.lock.p).call.reg, s.core.rxFifo[0])]
  {
    assert s.lock.Holds?;
    assert Phase(s.core, At(s, s.lock.p), s.history);
  }

  lemma OnlyFetchWritesGRead(s: State, a: Action)
    requires !(a.Interrupt? && s.core.isr.RrdyRead?)
    ensures Step(s, a).core.gRead == s.core.gRead
  {
    match a {
      case Caller(p, next) => CallersLeaveGRead(s, p, next);
      case Timeout(p) => TimeoutsLeaveCore(s, p);
      case Interrupt => InterruptLeavesGRead(s.core);
      case OnBus(e) =>
    }
  }

  lemma TimeoutsLeaveCore(s: State, p: nat)
    ensures TimeoutStep(s, p).core == s.core
  {
  }

  lemma InterruptLeavesGRead(c: Core)
    requires !c.isr.RrdyRead?
    ensures IsrStep(c).gRead == c.gRead && IsrStep(c).rxFifo == c.rxFifo
  {
  }

  lemma CallersLeaveGRead(s: State, p: nat, next: Call)
    ensures CallerStep(s, p, next).core.gRead == s.core.gRead
  {
    if !Locked(At(s, p)) {
      OutsiderStep(s, p, next);
    }
  }

  // ----- The value is that of the last fetch -------------------------------

  /** The value of the last read among some accesses, or else the given one. */
  function LastRead(ops: seq<Entry>, otherwise: Byte): Byte {
    if ops == [] then otherwise
    else if ops[|ops| - 1].Read? then ops[|ops| - 1].value
    else LastRead(ops[..|ops| - 1], otherwise)
  }

  lemma {:induction false} LastReadConcat(a: seq<Entry>, b: seq<Entry>, otherwise: Byte)
    ensures LastRead(a + b, otherwise) == LastRead(b, LastRead(a, otherwise))
  {
    if b == [] {
      assert a + b == a;
    } else {
      assert (a + b)[..|a + b| - 1] == a + b[..|b| - 1];
      LastReadConcat(a, b[..|b| - 1], otherwise);
    }
  }

  /** The accesses on the bus, without one whose byte still waits to be fetched. */
  function FetchedOps(s: State): seq<Entry> {
    if s.core.rxFifo != [] then s.history else BusOps(s.core.slaves.log)
  }

  predicate ReadsLastFetch(s: State) {
    s.core.gRead == LastRead(FetchedOps(s), 0)
  }

  lemma InterruptKeepsFetch(s: State)
    requires Inv(s) && ReadsLastFetch(s)
    ensures ReadsLastFetch(Step(s, Interrupt))
  {
    InterruptLeavesSlaves(s.core);
    if s.core.isr.RrdyRead? {
      FetchIsForHolder(s);
      assert |s.core.rxFifo| == 1 by {
        assert Phase(s.core, At(s, s.lock.p), s.history);
      }
    } else {
      InterruptLeavesGRead(s.core);
    }
  }

  lemma ReceivesOnlyFirst(s: State)
    requires Inv(s) && s.core.active && !s.core.tx && s.core.moved < s.core.total
    ensures s.core.rxFifo == [] && BusOps(s.core.slaves.log) == s.history
  {
    assert s.lock.Holds?;
    assert Phase(s.core, At(s, s.lock.p), s.history);
  }

  lemma WriteLeavesLastRead(log: seq<Entry>, e: Entry)
    requires e.Written?
    ensures LastRead(BusOps(log + [e]), 0) == LastRead(BusOps(log), 0)
  {
    BusOpsAppend(log, e);
    assert (BusOps(log) + [e])[..|BusOps(log)|] == BusOps(log);
  }

  lemma SendKeepsFetch(s: State)
    requires ReadsLastFetch(s)
    ensures ReadsLastFetch(Step(s, OnBus(Send)))
  {
    var c := s.core;
    if c.active && c.tx && c.txFifo != [] && c.moved != 0 {
      WriteLeavesLastRead(c.slaves.log, Written(c.slave, Pointer(c.slaves.pointers, c.slave), c.txFifo[0]));
    }
  }

  lemma MeasureKeepsFetch(s: State, of: Byte, reg: Byte, value: Byte)
    requires ReadsLastFetch(s)
    ensures ReadsLastFetch(Step(s, OnBus(Measure(of, reg, value))))
  {
    var log, e := s.core.slaves.log, Measured(of, reg, value);
    assert BusOps(log + [e]) == BusOps(log) by {
      BusOpsAppend(log, e);
    }
    assert Step(s, OnBus(Measure(of, reg, value))).core.slaves.log == log + [e];
  }

  lemma ReceiveKeepsFetch(s: State)
    requires Inv(s) && ReadsLastFetch(s)
    ensures ReadsLastFetch(Step(s, OnBus(Receive)))
  {
    if s.core.active && !s.core.tx && s.core.moved < s.core.total {
      ReceivesOnlyFirst(s);
    }
  }

  lemma BusKeepsFetch(s: State, e: Bus)
    requires Inv(s) && ReadsLastFetch(s)
    ensures ReadsLastFetch(Step(s, OnBus(e)))
  {
    match e {
      case Send => SendKeepsFetch(s);
      case Receive => ReceiveKeepsFetch(s);
      case Measure(of, reg, value) => MeasureKeepsFetch(s, of, reg, value);
      case _ =>
    }
  }

  /** Outside the reception the receive FIFO is empty, so clearing it changes nothing. */
  lemma ClearsEmptyFifo(s: State, p: nat)
    requires Inv(s) && (At(s, p).ClearFifo? || At(s, p).Unlock?)
    ensures s.core.rxFifo == []
  {
    HolderPhase(s, p);
  }

  lemma CallerLeavesFifo(s: State, p: nat, next: Call)
    requires !At(s, p).ClearFifo?
    ensures CallerStep(s, p, next).core.rxFifo == s.core.rxFifo
  {
    if !Locked(At(s, p)) {
      OutsiderStep(s, p, next);
    }
  }

  lemma CallerKeepsFetch(s: State, p: nat, next: Call)
    requires Inv(s) && ReadsLastFetch(s)
    ensures ReadsLastFetch(Step(s, Caller(p, next)))
  {
    CallersLeaveGRead(s, p, next);
    CallersLeaveSlaves(s, p, next);
    if At(s, p).ClearFifo? || At(s, p).Unlock? {
      ClearsEmptyFifo(s, p);
    }
    if !At(s, p).ClearFifo? {
      CallerLeavesFifo(s, p, next);
    }
  }

  lemma {:induction false} AlwaysReadsLastFetch(regs: Registers, actions: seq<Action>)
    requires TimeoutFree(actions)
    ensures ReadsLastFetch(Run(Initial(regs), actions))
  {
    if actions != [] {
      var before := actions[..|actions| - 1];
      var s := Run(Initial(regs), before);
      AlwaysReadsLastFetch(regs, before);
      RunKeepsInv(regs, before);
      match actions[|actions| - 1] {
        case Caller(p, next) => CallerKeepsFetch(s, p, next);
        case Interrupt => InterruptKeepsFetch(s);
        case OnBus(e) => BusKeepsFetch(s, e);
      }
    }
  }

  /** p is about to return from a successful read. */
  predicate Returning(s: State, p: nat) {
    At(s, p).Return? && At(s, p).ok && At(s, p).call.ReadCall?
  }

  lemma ReturnGives(s: State, p: nat, next: Call)
    requires Returning(s, p)
    ensures At(CallerStep(s, p, next), p) == Done(s.core.gRead)
  {
  }

  /** A successful read returns the value of the last read access that has been fetched, whoever's it is. */
  lemma ReturnsLastFetch(regs: Registers, s: State, p: nat, next: Call)
    requires Reachable(regs, s) && Returning(s, p)
    ensures At(CallerStep(s, p, next), p) == Done(LastRead(FetchedOps(s), 0))
  {
    var actions :| TimeoutFree(actions) && s == Run(Initial(regs), actions);
    AlwaysReadsLastFetch(regs, actions);
    ReturnGives(s, p, next);
  }

  // ----- Between the unlock and the return ---------------------------------

  /** p stays at its return, and no other caller waits for a byte. */
  ghost predicate Undisturbed(m: State, actions: seq<Action>, p: nat) {
    actions == [] ||
    var before, a := actions[..|actions| - 1], actions[|actions| - 1];
    && Undisturbed(m, before, p)
    && !a.Timeout? && !(a.Caller? && a.p == p)
    && forall q :: q != p ==> !At(Run(m, before), q).WaitRead?
  }

  lemma {:induction false} UndisturbedKeeps(m: State, actions: seq<Action>, p: nat)
    requires Inv(m) && Returning(m, p) && Undisturbed(m, actions, p)
    ensures Inv(Run(m, actions)) && At(Run(m, actions), p) == At(m, p)
    ensures Run(m, actions).core.gRead == m.core.gRead
  {
    if actions != [] {
      var before, a := actions[..|actions| - 1], actions[|actions| - 1];
      UndisturbedKeeps(m, before, p);
      var s := Run(m, before);
      StepKeepsInv(s, a);
      if a.Interrupt? && s.core.isr.RrdyRead? {
        FetchIsForHolder(s);
        assert false;
      }
      OnlyFetchWritesGRead(s, a);
    }
  }

  /**
   * When no other caller waits for a byte between the unlock of p, at m, and
   * its return, p returns the value of its own entry in the history.
   */
  lemma ReturnIsRightUndisturbed(regs: Registers, m: State, actions: seq<Action>, p: nat, next: Call)
    requires Reachable(regs, m) && At(m, p).Unlock? && At(m, p).call.ReadCall?
    requires Undisturbed(CallerStep(m, p, next), actions, p)
    ensures var call, unlocked := At(m, p).call, CallerStep(m, p, next);
            var returned := CallerStep(Run(unlocked, actions), p, next);
            && unlocked.history == m.history + [Read(call.slave, call.reg, m.core.gRead)]
            && At(returned, p) == Done(m.core.gRead)
  {
    ReachableInv(regs, m);
    UnlockSeesItsOwnAccess(regs, m, p);
    Unlocking(m, p, next);
    StepKeepsInv(m, Caller(p, next));
    UndisturbedKeeps(CallerStep(m, p, next), actions, p);
    ReturnGives(Run(CallerStep(m, p, next), actions), p, next);
  }

  lemma Unlocking(m: State, p: nat, next: Call)
    requires At(m, p).Unlock? && At(m, p).call.ReadCall? && At(m, p).ok
    ensures var call, r := At(m, p).call, CallerStep(m, p, next);
            && r.history == m.history + [Read(call.slave, call.reg, m.core.gRead)]
            && At(r, p) == Return(call, true) && r.core == m.core
  {
  }

  /** The reads fetched since the unlock of p, whose history ends as given. */
  function Overtaking(n: State, unlocked: State): seq<Entry>
    requires unlocked.history <= FetchedOps(n)
  {
    FetchedOps(n)[|unlocked.history|..]
  }

  lemma {:induction false} HistoryGrowsOn(s: State, actions: seq<Action>)
    ensures s.history <= Run(s, actions).history
  {
    if actions != [] {
      HistoryGrowsOn(s, actions[..|actions| - 1]);
      HistoryGrows(Run(s, actions[..|actions| - 1]), actions[|actions| - 1]);
    }
  }

  lemma ReachableOn(regs: Registers, m: State, actions: seq<Action>)
    requires Reachable(regs, m) && TimeoutFree(actions)
    ensures Reachable(regs, Run(m, actions))
  {
    assert Leads(m, Run(m, actions));
    LeadsIsReachable(regs, m, Run(m, actions));
  }

  lemma FetchedContainsHistory(regs: Registers, n: State, past: seq<Entry>)
    requires Reachable(regs, n) && past <= n.history
    ensures past <= FetchedOps(n)
  {
    Linearizes(regs, n);
  }

  /**
   * Exactly what a read returns: the value of the last read fetched after its
   * own, or else its own. It is wrong just when the last of these has another
   * value.
   */
  lemma ReturnsLastOvertaking(regs: Registers, m: State, actions: seq<Action>, p: nat, next: Call)
    requires Reachable(regs, m) && At(m, p).Unlock? && At(m, p).call.ReadCall? && TimeoutFree(actions)
    requires Returning(Run(CallerStep(m, p, next), actions), p)
    ensures var unlocked := CallerStep(m, p, next);
            var n := Run(unlocked, actions);
            && unlocked.history <= FetchedOps(n)
            && At(CallerStep(n, p, next), p) == Done(LastRead(Overtaking(n, unlocked), m.core.gRead))
  {
    var unlocked := CallerStep(m, p, next);
    var n := Run(unlocked, actions);
    UnlockIsReachable(regs, m, p, next);
    Unlocking(m, p, next);
    ReachableOn(regs, unlocked, actions);
    HistoryGrowsOn(unlocked, actions);
    FetchedContainsHistory(regs, n, unlocked.history);
    ReturnsLastFetch(regs, n, p, next);
    LastAfter(FetchedOps(n), unlocked.history, Read(At(m, p).call.slave, At(m, p).call.reg, m.core.gRead));
  }

  lemma LastAfter(ops: seq<Entry>, past: seq<Entry>, e: Entry)
    requires past <= ops && past != [] && past[|past| - 1] == e && e.Read?
    ensures LastRead(ops, 0) == LastRead(ops[|past|..], e.value)
  {
    LastReadConcat(past, ops[|past|..], 0);
    assert ops == past + ops[|past|..];
  }

  lemma UnlockIsReachable(regs: Registers, m: State, p: nat, next: Call)
    requires Reachable(regs, m) && At(m, p).Unlock?
    ensures Reachable(regs, CallerStep(m, p, next)) && At(m, p).ok
  {
    UnlockSeesItsOwnAccess(regs, m, p);
    LeadsNowhere(m);
    LeadsOn(m, m, Caller(p, next));
    LeadsIsReachable(regs, m, CallerStep(m, p, next));
  }

  // ----- Which callers are safe --------------------------------------------

  /** All reads are calls of the given callers; anybody may write. */
  predicate OnlyReaders(actions: seq<Action>, readers: set<nat>) {
    forall i :: 0 <= i < |actions| && actions[i].Caller? && actions[i].next.ReadCall? ==> actions[i].p in readers
  }

  /** The entry that the last unlock of p has put into the history. */
  function OwnEntry(s: State, actions: seq<Action>, p: nat): Entry {
    if actions == [] then Read(0, 0, 0)
    else
      var before, a := actions[..|actions| - 1], actions[|actions| - 1];
      var pc := At(Run(s, before), p);
      if a.Caller? && a.p == p && pc.Unlock? then Effect(pc.call, Run(s, before).core)
      else OwnEntry(s, before, p)
  }

  /** Whoever returns from a successful read next returns the value of its own entry. */
  ghost predicate ReturnsOwn(s: State, actions: seq<Action>) {
    forall p, next :: Returning(Run(s, actions), p) ==>
      At(CallerStep(Run(s, actions), p, next), p) == Done(OwnEntry(s, actions, p).value)
  }

  lemma UnlockLogs(s: State, p: nat, next: Call)
    requires Returning(CallerStep(s, p, next), p)
    ensures At(s, p).Unlock?
    ensures var call, own := At(s, p).call, Effect(At(s, p).call, s.core);
            && own in CallerStep(s, p, next).history && own == Read(call.slave, call.reg, s.core.gRead)
            && At(CallerStep(s, p, next), p).call == call
  {
  }

  /** A return comes from an unlock: the own entry is in the history and is that of the call. */
  lemma {:induction false} OwnEntryIsInHistory(regs: Registers, actions: seq<Action>, p: nat)
    requires TimeoutFree(actions) && Returning(Run(Initial(regs), actions), p)
    ensures var s, own := Run(Initial(regs), actions), OwnEntry(Initial(regs), actions, p);
            && own in s.history && own.Read?
            && own.slave == At(s, p).call.slave && own.reg == At(s, p).call.reg
  {
    var before, a := actions[..|actions| - 1], actions[|actions| - 1];
    var s := Run(Initial(regs), before);
    if a.Caller? && a.p == p {
      UnlockLogs(s, p, a.next);
    } else {
      StaysPut(s, a, p);
      OwnEntryIsInHistory(regs, before, p);
      HistoryGrows(s, a);
    }
  }

  lemma StaysPut(s: State, a: Action, p: nat)
    requires !a.Timeout? && !(a.Caller? && a.p == p)
    ensures At(Step(s, a), p) == At(s, p)
  {
  }

  lemma HistoryGrows(s: State, a: Action)
    ensures s.history <= Step(s, a).history
  {
  }

  /** The caller has a read to do or to return from. */
  predicate Reads(pc: Pc) {
    !pc.Idle? && !pc.Done? && pc.call.ReadCall?
  }

  lemma StepsKeepTheirCall(pc: Pc, c: Core, free: bool, next: Call)
    ensures Reads(Local(pc, c, free, next).0) ==> Reads(pc) || next.ReadCall?
  {
  }

  lemma {:induction false} ReadersRead(regs: Registers, actions: seq<Action>, readers: set<nat>, p: nat)
    requires TimeoutFree(actions) && OnlyReaders(actions, readers)
    requires Reads(At(Run(Initial(regs), actions), p))
    ensures p in readers
  {
    var before, a := actions[..|actions| - 1], actions[|actions| - 1];
    var s := Run(Initial(regs), before);
    if a.Caller? && a.p == p {
      StepsKeepTheirCall(At(s, p), s.core, s.lock == Nobody, a.next);
      if !a.next.ReadCall? {
        ReadersRead(regs, before, readers, p);
      }
    } else {
      StaysPut(s, a, p);
      ReadersRead(regs, before, readers, p);
    }
  }

  lemma NothingFetchedMeanwhile(s: State, a: Action, p: nat)
    requires Inv(s) && Returning(s, p)
    requires forall q :: Reads(At(s, q)) ==> q == p
    ensures Step(s, a).core.gRead == s.core.gRead
  {
    if a.Interrupt? && s.core.isr.RrdyRead? {
      FetchIsForHolder(s);
      assert false;
    }
    OnlyFetchWritesGRead(s, a);
  }

  predicate AtMostOne(readers: set<nat>) {
    forall p, q :: p in readers && q in readers ==> p == q
  }

  lemma OnlyOneReads(regs: Registers, actions: seq<Action>, readers: set<nat>, p: nat)
    requires TimeoutFree(actions) && OnlyReaders(actions, readers) && AtMostOne(readers)
    requires Returning(Run(Initial(regs), actions), p)
    ensures Inv(Run(Initial(regs), actions))
    ensures forall q :: Reads(At(Run(Initial(regs), actions), q)) ==> q == p
  {
    RunKeepsInv(regs, actions);
    forall q | Reads(At(Run(Initial(regs), actions), q)) ensures q == p {
      ReadersRead(regs, actions, readers, p);
      ReadersRead(regs, actions, readers, q);
    }
  }

  lemma ComesFromUnlock(s: State, p: nat, next: Call)
    requires Returning(CallerStep(s, p, next), p)
    ensures At(s, p).Unlock? && Effect(At(s, p).call, s.core).Read?
    ensures CallerStep(s, p, next).core.gRead == s.core.gRead == Effect(At(s, p).call, s.core).value
  {
    CallersLeaveGRead(s, p, next);
  }

  /** With one reader, nobody fetches for somebody else while it returns. */
  lemma {:induction false} OneReaderIsRight(regs: Registers, actions: seq<Action>, readers: set<nat>, p: nat)
    requires TimeoutFree(actions) && OnlyReaders(actions, readers) && AtMostOne(readers)
    requires Returning(Run(Initial(regs), actions), p)
    ensures Run(Initial(regs), actions).core.gRead == OwnEntry(Initial(regs), actions, p).value
  {
    var before, a := actions[..|actions| - 1], actions[|actions| - 1];
    var s := Run(Initial(regs), before);
    if a.Caller? && a.p == p {
      ComesFromUnlock(s, p, a.next);
    } else {
      StaysPut(s, a, p);
      OneReaderIsRight(regs, before, readers, p);
      OnlyOneReads(regs, before, readers, p);
      NothingFetchedMeanwhile(s, a, p);
    }
  }

  lemma StaysIdle(s: State, a: Action, p: nat)
    requires At(Step(s, a), p) == Idle
    ensures At(s, p) == Idle && !(a.Caller? && a.p == p)
  {
    if a.Caller? {
      if a.p != p {
        CallerMovesItself(s, a.p, a.next, p);
      }
    }
  }

  /** Who stands at Idle has never moved. */
  lemma {:induction false} IdleNeverMoved(s: State, actions: seq<Action>, p: nat)
    requires At(Run(s, actions), p) == Idle
    ensures forall i :: 0 <= i < |actions| && actions[i].Caller? ==> actions[i].p != p
  {
    if actions != [] {
      var before, a := actions[..|actions| - 1], actions[|actions| - 1];
      StaysIdle(Run(s, before), a, p);
      IdleNeverMoved(s, before, p);
      forall i | 0 <= i < |actions| && actions[i].Caller? ensures actions[i].p != p {
        if i < |before| {
          assert actions[i] == before[i];
        }
      }
    }
  }

  lemma OnlyTheseMoved(s: State, actions: seq<Action>, readers: set<nat>)
    requires forall o :: o !in readers ==> At(Run(s, actions), o) == Idle
    ensures OnlyReaders(actions, readers)
  {
    forall i | 0 <= i < |actions| && actions[i].Caller? && actions[i].next.ReadCall?
      ensures actions[i].p in readers
    {
      if actions[i].p !in readers {
        IdleNeverMoved(s, actions, actions[i].p);
      }
    }
  }

  lemma LeadsByActions(regs: Registers, m: State, n: State) returns (actions: seq<Action>)
    requires Reachable(regs, m) && Leads(m, n)
    ensures TimeoutFree(actions) && n == Run(Initial(regs), actions)
  {
    LeadsIsReachable(regs, m, n);
    actions :| TimeoutFree(actions) && n == Run(Initial(regs), actions);
  }

  /** The history tells the own entries of two readers apart. */
  lemma OwnIsFirst(regs: Registers, actions: seq<Action>, p: nat, v: Byte, w: Byte)
    requires TimeoutFree(actions)
    requires At(Run(Initial(regs), actions), p) == Return(ReadCall(0, 0), true)
    requires Run(Initial(regs), actions).history == [Read(0, 0, v), Read(0, 1, w)]
    ensures OwnEntry(Initial(regs), actions, p).value == v
  {
    OwnEntryIsInHistory(regs, actions, p);
  }

  /** Two readers: there is a run of theirs in which one returns the register of the other. */
  lemma TwoReadersGoWrong(p: nat, q: nat, readers: set<nat>) returns (regs: Registers, actions: seq<Action>)
    requires p != q && p in readers && q in readers
    ensures TimeoutFree(actions) && OnlyReaders(actions, readers) && !ReturnsOwn(Initial(regs), actions)
  {
    regs := map[(0, 1) := 1];
    var mine, other := ReadCall(0, 0), ReadCall(1, 0);
    var m, n := ReadsBetween(regs, p, q, mine, other);
    actions := LeadsByActions(regs, m, n);
    OnlyTheseMoved(Initial(regs), actions, readers);
    OwnIsFirst(regs, actions, p, 0, 1);
    ReturnGives(n, p, mine);
    assert Returning(Run(Initial(regs), actions), p);
  }

  lemma OneReaderReturnsOwn(regs: Registers, actions: seq<Action>, readers: set<nat>)
    requires TimeoutFree(actions) && OnlyReaders(actions, readers) && AtMostOne(readers)
    ensures ReturnsOwn(Initial(regs), actions)
  {
    var s := Run(Initial(regs), actions);
    forall p, next | Returning(s, p)
      ensures At(CallerStep(s, p, next), p) == Done(OwnEntry(Initial(regs), actions, p).value)
    {
      OneReaderIsRight(regs, actions, readers, p);
      ReturnGives(s, p, next);
    }
  }

  /** Whatever runs these readers and any writers have, no read returns a wrong value. */
  ghost predicate AlwaysRight(readers: set<nat>) {
    forall regs: Registers, actions: seq<Action> ::
      TimeoutFree(actions) && OnlyReaders(actions, readers) ==> ReturnsOwn(Initial(regs), actions)
  }

  /**
   * Every successful read of every run without timeouts returns the value of
   * its own access exactly when there is no more than one reader, however many
   * writers there are.
   */
  lemma ReturnsAreRightExactlyWhen(readers: set<nat>)
    ensures AlwaysRight(readers) <==> AtMostOne(readers)
  {
    if AtMostOne(readers) {
      forall regs: Registers, actions: seq<Action> | TimeoutFree(actions) && OnlyReaders(actions, readers)
        ensures ReturnsOwn(Initial(regs), actions)
      {
        OneReaderReturnsOwn(regs, actions, readers);
      }
    } else {
      var p, q :| p in readers && q in readers && p != q;
      var regs, actions := TwoReadersGoWrong(p, q, readers);
    }
  }
}
