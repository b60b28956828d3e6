// What a call of the I2C driver returns, on all runs, timeouts included. What a
// call did is read off the steps that its caller has taken since it began.
module I2cResults {
  import opened I2cBus

  /** p has no call: the next step begins one. */
  predicate Between(pc: Pc) {
    pc.Idle? || pc.Done?
  }

  /** The step is one of p, from s. */
  predicate StepOf(a: Action, p: nat) {
    a.Caller? && a.p == p
  }

  /** The call that p is in, or has made last. */
  function Called(s: State, actions: seq<Action>, p: nat): Call {
    if actions == [] then ReadCall(0, 0)
    else
      var before, a := actions[..|actions| - 1], actions[|actions| - 1];
      if StepOf(a, p) && Between(At(Run(s, before), p)) then a.next else Called(s, before, p)
  }

  /** What the steps of p have added to the history since that call began. */
  function Added(s: State, actions: seq<Action>, p: nat): seq<Entry> {
    if actions == [] then []
    else
      var before, a := actions[..|actions| - 1], actions[|actions| - 1];
      var m := Run(s, before);
      if !StepOf(a, p) then Added(s, before, p)
      else if Between(At(m, p)) then []
      else Added(s, before, p) + NewEntries(m, a)
  }

  function NewEntries(s: State, a: Action): seq<Entry> {
    var r := Step(s, a);
    if |s.history| <= |r.history| then r.history[|s.history|..] else []
  }

  /** The bus is in use, or somebody holds the mutex. */
  predicate Busy(s: State) {
    s.core.active || s.lock != Nobody
  }

  /** How often p has found the bus busy since its call began. */
  function BusyLooks(s: State, actions: seq<Action>, p: nat): nat {
    if actions == [] then 0
    else
      var before, a := actions[..|actions| - 1], actions[|actions| - 1];
      var m := Run(s, before);
      if !StepOf(a, p) then BusyLooks(s, before, p)
      else if Between(At(m, p)) then 0
      else BusyLooks(s, before, p) + (if At(m, p).Polling? && Busy(m) then 1 else 0)
  }

  /** A wait of p has run into its time limit since the call began. */
  function WasLate(s: State, actions: seq<Action>, p: nat): bool {
    if actions == [] then false
    else
      var before, a := actions[..|actions| - 1], actions[|actions| - 1];
      var pc := At(Run(s, before), p);
      if StepOf(a, p) && Between(pc) then false
      else WasLate(s, before, p) || (a.Timeout? && a.p == p && Waiting(pc))
  }

  predicate Waiting(pc: Pc) {
    pc.WaitEmpty? || pc.WaitStop? || pc.WaitRead? || pc.WaitRxStop?
  }

  /** The entry of a successful call. */
  predicate IsEntryOf(e: Entry, call: Call) {
    match call
    case WriteCall(value, reg, slave) => e == Written(slave, reg, value)
    case ReadCall(reg, slave) => e.Read? && e.slave == slave && e.reg == reg
  }

  // ----- What holds while a call is under way ------------------------------

  /** Whether p, at pc, has not yet failed. */
  predicate StillOk(pc: Pc) {
    match pc
    case ReinitStop(_, ok) => ok
    case ReinitRead(_, ok) => ok
    case ReinitRxStop(_, ok) => ok
    case Unlock(_, ok) => ok
    case Return(_, ok) => ok
    case _ => true
  }

  /** The result of a finished call. */
  predicate ResultOk(call: Call, result: int, added: seq<Entry>, late: bool, looks: nat) {
    && (if result == -1 then added == [] && (late || looks == 101)
        else |added| == 1 && IsEntryOf(added[0], call) && !late && looks <= 100)
    && (call.WriteCall? ==> result == 0 || result == -1)
    && (call.ReadCall? ==> -1 <= result < 256)
  }

  predicate CallOk(pc: Pc, call: Call, added: seq<Entry>, late: bool, looks: nat) {
    match pc
    case Idle => true
    case Done(result) => ResultOk(call, result, added, late, looks)
    case Polling(c, i) => c == call && added == [] && !late && looks == i <= 100
    case Return(c, ok) =>
      c == call && late == !ok && looks <= 100
      && (if ok then |added| == 1 && IsEntryOf(added[0], call) else added == [])
    case _ => pc.call == call && added == [] && late == !StillOk(pc) && looks <= 100
  }

  predicate CallsOk(regs: Registers, actions: seq<Action>, p: nat) {
    var s := Initial(regs);
    CallOk(At(Run(s, actions), p), Called(s, actions, p), Added(s, actions, p), WasLate(s, actions, p),
           BusyLooks(s, actions, p))
  }

  /** Before its unlock a call adds nothing. */
  lemma StepBeforeUnlock(s: State, p: nat, next: Call, call: Call, added: seq<Entry>, late: bool, looks: nat)
    requires !Between(At(s, p)) && CallOk(At(s, p), call, added, late, looks)
    requires !At(s, p).Unlock? && !At(s, p).Return?
    ensures CallOk(At(CallerStep(s, p, next), p), call, added, late,
                   looks + if At(s, p).Polling? && Busy(s) then 1 else 0)
  {
  }

  lemma UnlockStep(s: State, p: nat, next: Call, call: Call, added: seq<Entry>, late: bool, looks: nat)
    requires At(s, p).Unlock? && CallOk(At(s, p), call, added, late, looks)
    ensures CallOk(At(CallerStep(s, p, next), p), call, added + NewEntries(s, Caller(p, next)), late, looks)
  {
    if At(s, p).ok {
      assert NewEntries(s, Caller(p, next)) == [Effect(call, s.core)];
    }
  }

  lemma ReturnStep(s: State, p: nat, next: Call, call: Call, added: seq<Entry>, late: bool, looks: nat)
    requires At(s, p).Return? && CallOk(At(s, p), call, added, late, looks)
    ensures CallOk(At(CallerStep(s, p, next), p), call, added, late, looks)
  {
  }

  lemma NothingNew(s: State, p: nat, next: Call, added: seq<Entry>)
    requires !At(s, p).Unlock?
    ensures added + NewEntries(s, Caller(p, next)) == added
  {
  }

  lemma OwnStepOk(s: State, p: nat, next: Call, call: Call, added: seq<Entry>, late: bool, looks: nat)
    requires !Between(At(s, p)) && CallOk(At(s, p), call, added, late, looks)
    ensures CallOk(At(CallerStep(s, p, next), p), call, added + NewEntries(s, Caller(p, next)), late,
                   looks + if At(s, p).Polling? && Busy(s) then 1 else 0)
  {
    if At(s, p).Unlock? {
      UnlockStep(s, p, next, call, added, late, looks);
    } else {
      NothingNew(s, p, next, added);
      if At(s, p).Return? {
        ReturnStep(s, p, next, call, added, late, looks);
      } else {
        StepBeforeUnlock(s, p, next, call, added, late, looks);
      }
    }
  }

  lemma LateOk(pc: Pc, call: Call, added: seq<Entry>, late: bool, looks: nat)
    requires CallOk(pc, call, added, late, looks) && !Between(pc)
    ensures CallOk(TimedOut(pc), call, added, late || Waiting(pc), looks)
  {
  }

  lemma StaysAt(s: State, a: Action, p: nat)
    requires !StepOf(a, p) && !(a.Timeout? && a.p == p)
    ensures At(Step(s, a), p) == At(s, p)
  {
  }

  lemma LateLeavesBetween(s: State, p: nat)
    requires Between(At(s, p))
    ensures At(TimeoutStep(s, p), p) == At(s, p)
  {
  }

  /** p's own step begins a call or takes it on. */
  lemma OwnActionOk(regs: Registers, actions: seq<Action>, p: nat)
    requires actions != [] && StepOf(actions[|actions| - 1], p)
    requires CallsOk(regs, actions[..|actions| - 1], p)
    ensures CallsOk(regs, actions, p)
  {
    var before, a := actions[..|actions| - 1], actions[|actions| - 1];
    var s0 := Initial(regs);
    if !Between(At(Run(s0, before), p)) {
      OwnStepOk(Run(s0, before), p, a.next, Called(s0, before, p), Added(s0, before, p), WasLate(s0, before, p),
                BusyLooks(s0, before, p));
    }
  }

  lemma LateActionOk(regs: Registers, actions: seq<Action>, p: nat)
    requires actions != [] && actions[|actions| - 1] == Timeout(p)
    requires CallsOk(regs, actions[..|actions| - 1], p)
    ensures CallsOk(regs, actions, p)
  {
    var before := actions[..|actions| - 1];
    var s0 := Initial(regs);
    if Between(At(Run(s0, before), p)) {
      LateLeavesBetween(Run(s0, before), p);
    } else {
      LateOk(At(Run(s0, before), p), Called(s0, before, p), Added(s0, before, p), WasLate(s0, before, p),
             BusyLooks(s0, before, p));
    }
  }

  lemma OtherActionOk(regs: Registers, actions: seq<Action>, p: nat)
    requires actions != [] && !StepOf(actions[|actions| - 1], p) && actions[|actions| - 1] != Timeout(p)
    requires CallsOk(regs, actions[..|actions| - 1], p)
    ensures CallsOk(regs, actions, p)
  {
    StaysAt(Run(Initial(regs), actions[..|actions| - 1]), actions[|actions| - 1], p);
  }

  lemma {:induction false} CallsAlwaysOk(regs: Registers, actions: seq<Action>, p: nat)
    ensures CallsOk(regs, actions, p)
  {
    if actions != [] {
      CallsAlwaysOk(regs, actions[..|actions| - 1], p);
      if StepOf(actions[|actions| - 1], p) {
        OwnActionOk(regs, actions, p);
      } else if actions[|actions| - 1] == Timeout(p) {
        LateActionOk(regs, actions, p);
      } else {
        OtherActionOk(regs, actions, p);
      }
    }
  }

  // ----- Results -----------------------------------------------------------

  /**
   * On every run: a write has returned 0 exactly when it has added its Written
   * entry to the history, and -1 exactly when it has added nothing.
   */
  lemma WriteReturns(regs: Registers, actions: seq<Action>, p: nat)
    requires At(Run(Initial(regs), actions), p).Done? && Called(Initial(regs), actions, p).WriteCall?
    ensures var call, added := Called(Initial(regs), actions, p), Added(Initial(regs), actions, p);
            var result := At(Run(Initial(regs), actions), p).result;
            && (result == 0 <==> added == [Written(call.slave, call.reg, call.value)])
            && (result == -1 <==> added == [])
            && (result == 0 || result == -1)
  {
    CallsAlwaysOk(regs, actions, p);
  }

  /** A read has returned -1 exactly when it has added nothing, and a byte when it has added a read of its register. */
  lemma ReadReturns(regs: Registers, actions: seq<Action>, p: nat)
    requires At(Run(Initial(regs), actions), p).Done? && Called(Initial(regs), actions, p).ReadCall?
    ensures var call, added := Called(Initial(regs), actions, p), Added(Initial(regs), actions, p);
            var result := At(Run(Initial(regs), actions), p).result;
            && (result == -1 <==> added == [])
            && (result != -1 ==> 0 <= result < 256 && |added| == 1 && added[0] == Read(call.slave, call.reg, added[0].value))
  {
    CallsAlwaysOk(regs, actions, p);
  }

  /** Either returns -1 exactly when a wait has run into its time limit or the bus has been busy at 101 looks. */
  lemma FailsExactlyWhen(regs: Registers, actions: seq<Action>, p: nat)
    requires At(Run(Initial(regs), actions), p).Done?
    ensures At(Run(Initial(regs), actions), p).result == -1
       <==> WasLate(Initial(regs), actions, p) || BusyLooks(Initial(regs), actions, p) == 101
  {
    CallsAlwaysOk(regs, actions, p);
  }
}
