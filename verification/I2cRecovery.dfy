// Timeouts do no lasting harm: from any state in which the mutex is free and
// nothing is in flight, however many calls have timed out before, the calls
// that follow linearize again.
module I2cRecovery {
  import opened I2cBus
  import opened I2cSafety
  import opened I2cLinearizability

  // ----- What holds on all runs --------------------------------------------

  lemma InterruptKeepsIsr(c: Core)
    requires IsrOk(c)
    ensures IsrOk(IsrStep(c))
  {
  }

  lemma BusKeepsIsr(c: Core, e: Bus)
    requires IsrOk(c)
    ensures IsrOk(BusStep(c, e))
  {
  }

  lemma CallersLeaveIsr(s: State, p: nat, next: Call)
    ensures var r := CallerStep(s, p, next); r.core.isr == s.core.isr && r.core.bits == s.core.bits
  {
    if !Locked(At(s, p)) {
      OutsiderStep(s, p, next);
    }
  }

  /** The handler's copy of the status is sound on every run, timeouts included. */
  lemma {:induction false} IsrAlways(regs: Registers, actions: seq<Action>)
    ensures IsrOk(Run(Initial(regs), actions).core)
  {
    if actions != [] {
      var before := actions[..|actions| - 1];
      var s := Run(Initial(regs), before);
      IsrAlways(regs, before);
      match actions[|actions| - 1] {
        case Caller(p, next) => CallersLeaveIsr(s, p, next);
        case Timeout(p) =>
        case Interrupt => InterruptKeepsIsr(s.core);
        case OnBus(e) => BusKeepsIsr(s.core, e);
      }
    }
  }

  // ----- The history is only written ---------------------------------------

  /** s with another past. */
  function WithPast(s: State, past: seq<Entry>): State {
    s.(history := past)
  }

  lemma StepIgnoresPast(s: State, a: Action, past: seq<Entry>)
    ensures s.history <= Step(s, a).history
    ensures Step(WithPast(s, past), a) == WithPast(Step(s, a), past + Step(s, a).history[|s.history|..])
  {
  }

  lemma {:induction false} RunIgnoresPast(s: State, actions: seq<Action>, past: seq<Entry>)
    ensures s.history <= Run(s, actions).history
    ensures Run(WithPast(s, past), actions) == WithPast(Run(s, actions), past + Run(s, actions).history[|s.history|..])
  {
    if actions != [] {
      var before, a := actions[..|actions| - 1], actions[|actions| - 1];
      RunIgnoresPast(s, before, past);
      var m, r := Run(s, before), Run(s, actions);
      StepIgnoresPast(m, a, past + m.history[|s.history|..]);
      Pasts(s.history, m.history, r.history, past);
    } else {
      assert past + s.history[|s.history|..] == past;
    }
  }

  lemma Pasts(a: seq<Entry>, b: seq<Entry>, c: seq<Entry>, past: seq<Entry>)
    requires a <= b <= c
    ensures (past + b[|a|..]) + c[|b|..] == past + c[|a|..]
  {
    assert c == b + c[|b|..];
  }

  // ----- Recovery ----------------------------------------------------------

  lemma {:induction false} InvOnwards(s: State, actions: seq<Action>)
    requires Inv(s) && TimeoutFree(actions)
    ensures Inv(Run(s, actions))
  {
    if actions != [] {
      InvOnwards(s, actions[..|actions| - 1]);
      StepKeepsInv(Run(s, actions[..|actions| - 1]), actions[|actions| - 1]);
    }
  }

  /** The mutex is free, nothing is in flight, and no index has left the buffer. */
  predicate Settled(s: State) {
    s.lock == Nobody && Quiet(s.core) && !s.core.outOfBounds
  }

  lemma SettledInv(regs: Registers, before: seq<Action>)
    requires Settled(Run(Initial(regs), before))
    ensures var s := Run(Initial(regs), before); Inv(WithPast(s, BusOps(s.core.slaves.log)))
  {
    IsrAlways(regs, before);
    MutexAlways(regs, before);
    var s := Run(Initial(regs), before);
    var t := WithPast(s, BusOps(s.core.slaves.log));
    assert forall p :: At(t, p) == At(s, p);
  }

  /** What Inv says of the bus accesses. */
  lemma InvLinearizes(r: State)
    requires Inv(r)
    ensures r.history <= BusOps(r.core.slaves.log) && |BusOps(r.core.slaves.log)| <= |r.history| + 1
    ensures r.lock == Nobody ==> BusOps(r.core.slaves.log) == r.history
  {
    if r.lock.Holds? {
      assert Phase(r.core, At(r, r.lock.p), r.history);
    }
  }

  /**
   * From a settled state, reached with timeouts or without, the bus accesses
   * that follow are again the calls that follow, in the order of their unlocks
   * with the effect their callers saw, as long as no further call times out.
   */
  lemma RecoversWhenSettled(regs: Registers, before: seq<Action>, after: seq<Action>)
    requires Settled(Run(Initial(regs), before)) && TimeoutFree(after)
    ensures var s := Run(Initial(regs), before);
            var r := Run(s, after);
            && s.history <= r.history
            && var calls := r.history[|s.history|..];
               var past, ops := BusOps(s.core.slaves.log), BusOps(r.core.slaves.log);
               && past + calls <= ops && |ops| <= |past + calls| + 1
               && (r.lock == Nobody ==> ops == past + calls)
  {
    var s := Run(Initial(regs), before);
    var past := BusOps(s.core.slaves.log);
    SettledInv(regs, before);
    InvOnwards(WithPast(s, past), after);
    RunIgnoresPast(s, after, past);
    InvLinearizes(Run(WithPast(s, past), after));
  }

  /** At an unlock after recovery, g_read or the written value is that of the call's own access. */
  lemma UnlockAfterRecovery(regs: Registers, before: seq<Action>, after: seq<Action>, p: nat)
    requires Settled(Run(Initial(regs), before)) && TimeoutFree(after)
    requires At(Run(Run(Initial(regs), before), after), p).Unlock?
    ensures var r := Run(Run(Initial(regs), before), after);
            var ops := BusOps(r.core.slaves.log);
            && At(r, p).ok && ops != [] && ops[|ops| - 1] == Effect(At(r, p).call, r.core)
  {
    var s := Run(Initial(regs), before);
    var past := BusOps(s.core.slaves.log);
    SettledInv(regs, before);
    InvOnwards(WithPast(s, past), after);
    RunIgnoresPast(s, after, past);
    var r := Run(WithPast(s, past), after);
    HolderPhase(r, p);
    UnlockPhase(r.core, At(r, p), r.history);
  }
}
