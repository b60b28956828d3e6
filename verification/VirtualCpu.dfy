// The multiplexed machine of Scheduler.dfy against one private CPU per task.
module VirtualCpu {
  import opened Scheduler
  import opened Words

  /** A CPU that one task has to itself. */
  datatype Private = Private(asid: Word, core: Core, neon: Neon)

  // What happens after start: the timer expires, or the code that owns the CPU
  // executes an instruction. An instruction is any function of the registers.
  datatype Event =
    | Tick
    | Instruction(f: Core -> Core)
    | NeonInstruction(g: (Core, Neon) -> (Core, Neon))

  /** On the shared machine a NEON instruction traps first when NEON is off. */
  function Step(m: Machine, e: Event): (r: Machine)
    requires m.Valid()
    ensures r.Valid()
  {
    match e
    case Tick => Interrupted(m, Timer0)
    case Instruction(f) => m.(core := f(m.core))
    case NeonInstruction(g) =>
      var on := NeonOn(m);
      var after := g(on.core, on.neon);
      on.(core := after.0, neon := after.1)
  }

  function Run(m: Machine, es: seq<Event>): (r: Machine)
    requires m.Valid()
    ensures r.Valid()
  {
    if es == [] then m else Step(Run(m, es[..|es| - 1]), es[|es| - 1])
  }

  function PrivateStep(p: Private, e: Event): Private {
    match e
    case Tick => p
    case Instruction(f) => p.(core := f(p.core))
    case NeonInstruction(g) =>
      var after := g(p.core, p.neon);
      p.(core := after.0, neon := after.1)
  }

  function PrivateRun(p: Private, es: seq<Event>): Private {
    if es == [] then p else PrivateStep(PrivateRun(p, es[..|es| - 1]), es[|es| - 1])
  }

  /** The registers task i owns, wherever they are kept at the moment. */
  function View(m: Machine, i: nat): Private
    requires m.Valid() && i < SLOTS
  {
    if i == m.current then
      Private(m.asid, m.core, if m.neonOn then m.neon else m.contexts[i].neon)
    else
      Private(m.contexts[i].asid, Restored(m.contexts[i].core), m.contexts[i].neon)
  }

  function Ticks(es: seq<Event>): nat {
    if es == [] then 0 else Ticks(es[..|es| - 1]) + (if es[|es| - 1].Tick? then 1 else 0)
  }

  /** The slot that is current after k ticks, counted from slot c. */
  function SlotAfter(c: nat, k: nat): (s: nat)
    ensures s < SLOTS
  {
    (c + k) % SLOTS
  }

  /** The instructions of a run that are executed while slot i is current. */
  function Own(es: seq<Event>, c: nat, i: nat): seq<Event> {
    if es == [] then []
    else
      var before, e := es[..|es| - 1], es[|es| - 1];
      Own(before, c, i) + (if e.Tick? || SlotAfter(c, Ticks(before)) != i then [] else [e])
  }

  lemma StoredRestores(c: Core)
    ensures Restored(Stored(c)) == c
  {
  }

  // ----- One step ----------------------------------------------------------

  /** A timer tick changes who is current and nothing any task can see. */
  lemma TickKeepsViews(m: Machine, i: nat)
    requires m.Valid() && i < SLOTS
    requires AsidLoaded(m)
    ensures View(Step(m, Tick), i) == View(m, i)
  {
    StoredRestores(m.core);
  }

  lemma InstructionActsOnOwner(m: Machine, e: Event, i: nat)
    requires m.Valid() && i < SLOTS && !e.Tick?
    ensures View(Step(m, e), i) == if i == m.current then PrivateStep(View(m, i), e) else View(m, i)
  {
  }

  // ----- Whole runs --------------------------------------------------------

  /** The current slot is the number of ticks modulo ten, the last one its predecessor. */
  lemma {:induction false} RoundRobin(m: Machine, es: seq<Event>)
    requires m.Valid()
    ensures Run(m, es).current == SlotAfter(m.current, Ticks(es))
    ensures Ticks(es) == 0 ==> Run(m, es).last == m.last
    ensures Ticks(es) > 0 ==> Run(m, es).last == SlotAfter(m.current, Ticks(es) - 1)
  {
    if es != [] {
      var before := es[..|es| - 1];
      RoundRobin(m, before);
      NextSlot(m.current, Ticks(before));
      StepMoves(Run(m, before), es[|es| - 1]);
    }
  }

  lemma StepMoves(m: Machine, e: Event)
    requires m.Valid()
    ensures Step(m, e).current == (if !e.Tick? then m.current else if m.current + 1 == SLOTS then 0 else m.current + 1)
    ensures Step(m, e).last == if e.Tick? then m.current else m.last
  {
  }

  lemma NextSlot(c: nat, k: nat)
    ensures SlotAfter(c, k + 1) == if SlotAfter(c, k) + 1 == SLOTS then 0 else SlotAfter(c, k) + 1
  {
  }

  /** The address-space id is always that of the current slot. */
  predicate AsidLoaded(m: Machine)
    requires m.Valid()
  {
    m.asid == m.contexts[m.current].asid
  }

  lemma {:induction false} AsidFollowsSlot(m: Machine, es: seq<Event>)
    requires m.Valid() && AsidLoaded(m)
    ensures AsidLoaded(Run(m, es))
  {
    if es != [] {
      AsidFollowsSlot(m, es[..|es| - 1]);
    }
  }

  /** Every ten consecutive ticks make each slot current exactly once. */
  lemma EachSlotOncePerTurn(c: nat, k: nat, i: nat)
    requires i < SLOTS
    ensures exists j :: k <= j < k + SLOTS && SlotAfter(c, j) == i
    ensures forall j, l :: k <= j < l < k + SLOTS ==> SlotAfter(c, j) != SlotAfter(c, l)
  {
    var j := k + (i - (c + k)) % SLOTS;
    assert SlotAfter(c, j) == i;
  }

  /**
   * Refinement: over any run of ticks and instructions every task sees exactly
   * the registers it would have on a CPU of its own that executes only the
   * instructions of its turns.
   */
  lemma {:induction false} RunsLikePrivateCpus(m: Machine, es: seq<Event>, i: nat)
    requires m.Valid() && i < SLOTS
    requires AsidLoaded(m)
    ensures View(Run(m, es), i) == PrivateRun(View(m, i), Own(es, m.current, i))
  {
    if es != [] {
      var before, e := es[..|es| - 1], es[|es| - 1];
      RunsLikePrivateCpus(m, before, i);
      RoundRobin(m, before);
      AsidFollowsSlot(m, before);
      if e.Tick? {
        TickKeepsViews(Run(m, before), i);
        assert Own(es, m.current, i) == Own(before, m.current, i);
      } else {
        InstructionActsOnOwner(Run(m, before), e, i);
        if SlotAfter(m.current, Ticks(before)) == i {
          OneMoreInstruction(View(m, i), Own(before, m.current, i), e);
        } else {
          assert Own(es, m.current, i) == Own(before, m.current, i);
        }
      }
    }
  }

  lemma OneMoreInstruction(p: Private, es: seq<Event>, e: Event)
    ensures PrivateRun(p, es + [e]) == PrivateStep(PrivateRun(p, es), e)
  {
    assert (es + [e])[..|es + [e]| - 1] == es;
  }

  /** What a slot of the table boots with. */
  function Boot(c: TaskContext): Private {
    Private(c.asid, Restored(c.core), c.neon)
  }

  /** From start on, task i runs from its table entry as if it were alone. */
  lemma StartedTasksRunAlone(m: Machine, es: seq<Event>, i: nat)
    requires m.Valid() && m.current == 0 && i < SLOTS
    ensures View(Run(Started(m), es), i) == PrivateRun(Boot(m.contexts[i]), Own(es, 0, i))
  {
    RunsLikePrivateCpus(Started(m), es, i);
  }

  /** A task starts at its entry point, with its own stack, table and id, in user mode. */
  predicate BootsAs(p: Private, j: nat, t: Task) {
    && p.asid == j + 1 && p.core.pc == t.entrypoint
    && p.core.sp == t.stackTop && p.core.table1 == t.table1
    && p.core.psr == 0x10 + (if t.entrypoint % 2 == 1 then 0x20 else 0)
  }

  /** The machine with a table of added tasks, before its start. */
  predicate HasTable(m: Machine, setup: Setup, ts: seq<Task>)
    requires m.Valid() && |setup.before| == SLOTS
  {
    m.current == 0 && m.contexts == Table(setup, ts)
  }

  /**
   * From initialisation through any adds and the start: the j-th task added
   * runs from its entry point, with its own stack and table, as if it were
   * alone.
   */
  lemma AddedTasksRunAlone(m: Machine, setup: Setup, ts: seq<Task>, es: seq<Event>, j: nat)
    requires m.Valid() && |setup.before| == SLOTS && HasTable(m, setup, ts)
    requires j < SLOTS && j < |Occupying(ts, setup.idle)|
    ensures BootsAs(Boot(m.contexts[j]), j, Occupying(ts, setup.idle)[j])
    ensures View(Run(Started(m), es), j) == PrivateRun(Boot(m.contexts[j]), Own(es, 0, j))
  {
    AddsFillInOrder(setup, ts);
    StartedTasksRunAlone(m, es, j);
    BootsAtEntry(m.contexts[j], Occupying(ts, setup.idle)[j].entrypoint);
  }

  /** What is restored is four below what is stored. */
  lemma BootsAtEntry(c: TaskContext, entrypoint: Word)
    requires c.core.pc == (entrypoint + 4) % 0x1_0000_0000
    ensures Boot(c).core.pc == entrypoint
  {
  }

  // ----- The tick as an interrupt ------------------------------------------

  /** TIMER0 expires: interrupt 36, with TIMER0 raised. */
  method TimerTick(k: Kernel)
    requires k.Valid()
    modifies k, k.contexts
    ensures k.Valid() && k.State() == Step(old(k.State()), Tick)
    ensures k.last == old(k.current) && k.current == (old(k.current) + 1) % 10
  {
    var halted := k.Irq(36, true);
  }

  // ----- Interrupts from other timers --------------------------------------

  /** An interrupt that no task can notice. */
  ghost predicate Unnoticed(m: Machine, source: Source)
    requires m.Valid()
  {
    forall i :: 0 <= i < SLOTS ==> View(Interrupted(m, source), i) == View(m, i)
  }

  /** Slot i holds exactly the registers the CPU has now. */
  predicate Mirrors(m: Machine, i: nat)
    requires m.Valid() && i < SLOTS
  {
    Restored(m.contexts[i].core) == m.core && (m.neonOn ==> m.contexts[i].neon == m.neon)
  }

  /**
   * The vector saves into the last slot but loads from the current one. An
   * interrupt that is not a scheduler tick therefore goes unnoticed exactly
   * when both are the same slot or both happen to mirror the CPU.
   */
  lemma OtherTimerUnnoticedExactlyWhen(m: Machine)
    requires m.Valid() && AsidLoaded(m)
    ensures Unnoticed(m, OtherTimer)
       <==> m.last == m.current || (Mirrors(m, m.current) && Mirrors(m, m.last))
  {
    var r := Interrupted(m, OtherTimer);
    StoredRestores(m.core);
    if Unnoticed(m, OtherTimer) && m.last != m.current {
      assert View(r, m.current) == View(m, m.current);
      assert View(r, m.last) == View(m, m.last);
    }
  }

  /** After any tick the two slots differ, so the accidental case is the only harmless one. */
  lemma OtherTimerAfterFirstTick(m: Machine, es: seq<Event>)
    requires m.Valid() && AsidLoaded(m) && Ticks(es) > 0
    ensures var r := Run(m, es);
            Unnoticed(r, OtherTimer) <==> Mirrors(r, r.current) && Mirrors(r, r.last)
  {
    RoundRobin(m, es);
    AsidFollowsSlot(m, es);
    OtherTimerUnnoticedExactlyWhen(Run(m, es));
    var k := Ticks(es);
    EachSlotOncePerTurn(m.current, k - 1, 0);
    assert SlotAfter(m.current, k - 1) != SlotAfter(m.current, k);
  }

  /** A software interrupt forgets what the current task did since it was loaded. */
  lemma SoftwareUnnoticedExactlyWhen(m: Machine)
    requires m.Valid() && AsidLoaded(m)
    ensures Unnoticed(m, Software) <==> Restored(m.contexts[m.current].core) == m.core
  {
    if Unnoticed(m, Software) {
      assert View(Interrupted(m, Software), m.current) == View(m, m.current);
    }
  }

  /** One tick after the start and one instruction of the task that it made current. */
  function TickAndInstruction(f: Core -> Core): seq<Event> {
    [Tick, Instruction(f)]
  }

  lemma AfterTickAndInstruction(m: Machine, f: Core -> Core)
    requires m.Valid() && m.current == 0
    ensures var r := Run(Started(m), TickAndInstruction(f));
            && r.current == 1 && r.last == 0 && r.core == f(Boot(m.contexts[1]).core)
            && r.contexts[1] == m.contexts[1] && AsidLoaded(r)
  {
    var es := TickAndInstruction(f);
    assert es[..1] == [Tick] && [Tick][..0] == [];
    assert Run(Started(m), []) == Started(m);
    assert Run(Started(m), [Tick]) == Step(Started(m), Tick);
    assert Run(Started(m), es) == Step(Step(Started(m), Tick), Instruction(f));
  }

  /**
   * From every table: a tick and then one instruction of the second task that
   * changes a register, and neither another timer nor a software interrupt
   * goes unnoticed any more. The second task loses what it has just done.
   */
  lemma SecondTaskNotices(m: Machine, f: Core -> Core)
    requires m.Valid() && m.current == 0
    requires f(Boot(m.contexts[1]).core) != Boot(m.contexts[1]).core
    ensures var r := Run(Started(m), TickAndInstruction(f));
            && !Unnoticed(r, OtherTimer) && !Unnoticed(r, Software)
            && View(Interrupted(r, OtherTimer), 1).core == View(Interrupted(r, Software), 1).core
               == Boot(m.contexts[1]).core != View(r, 1).core
  {
    AfterTickAndInstruction(m, f);
    var r := Run(Started(m), TickAndInstruction(f));
    OtherTimerUnnoticedExactlyWhen(r);
    SoftwareUnnoticedExactlyWhen(r);
  }
}
