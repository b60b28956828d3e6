// The round-robin scheduler (scheduler.c) with the context switch of the IRQ
// vector and the lazy NEON switch (vector_table.S, neon.S, int_handlers.c).
module Scheduler {
  import opened Words

  const SLOTS := 10                 // SCHEDULER_MAX_TASKS

  const USR_MODE: Word := 0x10
  const SYS_MODE: Word := 0x1F
  const T_BIT: Word := 0x20

  // ----- Registers ---------------------------------------------------------

  /** What the IRQ vector saves of the interrupted code. */
  datatype Core = Core(table1: Word, psr: Word, r0ToR12: seq<Word>, sp: Word, lr: Word, pc: Word)

  datatype Neon = Neon(fpscr: Word, q: seq<int>)

  /** task_context. Its pc is the IRQ link register: the interrupted address plus four. */
  datatype TaskContext = TaskContext(asid: Word, core: Core, neon: Neon)

  function Plus4(pc: Word): Word {
    if pc + 4 < WORDS then pc + 4 else pc + 4 - WORDS
  }

  function Minus4(pc: Word): Word {
    if pc >= 4 then pc - 4 else pc - 4 + WORDS
  }

  function Stored(core: Core): Core {
    core.(pc := Plus4(core.pc))
  }

  function Restored(core: Core): (r: Core)
    ensures Stored(r) == core
  {
    core.(pc := Minus4(core.pc))
  }

  // ----- The machine as a value --------------------------------------------

  datatype Machine = Machine(
    contexts: seq<TaskContext>, current: int, last: int,
    asid: Word, core: Core, neonOn: bool, neon: Neon)
  {
    predicate Valid() {
      && |contexts| == SLOTS
      && 0 <= current < SLOTS
      && 0 <= last < SLOTS
    }
  }

  /** prv_scheduler_change_task. */
  function Ticked(m: Machine): (r: Machine)
    ensures m.Valid() ==> r.Valid()
  {
    m.(last := m.current, current := if m.current + 1 == SLOTS then 0 else m.current + 1)
  }

  /** save_context: into the context of the last task, NEON only when it is on. */
  function Saved(m: Machine): (r: Machine)
    requires m.Valid()
    ensures r.Valid()
  {
    var slot := m.contexts[m.last];
    m.(contexts := m.contexts[m.last := TaskContext(slot.asid, Stored(m.core), if m.neonOn then m.neon else slot.neon)],
       neonOn := false)
  }

  /** load_new_context: from the context of the current task, never NEON. */
  function Loaded(m: Machine): (r: Machine)
    requires m.Valid()
    ensures r.Valid()
  {
    var slot := m.contexts[m.current];
    m.(asid := slot.asid, core := Restored(slot.core))
  }

  /** neon_undef_handler: the first NEON instruction after a switch turns NEON on. */
  function NeonOn(m: Machine): (r: Machine)
    requires m.Valid()
    ensures r.Valid()
  {
    if m.neonOn then m else m.(neonOn := true, neon := m.contexts[m.current].neon)
  }

  // TIMER0 runs the scheduler, every other timer a handler of its own, the
  // software interrupt asks not to save; anything else is a critical error.
  datatype Source = Timer0 | OtherTimer | Software | Unknown

  const INT_SOFTWARE := 1
  const INT_TIMER_0_AND_1 := 36
  const INT_TIMER_2_AND_3 := 37
  const INT_TIMER_4_AND_5 := 73
  const INT_TIMER_6_AND_7 := 74

  function Dispatch(id: int, timer0Raised: bool): Source {
    if id == INT_TIMER_0_AND_1 then (if timer0Raised then Timer0 else OtherTimer)
    else if id == INT_TIMER_2_AND_3 || id == INT_TIMER_4_AND_5 || id == INT_TIMER_6_AND_7 then OtherTimer
    else if id == INT_SOFTWARE then Software
    else Unknown
  }

  function Interrupted(m: Machine, source: Source): (r: Machine)
    requires m.Valid()
    ensures r.Valid()
  {
    match source
    case Timer0 => Loaded(Saved(Ticked(m)))
    case OtherTimer => Loaded(Saved(m))
    case Software => Loaded(m)
    case Unknown => m
  }

  // ----- The kernel --------------------------------------------------------

  class Kernel {
    const contexts: array<TaskContext>
    var current: int
    var last: int
    var asid: Word
    var core: Core
    var neonOn: bool
    var neon: Neon

    const idle: Word              // prv_idle_task
    const idleStack: Word         // &stack_idle_task
    const kernelTable: Word       // &kernel_table1_addr

    ghost predicate Valid()
      reads this
    {
      contexts.Length == SLOTS && 0 <= current < SLOTS && 0 <= last < SLOTS
    }

    ghost function State(): (m: Machine)
      requires Valid()
      reads this, contexts
      ensures m.Valid()
    {
      Machine(contexts[..], current, last, asid, core, neonOn, neon)
    }

    // Static storage is zero until __scheduler_init.
    constructor (idle: Word, idleStack: Word, kernelTable: Word, core: Core, asid: Word)
      ensures Valid() && fresh(contexts)
      ensures this.idle == idle && this.idleStack == idleStack && this.kernelTable == kernelTable
      ensures current == last == 0 && this.core == core && this.asid == asid && !neonOn
    {
      contexts := new TaskContext[SLOTS](_ => TaskContext(0, Core(0, 0, [], 0, 0, 0), Neon(0, [])));
      current, last := 0, 0;
      this.core, this.asid, neonOn, neon := core, asid, false, Neon(0, []);
      this.idle, this.idleStack, this.kernelTable := idle, idleStack, kernelTable;
    }

    method SchedulerInit()
      requires Valid()
      modifies contexts
      ensures Valid()
      ensures contexts[..] == Initialised(old(contexts[..]), idle, idleStack, kernelTable)
      ensures forall i :: 0 <= i < SLOTS ==>
                HoldsIdle(contexts[i], old(contexts[i]), i, idle, idleStack, kernelTable)
    {
      for i := 0 to SLOTS
        invariant forall j :: 0 <= j < i ==>
                    contexts[j] == IdleSlot(old(contexts[j]), j, idle, idleStack, kernelTable)
                    && HoldsIdle(contexts[j], old(contexts[j]), j, idle, idleStack, kernelTable)
        invariant forall j :: i <= j < SLOTS ==> contexts[j] == old(contexts[j])
      {
        IdleIsHeld(contexts[i], i, idle, idleStack, kernelTable);
        contexts[i] := contexts[i].(
          asid := i + 1,
          core := contexts[i].core.(pc := Plus4(idle), psr := SYS_MODE + T_BIT, sp := idleStack, table1 := kernelTable));
      }
    }

    method SchedulerAddTask(entrypoint: Word, stackTop: Word, table1: Word) returns (full: nat)
      requires Valid()
      modifies contexts
      ensures Valid()
      ensures full == if FirstFree(old(contexts[..]), idle) < SLOTS then 0 else 1
      ensures full == 0 ==>
                var k := FirstFree(old(contexts[..]), idle);
                && HoldsTask(contexts[k], old(contexts[k]), Task(entrypoint, stackTop, table1))
                && forall j :: 0 <= j < SLOTS && j != k ==> contexts[j] == old(contexts[j])
      ensures contexts[..] == WithTask(old(contexts[..]), idle, Task(entrypoint, stackTop, table1))
    {
      for i := 0 to SLOTS
        invariant contexts[..] == old(contexts[..])
        invariant FirstFreeFrom(contexts[..], idle, i) == FirstFree(contexts[..], idle)
      {
        if contexts[i].core.pc == Plus4(idle) {
          TaskIsHeld(contexts[i], Task(entrypoint, stackTop, table1));
          contexts[i] := contexts[i].(core := TaskCore(contexts[i].core, Task(entrypoint, stackTop, table1)));
          return 0;
        }
      }
      return 1;
    }

    method ChangeTask()
      requires Valid()
      modifies this`current, this`last
      ensures Valid() && State() == Ticked(old(State()))
    {
      last := current;
      current := current + 1;
      if current == SLOTS {
        current := 0;
      }
    }

    /**
     * irq_handler: a result other than zero means that nothing is saved.
     * __critical_error never returns; the model reports it as halted.
     */
    method IrqHandler(id: int, timer0Raised: bool) returns (output: nat, halted: bool)
      requires Valid()
      modifies this`current, this`last
      ensures Valid()
      ensures halted <==> id !in {1, 36, 37, 73, 74}
      ensures output == if id == 1 then 1 else 0
      ensures id == 36 && timer0Raised ==>
                last == old(current) && current == (old(current) + 1) % 10
      ensures !(id == 36 && timer0Raised) ==> last == old(last) && current == old(current)
      ensures State() == old(State()).(current := current, last := last)
    {
      output, halted := 0, false;
      if id == INT_TIMER_0_AND_1 {
        if timer0Raised {
          ChangeTask();
        }
      } else if id == INT_SOFTWARE {
        output := 1;
      } else if id != INT_TIMER_2_AND_3 && id != INT_TIMER_4_AND_5 && id != INT_TIMER_6_AND_7 {
        halted := true;
      }
    }

    /** IRQ_handler: call irq_handler, save unless told not to, load. */
    method Irq(id: int, timer0Raised: bool) returns (halted: bool)
      requires Valid()
      modifies this, contexts
      ensures Valid() && State() == Interrupted(old(State()), Dispatch(id, timer0Raised))
      ensures halted <==> id !in {1, 36, 37, 73, 74}
      ensures halted ==> State() == old(State())
      ensures id == 36 && timer0Raised ==>
                last == old(current) && current == (old(current) + 1) % 10
      ensures !(id == 36 && timer0Raised) ==> last == old(last) && current == old(current)
      ensures id == 1 ==> contexts[..] == old(contexts[..])
      ensures id in {36, 37, 73, 74} ==>
                var was := old(contexts[..])[last];
                && contexts[last] == TaskContext(was.asid, Stored(old(core)), if old(neonOn) then old(neon) else was.neon)
                && forall j :: 0 <= j < SLOTS && j != last ==> contexts[j] == old(contexts[j])
      ensures !halted ==> asid == contexts[current].asid && Stored(core) == contexts[current].core
    {
      var output;
      output, halted := IrqHandler(id, timer0Raised);
      if halted {
        return;
      }
      if output == 0 {
        SaveContext();
      }
      LoadContext();
      Switches(old(State()), Dispatch(id, timer0Raised));
    }

    /** load_new_context */
    method LoadContext()
      requires Valid()
      modifies this`asid, this`core
      ensures Valid() && State() == Loaded(old(State()))
    {
      asid := contexts[current].asid;
      core := Restored(contexts[current].core);
    }

    method SaveContext()
      requires Valid()
      modifies this`neonOn, contexts
      ensures Valid() && State() == Saved(old(State()))
    {
      contexts[last] := contexts[last].(core := Stored(core));
      if neonOn {
        contexts[last] := contexts[last].(neon := neon);
        neonOn := false;
      }
    }

    /** UND_handler on a NEON instruction. */
    method NeonUndefHandler()
      requires Valid()
      modifies this
      ensures Valid() && State() == NeonOn(old(State()))
    {
      if !neonOn {
        neonOn := true;
        neon := contexts[current].neon;
      }
    }

    /** __scheduler_start: the software interrupt loads the first task. */
    method SchedulerStart()
      requires Valid()
      modifies this, contexts
      ensures Valid() && State() == Started(old(State()))
    {
      neonOn := false;
      var halted := Irq(INT_SOFTWARE, false);
    }
  }

  /** What an interrupt that is handled leaves in the slots and on the CPU. */
  lemma Switches(m: Machine, source: Source)
    requires m.Valid() && source != Unknown
    ensures var r := Interrupted(m, source);
            && r.asid == r.contexts[r.current].asid && Stored(r.core) == r.contexts[r.current].core
            && (source == Software ==> r.contexts == m.contexts)
            && (source != Software ==>
                  var was := m.contexts[r.last];
                  r.contexts == m.contexts[r.last := TaskContext(was.asid, Stored(m.core), if m.neonOn then m.neon else was.neon)])
  {
  }

  function Started(m: Machine): Machine
    requires m.Valid()
  {
    Interrupted(m.(neonOn := false), Software)
  }

  // ----- The task table ----------------------------------------------------

  datatype Task = Task(entrypoint: Word, stackTop: Word, table1: Word)

  function IdleSlot(c: TaskContext, i: nat, idle: Word, idleStack: Word, kernelTable: Word): TaskContext
    requires i < SLOTS
  {
    TaskContext(i + 1, c.core.(pc := Plus4(idle), psr := SYS_MODE + T_BIT, sp := idleStack, table1 := kernelTable), c.neon)
  }

  function Initialised(cs: seq<TaskContext>, idle: Word, idleStack: Word, kernelTable: Word): seq<TaskContext>
    requires |cs| == SLOTS
  {
    seq(SLOTS, i requires 0 <= i < SLOTS => IdleSlot(cs[i], i, idle, idleStack, kernelTable))
  }

  /** An odd entry point is Thumb code. */
  function TaskCore(c: Core, t: Task): Core {
    c.(pc := Plus4(t.entrypoint),
       psr := if t.entrypoint % 2 == 1 then USR_MODE + T_BIT else USR_MODE,
       sp := t.stackTop, table1 := t.table1)
  }

  function FirstFreeFrom(cs: seq<TaskContext>, idle: Word, i: nat): (k: nat)
    requires i <= |cs|
    ensures i <= k <= |cs|
    ensures forall j :: i <= j < k ==> cs[j].core.pc != Plus4(idle)
    ensures k < |cs| ==> cs[k].core.pc == Plus4(idle)
    decreases |cs| - i
  {
    if i == |cs| || cs[i].core.pc == Plus4(idle) then i else FirstFreeFrom(cs, idle, i + 1)
  }

  function FirstFree(cs: seq<TaskContext>, idle: Word): nat {
    FirstFreeFrom(cs, idle, 0)
  }

  function WithTask(cs: seq<TaskContext>, idle: Word, t: Task): (r: seq<TaskContext>)
    ensures |r| == |cs|
  {
    var k := FirstFree(cs, idle);
    if k == |cs| then cs else cs[k := cs[k].(core := TaskCore(cs[k].core, t))]
  }

  function WithTasks(cs: seq<TaskContext>, idle: Word, ts: seq<Task>): (r: seq<TaskContext>)
    ensures |r| == |cs|
  {
    if ts == [] then cs
    else WithTask(WithTasks(cs, idle, ts[..|ts| - 1]), idle, ts[|ts| - 1])
  }

  /** The tasks whose entry point is not the idle task: only these occupy a slot. */
  function Occupying(ts: seq<Task>, idle: Word): seq<Task> {
    if ts == [] then []
    else Occupying(ts[..|ts| - 1], idle) + (if ts[|ts| - 1].entrypoint == idle then [] else [ts[|ts| - 1]])
  }

  /** What an add leaves in a slot: these registers are the task's, the others as before. */
  predicate HoldsTask(c: TaskContext, before: TaskContext, t: Task) {
    && c.core.pc == (t.entrypoint + 4) % 0x1_0000_0000
    && c.core.sp == t.stackTop && c.core.table1 == t.table1
    && c.core.psr == 0x10 + (if t.entrypoint % 2 == 1 then 0x20 else 0)
    && c.core.r0ToR12 == before.core.r0ToR12 && c.core.lr == before.core.lr
    && c.neon == before.neon && c.asid == before.asid
  }

  /** What initialisation leaves in slot i. */
  predicate HoldsIdle(c: TaskContext, before: TaskContext, i: nat, idle: Word, idleStack: Word, kernelTable: Word) {
    && c.core.pc == (idle + 4) % 0x1_0000_0000
    && c.core.sp == idleStack && c.core.table1 == kernelTable && c.core.psr == 0x1F + 0x20
    && c.core.r0ToR12 == before.core.r0ToR12 && c.core.lr == before.core.lr
    && c.neon == before.neon && c.asid == i + 1
  }

  /** A slot that an add may take; a task whose entry point is the idle task leaves its slot free. */
  predicate IsFree(c: TaskContext, before: TaskContext, idle: Word) {
    && c.core.pc == (idle + 4) % 0x1_0000_0000
    && c.core.r0ToR12 == before.core.r0ToR12 && c.core.lr == before.core.lr && c.neon == before.neon
  }

  /** What the table held before initialisation, and what it is initialised with. */
  datatype Setup = Setup(before: seq<TaskContext>, idle: Word, idleStack: Word, kernelTable: Word)

  /** The first slots hold the tasks in order, the others are free, the ids are 1 to 10. */
  predicate HoldsInOrder(cs: seq<TaskContext>, setup: Setup, ts: seq<Task>) {
    && |cs| == |setup.before| == SLOTS
    && (forall j :: 0 <= j < SLOTS ==> cs[j].asid == j + 1)
    && (forall j :: 0 <= j < SLOTS && j < |ts| ==>
          HoldsTask(cs[j], setup.before[j].(asid := j + 1), ts[j]) && ts[j].entrypoint != setup.idle)
    && (forall j :: |ts| <= j < SLOTS ==> IsFree(cs[j], setup.before[j], setup.idle))
  }

  lemma Plus4Wraps(pc: Word)
    ensures Plus4(pc) == (pc + 4) % 0x1_0000_0000
  {
  }

  lemma TaskIsHeld(c: TaskContext, t: Task)
    ensures HoldsTask(c.(core := TaskCore(c.core, t)), c, t)
  {
    Plus4Wraps(t.entrypoint);
  }

  lemma IdleIsHeld(c: TaskContext, i: nat, idle: Word, idleStack: Word, kernelTable: Word)
    requires i < SLOTS
    ensures HoldsIdle(IdleSlot(c, i, idle, idleStack, kernelTable), c, i, idle, idleStack, kernelTable)
  {
    Plus4Wraps(idle);
  }

  lemma Plus4Injective(a: Word, b: Word)
    ensures Plus4(a) == Plus4(b) ==> a == b
  {
  }

  lemma FirstFreeIs(cs: seq<TaskContext>, setup: Setup, ts: seq<Task>)
    requires HoldsInOrder(cs, setup, ts)
    ensures FirstFree(cs, setup.idle) == if |ts| < SLOTS then |ts| else SLOTS
  {
    var k := FirstFree(cs, setup.idle);
    Plus4Wraps(setup.idle);
    if k < SLOTS && k < |ts| {
      Plus4Wraps(ts[k].entrypoint);
      Plus4Injective(ts[k].entrypoint, setup.idle);
    }
    if |ts| < SLOTS {
      assert cs[|ts|].core.pc == Plus4(setup.idle);
    }
  }

  /** The one slot that an add changes has the fields of the task. */
  lemma FreeTakesTask(c: TaskContext, before: TaskContext, idle: Word, t: Task)
    requires IsFree(c, before, idle)
    ensures HoldsTask(c.(core := TaskCore(c.core, t)), before.(asid := c.asid), t)
    ensures t.entrypoint == idle ==> IsFree(c.(core := TaskCore(c.core, t)), before, idle)
  {
    TaskIsHeld(c, t);
  }

  lemma AddKeepsOrder(cs: seq<TaskContext>, setup: Setup, ts: seq<Task>, t: Task)
    requires HoldsInOrder(cs, setup, ts)
    ensures HoldsInOrder(WithTask(cs, setup.idle, t), setup, if t.entrypoint == setup.idle then ts else ts + [t])
  {
    FirstFreeIs(cs, setup, ts);
    if |ts| < SLOTS {
      FreeTakesTask(cs[|ts|], setup.before[|ts|], setup.idle, t);
    }
  }

  /** __scheduler_init and then the adds. */
  function Table(setup: Setup, ts: seq<Task>): (cs: seq<TaskContext>)
    requires |setup.before| == SLOTS
    ensures |cs| == SLOTS
  {
    WithTasks(Initialised(setup.before, setup.idle, setup.idleStack, setup.kernelTable), setup.idle, ts)
  }

  /** Initialisation alone: every slot runs the idle task. */
  lemma InitHoldsIdle(setup: Setup, i: nat)
    requires |setup.before| == SLOTS && i < SLOTS
    ensures HoldsIdle(Table(setup, [])[i], setup.before[i], i, setup.idle, setup.idleStack, setup.kernelTable)
  {
    IdleIsHeld(setup.before[i], i, setup.idle, setup.idleStack, setup.kernelTable);
  }

  /**
   * After any adds, the slots hold, in call order, the tasks added with an
   * entry point other than the idle task, each with its own registers; the
   * rest is free.
   */
  lemma {:induction false} AddsFillInOrder(setup: Setup, ts: seq<Task>)
    requires |setup.before| == SLOTS
    ensures HoldsInOrder(Table(setup, ts), setup, Occupying(ts, setup.idle))
  {
    if ts == [] {
      forall i | 0 <= i < SLOTS
        ensures HoldsIdle(Table(setup, ts)[i], setup.before[i], i, setup.idle, setup.idleStack, setup.kernelTable)
      {
        InitHoldsIdle(setup, i);
      }
    } else {
      AddsFillInOrder(setup, ts[..|ts| - 1]);
      AddKeepsOrder(Table(setup, ts[..|ts| - 1]), setup, Occupying(ts[..|ts| - 1], setup.idle), ts[|ts| - 1]);
    }
  }

  /** While no task has the idle task's entry point, the free slots are as initialised. */
  lemma {:induction false} FreeSlotsStayIdle(setup: Setup, ts: seq<Task>, i: nat)
    requires |setup.before| == SLOTS && |ts| <= i < SLOTS
    requires forall j :: 0 <= j < |ts| ==> ts[j].entrypoint != setup.idle
    ensures Occupying(ts, setup.idle) == ts
    ensures HoldsIdle(Table(setup, ts)[i], setup.before[i], i, setup.idle, setup.idleStack, setup.kernelTable)
  {
    if ts == [] {
      InitHoldsIdle(setup, i);
    } else {
      var before := ts[..|ts| - 1];
      FreeSlotsStayIdle(setup, before, i);
      AddsFillInOrder(setup, before);
      FirstFreeIs(Table(setup, before), setup, before);
      assert ts == before + [ts[|ts| - 1]];
    }
  }

  /** The next add reports a full table exactly when ten tasks occupy it. */
  lemma FullExactlyAtTen(setup: Setup, ts: seq<Task>)
    requires |setup.before| == SLOTS
    ensures FirstFree(Table(setup, ts), setup.idle) == 10 <==> |Occupying(ts, setup.idle)| >= 10
  {
    AddsFillInOrder(setup, ts);
    FirstFreeIs(Table(setup, ts), setup, Occupying(ts, setup.idle));
  }
}
