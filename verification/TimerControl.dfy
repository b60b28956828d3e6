// The SP804 timer driver (timer.c): its CONTROL register as the encoding of an
// abstract record, over any sequence of operations.
module TimerControl {
  import opened Words
  import opened TimerMasks

  /** A register as the set of the bit positions that are one. */
  type Register = set<nat>

  datatype Mode = FreeRunning | OneShot | Periodic

  /** What CONTROL says; rest are the bits the driver never touches. */
  datatype Control = Control(enabled: bool, mode: Mode, interrupts: bool, prescale: nat, wide: bool, rest: Register)

  // The bit positions of timer.h.
  const ENABLE: nat := 7
  const CYCLIC: nat := 6     // TIMER_FREE_RUNNING sets it, TIMER_PERIODIC clears it
  const INTERRUPT: nat := 5
  const PRESCALE_1: nat := 3
  const PRESCALE_0: nat := 2
  const WIDE: nat := 1
  const SHOT: nat := 0

  const OWNED: Register := {ENABLE, CYCLIC, INTERRUPT, PRESCALE_1, PRESCALE_0, WIDE, SHOT}

  /** Bit 0 makes the timer stop at zero, whatever bit 6 says. */
  function Decoded(r: Register): (c: Control)
    ensures c.prescale < 4 && (c.prescale / 2 == 1 <==> 3 in r) && (c.prescale % 2 == 1 <==> 2 in r)
    ensures forall i :: i in c.rest <==> i in r && (i == 4 || i > 7)
  {
    Control(
      ENABLE in r,
      if SHOT in r then OneShot else if CYCLIC in r then Periodic else FreeRunning,
      INTERRUPT in r,
      (if PRESCALE_1 in r then 2 else 0) + (if PRESCALE_0 in r then 1 else 0),
      WIDE in r,
      r - OWNED)
  }

  datatype Op =
    | Init(value: Word, mode: Mode, interrupts: bool)
    | SetMode(mode: Mode)
    | Resume
    | Pause
    | Reset
    | EnableInterrupt
    | DisableInterrupt
    | LoadUs(value: Word)
    | LoadMs(ms: Word)

  /** The registers that count: LOAD, VALUE and CONTROL. */
  datatype Registers = Registers(load: Word, value: Word, control: Register)

  // ----- Bit operations of the driver --------------------------------------

  function WithMode(r: Register, m: Mode): Register {
    match m
    case Periodic => (r + {CYCLIC}) - {SHOT}
    case OneShot => r + {SHOT}
    case FreeRunning => (r - {CYCLIC}) - {SHOT}
  }

  function WithInterrupts(r: Register, on: bool): Register {
    if on then r + {INTERRUPT} else r - {INTERRUPT}
  }

  function Applied(s: Registers, op: Op): Registers {
    match op
    case Init(value, mode, interrupts) =>
      Registers(value, value, WithInterrupts(WithMode((s.control + {WIDE}) - {PRESCALE_1, PRESCALE_0}, mode), interrupts) + {ENABLE})
    case SetMode(mode) => s.(control := WithMode(s.control, mode))
    case Resume => s.(control := s.control + {ENABLE})
    case Pause => s.(control := s.control - {ENABLE})
    case Reset => s.(value := s.load, control := s.control + {ENABLE})
    case EnableInterrupt => s.(control := WithInterrupts(s.control, true))
    case DisableInterrupt => s.(control := WithInterrupts(s.control, false))
    case LoadUs(value) => s.(load := value)
    case LoadMs(ms) => s.(load := ms * 1000 % WORDS)
  }

  // ----- The device --------------------------------------------------------

  class Timer {
    var load: Word
    var value: Word
    var control: bv32

    ghost function State(): Registers
      reads this
    {
      Registers(load, value, Bits(control))
    }

    constructor (control: bv32)
      ensures this.control == control
    {
      this.control := control;
    }

    method SetMode(mode: Mode)
      modifies this`control
      ensures State() == Applied(old(State()), Op.SetMode(mode))
    {
      match mode {
        case Periodic =>
          control := TimerFreeRunning(control);
          control := TimerWrapping(control);
        case OneShot =>
          control := TimerOneShot(control);
        case FreeRunning =>
          control := TimerPeriodic(control);
          control := TimerWrapping(control);
      }
    }

    method LoadUs(us: Word)
      modifies this`load
      ensures State() == Applied(old(State()), Op.LoadUs(us))
      ensures load == us
    {
      load := us;
    }

    method LoadMs(ms: Word)
      modifies this`load
      ensures State() == Applied(old(State()), Op.LoadMs(ms))
      ensures load == (1000 * ms) % 0x1_0000_0000
    {
      LoadUs(ms * 1000 % WORDS);
    }

    method EnableInterrupt()
      modifies this`control
      ensures State() == Applied(old(State()), Op.EnableInterrupt)
    {
      control := TimerEnableInt(control);
    }

    method DisableInterrupt()
      modifies this`control
      ensures State() == Applied(old(State()), Op.DisableInterrupt)
    {
      control := TimerDisableInt(control);
    }

    method Resume()
      modifies this`control
      ensures State() == Applied(old(State()), Op.Resume)
    {
      control := TimerEnable(control);
    }

    method Pause()
      modifies this`control
      ensures State() == Applied(old(State()), Op.Pause)
    {
      control := TimerDisable(control);
    }

    method Reset()
      modifies this`value, this`control
      ensures State() == Applied(old(State()), Op.Reset)
      ensures value == load == old(load)
    {
      value := load;
      control := TimerEnable(control);
    }

    method Init(us: Word, mode: Mode, interrupts: bool)
      modifies this
      ensures State() == Applied(old(State()), Op.Init(us, mode, interrupts))
      ensures load == value == us
    {
      control := TimerSize32Bit(control);
      control := TimerPrescale1(control);
      SetMode(mode);
      LoadUs(us);
      if interrupts {
        EnableInterrupt();
      } else {
        DisableInterrupt();
      }
      Reset();
    }

    /** Time left in milliseconds; the sum may wrap around. */
    method TimeMs() returns (ms: Word)
      ensures value <= WORDS - 1000 <==> RoundsUp(value, ms)
      ensures value > WORDS - 1000 ==> ms == 0
    {
      ms := Milliseconds(value);
    }
  }

  function Milliseconds(value: Word): Word {
    (value + 999) % WORDS / 1000
  }

  // ----- The abstract record -----------------------------------------------

  /** What an operation means for the record: each field has its owners, the rest stays. */
  function Meant(c: Control, op: Op): Control {
    match op
    case Init(_, mode, interrupts) => Control(true, mode, interrupts, 0, true, c.rest)
    case SetMode(mode) => c.(mode := mode)
    case Resume => c.(enabled := true)
    case Pause => c.(enabled := false)
    case Reset => c.(enabled := true)
    case EnableInterrupt => c.(interrupts := true)
    case DisableInterrupt => c.(interrupts := false)
    case LoadUs(_) => c
    case LoadMs(_) => c
  }

  lemma ModeIsMeant(r: Register, m: Mode)
    ensures Decoded(WithMode(r, m)) == Decoded(r).(mode := m)
  {
  }

  lemma InterruptsAreMeant(r: Register, on: bool)
    ensures Decoded(WithInterrupts(r, on)) == Decoded(r).(interrupts := on)
  {
  }

  lemma EnableIsMeant(r: Register)
    ensures Decoded(r + {ENABLE}) == Decoded(r).(enabled := true)
    ensures Decoded(r - {ENABLE}) == Decoded(r).(enabled := false)
  {
  }

  lemma SizeIsMeant(r: Register)
    ensures Decoded((r + {WIDE}) - {PRESCALE_1, PRESCALE_0}) == Decoded(r).(wide := true, prescale := 0)
  {
  }

  /** The bits that each mode and an initialisation leave, by their positions. */
  lemma BitsOfModes(s: Registers, us: Word, mode: Mode, interrupts: bool)
    ensures var r := Applied(s, SetMode(mode)).control;
            && (mode == Periodic ==> 6 in r && 0 !in r)
            && (mode == FreeRunning ==> 6 !in r && 0 !in r)
            && (mode == OneShot ==> 0 in r && (6 in r <==> 6 in s.control))
            && forall i :: i != 0 && i != 6 ==> (i in r <==> i in s.control)
    ensures var r := Applied(s, Init(us, mode, interrupts)).control;
            && 7 in r && 1 in r && 3 !in r && 2 !in r && (5 in r <==> interrupts)
            && (0 in r <==> mode == OneShot) && (mode == Periodic ==> 6 in r) && (mode == FreeRunning ==> 6 !in r)
            && forall i :: i > 7 || i == 4 ==> (i in r <==> i in s.control)
  {
  }

  /** Every operation does to the decoded register what it means, and nothing else. */
  lemma StepRefines(s: Registers, op: Op)
    ensures Decoded(Applied(s, op).control) == Meant(Decoded(s.control), op)
  {
    match op {
      case Init(value, mode, interrupts) =>
        var a := (s.control + {WIDE}) - {PRESCALE_1, PRESCALE_0};
        SizeIsMeant(s.control);
        ModeIsMeant(a, mode);
        InterruptsAreMeant(WithMode(a, mode), interrupts);
        EnableIsMeant(WithInterrupts(WithMode(a, mode), interrupts));
      case SetMode(mode) => ModeIsMeant(s.control, mode);
      case EnableInterrupt => InterruptsAreMeant(s.control, true);
      case DisableInterrupt => InterruptsAreMeant(s.control, false);
      case LoadUs(_) =>
      case LoadMs(_) =>
      case _ => EnableIsMeant(s.control);
    }
  }

  // ----- Whole runs --------------------------------------------------------

  function Run(s: Registers, ops: seq<Op>): Registers {
    if ops == [] then s else Applied(Run(s, ops[..|ops| - 1]), ops[|ops| - 1])
  }

  function MeantRun(c: Control, ops: seq<Op>): Control {
    if ops == [] then c else Meant(MeantRun(c, ops[..|ops| - 1]), ops[|ops| - 1])
  }

  /** From any contents of the register, any operations keep it the encoding of the record. */
  lemma {:induction false} RunRefines(s: Registers, ops: seq<Op>)
    ensures Decoded(Run(s, ops).control) == MeantRun(Decoded(s.control), ops)
  {
    if ops != [] {
      RunRefines(s, ops[..|ops| - 1]);
      StepRefines(Run(s, ops[..|ops| - 1]), ops[|ops| - 1]);
    }
  }

  /** The mode an operation sets, if it sets one. */
  predicate SetsMode(op: Op) {
    op.Init? || op.SetMode?
  }

  lemma ModeAfter(s: Registers, op: Op)
    ensures Decoded(Applied(s, op).control).mode == if SetsMode(op) then op.mode else Decoded(s.control).mode
  {
    StepRefines(s, op);
  }

  /** The mode in force is the last one that was set, whichever it was and whatever came before. */
  lemma {:induction false} LastModeWins(s: Registers, ops: seq<Op>, i: nat)
    requires i < |ops| && SetsMode(ops[i])
    requires forall j :: i < j < |ops| ==> !SetsMode(ops[j])
    ensures Decoded(Run(s, ops).control).mode == ops[i].mode
  {
    ModeAfter(Run(s, ops[..|ops| - 1]), ops[|ops| - 1]);
    if i < |ops| - 1 {
      LastModeWins(s, ops[..|ops| - 1], i);
    }
  }

  /** Bits outside the fields survive every run. */
  lemma {:induction false} OtherBitsSurvive(s: Registers, ops: seq<Op>)
    ensures Decoded(Run(s, ops).control).rest == Decoded(s.control).rest
  {
    if ops != [] {
      OtherBitsSurvive(s, ops[..|ops| - 1]);
      StepRefines(Run(s, ops[..|ops| - 1]), ops[|ops| - 1]);
    }
  }

  // ----- Milliseconds ------------------------------------------------------

  /** The least number of milliseconds that is not less than the given microseconds. */
  predicate RoundsUp(us: int, ms: int) {
    (ms - 1) * 1000 < us <= ms * 1000
  }

  /** The time left is rounded up exactly when the sum does not wrap around. */
  lemma RoundsUpExactlyWhen(value: Word)
    ensures RoundsUp(value, Milliseconds(value)) <==> value <= WORDS - 1000
  {
  }

  /** Loading milliseconds and reading them back agrees exactly when they fit the register. */
  lemma MillisecondsReadBackExactlyWhen(s: Registers, ms: Word)
    ensures Milliseconds(Applied(s, LoadMs(ms)).load) == ms <==> ms * 1000 <= WORDS - 1000
  {
  }
}
