// prv_isr of cotti_i2c.c as a routine over the driver's statics: whatever happens
// on the bus meanwhile, it does what the single steps of I2cBus.IsrStep do.
module I2cHandler {
  import opened I2cBus
  import opened I2cReturn

  // What one turn of the handler's loop does to the core, part by part.

  function Stopped(c: Core): Core {
    if c.bits.ardy then c.(compStop := c.compStop + 1) else c
  }

  function Fetched(c: Core): Core {
    if !c.bits.rrdy then c
    else if c.rxFifo == [] then c.(gLen := Dec16(c.gLen), gRead := 0, compRead := c.compRead + 1)
    else c.(gLen := Dec16(c.gLen), gRead := c.rxFifo[0], rxFifo := c.rxFifo[1..], compRead := c.compRead + 1)
  }

  function Loaded(c: Core): Core {
    if !c.bits.xrdy then c
    else if Dec16(c.gLen) > 1 then c.(gLen := Dec16(c.gLen), outOfBounds := true)
    else c.(gLen := Dec16(c.gLen), loaded := c.loaded + 1,
            txFifo := c.txFifo + [if Dec16(c.gLen) == 0 then c.gWrite0 else c.gWrite1])
  }

  function Handled(c: Core): Core {
    Loaded(Fetched(Stopped(c))).(bits := NONE)
  }

  // ----- Against the steps -------------------------------------------------

  lemma CountsFetch(c: Core, d: Core)
    requires CoreLeads(c, d) && d.isr == Rrdy(d.bits) && d.bits.rrdy
    ensures CoreLeads(c, d.(gLen := Dec16(d.gLen), isr := RrdyRead(d.bits)))
  {
    CoreTurn(c, d, Turn.Isr, d.(gLen := Dec16(d.gLen), isr := RrdyRead(d.bits)));
  }

  lemma ReadsFetch(c: Core, d: Core)
    requires d.bits.rrdy && CoreLeads(c, d.(gLen := Dec16(d.gLen), isr := RrdyRead(d.bits)))
    ensures CoreLeads(c, Fetched(d).(compRead := d.compRead, isr := RrdyDone(d.bits)))
  {
    CoreTurn(c, d.(gLen := Dec16(d.gLen), isr := RrdyRead(d.bits)), Turn.Isr,
             Fetched(d).(compRead := d.compRead, isr := RrdyDone(d.bits)));
  }

  lemma CompletesFetch(c: Core, d: Core)
    requires d.bits.rrdy && CoreLeads(c, Fetched(d).(compRead := d.compRead, isr := RrdyDone(d.bits)))
    ensures CoreLeads(c, Fetched(d).(isr := Xrdy(d.bits)))
  {
    CoreTurn(c, Fetched(d).(compRead := d.compRead, isr := RrdyDone(d.bits)), Turn.Isr,
             Fetched(d).(isr := Xrdy(d.bits)));
  }

  lemma FetchPart(c: Core, d: Core)
    requires CoreLeads(c, d) && d.isr == Rrdy(d.bits)
    ensures CoreLeads(c, Fetched(d).(isr := Xrdy(d.bits)))
  {
    if d.bits.rrdy {
      CountsFetch(c, d);
      ReadsFetch(c, d);
      CompletesFetch(c, d);
    } else {
      SkipsRrdy(c, d);
    }
  }

  lemma CountsLoad(c: Core, d: Core)
    requires CoreLeads(c, d) && d.isr == Xrdy(d.bits) && d.bits.xrdy
    ensures CoreLeads(c, d.(gLen := Dec16(d.gLen), isr := XrdyWrite(d.bits)))
  {
    CoreTurn(c, d, Turn.Isr, d.(gLen := Dec16(d.gLen), isr := XrdyWrite(d.bits)));
  }

  lemma WritesLoad(c: Core, d: Core)
    requires d.bits.xrdy && CoreLeads(c, d.(gLen := Dec16(d.gLen), isr := XrdyWrite(d.bits)))
    ensures CoreLeads(c, Loaded(d).(isr := Clear(d.bits)))
  {
    CoreTurn(c, d.(gLen := Dec16(d.gLen), isr := XrdyWrite(d.bits)), Turn.Isr, Loaded(d).(isr := Clear(d.bits)));
  }

  lemma LoadPart(c: Core, d: Core)
    requires CoreLeads(c, d) && d.isr == Xrdy(d.bits)
    ensures CoreLeads(c, Loaded(d).(isr := Off, bits := NONE))
  {
    if d.bits.xrdy {
      CountsLoad(c, d);
      WritesLoad(c, d);
      CoreTurn(c, Loaded(d).(isr := Clear(d.bits)), Turn.Isr, Loaded(d).(isr := Off, bits := NONE));
    } else {
      Ends(c, d);
    }
  }

  lemma FetchedIgnoresIsr(c: Core, i: I2cBus.Isr)
    ensures Fetched(c.(isr := i)) == Fetched(c).(isr := i) && Fetched(c).bits == c.bits
  {
  }

  lemma LoadedIgnoresIsr(c: Core, i: I2cBus.Isr)
    ensures Loaded(c.(isr := i)) == Loaded(c).(isr := i)
  {
  }

  lemma StopPart(c: Core)
    requires c.isr == Off && c.bits != NONE
    ensures CoreLeads(c, Stopped(c).(isr := Rrdy(c.bits))) && Stopped(c).bits == c.bits && Stopped(c).isr == Off
  {
    CoreNowhere(c);
    Samples(c, c);
  }

  /** From the RRDY test on. */
  lemma RestOfTurn(c: Core, s: Core)
    requires s.isr == Off && CoreLeads(c, s.(isr := Rrdy(s.bits)))
    ensures CoreLeads(c, Fetched(s).(isr := Xrdy(s.bits))) && Fetched(s).bits == s.bits && Fetched(s).isr == Off
  {
    FetchPart(c, s.(isr := Rrdy(s.bits)));
    FetchedIgnoresIsr(s, Rrdy(s.bits));
  }

  /** From the XRDY test on. */
  lemma EndOfTurn(c: Core, f: Core)
    requires f.isr == Off && CoreLeads(c, f.(isr := Xrdy(f.bits)))
    ensures CoreLeads(c, Loaded(f).(bits := NONE))
  {
    LoadPart(c, f.(isr := Xrdy(f.bits)));
    LoadedIgnoresIsr(f, Xrdy(f.bits));
    assert Loaded(f).isr == Off;
  }

  /** A turn of the loop is a sequence of handler steps with nothing in between. */
  lemma TurnIsSteps(c: Core)
    requires c.isr == Off && c.bits != NONE
    ensures CoreLeads(c, Handled(c))
  {
    StopPart(c);
    RestOfTurn(c, Stopped(c));
    EndOfTurn(c, Fetched(Stopped(c)));
  }

  // ----- What happens between two steps ------------------------------------

  function BusRun(c: Core, es: seq<Bus>): Core {
    if es == [] then c else BusStep(BusRun(c, es[..|es| - 1]), es[|es| - 1])
  }

  lemma {:induction false} BusRunLeads(c: Core, d: Core, es: seq<Bus>)
    requires CoreLeads(c, d)
    ensures CoreLeads(c, BusRun(d, es))
  {
    if es != [] {
      BusRunLeads(c, d, es[..|es| - 1]);
      CoreTurn(c, BusRun(d, es[..|es| - 1]), Wire(es[|es| - 1]), BusRun(d, es));
    }
  }

  /** What of a core the class below keeps in fields of its own, the events and FIFOs aside. */
  predicate SameDriver(c: Core, r: Core) {
    && r.gLen == c.gLen && r.gRead == c.gRead && r.gWrite0 == c.gWrite0 && r.gWrite1 == c.gWrite1
    && r.compRead == c.compRead && r.compStop == c.compStop && r.loaded == c.loaded
    && r.isr == c.isr && r.outOfBounds == c.outOfBounds
  }

  lemma BusStepLeavesDriver(c: Core, e: Bus)
    ensures SameDriver(c, BusStep(c, e))
  {
  }

  /** Bus events touch no static of the driver. */
  lemma {:induction false} BusRunLeavesDriver(c: Core, es: seq<Bus>)
    ensures SameDriver(c, BusRun(c, es))
  {
    if es != [] {
      BusRunLeavesDriver(c, es[..|es| - 1]);
      BusStepLeavesDriver(BusRun(c, es[..|es| - 1]), es[|es| - 1]);
    }
  }

  // arrivals[k] is what happens on the bus after the k-th step of the handler
  // from now on, and nothing happens after the last of them.

  function Head(arrivals: seq<seq<Bus>>): seq<Bus> {
    if arrivals == [] then [] else arrivals[0]
  }

  function Tail(arrivals: seq<seq<Bus>>): seq<seq<Bus>> {
    if arrivals == [] then [] else arrivals[1..]
  }

  /** One step of the handler and what happens after it. */
  function Stepped(c: Core, arrivals: seq<seq<Bus>>): Core {
    BusRun(IsrStep(c), Head(arrivals))
  }

  function StepsOn(c: Core, arrivals: seq<seq<Bus>>, n: nat): Core
    decreases n
  {
    if n == 0 then c else StepsOn(Stepped(c, arrivals), Tail(arrivals), n - 1)
  }

  function Drop(arrivals: seq<seq<Bus>>, n: nat): seq<seq<Bus>>
    decreases n
  {
    if n == 0 then arrivals else Drop(Tail(arrivals), n - 1)
  }

  lemma OneStep(c: Core, arrivals: seq<seq<Bus>>)
    ensures StepsOn(c, arrivals, 1) == Stepped(c, arrivals) && Drop(arrivals, 1) == Tail(arrivals)
  {
  }

  lemma TwoSteps(c: Core, arrivals: seq<seq<Bus>>)
    ensures StepsOn(c, arrivals, 2) == Stepped(Stepped(c, arrivals), Tail(arrivals))
    ensures Drop(arrivals, 2) == Tail(Tail(arrivals))
  {
    OneStep(Stepped(c, arrivals), Tail(arrivals));
  }

  lemma ThreeSteps(c: Core, arrivals: seq<seq<Bus>>)
    ensures StepsOn(c, arrivals, 3)
         == Stepped(Stepped(Stepped(c, arrivals), Tail(arrivals)), Tail(Tail(arrivals)))
    ensures Drop(arrivals, 3) == Tail(Tail(Tail(arrivals)))
  {
    TwoSteps(Stepped(c, arrivals), Tail(arrivals));
  }

  lemma {:induction false} StepsAdd(c: Core, arrivals: seq<seq<Bus>>, m: nat, n: nat)
    ensures StepsOn(c, arrivals, m + n) == StepsOn(StepsOn(c, arrivals, m), Drop(arrivals, m), n)
    ensures Drop(arrivals, m + n) == Drop(Drop(arrivals, m), n)
    decreases m
  {
    if m > 0 {
      var d, later := Stepped(c, arrivals), Tail(arrivals);
      StepsAdd(d, later, m - 1, n);
      FirstStep(c, arrivals, m);
      FirstStep(c, arrivals, m + n);
      assert (m + n) - 1 == (m - 1) + n;
    }
  }

  lemma FirstStep(c: Core, arrivals: seq<seq<Bus>>, n: nat)
    requires n > 0
    ensures StepsOn(c, arrivals, n) == StepsOn(Stepped(c, arrivals), Tail(arrivals), n - 1)
    ensures Drop(arrivals, n) == Drop(Tail(arrivals), n - 1)
  {
  }

  /** The handler has nothing to do. */
  predicate Finished(c: Core) {
    c.isr == Off && c.bits == NONE
  }

  /** With nothing more to arrive, this counts down to the end of the routine. */
  function Todo(c: Core): nat {
    match c.isr
    case Off => if c.bits == NONE then 0 else 20
    case Clear(b) => 1 + Beyond(c.bits, b)
    case XrdyWrite(b) => 2 + Beyond(c.bits, b)
    case Xrdy(b) => 3 + Beyond(c.bits, b)
    case RrdyDone(b) => 4 + Beyond(c.bits, b)
    case RrdyRead(b) => 5 + Beyond(c.bits, b)
    case Rrdy(b) => 6 + Beyond(c.bits, b)
    case Ardy(b) => 7 + Beyond(c.bits, b)
  }

  /** There is an event that the handler's copy does not have. */
  function Beyond(bits: Bits, b: Bits): nat {
    if (bits.xrdy && !b.xrdy) || (bits.rrdy && !b.rrdy) || (bits.ardy && !b.ardy) then 30 else 0
  }

  lemma StepIsLess(c: Core)
    requires !Finished(c)
    ensures Todo(IsrStep(c)) < Todo(c)
  {
  }

  /** What the routine leaves, whatever arrives between its steps. */
  function Served(c: Core, arrivals: seq<seq<Bus>>): Core
    decreases |arrivals|, Todo(c)
  {
    StepIsLessUnlessFinished(c);
    if Finished(c) then c else Served(Stepped(c, arrivals), Tail(arrivals))
  }

  lemma StepIsLessUnlessFinished(c: Core)
    ensures !Finished(c) ==> Todo(IsrStep(c)) < Todo(c)
  {
    if !Finished(c) {
      StepIsLess(c);
    }
  }

  lemma {:induction false} StepsLead(c: Core, d: Core, arrivals: seq<seq<Bus>>, n: nat)
    requires CoreLeads(c, d)
    ensures CoreLeads(c, StepsOn(d, arrivals, n))
    decreases n
  {
    if n > 0 {
      CoreTurn(c, d, Turn.Isr, IsrStep(d));
      BusRunLeads(c, IsrStep(d), Head(arrivals));
      StepsLead(c, Stepped(d, arrivals), Tail(arrivals), n - 1);
    }
  }

  /** Nearer to the end: fewer arrivals to come, or as many and less to do. */
  predicate Less(arrivals: seq<seq<Bus>>, c: Core, before: seq<seq<Bus>>, d: Core) {
    |arrivals| < |before| || (|arrivals| == |before| && Todo(c) < Todo(d))
  }

  lemma SteppedIsLess(c: Core, arrivals: seq<seq<Bus>>)
    requires !Finished(c)
    ensures Less(Tail(arrivals), Stepped(c, arrivals), arrivals, c)
    ensures Served(Stepped(c, arrivals), Tail(arrivals)) == Served(c, arrivals)
  {
    StepIsLess(c);
    assert BusRun(IsrStep(c), []) == IsrStep(c);
  }

  // ----- The routine -------------------------------------------------------

  class Driver {
    var gRead: Byte
    const gWrite: array<Byte>
    var gLen: nat
    var compRead: nat
    var compStop: nat
    // IRQSTATUS, the FIFOs behind the data register, and the rest of the
    // controller with its slaves: what device says beyond these fields
    var bits: Bits
    var rxFifo: seq<Byte>
    var txFifo: seq<Byte>
    var loaded: nat
    var device: Core
    // where the handler stands, with its copy of the status
    var at: I2cBus.Isr
    // the handler has used an index outside g_write
    var outOfBounds: bool
    // what will happen on the bus after each further step
    var arrivals: seq<seq<Bus>>

    predicate Valid()
    {
      gWrite.Length == 2
    }

    function State(): Core
      requires Valid()
      reads this, gWrite
    {
      device.(gLen := gLen, gRead := gRead, gWrite0 := gWrite[0], gWrite1 := gWrite[1], compRead := compRead,
              compStop := compStop, bits := bits, loaded := loaded, txFifo := txFifo, rxFifo := rxFifo,
              isr := at, outOfBounds := outOfBounds)
    }

    constructor (device: Core, arrivals: seq<seq<Bus>>)
      ensures Valid() && fresh(gWrite) && this.device == device && this.arrivals == arrivals
      ensures gLen == 0 && compRead == 0 && compStop == 0 && bits == NONE && rxFifo == [] && txFifo == []
      ensures at == Off && !outOfBounds
    {
      gWrite := new Byte[2](_ => 0);
      gRead, gLen, compRead, compStop, loaded := 0, 0, 0, 0, 0;
      bits, rxFifo, txFifo := NONE, [], [];
      this.device, this.arrivals, at, outOfBounds := device, arrivals, Off, false;
    }

    /** The controller and the slaves, after a step of the handler. */
    method Happens()
      requires Valid()
      modifies this`bits, this`rxFifo, this`txFifo, this`device, this`arrivals
      ensures State() == BusRun(old(State()), Head(old(arrivals)))
      ensures arrivals == Tail(old(arrivals))
    {
      var after := BusRun(State(), Head(arrivals));
      BusRunLeavesDriver(State(), Head(arrivals));
      bits, rxFifo, txFifo, device, arrivals := after.bits, after.rxFifo, after.txFifo, after, Tail(arrivals);
    }

    // The parts of the loop, one step after the other. Arbitration loss and
    // NACK only print.

    /** irq = IRQSTATUS */
    method Sample()
      requires Valid() && at == Off && bits != NONE
      modifies this
      ensures State() == Stepped(old(State()), old(arrivals)) && arrivals == Tail(old(arrivals))
      ensures at == Ardy(old(bits))
    {
      at := Ardy(bits);
      Happens();
    }

    method OnArdy()
      requires Valid() && at.Ardy?
      modifies this
      ensures State() == Stepped(old(State()), old(arrivals)) && arrivals == Tail(old(arrivals))
      ensures at == Rrdy(old(at).b)
    {
      CompleteStop();
      Happens();
    }

    method CompleteStop()
      requires Valid() && at.Ardy?
      modifies this`compStop, this`at
      ensures State() == IsrStep(old(State()))
      ensures at == Rrdy(old(at).b)
    {
      if at.b.ardy {
        compStop := compStop + 1;
      }
      at := Rrdy(at.b);
    }

    /** g_len-- */
    method CountsDown()
      requires Valid() && (at.Rrdy? && at.b.rrdy)
      modifies this
      ensures State() == Stepped(old(State()), old(arrivals)) && arrivals == Tail(old(arrivals))
      ensures at == RrdyRead(old(at).b)
    {
      gLen := Dec16(gLen);
      at := RrdyRead(at.b);
      Happens();
    }

    /** g_read = prv_read() */
    method ReadsByte()
      requires Valid() && at.RrdyRead?
      modifies this
      ensures State() == Stepped(old(State()), old(arrivals)) && arrivals == Tail(old(arrivals))
      ensures at == RrdyDone(old(at).b)
    {
      FetchByte();
      Happens();
    }

    method FetchByte()
      requires Valid() && at.RrdyRead?
      modifies this`gRead, this`rxFifo, this`at
      ensures State() == IsrStep(old(State()))
      ensures at == RrdyDone(old(at).b)
    {
      if rxFifo == [] {
        gRead := 0;
      } else {
        gRead, rxFifo := rxFifo[0], rxFifo[1..];
      }
      at := RrdyDone(at.b);
    }

    /** complete(&comp_read) */
    method CompletesRead()
      requires Valid() && at.RrdyDone?
      modifies this
      ensures State() == Stepped(old(State()), old(arrivals)) && arrivals == Tail(old(arrivals))
      ensures at == Xrdy(old(at).b)
    {
      CompleteRead();
      Happens();
    }

    method CompleteRead()
      requires Valid() && at.RrdyDone?
      modifies this`compRead, this`at
      ensures State() == IsrStep(old(State()))
      ensures at == Xrdy(old(at).b)
    {
      compRead := compRead + 1;
      at := Xrdy(at.b);
    }

    method SkipsRead()
      requires Valid() && at.Rrdy? && !at.b.rrdy
      modifies this
      ensures State() == Stepped(old(State()), old(arrivals)) && arrivals == Tail(old(arrivals))
      ensures at == Xrdy(old(at).b)
    {
      at := Xrdy(at.b);
      Happens();
    }

    method OnRrdy()
      requires Valid() && at.Rrdy?
      modifies this
      ensures var n := if old(at).b.rrdy then 3 else 1;
              State() == StepsOn(old(State()), old(arrivals), n) && arrivals == Drop(old(arrivals), n)
      ensures at == Xrdy(old(at).b)
    {
      ghost var c, later := State(), arrivals;
      if at.b.rrdy {
        CountsDown();
        ReadsByte();
        CompletesRead();
        ThreeSteps(c, later);
      } else {
        SkipsRead();
        OneStep(c, later);
      }
    }

    /** g_len-- */
    method CountsDownForLoad()
      requires Valid() && at.Xrdy? && at.b.xrdy
      modifies this
      ensures State() == Stepped(old(State()), old(arrivals)) && arrivals == Tail(old(arrivals))
      ensures at == XrdyWrite(old(at).b)
    {
      gLen := Dec16(gLen);
      at := XrdyWrite(at.b);
      Happens();
    }

    // Beyond its two bytes the source reads whatever follows g_write; the model
    // reports that and loads nothing.
    /** prv_write(g_write[g_len]) */
    method WritesByte()
      requires Valid() && at.XrdyWrite?
      modifies this
      ensures State() == Stepped(old(State()), old(arrivals)) && arrivals == Tail(old(arrivals))
      ensures at == Clear(old(at).b)
    {
      LoadByte();
      Happens();
    }

    method LoadByte()
      requires Valid() && at.XrdyWrite?
      modifies this`txFifo, this`loaded, this`outOfBounds, this`at
      ensures State() == IsrStep(old(State()))
      ensures at == Clear(old(at).b)
    {
      if gLen < gWrite.Length {
        txFifo := txFifo + [gWrite[gLen]];
        loaded := loaded + 1;
      } else {
        outOfBounds := true;
      }
      at := Clear(at.b);
    }

    method SkipsWrite()
      requires Valid() && at.Xrdy? && !at.b.xrdy
      modifies this
      ensures State() == Stepped(old(State()), old(arrivals)) && arrivals == Tail(old(arrivals))
      ensures at == Clear(old(at).b)
    {
      at := Clear(at.b);
      Happens();
    }

    method OnXrdy()
      requires Valid() && at.Xrdy?
      modifies this
      ensures var n := if old(at).b.xrdy then 2 else 1;
              State() == StepsOn(old(State()), old(arrivals), n) && arrivals == Drop(old(arrivals), n)
      ensures at == Clear(old(at).b)
    {
      ghost var c, later := State(), arrivals;
      if at.b.xrdy {
        CountsDownForLoad();
        WritesByte();
        TwoSteps(c, later);
      } else {
        SkipsWrite();
        OneStep(c, later);
      }
    }

    /** IRQSTATUS = irq: clears what the copy has, whatever has come since. */
    method Acknowledge()
      requires Valid() && at.Clear?
      modifies this
      ensures State() == Stepped(old(State()), old(arrivals)) && arrivals == Tail(old(arrivals))
      ensures at == Off
    {
      bits := Bits(bits.xrdy && !at.b.xrdy, bits.rrdy && !at.b.rrdy, bits.ardy && !at.b.ardy);
      at := Off;
      Happens();
    }

    /** The body of the loop. */
    method Turn()
      requires Valid() && at == Off && bits != NONE
      modifies this
      ensures at == Off
      ensures var n := TurnLength(old(bits));
              State() == StepsOn(old(State()), old(arrivals), n) && arrivals == Drop(old(arrivals), n)
    {
      ghost var c, later, n := State(), arrivals, 2;
      ghost var irq := bits;
      Sample();
      OnArdy();
      TwoSteps(c, later);
      OnRrdy();
      StepsAdd(c, later, n, if irq.rrdy then 3 else 1);
      n := n + (if irq.rrdy then 3 else 1);
      OnXrdy();
      StepsAdd(c, later, n, if irq.xrdy then 2 else 1);
      n := n + (if irq.xrdy then 2 else 1);
      OneStep(State(), arrivals);
      Acknowledge();
      StepsAdd(c, later, n, 1);
    }

    method PrvIsr()
      requires Valid() && at == Off
      modifies this
      ensures State() == Served(old(State()), old(arrivals))
      ensures Finished(State()) && CoreLeads(old(State()), State())
    {
      ghost var start := State();
      CoreNowhere(start);
      while bits != NONE
        invariant Valid() && at == Off
        invariant CoreLeads(start, State()) && Served(State(), arrivals) == Served(start, old(arrivals))
        decreases |arrivals|, Todo(State())
      {
        TurnServes(State(), arrivals);
        StepsLead(start, State(), arrivals, TurnLength(bits));
        Turn();
      }
    }
  }

  function TurnLength(bits: Bits): nat {
    3 + (if bits.rrdy then 3 else 1) + (if bits.xrdy then 2 else 1)
  }

  /** None of the first n states is the end of the routine. */
  predicate Busy(c: Core, arrivals: seq<seq<Bus>>, n: nat)
    decreases n
  {
    n == 0 || (!Finished(c) && Busy(Stepped(c, arrivals), Tail(arrivals), n - 1))
  }

  lemma {:induction false} BusyServes(c: Core, arrivals: seq<seq<Bus>>, n: nat)
    requires Busy(c, arrivals, n) && n > 0
    ensures Served(StepsOn(c, arrivals, n), Drop(arrivals, n)) == Served(c, arrivals)
    ensures Less(Drop(arrivals, n), StepsOn(c, arrivals, n), arrivals, c)
    decreases n
  {
    SteppedIsLess(c, arrivals);
    if n > 1 {
      BusyServes(Stepped(c, arrivals), Tail(arrivals), n - 1);
    }
  }

  /** Steps to the end of the turn. */
  function ToEnd(i: I2cBus.Isr): nat {
    match i
    case Off => 0
    case Clear(_) => 1
    case XrdyWrite(_) => 2
    case Xrdy(b) => if b.xrdy then 3 else 2
    case RrdyDone(b) => 1 + (if b.xrdy then 3 else 2)
    case RrdyRead(b) => 2 + (if b.xrdy then 3 else 2)
    case Rrdy(b) => (if b.rrdy then 3 else 1) + (if b.xrdy then 3 else 2)
    case Ardy(b) => 1 + (if b.rrdy then 3 else 1) + (if b.xrdy then 3 else 2)
  }

  lemma StepIsNearer(c: Core)
    requires c.isr != Off
    ensures ToEnd(IsrStep(c).isr) == ToEnd(c.isr) - 1
  {
    if c.isr.Ardy? {
    } else if c.isr.Rrdy? {
    } else if c.isr.RrdyRead? || c.isr.RrdyDone? {
    } else {
    }
  }

  lemma OneStepNearer(c: Core, arrivals: seq<seq<Bus>>)
    requires c.isr != Off
    ensures ToEnd(Stepped(c, arrivals).isr) == ToEnd(c.isr) - 1
  {
    StepIsNearer(c);
    BusRunLeavesDriver(IsrStep(c), Head(arrivals));
  }

  lemma {:induction false} BusyInTurn(c: Core, arrivals: seq<seq<Bus>>, n: nat)
    requires n <= ToEnd(c.isr)
    ensures Busy(c, arrivals, n)
    decreases n
  {
    if n > 0 {
      OneStepNearer(c, arrivals);
      BusyInTurn(Stepped(c, arrivals), Tail(arrivals), n - 1);
    }
  }

  /** A turn does not end the routine before its last step. */
  lemma TurnServes(c: Core, arrivals: seq<seq<Bus>>)
    requires c.isr == Off && c.bits != NONE
    ensures var n := TurnLength(c.bits);
            && Served(StepsOn(c, arrivals, n), Drop(arrivals, n)) == Served(c, arrivals)
            && Less(Drop(arrivals, n), StepsOn(c, arrivals, n), arrivals, c)
  {
    var n := TurnLength(c.bits);
    BusRunLeavesDriver(IsrStep(c), Head(arrivals));
    assert Stepped(c, arrivals).isr == Ardy(c.bits);
    BusyInTurn(Stepped(c, arrivals), Tail(arrivals), n - 1);
    BusyServes(c, arrivals, n);
  }

  // ----- When nothing arrives ----------------------------------------------

  /** What the routine leaves when nothing arrives. */
  function Alone(c: Core): Core
    decreases Todo(c)
  {
    StepIsLessUnlessFinished(c);
    if Finished(c) then c else Alone(IsrStep(c))
  }

  lemma {:induction false} NothingArrives(c: Core, nothing: seq<seq<Bus>>)
    requires nothing == []
    ensures Served(c, nothing) == Alone(c)
    decreases Todo(c)
  {
    if !Finished(c) {
      StepIsLess(c);
      SteppedIsLess(c, nothing);
      assert Stepped(c, nothing) == IsrStep(c);
      NothingArrives(IsrStep(c), nothing);
    }
  }

  lemma OneAlone(c: Core, d: Core)
    requires !Finished(c) && IsrStep(c) == d
    ensures Alone(c) == Alone(d)
  {
  }

  lemma AloneStop(c: Core)
    requires c.isr == Off && c.bits != NONE
    ensures Alone(c) == Alone(Stopped(c).(isr := Rrdy(c.bits)))
  {
    OneAlone(c, c.(isr := Ardy(c.bits)));
    OneAlone(c.(isr := Ardy(c.bits)), Stopped(c).(isr := Rrdy(c.bits)));
  }

  lemma CountedNext(d: Core, counted: Core)
    requires d.isr == Rrdy(d.bits) && d.bits.rrdy && counted == d.(gLen := Dec16(d.gLen), isr := RrdyRead(d.bits))
    ensures Alone(d) == Alone(counted)
  {
    OneAlone(d, counted);
  }

  lemma ReadNext(d: Core, counted: Core, read: Core)
    requires d.bits.rrdy && counted == d.(gLen := Dec16(d.gLen), isr := RrdyRead(d.bits))
    requires read == Fetched(d).(compRead := d.compRead, isr := RrdyDone(d.bits))
    ensures Alone(counted) == Alone(read)
  {
    OneAlone(counted, read);
  }

  lemma DoneNext(d: Core, read: Core)
    requires d.bits.rrdy && read == Fetched(d).(compRead := d.compRead, isr := RrdyDone(d.bits))
    ensures Alone(read) == Alone(Fetched(d).(isr := Xrdy(d.bits)))
  {
    OneAlone(read, Fetched(d).(isr := Xrdy(d.bits)));
  }

  lemma AloneFetchesByte(d: Core)
    requires d.isr == Rrdy(d.bits) && d.bits.rrdy
    ensures Alone(d) == Alone(Fetched(d).(isr := Xrdy(d.bits)))
  {
    var counted := d.(gLen := Dec16(d.gLen), isr := RrdyRead(d.bits));
    var read := Fetched(d).(compRead := d.compRead, isr := RrdyDone(d.bits));
    CountedNext(d, counted);
    ReadNext(d, counted, read);
    DoneNext(d, read);
  }

  lemma AloneFetch(d: Core)
    requires d.isr == Rrdy(d.bits)
    ensures Alone(d) == Alone(Fetched(d).(isr := Xrdy(d.bits)))
  {
    if d.bits.rrdy {
      AloneFetchesByte(d);
    } else {
      OneAlone(d, d.(isr := Xrdy(d.bits)));
    }
  }

  lemma LoadCountedNext(d: Core, counted: Core)
    requires d.isr == Xrdy(d.bits) && d.bits.xrdy && counted == d.(gLen := Dec16(d.gLen), isr := XrdyWrite(d.bits))
    ensures Alone(d) == Alone(counted)
  {
    OneAlone(d, counted);
  }

  lemma WrittenNext(d: Core, counted: Core)
    requires d.bits.xrdy && counted == d.(gLen := Dec16(d.gLen), isr := XrdyWrite(d.bits))
    ensures Alone(counted) == Alone(Loaded(d).(isr := Clear(d.bits)))
  {
    OneAlone(counted, Loaded(d).(isr := Clear(d.bits)));
  }

  lemma AloneLoad(d: Core)
    requires d.isr == Xrdy(d.bits)
    ensures Alone(d) == Alone(Loaded(d).(isr := Clear(d.bits)))
  {
    if d.bits.xrdy {
      var counted := d.(gLen := Dec16(d.gLen), isr := XrdyWrite(d.bits));
      LoadCountedNext(d, counted);
      WrittenNext(d, counted);
    } else {
      OneAlone(d, d.(isr := Clear(d.bits)));
    }
  }

  lemma AloneClear(d: Core)
    requires d.isr == Clear(d.bits)
    ensures Alone(d) == d.(isr := Off, bits := NONE)
  {
    OneAlone(d, d.(isr := Off, bits := NONE));
  }

  lemma ToFetch(c: Core, s: Core)
    requires c.isr == Off && c.bits != NONE && s == Stopped(c)
    ensures Alone(c) == Alone(s.(isr := Rrdy(s.bits)))
  {
    AloneStop(c);
  }

  lemma ToLoad(s: Core, f: Core)
    requires s.isr == Off && f == Fetched(s)
    ensures Alone(s.(isr := Rrdy(s.bits))) == Alone(f.(isr := Xrdy(f.bits)))
  {
    AloneFetch(s.(isr := Rrdy(s.bits)));
    FetchedIgnoresIsr(s, Rrdy(s.bits));
  }

  lemma ToClear(f: Core, l: Core)
    requires f.isr == Off && l == Loaded(f)
    ensures Alone(f.(isr := Xrdy(f.bits))) == l.(isr := Off, bits := NONE)
  {
    AloneLoad(f.(isr := Xrdy(f.bits)));
    LoadedIgnoresIsr(f, Xrdy(f.bits));
    AloneClear(l.(isr := Clear(l.bits)));
  }

  lemma RestsAfter(c: Core)
    ensures var s := Stopped(c);
            s.isr == c.isr && Fetched(s).isr == c.isr && Loaded(Fetched(s)).isr == c.isr
  {
  }

  /** When nothing arrives meanwhile, the routine has the effect of its three branches. */
  lemma ServedIsHandled(c: Core, nothing: seq<seq<Bus>>)
    requires c.isr == Off && c.bits != NONE && nothing == []
    ensures Served(c, nothing) == Handled(c)
  {
    var s := Stopped(c);
    var f := Fetched(s);
    NothingArrives(c, nothing);
    RestsAfter(c);
    ToFetch(c, s);
    ToLoad(s, f);
    ToClear(f, Loaded(f));
  }
}
