// The shared record of the web server (httpserver.cpp, temp_sensor.cpp): any
// number of forked children, the parent and the sensor thread update it under
// one semaphore. Every read and every write of the record is a step of its own
// and steps of different processes interleave freely.
module ClientCount {

  /** The fields of serverData that critical sections read or write. */
  datatype Record = Record(clients: int, maxClients: int, temp: real)

  // ----- What a critical section does, taken as a whole --------------------

  datatype Op =
    | Root(accepted: bool)           // GET /
    | Disconnect(counted: bool)      // POST /dc
    | Configure(limits: seq<int>)    // every max_clients stored by one update
    | Publish(temp: real)            // the sensor thread

  function Apply(r: Record, op: Op): Record {
    match op
    case Root(accepted) => if accepted then r.(clients := r.clients + 1) else r
    case Disconnect(counted) => if counted then r.(clients := r.clients - 1) else r
    case Configure(limits) => if limits == [] then r else r.(maxClients := limits[|limits| - 1])
    case Publish(t) => r.(temp := t)
  }

  /** The answers a process gets when nobody else runs meanwhile. */
  predicate Answers(r: Record, op: Op) {
    match op
    case Root(accepted) => accepted <==> r.clients < r.maxClients
    case Disconnect(counted) => counted <==> r.clients > 0
    case Configure(limits) => forall l :: l in limits ==> l >= 1
    case Publish(_) => true
  }

  function Replay(r: Record, ops: seq<Op>): Record {
    if ops == [] then r else Apply(Replay(r, ops[..|ops| - 1]), ops[|ops| - 1])
  }

  /** A sequential history: each section got its answers from the ones before. */
  predicate Sequential(r: Record, ops: seq<Op>) {
    ops == [] ||
    (Sequential(r, ops[..|ops| - 1]) && Answers(Replay(r, ops[..|ops| - 1]), ops[|ops| - 1]))
  }

  // ----- Processes ---------------------------------------------------------

  // Where a process stands. A value read from the record is kept in the
  // process until it is used, as the expressions of the source do.
  datatype Pc =
    | Idle
    // on_accept, GET /
    | RootWait
    | RootReadCount
    | RootReadMax(count: int)
    | RootReadAgain
    | RootWrite(count: int)
    | RootRelease(accepted: bool)
    // on_accept, POST /dc
    | DcWait
    | DcRead
    | DcReadAgain
    | DcWrite(count: int)
    | DcRelease(counted: bool)
    // update_configuration
    | ConfWait
    | ConfStore(limits: seq<int>)
    // read_sensor
    | TempWait(temp: real)
    | TempWrite(temp: real)
    | TempRelease(temp: real)

  datatype State = State(sem: nat, shm: Record, pcs: map<nat, Pc>, holder: Holder, log: seq<Op>)
  datatype Holder = Nobody | Process(p: nat)

  function At(s: State, p: nat): Pc {
    if p in s.pcs then s.pcs[p] else Idle
  }

  // What a scheduled process does when its next step leaves a choice.
  datatype Choice =
    | GetRoot | PostDc | UpdateConfiguration | NewTemp(temp: real)   // from Idle
    | StoreLimit(limit: int) | Leave                                 // while configuring

  predicate Waiting(pc: Pc) {
    pc.RootWait? || pc.DcWait? || pc.ConfWait? || pc.TempWait?
  }

  /** Between sem-- and sem++. */
  predicate Inside(pc: Pc) {
    !pc.Idle? && !Waiting(pc)
  }

  /**
   * What one step does to the place of a process and to the record. sem--
   * blocks unless the semaphore is free; a choice that does not fit changes
   * nothing.
   */
  function Local(pc: Pc, shm: Record, free: bool, c: Choice): (Pc, Record) {
    match pc
    case Idle =>
      (match c
       case GetRoot => RootWait
       case PostDc => DcWait
       case UpdateConfiguration => ConfWait
       case NewTemp(t) => TempWait(t)
       case _ => Idle, shm)
    case RootWait => (if free then RootReadCount else pc, shm)
    case RootReadCount => (RootReadMax(shm.clients), shm)
    case RootReadMax(count) => (if count >= shm.maxClients then RootRelease(false) else RootReadAgain, shm)
    case RootReadAgain => (RootWrite(shm.clients), shm)
    case RootWrite(count) => (RootRelease(true), shm.(clients := count + 1))
    case DcWait => (if free then DcRead else pc, shm)
    case DcRead => (if shm.clients > 0 then DcReadAgain else DcRelease(false), shm)
    case DcReadAgain => (DcWrite(shm.clients), shm)
    case DcWrite(count) => (DcRelease(true), shm.(clients := count - 1))
    case ConfWait => (if free then ConfStore([]) else pc, shm)
    case ConfStore(limits) =>
      if c.StoreLimit? && c.limit >= 1 then (ConfStore(limits + [c.limit]), shm.(maxClients := c.limit))
      else (if c.Leave? then Idle else pc, shm)
    case TempWait(t) => (if free then TempWrite(t) else pc, shm)
    case TempWrite(t) => (TempRelease(t), shm.(temp := t))
    case _ => (Idle, shm)
  }

  /** The step is sem++. */
  predicate Releases(pc: Pc, c: Choice) {
    pc.RootRelease? || pc.DcRelease? || pc.TempRelease? || (pc.ConfStore? && c.Leave?)
  }

  /** What a section amounts to that ends at pc. */
  function Section(pc: Pc, c: Choice): Op
    requires Releases(pc, c)
  {
    match pc
    case RootRelease(accepted) => Root(accepted)
    case DcRelease(counted) => Disconnect(counted)
    case TempRelease(t) => Publish(t)
    case ConfStore(limits) => Configure(limits)
  }

  /** One step of process p. */
  function Step(s: State, p: nat, c: Choice): State {
    var pc := At(s, p);
    var after := Local(pc, s.shm, s.sem > 0, c);
    if Releases(pc, c) then
      State(s.sem + 1, after.1, s.pcs[p := after.0], Nobody, s.log + [Section(pc, c)])
    else if Waiting(pc) && s.sem > 0 then
      State(s.sem - 1, after.1, s.pcs[p := after.0], Process(p), s.log)
    else
      s.(shm := after.1, pcs := s.pcs[p := after.0])
  }

  /** The semaphore starts at one; the constructor has stored init. */
  function Initial(init: Record): State {
    State(1, init, map[], Nobody, [])
  }

  function Run(s: State, schedule: seq<(nat, Choice)>): State {
    if schedule == [] then s
    else
      var last := schedule[|schedule| - 1];
      Step(Run(s, schedule[..|schedule| - 1]), last.0, last.1)
  }

  // ----- The invariant -----------------------------------------------------

  /** How far the process inside its section has moved the record on from r. */
  predicate Midway(pc: Pc, r: Record, shm: Record) {
    match pc
    case RootReadCount => shm == r
    case RootReadMax(count) => shm == r && count == r.clients
    case RootReadAgain => shm == r && r.clients < r.maxClients
    case RootWrite(count) => shm == r && count == r.clients < r.maxClients
    case RootRelease(accepted) => Answers(r, Root(accepted)) && shm == Apply(r, Root(accepted))
    case DcRead => shm == r
    case DcReadAgain => shm == r && r.clients > 0
    case DcWrite(count) => shm == r && count == r.clients > 0
    case DcRelease(counted) => Answers(r, Disconnect(counted)) && shm == Apply(r, Disconnect(counted))
    case ConfStore(limits) => Answers(r, Configure(limits)) && shm == Apply(r, Configure(limits))
    case TempWrite(_) => shm == r
    case TempRelease(t) => shm == r.(temp := t)
    case _ => false
  }

  ghost predicate Inv(init: Record, s: State) {
    && s.sem == (if s.holder.Nobody? then 1 else 0)
    && (forall p :: Inside(At(s, p)) <==> s.holder == Process(p))
    && Sequential(init, s.log)
    && (if s.holder.Nobody? then s.shm == Replay(init, s.log)
        else Midway(At(s, s.holder.p), Replay(init, s.log), s.shm))
  }

  lemma Logged(r: Record, ops: seq<Op>, op: Op)
    ensures Replay(r, ops + [op]) == Apply(Replay(r, ops), op)
    ensures Sequential(r, ops + [op]) <==> Sequential(r, ops) && Answers(Replay(r, ops), op)
  {
    assert (ops + [op])[..|ops|] == ops;
  }

  /** A step inside a section moves on within it, or finishes it. */
  lemma InsideMovesOn(pc: Pc, r: Record, shm: Record, c: Choice)
    requires Midway(pc, r, shm)
    ensures if Releases(pc, c) then
              !Inside(Local(pc, shm, false, c).0) && Local(pc, shm, false, c).1 == shm
              && Answers(r, Section(pc, c)) && shm == Apply(r, Section(pc, c))
            else
              Inside(Local(pc, shm, false, c).0)
              && Midway(Local(pc, shm, false, c).0, r, Local(pc, shm, false, c).1)
  {
  }

  lemma MidwayIsInside(pc: Pc, r: Record, shm: Record)
    requires Midway(pc, r, shm)
    ensures Inside(pc) && forall c, free :: Local(pc, shm, free, c) == Local(pc, shm, false, c)
  {
  }

  lemma OutsideStays(pc: Pc, shm: Record, free: bool, c: Choice)
    requires !Inside(pc)
    ensures Local(pc, shm, free, c).1 == shm
    ensures Inside(Local(pc, shm, free, c).0) <==> Waiting(pc) && free
    ensures Waiting(pc) && free ==> Midway(Local(pc, shm, free, c).0, shm, shm)
    ensures !Releases(pc, c)
  {
  }

  lemma OthersStay(s: State, p: nat, c: Choice, q: nat)
    ensures At(Step(s, p, c), q) == if q == p then Local(At(s, p), s.shm, s.sem > 0, c).0 else At(s, q)
  {
  }

  lemma StepKeepsInv(init: Record, s: State, p: nat, c: Choice)
    requires Inv(init, s)
    ensures Inv(init, Step(s, p, c))
  {
    var pc, r := At(s, p), Step(s, p, c);
    forall q ensures At(r, q) == if q == p then Local(pc, s.shm, s.sem > 0, c).0 else At(s, q) {
      OthersStay(s, p, c, q);
    }
    if Inside(pc) {
      MidwayIsInside(pc, Replay(init, s.log), s.shm);
      InsideMovesOn(pc, Replay(init, s.log), s.shm, c);
      if Releases(pc, c) {
        Logged(init, s.log, Section(pc, c));
      }
    } else {
      OutsideStays(pc, s.shm, s.sem > 0, c);
    }
  }

  lemma {:induction false} RunKeepsInv(init: Record, schedule: seq<(nat, Choice)>)
    ensures Inv(init, Run(Initial(init), schedule))
  {
    if schedule != [] {
      RunKeepsInv(init, schedule[..|schedule| - 1]);
      var last := schedule[|schedule| - 1];
      StepKeepsInv(init, Run(Initial(init), schedule[..|schedule| - 1]), last.0, last.1);
    }
  }

  // ----- Every interleaving is sequential ----------------------------------

  /** A state some schedule of some processes leads to. */
  ghost predicate Reachable(init: Record, s: State) {
    exists schedule: seq<(nat, Choice)> :: s == Run(Initial(init), schedule)
  }

  /**
   * Whatever the interleaving: at most one process is inside a section, and
   * whenever none is, the record is what the finished sections leave when they
   * run one after the other in the order of their releases, with the answers
   * they were given.
   */
  lemma Linearizes(init: Record, s: State)
    requires Reachable(init, s)
    ensures forall p, q :: Inside(At(s, p)) && Inside(At(s, q)) ==> p == q
    ensures s.sem == 0 <==> exists p :: Inside(At(s, p))
    ensures s.sem <= 1
    ensures Sequential(init, s.log)
    ensures s.sem == 1 ==> s.shm == Replay(init, s.log)
  {
    var schedule: seq<(nat, Choice)> :| s == Run(Initial(init), schedule);
    RunKeepsInv(init, schedule);
    if s.sem == 0 {
      assert Inside(At(s, s.holder.p));
    }
  }

  // ----- The client count --------------------------------------------------

  /** GET / that were let in. */
  function Accepted(ops: seq<Op>): nat {
    if ops == [] then 0
    else Accepted(ops[..|ops| - 1]) + (if ops[|ops| - 1] == Root(true) then 1 else 0)
  }

  /** POST /dc that found a positive count. */
  function Counted(ops: seq<Op>): nat {
    if ops == [] then 0
    else Counted(ops[..|ops| - 1]) + (if ops[|ops| - 1] == Disconnect(true) then 1 else 0)
  }

  /** The largest max_clients in force at any time. */
  function HighestLimit(r: Record, ops: seq<Op>): int {
    if ops == [] then r.maxClients
    else Max(HighestLimit(r, ops[..|ops| - 1]), Replay(r, ops).maxClients)
  }

  function Max(a: int, b: int): int {
    if a < b then b else a
  }

  /** max_clients is never lowered. */
  predicate NeverLowered(r: Record, ops: seq<Op>) {
    ops == [] ||
    (NeverLowered(r, ops[..|ops| - 1]) && Replay(r, ops[..|ops| - 1]).maxClients <= Replay(r, ops).maxClients)
  }

  lemma {:induction false} NeverLoweredHighest(r: Record, ops: seq<Op>)
    requires NeverLowered(r, ops)
    ensures HighestLimit(r, ops) == Replay(r, ops).maxClients
  {
    if ops != [] {
      NeverLoweredHighest(r, ops[..|ops| - 1]);
    }
  }

  lemma {:induction false} CountOfHistory(r: Record, ops: seq<Op>)
    requires Sequential(r, ops) && 0 <= r.clients <= r.maxClients
    ensures Replay(r, ops).clients == r.clients + Accepted(ops) - Counted(ops)
    ensures 0 <= Replay(r, ops).clients <= HighestLimit(r, ops)
    ensures Replay(r, ops).maxClients <= HighestLimit(r, ops)
  {
    if ops != [] {
      CountOfHistory(r, ops[..|ops| - 1]);
    }
  }

  /**
   * No update is lost: whenever the semaphore is free, client_count is what the
   * accepted GET / minus the counted POST /dc make of the initial count. It is
   * never negative and never above the largest max_clients that was in force.
   */
  lemma NoUpdateLost(init: Record, s: State)
    requires Reachable(init, s) && s.sem == 1
    requires 0 <= init.clients <= init.maxClients
    ensures s.shm.clients == init.clients + Accepted(s.log) - Counted(s.log)
    ensures 0 <= s.shm.clients <= HighestLimit(init, s.log)
    ensures NeverLowered(init, s.log) ==> s.shm.clients <= s.shm.maxClients
  {
    Linearizes(init, s);
    CountOfHistory(init, s.log);
    if NeverLowered(init, s.log) {
      NeverLoweredHighest(init, s.log);
    }
  }

  /** The bounds hold inside sections as well, for whoever reads without the semaphore. */
  lemma NeverNegative(init: Record, s: State)
    requires Reachable(init, s)
    requires 0 <= init.clients <= init.maxClients
    ensures 0 <= s.shm.clients <= HighestLimit(init, s.log)
  {
    var schedule: seq<(nat, Choice)> :| s == Run(Initial(init), schedule);
    RunKeepsInv(init, schedule);
    CountOfHistory(init, s.log);
  }

  /**
   * In every reachable state a visitor that is about to leave was let in just
   * when the count had room for it, and a client that is about to leave was
   * counted just when there was one.
   */
  lemma VerdictsAreRight(init: Record, s: State, p: nat)
    requires Reachable(init, s) && 0 <= init.clients <= init.maxClients
    ensures At(s, p) == RootRelease(true) ==> s.shm.clients - 1 < s.shm.maxClients
    ensures At(s, p) == RootRelease(false) ==> s.shm.clients >= s.shm.maxClients
    ensures At(s, p) == DcRelease(true) ==> s.shm.clients >= 0
    ensures At(s, p) == DcRelease(false) ==> s.shm.clients == 0
  {
    var schedule: seq<(nat, Choice)> :| s == Run(Initial(init), schedule);
    RunKeepsInv(init, schedule);
    CountOfHistory(init, s.log);
    if Inside(At(s, p)) {
      assert s.holder == Process(p);
    }
  }

  /** An update stores a limit just when it is at least one; nothing else it can do changes the record. */
  lemma StoresExactlyWhen(limits: seq<int>, shm: Record, free: bool, limit: int)
    ensures Local(ConfStore(limits), shm, free, StoreLimit(limit))
         == if limit > 0 then (ConfStore(limits + [limit]), Record(shm.clients, limit, shm.temp)) else (ConfStore(limits), shm)
  {
  }

  // ----- What the semaphore is for -----------------------------------------

  ghost predicate Leads(s: State, r: State) {
    exists schedule: seq<(nat, Choice)> :: r == Run(s, schedule)
  }

  lemma LeadsOn(s: State, r: State, p: nat)
    requires Leads(s, r)
    ensures Leads(s, Step(r, p, GetRoot))
  {
    var schedule: seq<(nat, Choice)> :| r == Run(s, schedule);
    var longer := schedule + [(p, GetRoot)];
    assert longer[..|schedule|] == schedule;
    assert Step(r, p, GetRoot) == Run(s, longer);
  }

  /** t is r after one step of p, to pc, with the given record, semaphore and log. */
  ghost predicate Stepped(s: State, r: State, t: State, p: nat, pc: Pc, shm: Record, sem: nat, log: seq<Op>) {
    && Leads(s, t) && At(t, p) == pc && t.shm == shm && t.sem == sem && t.log == log
    && forall q :: q != p ==> At(t, q) == At(r, q)
  }

  lemma Moves(s: State, r: State, p: nat, pc: Pc, pc': Pc, shm: Record) returns (t: State)
    requires Leads(s, r) && At(r, p) == pc && !Waiting(pc) && !Releases(pc, GetRoot)
    requires Local(pc, r.shm, r.sem > 0, GetRoot) == (pc', shm)
    ensures Stepped(s, r, t, p, pc', shm, r.sem, r.log)
  {
    t := Step(r, p, GetRoot);
    LeadsOn(s, r, p);
  }

  lemma Enters(s: State, r: State, p: nat, pc: Pc, pc': Pc) returns (t: State)
    requires Leads(s, r) && At(r, p) == pc && Waiting(pc) && r.sem > 0
    requires Local(pc, r.shm, true, GetRoot) == (pc', r.shm)
    ensures Stepped(s, r, t, p, pc', r.shm, r.sem - 1, r.log)
  {
    t := Step(r, p, GetRoot);
    LeadsOn(s, r, p);
  }

  lemma Leaves(s: State, r: State, p: nat, accepted: bool) returns (t: State)
    requires Leads(s, r) && At(r, p) == RootRelease(accepted)
    ensures Stepped(s, r, t, p, Idle, r.shm, r.sem + 1, r.log + [Root(accepted)])
  {
    t := Step(r, p, GetRoot);
    LeadsOn(s, r, p);
  }

  /** A visitor enters and reads the count that it is about to raise. */
  lemma Reads(s: State, r: State, p: nat) returns (t: State)
    requires Leads(s, r) && At(r, p) == Idle && r.sem > 0 && r.shm.clients < r.shm.maxClients
    ensures Stepped(s, r, t, p, RootWrite(r.shm.clients), r.shm, r.sem - 1, r.log)
  {
    var shm := r.shm;
    t := Moves(s, r, p, Idle, RootWait, shm);
    t := Enters(s, t, p, RootWait, RootReadCount);
    t := Moves(s, t, p, RootReadCount, RootReadMax(shm.clients), shm);
    t := Moves(s, t, p, RootReadMax(shm.clients), RootReadAgain, shm);
    t := Moves(s, t, p, RootReadAgain, RootWrite(shm.clients), shm);
  }

  /** It writes that count plus one, whatever has happened since, and leaves. */
  lemma Writes(s: State, r: State, p: nat, count: int) returns (t: State)
    requires Leads(s, r) && At(r, p) == RootWrite(count)
    ensures Stepped(s, r, t, p, Idle, r.shm.(clients := count + 1), r.sem + 1, r.log + [Root(true)])
  {
    t := Moves(s, r, p, RootWrite(count), RootRelease(true), r.shm.(clients := count + 1));
    t := Leaves(s, t, p, true);
  }

  lemma TwoAccepted()
    ensures Accepted([] + [Root(true)] + [Root(true)]) == 2
  {
    var log := [] + [Root(true)] + [Root(true)];
    assert log[..1] == [Root(true)] && [Root(true)][..0] == [];
  }

  /**
   * Were the semaphore to let two processes in, an update could be lost: two
   * visitors are accepted and the count goes up by one.
   */
  lemma TwoInsideLoseAnUpdate(r: Record, p: nat, q: nat) returns (s: State, t: State)
    requires p != q && r.clients < r.maxClients
    ensures s == Initial(r).(sem := 2) && Leads(s, t) && t.sem == 2
    ensures Accepted(t.log) == 2 && t.shm.clients == r.clients + 1
  {
    s := Initial(r).(sem := 2);
    assert s == Run(s, []);
    t := Reads(s, s, p);
    t := Reads(s, t, q);
    t := Writes(s, t, p, r.clients);
    t := Writes(s, t, q, r.clients);
    TwoAccepted();
  }
}
