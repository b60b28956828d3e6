// update_configuration (httpserver.cpp): the loop over the lines of the
// configuration file, with the C string functions it is made of.
module Configuration {
  import opened CLanguage

  const BUFFER_SIZE := 255

  const DEFAULT_BACKLOG := 2
  const DEFAULT_MAX_CLIENTS := 1000
  const DEFAULT_SENSOR_PERIOD := 1000
  const DEFAULT_SAMPLES := 5

  // ----- C strings ---------------------------------------------------------

  /** How many of the first characters are c. */
  function Run(s: string, c: char): (k: nat)
    ensures k <= |s| && forall i :: 0 <= i < k ==> s[i] == c
    ensures k < |s| ==> s[k] != c
  {
    if s == [] || s[0] != c then 0 else 1 + Run(s[1..], c)
  }

  /** fgets: up to the end of the line, but no more than fits the buffer. */
  function Chunk(rest: string): (chunk: string)
    requires rest != []
    ensures chunk != [] && chunk <= rest && |chunk| < BUFFER_SIZE
  {
    var line := Before(rest, '\n') + 1;
    rest[..if line <= |rest| && line < BUFFER_SIZE then line else if |rest| < BUFFER_SIZE then |rest| else BUFFER_SIZE - 1]
  }

  /** What fgets returns one call after the other, without the line ends. */
  function Lines(content: string): seq<string>
  {
    if content == [] then []
    else [Line(Chunk(content))] + Lines(content[|Chunk(content)|..])
  }

  function Line(chunk: string): string {
    chunk[..Before(chunk, '\n')]
  }

  /** strtok with "=": the next token and what follows it. */
  function Token(s: string): Option<(string, string)> {
    var start := Run(s, '=');
    if start == |s| then None
    else
      var t := s[start..];
      var end := Before(t, '=');
      Some((t[..end], if end < |t| then t[end + 1..] else []))
  }

  predicate IsSpace(c: char) {
    c == ' ' || c == '\t' || c == '\n' || c == '\U{0B}' || c == '\U{0C}' || c == '\r'
  }

  function Digits(s: string, value: int): int {
    if s == [] || !IsDigit(s[0]) then value else Digits(s[1..], value * 10 + DigitValue(s[0]))
  }

  /** atoi of a number that fits an int. */
  function Atoi(s: string): int {
    if s == [] then 0
    else if IsSpace(s[0]) then Atoi(s[1..])
    else if s[0] == '-' then -Digits(s[1..], 0)
    else if s[0] == '+' then Digits(s[1..], 0)
    else Digits(s, 0)
  }

  // ----- Settings ----------------------------------------------------------

  datatype Setting = Backlog | MaxClients | SensorPeriod | Samples

  datatype ServerData = ServerData(backlog: int, maxClients: int, sensorPeriod: int, samples: int)
  {
    function Get(k: Setting): int {
      match k
      case Backlog => backlog
      case MaxClients => maxClients
      case SensorPeriod => sensorPeriod
      case Samples => samples
    }

    function With(k: Setting, v: int): (r: ServerData)
      ensures r.Get(k) == v
      ensures forall j: Setting :: j != k ==> r.Get(j) == Get(j)
    {
      match k
      case Backlog => this.(backlog := v)
      case MaxClients => this.(maxClients := v)
      case SensorPeriod => this.(sensorPeriod := v)
      case Samples => this.(samples := v)
    }
  }

  function Default(k: Setting): int {
    match k
    case Backlog => DEFAULT_BACKLOG
    case MaxClients => DEFAULT_MAX_CLIENTS
    case SensorPeriod => DEFAULT_SENSOR_PERIOD
    case Samples => DEFAULT_SAMPLES
  }

  const DEFAULTS :=
    ServerData(DEFAULT_BACKLOG, DEFAULT_MAX_CLIENTS, DEFAULT_SENSOR_PERIOD, DEFAULT_SAMPLES)

  function Named(key: string): Option<Setting> {
    if key == "backlog" then Some(Backlog)
    else if key == "max_clients" then Some(MaxClients)
    else if key == "sensor_period" then Some(SensorPeriod)
    else if key == "samples_moving_average_filter" then Some(Samples)
    else None
  }

  // What a line asks for. A key or a value that strtok does not find is a null
  // pointer, which strcmp and atoi then dereference.
  datatype Request = Nothing | NullPointer | Set(setting: Setting, number: int)

  function Meaning(line: string): Request {
    if '=' !in line then Nothing
    else
      match Token(line)
      case None => NullPointer
      case Some((key, rest)) =>
        match Named(key)
        case None => Nothing
        case Some(setting) =>
          match Token(rest)
          case None => NullPointer
          case Some((value, _)) => Set(setting, Atoi(value))
  }

  /** Zero, which is also what is not a number, stands for the default. */
  function Wanted(setting: Setting, number: int): int {
    if number != 0 then number else Default(setting)
  }

  /** The line gives the setting a value that is accepted. */
  predicate Accepted(line: string, k: Setting) {
    match Meaning(line)
    case Set(setting, number) => setting == k && Wanted(k, number) >= 1
    case _ => false
  }

  function AcceptedValue(line: string, k: Setting): int
    requires Accepted(line, k)
  {
    Wanted(k, Meaning(line).number)
  }

  predicate Crashes(lines: seq<string>) {
    exists i :: 0 <= i < |lines| && Meaning(lines[i]).NullPointer?
  }

  /** The value of the last line that sets k, or else the value it had. */
  function LastAccepted(lines: seq<string>, k: Setting, initial: int): int {
    if lines == [] then initial
    else if Accepted(lines[|lines| - 1], k) then AcceptedValue(lines[|lines| - 1], k)
    else LastAccepted(lines[..|lines| - 1], k, initial)
  }

  /** The record after the lines. */
  function Final(lines: seq<string>, d: ServerData): ServerData {
    ServerData(LastAccepted(lines, Backlog, d.backlog), LastAccepted(lines, MaxClients, d.maxClients),
               LastAccepted(lines, SensorPeriod, d.sensorPeriod), LastAccepted(lines, Samples, d.samples))
  }

  /** The record after one line. */
  function Applied(line: string, d: ServerData): ServerData {
    match Meaning(line)
    case Set(setting, number) => if Wanted(setting, number) >= 1 then d.With(setting, Wanted(setting, number)) else d
    case _ => d
  }

  lemma OneMoreLine(lines: seq<string>, line: string, d: ServerData)
    ensures Final(lines + [line], d) == Applied(line, Final(lines, d))
    ensures Crashes(lines + [line]) <==> Crashes(lines) || Meaning(line).NullPointer?
  {
    var all := lines + [line];
    assert all[..|all| - 1] == lines && all[|lines|] == line;
    forall i | 0 <= i < |lines| ensures all[i] == lines[i] {
    }
  }

  lemma Regroup(seen: seq<string>, line: string, later: seq<string>)
    ensures seen + ([line] + later) == (seen + [line]) + later
    ensures Meaning(line).NullPointer? ==> Crashes(seen + ([line] + later))
  {
    assert (seen + ([line] + later))[|seen|] == line;
  }

  class Server {
    var shm: ServerData
    var sem: int

    constructor (shm: ServerData)
      ensures this.shm == shm && sem == 1
    {
      this.shm, sem := shm, 1;
    }

    // A file that cannot be opened is None. The semaphore is free: the caller
    // waits for that. A crash is the null pointer dereference of the source.
    method UpdateConfiguration(file: Option<string>) returns (crashed: bool)
      requires sem > 0
      modifies this
      ensures file.None? ==> !crashed && shm == DEFAULTS
      ensures file.Some? ==> (crashed <==> Crashes(Lines(file.value)))
      ensures file.Some? && !crashed ==>
                shm == Final(Lines(file.value), old(shm))
      ensures sem == if crashed then old(sem) - 1 else old(sem)
    {
      crashed := false;
      sem := sem - 1;
      if file.None? {
        shm := DEFAULTS;
        sem := sem + 1;
        return;
      }
      var rest := file.value;
      ghost var seen: seq<string> := [];
      while rest != []
        invariant sem == old(sem) - 1
        invariant Lines(file.value) == seen + Lines(rest)
        invariant !Crashes(seen)
        invariant shm == Final(seen, old(shm))
        decreases |rest|
      {
        var chunk := Chunk(rest);
        var line := Line(chunk);
        rest := rest[|chunk|..];
        OneMoreLine(seen, line, old(shm));
        Regroup(seen, line, Lines(rest));
        seen := seen + [line];
        crashed := ApplyLine(line);
        if crashed {
          return;
        }
      }
      sem := sem + 1;
      assert Lines(file.value) == seen;
    }

    /** The body of the loop. */
    method ApplyLine(line: string) returns (crashed: bool)
      modifies this`shm
      ensures crashed <==> Meaning(line).NullPointer?
      ensures shm == Applied(line, old(shm))
    {
      match Meaning(line) {
        case Nothing => return false;
        case NullPointer => return true;
        case Set(setting, number) =>
          var changed := if number != 0 then number else Default(setting);
          if changed == shm.Get(setting) {
            return false;
          }
          if changed >= 1 {
            shm := shm.With(setting, changed);
          }
          return false;
      }
    }
  }

  // ----- What the loop amounts to ------------------------------------------

  /** A setting ends as what its last accepted line says. */
  lemma {:induction false} LastLineWins(lines: seq<string>, k: Setting, initial: int, i: nat)
    requires i < |lines| && Accepted(lines[i], k)
    requires forall j :: i < j < |lines| ==> !Accepted(lines[j], k)
    ensures LastAccepted(lines, k, initial) == AcceptedValue(lines[i], k)
  {
    if i < |lines| - 1 {
      LastLineWins(lines[..|lines| - 1], k, initial, i);
    }
  }

  /** Without an accepted line a setting keeps its value. */
  lemma {:induction false} NoLineKeeps(lines: seq<string>, k: Setting, initial: int)
    requires forall j :: 0 <= j < |lines| ==> !Accepted(lines[j], k)
    ensures LastAccepted(lines, k, initial) == initial
  {
    if lines != [] {
      NoLineKeeps(lines[..|lines| - 1], k, initial);
    }
  }

  /** A setting only changes to a value of at least one. */
  lemma {:induction false} OnlyPositiveValues(lines: seq<string>, k: Setting, initial: int)
    ensures LastAccepted(lines, k, initial) == initial || LastAccepted(lines, k, initial) >= 1
  {
    if lines != [] {
      OnlyPositiveValues(lines[..|lines| - 1], k, initial);
    }
  }

  // ----- Lines as a user writes them ---------------------------------------

  lemma TokenOf(s: string, rest: string)
    requires s != [] && '=' !in s
    ensures Token(s + "=" + rest) == Some((s, rest))
    ensures Token(s) == Some((s, []))
  {
    BeforeSeparator(s, '=', rest);
    assert s[0] in s;
    var t := s + "=" + rest;
    assert Run(t, '=') == 0 && Run(s, '=') == 0;
    assert t[0..] == t && t[|s| + 1..] == rest && t[..|s|] == s;
    assert s[0..] == s && s[..|s|] == s;
  }

  /** key=value, with any further = and what follows ignored, sets the key to the value. */
  lemma KeyValueLine(key: string, value: string, more: string)
    requires key != [] && '=' !in key && value != [] && '=' !in value
    ensures Meaning(key + "=" + value)
         == (match Named(key) case None => Nothing case Some(k) => Set(k, Atoi(value)))
    ensures Meaning(key + "=" + (value + "=" + more)) == Meaning(key + "=" + value)
  {
    assert (key + "=" + value)[|key|] == '=';
    assert (key + "=" + (value + "=" + more))[|key|] == '=';
    TokenOf(key, value);
    TokenOf(key, value + "=" + more);
    TokenOf(value, more);
  }

  /** A known key without a value is a null pointer for atoi. */
  lemma KeyWithoutValueCrashes(key: string)
    requires Named(key).Some?
    ensures Meaning(key + "=").NullPointer?
  {
    assert '=' !in key && key != [];
    assert (key + "=")[|key|] == '=';
    TokenOf(key, "");
    assert key + "=" + "" == key + "=";
    assert Token(key + "=") == Some((key, ""));
    assert Token("") == None;
    assert '=' in key + "=";
    assert Meaning(key + "=") == NullPointer;
  }

  // ----- The lines that crash ----------------------------------------------

  function Equals(n: nat): (s: string)
    ensures |s| == n && forall i :: 0 <= i < n ==> s[i] == '='
  {
    seq(n, _ => '=')
  }

  /** Nothing but =, and at least one; or a known key with only = around it, and at least one. */
  ghost predicate LacksValue(line: string) {
    || (exists n: nat :: n > 0 && line == Equals(n))
    || (exists key, a: nat, b: nat :: Named(key).Some? && a + b > 0 && line == Equals(a) + key + Equals(b))
  }

  lemma RunOfEquals(a: nat, rest: string)
    requires rest == [] || rest[0] != '='
    ensures Run(Equals(a) + rest, '=') == a
  {
    if a == 0 {
      assert Equals(0) + rest == rest;
    } else {
      assert (Equals(a) + rest)[1..] == Equals(a - 1) + rest;
      RunOfEquals(a - 1, rest);
    }
  }

  lemma AllEquals(s: string)
    requires Run(s, '=') == |s|
    ensures s == Equals(|s|)
  {
  }

  lemma RunOfOnlyEquals(n: nat)
    ensures Run(Equals(n), '=') == n
  {
    RunOfEquals(n, []);
    assert Equals(n) + [] == Equals(n);
  }

  lemma NamedIsAKey(key: string)
    requires Named(key).Some?
    ensures key != [] && key[0] != '=' && '=' !in key
  {
  }

  /** strtok skips what is in front of a token. */
  lemma TokenAfterEquals(a: nat, t: string)
    requires t != [] && t[0] != '='
    ensures Token(Equals(a) + t) == Token(t)
  {
    RunOfEquals(a, t);
    assert (Equals(a) + t)[a..] == t;
    assert Run(t, '=') == 0 && t[0..] == t;
  }

  lemma TokenBeforeEquals(key: string, b: nat)
    requires key != [] && '=' !in key
    ensures Token(key + Equals(b)) == Some((key, if b == 0 then [] else Equals(b - 1)))
  {
    if b == 0 {
      assert key + Equals(0) == key;
      TokenOf(key, []);
    } else {
      assert key + Equals(b) == key + "=" + Equals(b - 1);
      TokenOf(key, Equals(b - 1));
    }
  }

  /** The first token of a key with = around it, and what strtok has left. */
  lemma TokenAmongEquals(key: string, a: nat, b: nat)
    requires key != [] && '=' !in key
    ensures Token(Equals(a) + key + Equals(b)) == Some((key, if b == 0 then [] else Equals(b - 1)))
  {
    assert key[0] in key;
    assert (key + Equals(b))[0] == key[0];
    assert Equals(a) + key + Equals(b) == Equals(a) + (key + Equals(b));
    TokenAfterEquals(a, key + Equals(b));
    TokenBeforeEquals(key, b);
  }

  lemma LackingCrashes(line: string)
    requires LacksValue(line)
    ensures Meaning(line).NullPointer?
  {
    if n: nat :| n > 0 && line == Equals(n) {
      RunOfOnlyEquals(n);
      assert line[0] == '=';
    } else {
      var key, a: nat, b: nat :| Named(key).Some? && a + b > 0 && line == Equals(a) + key + Equals(b);
      NamedIsAKey(key);
      TokenAmongEquals(key, a, b);
      RunOfOnlyEquals(if b == 0 then 0 else b - 1);
      assert (if a > 0 then line[0] else line[|key|]) == '=';
    }
  }

  lemma SplitAt(t: string, k: nat)
    requires k < |t| && t[k] == '='
    ensures t == t[..k] + ("=" + t[k + 1..])
  {
    assert t[k..] == "=" + t[k + 1..];
  }

  lemma SplitAfterEquals(line: string)
    ensures var a := Run(line, '='); line == Equals(a) + line[a..]
  {
    var a := Run(line, '=');
    assert line[..a] == Equals(a);
    assert line == line[..a] + line[a..];
  }

  /** With nothing but = after it, a token stands among = only. */
  lemma TokenAlone(line: string) returns (a: nat, b: nat)
    requires Token(line).Some? && Token(Token(line).value.1) == None
    ensures line == Equals(a) + Token(line).value.0 + Equals(b)
  {
    a := Run(line, '=');
    var t := line[a..];
    var k := Before(t, '=');
    SplitAfterEquals(line);
    if k == |t| {
      b := 0;
      assert t == t[..k] + Equals(0);
    } else {
      b := |t[k + 1..]| + 1;
      SplitAt(t, k);
      AllEquals(t[k + 1..]);
      OneMoreEquals(b - 1);
    }
    Regrouped(Equals(a), t[..k], Equals(b));
  }

  lemma Regrouped(a: string, b: string, c: string)
    ensures a + (b + c) == a + b + c
  {
  }

  lemma OneMoreEquals(n: nat)
    ensures "=" + Equals(n) == Equals(n + 1)
  {
  }

  lemma CrashingLacks(line: string)
    requires Meaning(line).NullPointer?
    ensures LacksValue(line)
  {
    if Token(line) == None {
      AllEquals(line);
      assert |line| > 0 && line == Equals(|line|);
    } else {
      var a, b := TokenAlone(line);
      NamedIsAKey(Token(line).value.0);
      if a + b == 0 {
        assert false;
      }
    }
  }

  /**
   * A line makes the server dereference a null pointer exactly when it is made
   * of = alone, or of one of the four keys and = alone.
   */
  lemma CrashesExactlyWhen(line: string)
    ensures Meaning(line).NullPointer? <==> LacksValue(line)
  {
    if Meaning(line).NullPointer? {
      CrashingLacks(line);
    }
    if LacksValue(line) {
      LackingCrashes(line);
    }
  }

  // ----- A file as the program's documentation shows it --------------------

  function KeyOf(k: Setting): (key: string)
    ensures Named(key) == Some(k) && '=' !in key && '\n' !in key && 0 < |key| < 30
  {
    match k
    case Backlog => "backlog"
    case MaxClients => "max_clients"
    case SensorPeriod => "sensor_period"
    case Samples => "samples_moving_average_filter"
  }

  datatype Assignment = Assignment(k: Setting, n: nat)

  function Written(a: Assignment): string {
    KeyOf(a.k) + "=" + Decimal(a.n)
  }

  function WrittenFile(asg: seq<Assignment>): string {
    if asg == [] then [] else Written(asg[0]) + "\n" + WrittenFile(asg[1..])
  }

  function AssignAll(asg: seq<Assignment>, d: ServerData): ServerData {
    if asg == [] then d
    else AssignAll(asg[..|asg| - 1], d).With(asg[|asg| - 1].k, asg[|asg| - 1].n)
  }

  lemma {:induction false} DigitsOfNumeral(s: string, v: int)
    requires AllDigits(s)
    ensures Digits(s, v) == v * Ten(|s|) + Value(s)
  {
    if s != [] {
      DigitsOfNumeral(s[1..], v * 10 + DigitValue(s[0]));
      ValueFromFront(s);
      Scaled(v, DigitValue(s[0]), Ten(|s| - 1));
    }
  }

  lemma Scaled(v: int, d: int, t: int)
    ensures (v * 10 + d) * t == v * (10 * t) + d * t
  {
  }

  lemma {:induction false} ValueFromFront(s: string)
    requires s != [] && AllDigits(s)
    ensures Value(s) == DigitValue(s[0]) * Ten(|s| - 1) + Value(s[1..])
  {
    if |s| == 1 {
      assert s[..0] == "" && s[1..] == "";
      assert Value("") == 0;
    } else {
      var t := s[..|s| - 1];
      ValueFromFront(t);
      assert s[1..][..|s| - 2] == t[1..];
      Tenfold(DigitValue(s[0]), Ten(|t| - 1), Value(t[1..]));
    }
  }

  lemma Tenfold(d: int, t: int, v: int)
    ensures (d * t + v) * 10 == d * (10 * t) + v * 10
  {
  }

  lemma AtoiOfDecimal(n: nat)
    ensures Atoi(Decimal(n)) == n
  {
    var s := Decimal(n);
    assert s[0] in s;
    DigitsOfNumeral(s, 0);
    DecimalRoundTrip(n);
  }

  lemma MeaningOfWritten(a: Assignment)
    ensures Meaning(Written(a)) == Set(a.k, a.n)
  {
    assert '=' !in Decimal(a.n);
    KeyValueLine(KeyOf(a.k), Decimal(a.n), "");
    AtoiOfDecimal(a.n);
  }

  lemma FirstLine(line: string, rest: string)
    requires '\n' !in line && |line| < BUFFER_SIZE - 1
    ensures Lines(line + "\n" + rest) == [line] + Lines(rest)
  {
    var s := line + "\n" + rest;
    BeforeSeparator(line, '\n', rest);
    assert Chunk(s) == line + "\n";
    BeforeSeparator(line, '\n', "");
    assert line + "\n" + "" == line + "\n";
    assert Line(Chunk(s)) == line;
    assert s[|line| + 1..] == rest;
  }

  lemma WrittenLength(a: Assignment)
    requires a.n < 0x8000_0000
    ensures |Written(a)| < BUFFER_SIZE - 1 && '\n' !in Written(a)
  {
    DecimalLength(a.n, 10);
    assert Ten(5) == 10_0000 && Ten(10) == 10_0000 * Ten(5) by {
      assert Ten(10) == 10 * Ten(9) == 100 * Ten(8) == 1000 * Ten(7);
    }
    assert '\n' !in Decimal(a.n);
  }

  function Each(asg: seq<Assignment>): (lines: seq<string>) {
    Map(Written, asg)
  }

  lemma {:induction false} LinesOfWritten(asg: seq<Assignment>)
    requires forall i :: 0 <= i < |asg| ==> asg[i].n < 0x8000_0000
    ensures Lines(WrittenFile(asg)) == Each(asg)
  {
    if asg != [] {
      WrittenLength(asg[0]);
      FirstLine(Written(asg[0]), WrittenFile(asg[1..]));
      LinesOfWritten(asg[1..]);
      MapFromFront(Written, asg);
    }
  }

  /** Reading back a file of key=number lines makes exactly the assignments it lists. */
  lemma WrittenFileReadsBack(asg: seq<Assignment>, d: ServerData)
    requires forall i :: 0 <= i < |asg| ==> 1 <= asg[i].n < 0x8000_0000
    ensures !Crashes(Lines(WrittenFile(asg)))
    ensures Final(Lines(WrittenFile(asg)), d) == AssignAll(asg, d)
  {
    LinesOfWritten(asg);
    EachAssigns(asg, d);
  }

  lemma WrittenApplies(a: Assignment, d: ServerData)
    requires a.n >= 1
    ensures Applied(Written(a), d) == d.With(a.k, a.n) && !Meaning(Written(a)).NullPointer?
  {
    MeaningOfWritten(a);
  }

  lemma {:induction false} EachAssigns(asg: seq<Assignment>, d: ServerData)
    requires forall i :: 0 <= i < |asg| ==> asg[i].n >= 1
    ensures !Crashes(Each(asg)) && Final(Each(asg), d) == AssignAll(asg, d)
  {
    if asg != [] {
      var before, last := asg[..|asg| - 1], asg[|asg| - 1];
      EachAssigns(before, d);
      OneMoreLine(Each(before), Written(last), d);
      WrittenApplies(last, AssignAll(before, d));
    }
  }

  // ----- What numbers mean -------------------------------------------------

  predicate Blank(s: string) {
    forall c :: c in s ==> IsSpace(c)
  }

  lemma {:induction false} AtoiSkipsBlanks(blanks: string, s: string)
    requires Blank(blanks)
    ensures Atoi(blanks + s) == Atoi(s)
  {
    if blanks == [] {
      assert blanks + s == s;
    } else {
      assert blanks[0] in blanks;
      assert (blanks + s)[1..] == blanks[1..] + s;
      forall c | c in blanks[1..] ensures IsSpace(c) {
        assert c in blanks;
      }
      AtoiSkipsBlanks(blanks[1..], s);
    }
  }

  /** The digits end at the first character that is none. */
  lemma {:induction false} DigitsStop(s: string, rest: string, v: int)
    requires AllDigits(s) && (rest == [] || !IsDigit(rest[0]))
    ensures Digits(s + rest, v) == v * Ten(|s|) + Value(s)
  {
    if s == [] {
      assert s + rest == rest;
    } else {
      assert (s + rest)[1..] == s[1..] + rest;
      DigitsStop(s[1..], rest, v * 10 + DigitValue(s[0]));
      ValueFromFront(s);
      Scaled(v, DigitValue(s[0]), Ten(|s| - 1));
    }
  }

  /** Blanks, a sign or none, a numeral, and anything that does not go on with a digit. */
  lemma AtoiOfSigned(blanks: string, n: int, rest: string)
    requires n >= 0 && Blank(blanks) && (rest == [] || !IsDigit(rest[0]))
    ensures Atoi(blanks + (Decimal(n) + rest)) == n
    ensures Atoi(blanks + ("+" + (Decimal(n) + rest))) == n
    ensures Atoi(blanks + ("-" + (Decimal(n) + rest))) == -n
  {
    var s := Decimal(n) + rest;
    NumberOf(n, rest);
    Signs(s, n);
    AtoiSkipsBlanks(blanks, s);
    AtoiSkipsBlanks(blanks, "+" + s);
    AtoiSkipsBlanks(blanks, "-" + s);
  }

  lemma NumberOf(n: nat, rest: string)
    requires rest == [] || !IsDigit(rest[0])
    ensures Digits(Decimal(n) + rest, 0) == n && IsDigit((Decimal(n) + rest)[0])
  {
    var s := Decimal(n);
    assert s[0] in s;
    DigitsStop(s, rest, 0);
    DecimalRoundTrip(n);
  }

  lemma Signs(s: string, n: int)
    requires s != [] && IsDigit(s[0]) && Digits(s, 0) == n
    ensures Atoi(s) == n && Atoi("+" + s) == n && Atoi("-" + s) == -n
  {
    assert ("+" + s)[1..] == s && ("-" + s)[1..] == s;
  }

  /** After blanks and at most one sign there is no digit. */
  predicate StartsNoNumber(s: string) {
    s == [] || (!IsDigit(s[0]) && !IsSpace(s[0]) && (s[0] == '-' || s[0] == '+' ==> s[1..] == [] || !IsDigit(s[1])))
  }

  lemma AtoiOfText(blanks: string, s: string)
    requires Blank(blanks) && StartsNoNumber(s)
    ensures Atoi(blanks + s) == 0
  {
    AtoiSkipsBlanks(blanks, s);
  }

  // ----- What lines and files do -------------------------------------------

  /** The four keys, by their names, and the value that zero stands for. */
  lemma KeysAndDefaults()
    ensures Named("backlog") == Some(Backlog) && DEFAULTS.backlog == Default(Backlog) == 2
    ensures Named("max_clients") == Some(MaxClients) && DEFAULTS.maxClients == Default(MaxClients) == 1000
    ensures Named("sensor_period") == Some(SensorPeriod) && DEFAULTS.sensorPeriod == Default(SensorPeriod) == 1000
    ensures Named("samples_moving_average_filter") == Some(Samples) && DEFAULTS.samples == Default(Samples) == 5
    ensures forall key :: Named(key).Some? ==>
              key in {"backlog", "max_clients", "sensor_period", "samples_moving_average_filter"}
  {
  }

  /** The record with one of its four fields replaced. */
  predicate OnlyChanged(d: ServerData, r: ServerData, k: Setting, v: int) {
    match k
    case Backlog => r == ServerData(v, d.maxClients, d.sensorPeriod, d.samples)
    case MaxClients => r == ServerData(d.backlog, v, d.sensorPeriod, d.samples)
    case SensorPeriod => r == ServerData(d.backlog, d.maxClients, v, d.samples)
    case Samples => r == ServerData(d.backlog, d.maxClients, d.sensorPeriod, v)
  }

  /** key=value, where the value counts as number. */
  lemma LineSets(k: Setting, value: string, number: int, d: ServerData)
    requires value != [] && '=' !in value && Atoi(value) == number
    ensures var r := Applied(KeyOf(k) + "=" + value, d);
            && !Meaning(KeyOf(k) + "=" + value).NullPointer?
            && (number >= 1 ==> OnlyChanged(d, r, k, number))
            && (number == 0 ==> OnlyChanged(d, r, k, DEFAULTS.Get(k)))
            && (number < 0 ==> r == d)
  {
    KeyValueLine(KeyOf(k), value, "");
  }

  predicate PlainText(s: string) {
    '=' !in s && '\n' !in s
  }

  /** A file of one line, with or without its line end. */
  lemma OneLineFile(line: string)
    requires '\n' !in line && line != [] && |line| <= 253
    ensures Lines(line + "\n") == [line] && Lines(line) == [line]
  {
    FirstLine(line, []);
    assert line + "\n" + [] == line + "\n";
    BeforeSeparator(line, '\n', []);
    assert Chunk(line) == line;
    assert Lines(line) == [Line(line)] + Lines([]);
  }

  /** A last line counts like any other when its line end is missing. */
  lemma {:induction false} LastLineNeedsNoEnd(content: string, line: string)
    requires content == [] || content[|content| - 1] == '\n'
    requires '\n' !in line && line != [] && |line| <= 253
    ensures Lines(content + line) == Lines(content + line + "\n")
    decreases |content|
  {
    if content == [] {
      OneLineFile(line);
      assert content + line == line && content + line + "\n" == line + "\n";
    } else {
      var k := |Chunk(content)|;
      SameChunk(content, line);
      SameChunk(content, line + "\n");
      var rest := content[k..];
      assert (content + line)[k..] == rest + line;
      assert (content + (line + "\n"))[k..] == rest + line + "\n";
      assert content + line + "\n" == content + (line + "\n");
      LastLineNeedsNoEnd(rest, line);
    }
  }

  /** What follows a line end does not change the chunks before it. */
  lemma SameChunk(content: string, more: string)
    requires content != [] && content[|content| - 1] == '\n'
    ensures Chunk(content + more) == Chunk(content)
  {
    BeforeStays(content, more);
    var n := |Chunk(content)|;
    assert (content + more)[..n] == content[..n];
  }

  lemma {:induction false} BeforeStays(content: string, more: string)
    requires '\n' in content
    ensures Before(content + more, '\n') == Before(content, '\n') < |content|
  {
    if content[0] != '\n' {
      assert (content + more)[1..] == content[1..] + more;
      assert content == [content[0]] + content[1..];
      BeforeStays(content[1..], more);
    }
  }

  /** A line longer than the buffer is read in pieces of 254 characters. */
  lemma LongLineIsCut(line: string, rest: string)
    requires '\n' !in line && |line| >= 254
    ensures Lines(line + rest) == [line[..254]] + Lines(line[254..] + rest)
  {
    var s := line + rest;
    NoEarlyEnd(line, rest);
    assert Chunk(s) == line[..254];
    NoEarlyEnd(line[..254], []);
    assert line[..254] + [] == line[..254];
    assert s[254..] == line[254..] + rest;
  }

  lemma {:induction false} NoEarlyEnd(line: string, rest: string)
    requires '\n' !in line
    ensures Before(line + rest, '\n') >= |line|
  {
    if line != [] {
      assert (line + rest)[1..] == line[1..] + rest;
      NoEarlyEnd(line[1..], rest);
    }
  }

  lemma MinusNumber(n: int)
    requires n >= 0
    ensures Atoi("-" + Decimal(n)) == -n && '=' !in "-" + Decimal(n)
  {
    AtoiOfSigned([], n, []);
    assert Decimal(n) + [] == Decimal(n);
    assert [] + ("-" + Decimal(n)) == "-" + Decimal(n);
    assert '=' !in Decimal(n);
  }

  /** key=-n, on a line of a file, leaves every setting as it is. */
  lemma NegativeLineChangesNothing(k: Setting, n: int, lines: seq<string>, d: ServerData)
    requires n > 0
    ensures Final(lines + [KeyOf(k) + "=" + ("-" + Decimal(n))], d) == Final(lines, d)
  {
    MinusNumber(n);
    LineSets(k, "-" + Decimal(n), -n, Final(lines, d));
    OneMoreLine(lines, KeyOf(k) + "=" + ("-" + Decimal(n)), d);
  }

  /** A key with a value that is no number, or zero, gets its default, and nothing else changes. */
  lemma NoNumberSetsDefault(k: Setting, value: string, lines: seq<string>, d: ServerData)
    requires value != [] && '=' !in value && (value == Decimal(0) || StartsNoNumber(value))
    ensures OnlyChanged(Final(lines, d), Final(lines + [KeyOf(k) + "=" + value], d), k, DEFAULTS.Get(k))
  {
    assert Decimal(0) + [] == Decimal(0) && [] + Decimal(0) == Decimal(0) && [] + value == value;
    AtoiOfSigned([], 0, []);
    if value != Decimal(0) {
      AtoiOfText([], value);
    }
    LineSets(k, value, 0, Final(lines, d));
    OneMoreLine(lines, KeyOf(k) + "=" + value, d);
  }
}
