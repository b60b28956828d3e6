// Requests and responses of the web server (httpserver.cpp): the scanner of the
// request line, and the loop that assembles an answer from a file.
module HttpRequest {
  import opened CLanguage

  const ROUTE_SIZE := 256

  datatype Method = Get | Post | Invalid
  datatype Request = Request(verb: Method, route: string)

  function Classify(text: string): Method {
    if text == "GET" then Get else if text == "POST" then Post else Invalid
  }

  /** strstr finds the text. */
  predicate Contains(s: string, text: string) {
    exists i :: 0 <= i <= |s| && text <= s[i..]
  }

  const PREFETCH := "Purpose: prefetch"

  predicate NoSpace(msg: string, from: nat, to: nat)
    requires to <= |msg|
  {
    forall i :: from <= i < to ==> msg[i] != ' '
  }

  /** The first space at or after a position, or the end of the message. */
  function SpaceFrom(msg: string, from: nat): (k: nat)
    requires from <= |msg|
    ensures from <= k <= |msg| && NoSpace(msg, from, k)
    ensures k < |msg| ==> msg[k] == ' '
    decreases |msg| - from
  {
    if from == |msg| || msg[from] == ' ' then from else SpaceFrom(msg, from + 1)
  }

  // A space in the first position does not count as a separator: the index 0 is
  // what the scanner takes for "no space found yet".

  function FirstSeparator(msg: string): nat {
    if msg == [] then 0 else SpaceFrom(msg, 1)
  }

  /** What the scanner leaves in the request it is given. */
  function Scanned(msg: string, before: Request): Request {
    var a := FirstSeparator(msg);
    if a < |msg| then
      var b := SpaceFrom(msg, a + 1);
      Request(Classify(msg[..a]), if b < |msg| then msg[a + 1..b] else before.route)
    else
      Request(if msg != [] && msg[0] == ' ' then Invalid else before.verb, before.route)
  }

  /** The route that is copied, if there is one, does not fit its buffer with the terminator. */
  predicate RouteTooLong(msg: string) {
    var a := FirstSeparator(msg);
    a < |msg| && SpaceFrom(msg, a + 1) < |msg| && SpaceFrom(msg, a + 1) - a - 1 >= ROUTE_SIZE
  }

  lemma SeparatorIs(msg: string, from: nat, k: nat)
    requires from <= k <= |msg| && NoSpace(msg, from, k)
    requires k < |msg| ==> msg[k] == ' '
    ensures SpaceFrom(msg, from) == k
  {
  }

  // msg is the NUL-terminated text in the buffer, received what recv returned.
  method ReadRequest(received: int, msg: string, before: Request) returns (result: int, req: Request, tooLong: bool)
    ensures result == if received <= 0 || Contains(msg, PREFETCH) then -1 else 0
    ensures result == -1 ==> req == before && !tooLong
    ensures result == 0 ==> req == Scanned(msg, before) && tooLong == RouteTooLong(msg)
  {
    req, tooLong := before, false;
    if received <= 0 {
      return -1, req, false;
    }
    if Contains(msg, PREFETCH) {
      return -1, req, false;
    }
    result := 0;
    var indexFirstSpace := 0;
    var i := 0;
    while i < |msg|
      invariant 0 <= i <= |msg| && !tooLong
      invariant indexFirstSpace == 0 ==>
                  && NoSpace(msg, 1, i)
                  && req == Request(if i > 0 && msg[0] == ' ' then Invalid else before.verb, before.route)
      invariant indexFirstSpace > 0 ==>
                  && indexFirstSpace < i && FirstSeparator(msg) == indexFirstSpace
                  && NoSpace(msg, indexFirstSpace + 1, i)
                  && req == Request(Classify(msg[..indexFirstSpace]), before.route)
    {
      if msg[i] == ' ' && indexFirstSpace == 0 {
        indexFirstSpace := i;
        req := req.(verb := Classify(msg[..i]));
        if i > 0 {
          SeparatorIs(msg, 1, i);
        }
      } else if msg[i] == ' ' {
        SeparatorIs(msg, indexFirstSpace + 1, i);
        tooLong := i - indexFirstSpace - 1 >= ROUTE_SIZE;
        req := req.(route := msg[indexFirstSpace + 1..i]);
        return;
      }
      i := i + 1;
    }
    if indexFirstSpace > 0 {
      SeparatorIs(msg, indexFirstSpace + 1, |msg|);
    } else if msg != [] {
      SeparatorIs(msg, 1, |msg|);
    }
  }

  /** A message that contains the prefetch header is refused, wherever it stands, and no other message is. */
  lemma RefusedExactlyWhen(msg: string)
    ensures Contains(msg, PREFETCH) <==> exists a: string, b: string :: msg == a + "Purpose: prefetch" + b
  {
    if Contains(msg, PREFETCH) {
      var i :| 0 <= i <= |msg| && PREFETCH <= msg[i..];
      assert msg == msg[..i] + PREFETCH + msg[i + |PREFETCH|..] by {
        assert msg == msg[..i] + msg[i..];
        assert msg[i..] == PREFETCH + msg[i..][|PREFETCH|..];
      }
    }
    if a: string, b: string :| msg == a + "Purpose: prefetch" + b {
      assert msg[|a|..] == PREFETCH + b;
    }
  }

  /** method SP route SP rest is split at its two spaces, whatever the request held before. */
  lemma RequestLineRoundTrip(word: string, route: string, rest: string, before: Request)
    requires word != [] && NoSpace(word, 0, |word|) && NoSpace(route, 0, |route|)
    ensures Scanned(word + " " + route + " " + rest, before) == Request(Classify(word), route)
    ensures RouteTooLong(word + " " + route + " " + rest) <==> |route| >= 256
  {
    var msg := word + " " + route + " " + rest;
    var a, b := |word|, |word| + 1 + |route|;
    assert msg[..a] == word;
    assert msg[a + 1..b] == route;
    assert forall i :: a < i < b ==> msg[i] == route[i - a - 1];
    SeparatorIs(msg, 1, a);
    SeparatorIs(msg, a + 1, b);
  }

  /** With fewer than two separators the route stays as it was; without any, the method too. */
  lemma IncompleteKeepsRoute(word: string, tail: string, before: Request)
    requires NoSpace(word, 0, |word|) && NoSpace(tail, 0, |tail|)
    ensures Scanned(word, before) == before
    ensures word != [] ==> Scanned(word + " " + tail, before) == Request(Classify(word), before.route)
    ensures Scanned(" " + tail, before) == Request(Invalid, before.route)
    ensures !RouteTooLong(word) && !RouteTooLong(word + " " + tail)
  {
    if word != [] {
      SeparatorIs(word, 1, |word|);
    }
    OneSeparator(word, tail, before);
    var msg := " " + tail;
    assert forall i :: 1 <= i < |msg| ==> msg[i] == tail[i - 1];
    SeparatorIs(msg, 1, |msg|);
  }

  lemma OneSeparator(word: string, tail: string, before: Request)
    requires NoSpace(word, 0, |word|) && NoSpace(tail, 0, |tail|)
    ensures word != [] ==> Scanned(word + " " + tail, before) == Request(Classify(word), before.route)
    ensures !RouteTooLong(word + " " + tail)
  {
    var msg := word + " " + tail;
    assert forall i :: |word| < i < |msg| ==> msg[i] == tail[i - |word| - 1];
    if word != [] {
      SeparatorIs(msg, 1, |word|);
      SeparatorIs(msg, |word| + 1, |msg|);
      assert msg[..|word|] == word;
    } else {
      SeparatorIs(msg, 1, |msg|);
    }
  }

  /** Conversely, a message with two separators is its three parts, the route without a space. */
  lemma ScanIsASplit(msg: string, before: Request) returns (word: string, rest: string)
    requires var a := FirstSeparator(msg); a < |msg| && SpaceFrom(msg, a + 1) < |msg|
    ensures msg == word + " " + Scanned(msg, before).route + " " + rest
    ensures word != [] && NoSpace(word, 1, |word|)
    ensures NoSpace(Scanned(msg, before).route, 0, |Scanned(msg, before).route|)
    ensures Scanned(msg, before).verb == Classify(word)
  {
    var a := FirstSeparator(msg);
    var b := SpaceFrom(msg, a + 1);
    word, rest := msg[..a], msg[b + 1..];
    Split(msg, a, b);
  }

  lemma Split(msg: string, a: nat, b: nat)
    requires a < b < |msg| && msg[a] == ' ' == msg[b]
    ensures msg == msg[..a] + " " + msg[a + 1..b] + " " + msg[b + 1..]
  {
  }
}

module HttpResponse {
  import opened CLanguage

  const RESPONSE_SIZE := 2048

  const VERSION := "HTTP/1.1 "
  const SERVER := "Server: "
  const DATE := "Date: "
  const LENGTH := "Content-Length: "
  const TYPE := "Content-Type: "
  const LANGUAGE := "Content-Language: en"
  const CONNECTION := "Connection: "

  /** The lines sprintf puts before the blank line; date is the text of ctime without its line end. */
  function HeaderLines(code: string, server: string, date: string, length: nat, mime: string, conn: string): seq<string> {
    [VERSION + code, SERVER + server, DATE + date, LENGTH + Decimal(length), TYPE + mime, LANGUAGE, CONNECTION + conn]
  }

  function Joined(lines: seq<string>): string {
    if lines == [] then "\n" else lines[0] + "\n" + Joined(lines[1..])
  }

  /** fread on a file that stays as it is: any part of what is left, and the end-of-file flag. */
  method Fread(left: nat) returns (n: nat, eof: bool)
    ensures n <= RESPONSE_SIZE && n <= left
    ensures eof ==> n == left
    ensures n == 0 ==> eof
  {
    if left == 0 {
      return 0, true;
    }
    n :| 1 <= n <= RESPONSE_SIZE && n <= left;
    eof := false;
    if n == left {
      eof :| true;
    }
  }

  /** The answer for a file that could be opened, read in pieces of any size. */
  method Assemble(header: string, file: string) returns (answer: array<char>)
    ensures fresh(answer) && answer[..] == header + file
  {
    answer := new char[|header| + |file|];
    forall i | 0 <= i < |header| {
      answer[i] := header[i];
    }
    ghost var whole := header + file;
    var size, eof := |header|, false;
    while !eof
      invariant |header| <= size <= answer.Length
      invariant forall i :: 0 <= i < size ==> answer[i] == whole[i]
      invariant eof ==> size == answer.Length
      decreases answer.Length - size, if eof then 0 else 1
    {
      var n;
      n, eof := Fread(answer.Length - size);
      var at := size - |header|;
      forall i | 0 <= i < n {
        answer[size + i] := file[at + i];
      }
      assert forall i :: size <= i < size + n ==> answer[i] == file[i - |header|];
      size := size + n;
    }
    assert answer[..] == whole;
  }

  // ----- What a client makes of it -----------------------------------------

  /** Lines up to the first empty one, and what follows it. */
  function Received(s: string): (seq<string>, string) {
    var k := Before(s, '\n');
    if k == |s| then ([], s)
    else if k == 0 then ([], s[1..])
    else
      var later := Received(s[k + 1..]);
      ([s[..k]] + later.0, later.1)
  }

  lemma {:induction false} ReceivesJoined(lines: seq<string>, body: string)
    requires AllOneLine(lines)
    ensures Received(Joined(lines) + body) == (lines, body)
  {
    if lines == [] {
      var s := "\n" + body;
      assert s[0] == '\n' && s[1..] == body;
    } else {
      var s := Joined(lines) + body;
      assert s == lines[0] + "\n" + (Joined(lines[1..]) + body);
      BeforeSeparator(lines[0], '\n', Joined(lines[1..]) + body);
      assert s[|lines[0]| + 1..] == Joined(lines[1..]) + body;
      assert s[..|lines[0]|] == lines[0] && [lines[0]] + lines[1..] == lines;
      ReceivesJoined(lines[1..], body);
    }
  }

  predicate OneLine(s: string) {
    s != [] && '\n' !in s
  }

  predicate AllOneLine(lines: seq<string>) {
    forall i :: 0 <= i < |lines| ==> OneLine(lines[i])
  }

  lemma LabelsAreOneLine()
    ensures OneLine(VERSION) && OneLine(SERVER) && OneLine(DATE) && OneLine(LENGTH)
    ensures OneLine(TYPE) && OneLine(LANGUAGE) && OneLine(CONNECTION)
  {
  }

  lemma Labelled(tag: string, text: string)
    requires OneLine(tag) && '\n' !in text
    ensures OneLine(tag + text)
  {
  }

  lemma HeaderIsOneLineEach(code: string, server: string, date: string, length: nat, mime: string, conn: string)
    requires '\n' !in code && '\n' !in server && '\n' !in date && '\n' !in mime && '\n' !in conn
    ensures AllOneLine(HeaderLines(code, server, date, length, mime, conn))
  {
    LabelsAreOneLine();
    Labelled(VERSION, code);
    Labelled(SERVER, server);
    Labelled(DATE, date);
    assert '\n' !in Decimal(length);
    Labelled(LENGTH, Decimal(length));
    Labelled(TYPE, mime);
    Labelled(CONNECTION, conn);
  }

  /** A client that reads header lines up to the blank line finds exactly the body after it. */
  function WholeHeader(lines: seq<string>): (header: string)
    requires AllOneLine(lines)
    ensures forall body: string :: Received(header + body) == (lines, body)
  {
    assert forall body: string :: Received(Joined(lines) + body) == (lines, body) by {
      forall body: string ensures Received(Joined(lines) + body) == (lines, body) {
        ReceivesJoined(lines, body);
      }
    }
    Joined(lines)
  }

  /** The header of an answer with a body of the given length. */
  function Header(code: string, server: string, date: string, length: nat, mime: string, conn: string): (header: string)
    requires '\n' !in code && '\n' !in server && '\n' !in date && '\n' !in mime && '\n' !in conn
    ensures forall body: string ::
              Received(header + body) == (HeaderLines(code, server, date, length, mime, conn), body)
  {
    HeaderIsOneLineEach(code, server, date, length, mime, conn);
    WholeHeader(HeaderLines(code, server, date, length, mime, conn))
  }

  /** The number in the first line that starts with Content-Length. */
  function DeclaredLength(lines: seq<string>): Option<nat> {
    if lines == [] then None
    else if LENGTH <= lines[0] && AllDigits(lines[0][|LENGTH|..]) then Some(Value(lines[0][|LENGTH|..]))
    else DeclaredLength(lines[1..])
  }

  lemma OtherLine(line: string, rest: seq<string>)
    requires line != [] && line[0] != 'C'
    ensures DeclaredLength([line] + rest) == DeclaredLength(rest)
  {
    assert LENGTH[0] == 'C';
    assert ([line] + rest)[1..] == rest;
  }

  lemma LengthLine(length: nat, rest: seq<string>)
    ensures DeclaredLength([LENGTH + Decimal(length)] + rest) == Some(length)
  {
    assert (LENGTH + Decimal(length))[|LENGTH|..] == Decimal(length);
    DecimalRoundTrip(length);
  }

  /** Of the header lines the fourth declares the length, and no line before it. */
  lemma DeclaresLength(code: string, server: string, date: string, length: nat, mime: string, conn: string)
    ensures DeclaredLength(HeaderLines(code, server, date, length, mime, conn)) == Some(length)
  {
    var lines := HeaderLines(code, server, date, length, mime, conn);
    LengthLine(length, lines[4..]);
    OtherLine(lines[2], lines[3..]);
    OtherLine(lines[1], lines[2..]);
    OtherLine(lines[0], lines[1..]);
    assert lines[3..] == [lines[3]] + lines[4..];
    assert lines[2..] == [lines[2]] + lines[3..];
    assert lines[1..] == [lines[1]] + lines[2..];
    assert lines == [lines[0]] + lines[1..];
  }

  /** The value that a client reads after a name: that of the first line with it. */
  function Field(lines: seq<string>, name: string): Option<string> {
    if lines == [] then None
    else if name <= lines[0] then Some(lines[0][|name|..])
    else Field(lines[1..], name)
  }

  lemma FieldElsewhere(name: string, line: string, at: nat, rest: seq<string>)
    requires at < |name| && at < |line| && name[at] != line[at]
    ensures Field([line] + rest, name) == Field(rest, name)
  {
    assert ([line] + rest)[1..] == rest;
  }

  lemma FieldHere(name: string, value: string, rest: seq<string>)
    ensures Field([name + value] + rest, name) == Some(value)
  {
    assert (name + value)[|name|..] == value;
  }

  lemma Cons(lines: seq<string>, k: nat)
    requires k < |lines|
    ensures lines[k..] == [lines[k]] + lines[k + 1..]
  {
  }

  /** A client reads the five values where it looks for them. */
  lemma FieldsAreRead(code: string, server: string, date: string, length: nat, mime: string, conn: string)
    ensures var lines := HeaderLines(code, server, date, length, mime, conn);
            && Field(lines, "HTTP/1.1 ") == Some(code)
            && Field(lines, "Server: ") == Some(server)
            && Field(lines, "Date: ") == Some(date)
            && Field(lines, "Content-Type: ") == Some(mime)
            && Field(lines, "Connection: ") == Some(conn)
  {
    var lines := HeaderLines(code, server, date, length, mime, conn);
    assert lines == lines[0..];
    Cons(lines, 0);
    FieldHere(VERSION, code, lines[1..]);
    Cons(lines, 1);
    FieldElsewhere("Server: ", lines[0], 0, lines[1..]);
    FieldHere(SERVER, server, lines[2..]);
    Cons(lines, 2);
    FieldElsewhere("Date: ", lines[0], 0, lines[1..]);
    FieldElsewhere("Date: ", lines[1], 0, lines[2..]);
    FieldHere(DATE, date, lines[3..]);
    TypeIsRead(lines, mime);
    ConnectionIsRead(lines, conn);
  }

  /** The lines are those of a header, as far as their beginnings go. */
  predicate HeaderStarts(lines: seq<string>) {
    && |lines| == 7 && VERSION <= lines[0] && SERVER <= lines[1] && DATE <= lines[2] && LENGTH <= lines[3]
    && TYPE <= lines[4] && LANGUAGE <= lines[5] && CONNECTION <= lines[6]
  }

  lemma TypeIsRead(lines: seq<string>, mime: string)
    requires HeaderStarts(lines) && lines[4] == TYPE + mime
    ensures Field(lines, "Content-Type: ") == Some(mime)
  {
    assert lines == lines[0..];
    Cons(lines, 0);
    FieldElsewhere(TYPE, lines[0], 0, lines[1..]);
    Cons(lines, 1);
    FieldElsewhere(TYPE, lines[1], 0, lines[2..]);
    Cons(lines, 2);
    FieldElsewhere(TYPE, lines[2], 0, lines[3..]);
    Cons(lines, 3);
    assert lines[3][8] == LENGTH[8] == 'L' && TYPE[8] == 'T';
    FieldElsewhere(TYPE, lines[3], 8, lines[4..]);
    Cons(lines, 4);
    FieldHere(TYPE, mime, lines[5..]);
  }

  lemma ConnectionIsRead(lines: seq<string>, conn: string)
    requires HeaderStarts(lines) && lines[6] == CONNECTION + conn
    ensures Field(lines, "Connection: ") == Some(conn)
  {
    assert lines == lines[0..];
    Cons(lines, 0);
    FieldElsewhere(CONNECTION, lines[0], 0, lines[1..]);
    Cons(lines, 1);
    FieldElsewhere(CONNECTION, lines[1], 0, lines[2..]);
    Cons(lines, 2);
    FieldElsewhere(CONNECTION, lines[2], 0, lines[3..]);
    Cons(lines, 3);
    assert lines[3][3] == LENGTH[3] == 't' && CONNECTION[3] == 'n';
    FieldElsewhere(CONNECTION, lines[3], 3, lines[4..]);
    Cons(lines, 4);
    assert lines[4][3] == TYPE[3] == 't';
    FieldElsewhere(CONNECTION, lines[4], 3, lines[5..]);
    Cons(lines, 5);
    assert lines[5][3] == LANGUAGE[3] == 't';
    FieldElsewhere(CONNECTION, lines[5], 3, lines[6..]);
    Cons(lines, 6);
    FieldHere(CONNECTION, conn, lines[7..]);
  }

  // ----- The whole answer --------------------------------------------------

  /** In any answer the number after Content-Length is the length of what follows the header. */
  lemma ContentLengthIsBodyLength(code: string, server: string, date: string, mime: string, conn: string, body: string)
    requires '\n' !in code && '\n' !in server && '\n' !in date && '\n' !in mime && '\n' !in conn
    ensures var received := Received(Header(code, server, date, |body|, mime, conn) + body);
            received.1 == body && |received.0| == 7 && DeclaredLength(received.0) == Some(|received.1|)
  {
    DeclaresLength(code, server, date, |body|, mime, conn);
  }

  // What there is to send: a file that could be opened, or the text that
  // stands in the response instead of a file name.
  datatype Source = File(content: string) | Text(content: string)

  /** The buffer that is sent, for a source of either kind. */
  method Filled(header: string, source: Source) returns (answer: array<char>)
    ensures fresh(answer) && answer[..] == header + source.content
  {
    match source {
      case File(content) => answer := Assemble(header, content);
      case Text(content) =>
        answer := new char[|header| + |content|];
        forall i | 0 <= i < |header| {
          answer[i] := header[i];
        }
        forall i | 0 <= i < |content| {
          answer[|header| + i] := content[i];
        }
        assert answer[..|header|] == header && answer[|header|..] == content;
    }
  }

  /**
   * A client that reads the answer up to the blank line finds seven header
   * lines, the status first, and after them exactly the file or text, of the
   * length that Content-Length declares.
   */
  method Response(code: string, server: string, date: string, mime: string, conn: string, source: Source)
    returns (answer: array<char>)
    requires '\n' !in code && '\n' !in server && '\n' !in date && '\n' !in mime && '\n' !in conn
    ensures fresh(answer)
    ensures Received(answer[..]).1 == source.content
    ensures |Received(answer[..]).0| == 7 && Received(answer[..]).0[0] == "HTTP/1.1 " + code
    ensures Field(Received(answer[..]).0, "Content-Type: ") == Some(mime)
    ensures Field(Received(answer[..]).0, "Connection: ") == Some(conn)
    ensures Field(Received(answer[..]).0, "Server: ") == Some(server)
    ensures Field(Received(answer[..]).0, "Date: ") == Some(date)
    ensures DeclaredLength(Received(answer[..]).0) == Some(|Received(answer[..]).1|)
  {
    ContentLengthIsBodyLength(code, server, date, mime, conn, source.content);
    FieldsAreRead(code, server, date, |source.content|, mime, conn);
    var header := Header(code, server, date, |source.content|, mime, conn);
    answer := Filled(header, source);
  }
}
