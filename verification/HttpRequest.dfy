/** What the request parser computes, as functions on the bytes received:
    motion-jpeg/http-client.c without its buffers. */
module HttpRequest {
  import opened Text

  datatype Request = Request(verb: string, path: string, protocol: string, headers: seq<(string, string)>)

  /** Where a client is between two lines. `Complete` and `Rejected` are final. */
  datatype Phase = AwaitMethod | AwaitHeaders(request: Request) | Complete(request: Request) | Rejected {
    predicate Final() { Complete? || Rejected? }
  }

  const METHODS: seq<string> := ["GET", "PUT", "POST", "HEAD", "OPTIONS", "DELETE"]

  /** The canonical spelling the client stores for a request method. */
  function CanonicalMethod(token: string): (m: Option<string>)
    ensures m.Some? ==> m.value in METHODS && EqualsIgnoringCase(token, m.value)
    ensures m.None? ==> forall k :: 0 <= k < |METHODS| ==> !EqualsIgnoringCase(token, METHODS[k])
  {
    if EqualsIgnoringCase(token, "GET") then Some(METHODS[0])
    else if EqualsIgnoringCase(token, "PUT") then Some(METHODS[1])
    else if EqualsIgnoringCase(token, "POST") then Some(METHODS[2])
    else if EqualsIgnoringCase(token, "HEAD") then Some(METHODS[3])
    else if EqualsIgnoringCase(token, "OPTIONS") then Some(METHODS[4])
    else if EqualsIgnoringCase(token, "DELETE") then Some(METHODS[5])
    else None
  }

  predicate SupportedProtocol(token: string) {
    EqualsIgnoringCase(token, "HTTP/1.0") || EqualsIgnoringCase(token, "HTTP/1.1")
  }

  /** Letter by letter: what is stored as a method is spelled with its capitals or the small letters 32 above them. */
  lemma CanonicalExactly(token: string, k: nat)
    requires k < |METHODS|
    ensures METHODS == ["GET", "PUT", "POST", "HEAD", "OPTIONS", "DELETE"]
    ensures CanonicalMethod(token) == Some(METHODS[k]) <==>
      && |token| == |METHODS[k]|
      && forall i :: 0 <= i < |token| ==> token[i] == METHODS[k][i] || token[i] as int == METHODS[k][i] as int + 32
  {
    hide CanonicalMethod;
    Capitals(k);
    EqualsExactly(token, METHODS[k]);
    if EqualsIgnoringCase(token, METHODS[k]) && CanonicalMethod(token).Some? {
      OneSpelling(token, CanonicalMethod(token).value, METHODS[k]);
    }
  }

  lemma Capitals(k: nat)
    requires k < |METHODS|
    ensures forall i :: 0 <= i < |METHODS[k]| ==> 'A' <= METHODS[k][i] <= 'Z'
  {
    assert METHODS == ["GET", "PUT", "POST", "HEAD", "OPTIONS", "DELETE"];
  }

  lemma EqualsExactly(token: string, name: string)
    requires forall i :: 0 <= i < |name| ==> 'A' <= name[i] <= 'Z'
    ensures EqualsIgnoringCase(token, name) <==>
      && |token| == |name|
      && forall i :: 0 <= i < |token| ==> token[i] == name[i] || token[i] as int == name[i] as int + 32
  {
  }

  lemma OneSpelling(token: string, a: string, b: string)
    requires EqualsIgnoringCase(token, a) && EqualsIgnoringCase(token, b)
    requires a in METHODS && b in METHODS
    ensures a == b
  {
    var j :| 0 <= j < |METHODS| && METHODS[j] == a;
    var k :| 0 <= k < |METHODS| && METHODS[k] == b;
    Capitals(j);
    Capitals(k);
    forall i | 0 <= i < |a| ensures a[i] == b[i] {
      assert Lower(token[i]) == Lower(a[i]) == Lower(b[i]);
    }
  }

  lemma ProtocolExactly(token: string)
    ensures SupportedProtocol(token) <==>
      && |token| == 8 && (token[4..] == "/1.0" || token[4..] == "/1.1")
      && forall i :: 0 <= i < 4 ==> token[i] == "HTTP"[i] || token[i] as int == "HTTP"[i] as int + 32
  {
    SpelledProtocol(token, "HTTP/1.0", "/1.0");
    SpelledProtocol(token, "HTTP/1.1", "/1.1");
  }

  lemma SpelledProtocol(token: string, name: string, version: string)
    requires name == "HTTP" + version && |version| == 4
    requires forall i :: 0 <= i < 4 ==> !('A' <= version[i] <= 'Z') && !('a' <= version[i] <= 'z')
    ensures EqualsIgnoringCase(token, name) <==>
      && |token| == 8 && token[4..] == version
      && forall i :: 0 <= i < 4 ==> token[i] == "HTTP"[i] || token[i] as int == "HTTP"[i] as int + 32
  {
    assert |name| == 8 && name[..4] == "HTTP" && name[4..] == version;
    if |token| == 8 {
      EqualsExactly(token[..4], "HTTP");
      SameVersion(token[4..], version);
      assert forall i :: 0 <= i < 4 ==> token[i] == token[..4][i] && name[i] == "HTTP"[i];
      assert forall i :: 4 <= i < 8 ==> token[i] == token[4..][i - 4] && name[i] == version[i - 4];
    }
  }

  lemma SameVersion(token: string, version: string)
    requires forall i :: 0 <= i < |version| ==> !('A' <= version[i] <= 'Z') && !('a' <= version[i] <= 'z')
    ensures EqualsIgnoringCase(token, version) <==> token == version
  {
  }

  /** The line without the one carriage return that may end it. */
  function Chomp(line: string): string {
    if line != "" && line[|line| - 1] == CR then line[..|line| - 1] else line
  }

  function ParseMethodLine(line: string): (r: Option<Request>)
    ensures r.Some? ==> r.value.verb in METHODS && r.value.path != "" && r.value.path[0] == '/' && r.value.headers == []
    ensures r.Some? ==> SupportedProtocol(r.value.protocol)
  {
    var t1 := Token(line, {' '});
    if t1.None? then None else
    var t2 := Token(t1.value.1, {' '});
    if t2.None? then None else
    var t3 := Token(t2.value.1, {' '});
    if t3.None? then None else
    var m := CanonicalMethod(t1.value.0);
    if m.None? || t2.value.0[0] != '/' || !SupportedProtocol(t3.value.0) then None
    else Some(Request(m.value, t2.value.0, t3.value.0, []))
  }

  function ParseHeaderLine(line: string): Option<(string, string)> {
    var t1 := Token(line, {':', ' '});
    if t1.None? then None else
    var t2 := Token(t1.value.1, {CR, LF});
    if t2.None? then None else Some((t1.value.0, t2.value.0))
  }

  /** The effect of one line, its line feed already removed. */
  function StepLine(phase: Phase, line: string): Phase
    requires !phase.Final()
  {
    var text := Chomp(line);
    match phase
    case AwaitMethod =>
      var r := ParseMethodLine(text);
      if r.None? then Rejected else AwaitHeaders(r.value)
    case AwaitHeaders(request) =>
      if text == "" then Complete(request) else
      var kv := ParseHeaderLine(text);
      if kv.None? then Rejected
      else AwaitHeaders(request.(headers := request.headers + [kv.value]))
  }

  /** Length of the first line: strchr stops at a line feed or at a NUL, whichever comes first. */
  function LineLength(unread: string): (n: nat)
    ensures n <= |unread|
  {
    Span(unread, {LF, NUL})
  }

  predicate HasLine(unread: string) {
    LineLength(unread) < |unread| && unread[LineLength(unread)] == LF
  }

  /** The one-shot parser: consume whole lines while there are any and the request is open. */
  function Run(phase: Phase, unread: string): (Phase, string)
    decreases |unread|
  {
    if phase.Final() || !HasLine(unread) then (phase, unread)
    else
      var n := LineLength(unread);
      Run(StepLine(phase, unread[..n]), unread[n + 1..])
  }

  lemma RunStops(phase: Phase, unread: string)
    requires phase.Final() || !HasLine(unread)
    ensures Run(phase, unread) == (phase, unread)
  {
  }

  lemma RunSteps(phase: Phase, unread: string)
    requires !phase.Final() && HasLine(unread)
    ensures var n := LineLength(unread);
            Run(phase, unread) == Run(StepLine(phase, unread[..n]), unread[n + 1..])
  {
  }

  /** A waiting tail holds no complete line. */
  lemma RunLeavesNoLine(phase: Phase, unread: string)
    ensures var (p, t) := Run(phase, unread); !p.Final() ==> !HasLine(t)
    decreases |unread|
  {
    hide StepLine;
  }

  /** A client between read events. `Undefined`: the C code read outside its buffer. */
  datatype ClientState =
    | Waiting(phase: Phase, tail: string)
    | Dispatched(request: Request)
    | Refused
    | Undefined

  const FRESH: ClientState := Waiting(AwaitMethod, "")

  function Outcome(end: (Phase, string)): ClientState {
    match end.0
    case Complete(request) => Dispatched(request)
    case Rejected => Refused
    case _ => Waiting(end.0, end.1)
  }

  /** In the header phase the parser looks at the byte before each line feed; when a line feed is the
      very first byte of the buffer that byte lies outside the allocation. */
  predicate ReadsBeforeBuffer(phase: Phase, unread: string) {
    phase.AwaitHeaders? && unread != "" && unread[0] == LF
  }

  /** One read event delivering `chunk`. */
  function Feed(s: ClientState, chunk: string): ClientState {
    if !s.Waiting? then s
    else if ReadsBeforeBuffer(s.phase, s.tail + chunk) then Undefined
    else Outcome(Run(s.phase, s.tail + chunk))
  }

  lemma FeedFront(phase: Phase, tail: string, chunk: string)
    ensures Feed(Waiting(phase, ""), tail + chunk) == Feed(Waiting(phase, tail), chunk)
  {
    assert "" + (tail + chunk) == tail + chunk;
  }

  function FeedAll(s: ClientState, chunks: seq<string>): ClientState
    decreases |chunks|
  {
    if chunks == [] then s else FeedAll(Feed(s, chunks[0]), chunks[1..])
  }

  /** One readiness event: the non-empty results of read(2) until it would block, and whether it then reported
      end of file or an error instead. */
  datatype ReadEvent = ReadEvent(received: seq<string>, failed: bool)

  /** A connection between events. `touched`: a byte has been received, so its buffer exists. */
  datatype Connection = Connection(state: ClientState, open: bool, touched: bool)

  const ACCEPTED: Connection := Connection(FRESH, true, false)

  /** What writing the pending bytes comes to: write(2) fails, would block with bytes left, or all are written. */
  datatype WriteEvent = WriteFails | WriteBlocks | WriteDrains

  /** What epoll reports for a client: readable, writable or both; with neither it has hung up. */
  datatype Event = Event(read: Option<ReadEvent>, write: Option<WriteEvent>)

  /** The event loop keeps a client whose read did not return -1. */
  predicate KeepsOpen(s: ClientState, hasHandler: bool) {
    match s
    case Refused => false
    case Dispatched(request) => !hasHandler || request.verb == "GET"
    case _ => true
  }

  /** A client that is sent a stream of frames. */
  predicate Streams(s: ClientState, hasHandler: bool) {
    hasHandler && s.Dispatched? && s.request.verb == "GET"
  }

  /** The read half of an event. A client that has been served is removed by any further read; one without a byte
      on an untouched client makes the parser scan a null pointer. */
  function ServeRead(c: Connection, e: ReadEvent, hasHandler: bool): Connection {
    if e.failed || c.state.Dispatched? then c.(open := false)
    else if e.received == [] && !c.touched then c.(state := Undefined)
    else
      var s := Feed(c.state, Concat(e.received));
      Connection(s, KeepsOpen(s, hasHandler), true)
  }

  /** The write half. With nothing left to write, only a client that is sent a stream is kept. */
  function ServeWrite(c: Connection, w: WriteEvent, hasHandler: bool): Connection {
    if w.WriteFails? || (w.WriteDrains? && !Streams(c.state, hasHandler)) then c.(open := false) else c
  }

  /** One event on a connection. */
  function Serve(c: Connection, e: Event, hasHandler: bool): Connection {
    if !c.open || c.state.Undefined? then c
    else if e.read.None? && e.write.None? then c.(open := false)
    else
      var d := if e.read.None? then c else ServeRead(c, e.read.value, hasHandler);
      if !d.open || d.state.Undefined? || e.write.None? then d else ServeWrite(d, e.write.value, hasHandler)
  }

  function ServeAll(c: Connection, events: seq<Event>, hasHandler: bool): Connection
    decreases |events|
  {
    if events == [] then c else ServeAll(Serve(c, events[0], hasHandler), events[1..], hasHandler)
  }
}
