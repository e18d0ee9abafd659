/** One HTTP connection: motion-jpeg/http-client.c over its receive buffer, with line ends and token
    ends overwritten in place and the unread tail moved to the front after each read event. */
module HttpClient {
  import opened Text
  import opened HttpRequest
  import HttpBuffer
  import Multipart
  import Decimal

  datatype Stage = StageNone | StageMethodParsed | StageRequestBody | StageFinished | StageSendResponse | StageFinal

  /** Result of a parsing helper: where the next line starts, a rejected line, or a read of the byte
      before the allocation. */
  datatype LineResult = NextLine(pos: nat) | BadLine | OutOfBounds

  /** The bytes from `from` up to `upto` were consumed as whole lines, each ended in place; nothing
      else changed, and no line feed is left among them. */
  ghost predicate LineTaken(before: string, after: string, from: nat, upto: nat) {
    && |before| == |after| && from <= upto <= |after|
    && (forall i :: 0 <= i < from || upto <= i < |after| ==> after[i] == before[i])
    && (forall i :: from <= i < upto ==> after[i] != LF)
  }

  /** Bytes behind the consumed lines keep their values, read as one slice. */
  lemma RestUntouched(before: string, after: string, from: nat, upto: nat, end: nat)
    requires LineTaken(before, after, from, upto) && upto <= end <= |after|
    ensures after[upto..end] == before[upto..end]
  {
  }

  /** A line, its line feed and the rest make up the unread bytes. */
  lemma CutAtLineFeed(memory: string, from: nat, p: nat, end: nat)
    requires from <= p < end <= |memory|
    ensures memory[from..end][..p - from] == memory[from..p]
    ensures memory[from..end][p - from + 1..] == memory[p + 1..end]
  {
  }

  /** If a NUL lies among the unread bytes it lies behind the first line. */
  lemma NulIsBehindLine(before: string, after: string, from: nat, p: nat, end: nat)
    requires from <= p < end && LineTaken(before, after, from, p + 1) && end <= |after|
    requires NUL in before[from..end] && forall i :: from <= i <= p ==> before[i] != NUL
    ensures NUL in after[p + 1..end]
  {
    var k :| 0 <= k < end - from && before[from..end][k] == NUL;
    var at := from + k;
    assert before[at] == NUL && at > p;
    assert after[at] == NUL;
    assert after[p + 1..end][at - p - 1] == after[at];
  }

  lemma NoLineNoFeed(unread: string)
    requires !HasLine(unread) && NUL !in unread
    ensures LF !in unread
  {
    assert forall i :: 0 <= i < |unread| ==> unread[i] in unread;
  }

  /** The parser looks at the byte before the line feed that ends the first line. */
  lemma LooksBefore(phase: Phase, unread: string)
    requires phase.AwaitHeaders?
    ensures ReadsBeforeBuffer(phase, unread) <==> LineLength(unread) == 0 && HasLine(unread)
  {
  }

  lemma NothingUnread()
    ensures !HasLine("")
  {
  }

  lemma LineTakenNone(memory: string, at: nat)
    requires at <= |memory|
    ensures LineTaken(memory, memory, at, at)
  {
  }

  lemma LineTakenTwice(a: string, b: string, c: string, from: nat, mid: nat, upto: nat)
    requires LineTaken(a, b, from, mid) && LineTaken(b, c, mid, upto)
    ensures LineTaken(a, c, from, upto)
  {
  }

  lemma SliceOfSlice(memory: string, start: nat, end: nat, from: nat, to: nat)
    requires start <= from <= to <= end <= |memory|
    ensures memory[start..end][from - start..to - start] == memory[from..to]
  {
    var s, t := memory[start..end][from - start..to - start], memory[from..to];
    forall k | 0 <= k < to - from ensures s[k] == t[k] {
      assert s[k] == memory[start..end][from - start + k] == memory[from + k];
    }
  }

  lemma ScannedPrefix(memory: string, start: nat, end: nat, b: nat, e: nat, delims: set<char>)
    requires start <= b <= e <= end <= |memory|
    requires forall k :: start <= k < b ==> memory[k] in delims
    requires forall k :: b <= k < e ==> memory[k] !in delims
    requires e < end ==> memory[e] in delims
    ensures var s := memory[start..end];
      && (forall k :: 0 <= k < b - start ==> s[k] in delims)
      && (forall k :: b - start <= k < e - start ==> s[k] !in delims)
      && (e < end ==> s[e - start] in delims)
  {
  }

  /** What the two scans of strtok_r found, read off the memory they scanned. */
  lemma ScannedToken(memory: string, start: nat, end: nat, b: nat, e: nat, delims: set<char>)
    requires start <= b <= e <= end <= |memory| && (b == e ==> b == end)
    requires forall k :: start <= k < b ==> memory[k] in delims
    requires forall k :: b <= k < e ==> memory[k] !in delims
    requires e < end ==> memory[e] in delims
    ensures Token(memory[start..end], delims) ==
      if b == e then None else Some((memory[b..e], if e == end then "" else memory[e + 1..end]))
  {
    hide Token, Skip, Span;
    var s := memory[start..end];
    ScannedPrefix(memory, start, end, b, e, delims);
    if b == e {
      NoTokenFound(s, delims);
    } else {
      TokenFound(s, delims, b - start, e - start);
      SliceOfSlice(memory, start, end, b, e);
      if e < end {
        SliceOfSlice(memory, start, end, e + 1, end);
        assert s[e - start + 1..] == s[e + 1 - start..end - start];
      }
    }
  }

  /** Writing one byte before a slice leaves the slice alone. */
  lemma WriteBefore(before: string, after: string, at: nat, from: nat, end: nat)
    requires at < from <= end <= |before| && after == before[at := NUL]
    ensures after[from..end] == before[from..end]
  {
  }

  /** Whether the response is a stream, what was pushed into the output buffer, and what was written past it. */
  datatype Reply = Reply(multipart: bool, pushed: string, sent: string)

  const NO_REPLY: Reply := Reply(false, "", "")

  /** HTTP_RESPONSE_DEFAULT */
  const HELLO: string := "HTTP/1.1 " + "200" + " OK" + Multipart.CRLF
    + (Multipart.WriteFields([("Connection", "Close")]) + Multipart.CRLF + "Hello World\n")

  const NOT_ALLOWED: string := "HTTP/1.1 " + "405" + " Method Not Allowed" + Multipart.CRLF
    + (Multipart.WriteFields([]) + Multipart.CRLF + "")

  /** What a request is answered with before any frame is sent. */
  function Answer(r: Request, hasHandler: bool): Reply {
    if !hasHandler then Reply(false, HELLO, "")
    else if r.verb == "GET" then Reply(true, Multipart.RESPONSE_HEADER, "")
    else Reply(false, "", NOT_ALLOWED)
  }

  /** What a client is told: a stream of frames for GET, status 405 and nothing else for other methods, and status
      200 with a text where there is no callback. */
  lemma AnswerMeans(r: Request, hasHandler: bool)
    ensures var a := Answer(r, hasHandler);
      if !hasHandler then
        && !a.multipart && a.sent == ""
        && Multipart.ReadAnswer(a.pushed) == Some((200, [("Connection", "Close")], "Hello World\n"))
      else if r.verb == "GET" then a.multipart && a.sent == "" && Multipart.Heads(a.pushed)
      else !a.multipart && a.pushed == "" && Multipart.ReadAnswer(a.sent) == Some((405, [], ""))
  {
    hide Multipart.ReadAnswer, Multipart.Heads, Multipart.WriteFields;
    Multipart.ResponseHeads();
    HelloReads();
    NotAllowedReads();
  }

  lemma HelloReads()
    ensures Multipart.ReadAnswer(HELLO) == Some((200, [("Connection", "Close")], "Hello World\n"))
  {
    hide Multipart.ReadAnswer, Multipart.WriteFields;
    assert Multipart.PlainFields([("Connection", "Close")]);
    Codes();
    Multipart.AnswerReads("200", " OK", [("Connection", "Close")], "Hello World\n");
  }

  lemma NotAllowedReads()
    ensures Multipart.ReadAnswer(NOT_ALLOWED) == Some((405, [], ""))
  {
    hide Multipart.ReadAnswer, Multipart.WriteFields;
    Codes();
    Multipart.AnswerReads("405", " Method Not Allowed", [], "");
  }

  lemma Codes()
    ensures Decimal.ParseNat("200") == Some(200) && Decimal.ParseNat("405") == Some(405)
  {
    ThreeDigits("200");
    ThreeDigits("405");
  }

  lemma ThreeDigits(s: string)
    requires |s| == 3 && Decimal.AllDigits(s)
    ensures Decimal.ParseNat(s) == Some((s[0] as int - 48) * 100 + (s[1] as int - 48) * 10 + (s[2] as int - 48))
  {
    assert s[..2][..1] == s[..1] && s[..1][..0] == "";
    assert Decimal.Value(s[..1]) == s[0] as int - 48;
    assert Decimal.Value(s[..2]) == Decimal.Value(s[..1]) * 10 + (s[1] as int - 48);
  }

  function Replied(a: Reply, b: Reply): (r: Reply)
    ensures a == NO_REPLY ==> r == b
  {
    assert "" + b.pushed == b.pushed && "" + b.sent == b.sent;
    Reply(a.multipart || b.multipart, a.pushed + b.pushed, a.sent + b.sent)
  }

  class Client {
    var open: bool
    var stage: Stage
    var verb: string
    var path: string
    var protocol: string
    var headers: seq<(string, string)>
    var dispatched: seq<Request> // requests handed to on_http_request or answered by default
    var reply: Reply
    const hasHandler: bool       // an on_http_request callback is installed
    const inBuf: HttpBuffer.Buffer

    ghost predicate Valid()
      reads this, inBuf, inBuf.data
    {
      inBuf.Valid() && inBuf.startPos == 0
    }

    /** The bytes received and not yet consumed. */
    ghost function Unread(): string
      requires Valid()
      reads this, inBuf, inBuf.data
    {
      inBuf.Contents()
    }

    function CurrentRequest(): Request
      reads this
    {
      Request(verb, path, protocol, headers)
    }

    function CurrentPhase(): Phase
      reads this
    {
      match stage
      case StageNone => AwaitMethod
      case StageMethodParsed => AwaitHeaders(CurrentRequest())
      case _ => Complete(CurrentRequest())
    }

    /** A client between read events whose request is still incomplete. */
    ghost predicate Ready()
      reads this, inBuf, inBuf.data
    {
      && Valid() && open && (stage == StageNone || stage == StageMethodParsed)
      && !HasLine(Unread()) && inBuf.ScanSafe(0) && (stage == StageNone ==> headers == []) && reply == NO_REPLY
    }

    /** A client whose request has been handed over. */
    ghost predicate Served()
      reads this, inBuf, inBuf.data
    {
      Valid() && open && (stage == StageSendResponse || stage == StageFinal)
    }

    ghost function State(): ClientState
      requires Valid()
      reads this, inBuf, inBuf.data
    {
      Waiting(CurrentPhase(), Unread())
    }

    constructor (hasHandler: bool)
      ensures Ready() && State() == FRESH && dispatched == [] && this.hasHandler == hasHandler && reply == NO_REPLY
      ensures fresh(inBuf) && fresh(inBuf.data) && inBuf.maxSize == 0
    {
      open, stage := true, StageNone;
      verb, path, protocol, headers, dispatched := "", "", "", [], [];
      this.hasHandler, reply := hasHandler, NO_REPLY;
      var buffer := new HttpBuffer.Buffer();
      inBuf := buffer;
    }

    /** strchr(data + from, LF). Every byte it looks at lies inside the allocation. */
    method FindNewline(from: nat) returns (p: int)
      requires Valid() && inBuf.maxSize > 0 && inBuf.ScanSafe(from)
      ensures p >= 0 <==> HasLine(inBuf.data[from..inBuf.length])
      ensures p >= 0 ==> p == from + LineLength(inBuf.data[from..inBuf.length]) && p < inBuf.length
      ensures p >= 0 ==> inBuf.data[p] == LF && forall i :: from <= i < p ==> inBuf.data[i] !in {LF, NUL}
    {
      var data := inBuf.data;
      ghost var unread := data[from..inBuf.length];
      var i := from;
      while data[i] != NUL
        invariant from <= i < inBuf.maxSize
        invariant forall k :: from <= k < i ==> data[k] !in {NUL, LF}
        decreases inBuf.maxSize - i
      {
        if data[i] == LF {
          assert i < inBuf.length by {
            if NUL in unread {
              var k :| 0 <= k < |unread| && unread[k] == NUL;
              assert data[from + k] == NUL;
            }
          }
          SpanUnique(unread, {LF, NUL}, i - from);
          return i;
        }
        i := i + 1;
      }
      SpanUnique(unread, {LF, NUL}, if i < inBuf.length then i - from else |unread|);
      return -1;
    }

    /** The two scans of strtok_r: over leading delimiters to `b`, then over the token to `e`. */
    method ScanToken(start: nat, end: nat, delims: set<char>) returns (b: nat, e: nat)
      requires Valid() && start <= end < inBuf.maxSize && inBuf.data[end] == NUL
      requires forall k :: start <= k < end ==> inBuf.data[k] != NUL
      requires NUL !in delims
      ensures start <= b <= e <= end && (b == e ==> b == end)
      ensures forall k :: start <= k < b ==> inBuf.data[k] in delims
      ensures forall k :: b <= k < e ==> inBuf.data[k] !in delims
      ensures e < end ==> inBuf.data[e] in delims
    {
      var data := inBuf.data;
      b := start;
      while data[b] in delims
        invariant start <= b <= end
        invariant forall k :: start <= k < b ==> data[k] in delims
        decreases end - b
      {
        b := b + 1;
      }
      e := b;
      while data[e] != NUL && data[e] !in delims
        invariant b <= e <= end
        invariant forall k :: b <= k < e ==> data[k] !in delims
        decreases end - e
      {
        e := e + 1;
      }
    }

    /** strtok_r on the terminated string in data[start..end]: overwrites the byte after the token. */
    method StrTok(start: nat, end: nat, delims: set<char>) returns (token: Option<string>, next: nat)
      requires Valid() && start <= end < inBuf.maxSize && inBuf.data[end] == NUL
      requires forall k :: start <= k < end ==> inBuf.data[k] != NUL
      requires NUL !in delims
      modifies inBuf.data
      ensures Valid() && start <= next <= end
      ensures forall i :: 0 <= i < inBuf.maxSize ==>
        inBuf.data[i] == old(inBuf.data[i]) || (start <= i < next && inBuf.data[i] == NUL)
      ensures match Token(old(inBuf.data[start..end]), delims)
              case None => token.None?
              case Some(t) => token == Some(t.0) && inBuf.data[next..end] == t.1
    {
      hide Token;
      var b, e := ScanToken(start, end, delims);
      ghost var memory := inBuf.data[..];
      ScannedToken(memory, start, end, b, e, delims);
      if b == e {
        return None, end;
      }
      token := Some(inBuf.data[b..e]);
      if e == end {
        return token, end;
      }
      next := e + 1;
      inBuf.data[e] := NUL;
      WriteBefore(memory, inBuf.data[..], e, next, end);
    }

    /** Ends the line at `p` in place: NUL over the line feed and over a carriage return before it. */
    method EndLine(start: nat, p: nat) returns (end: nat)
      requires Valid() && start <= p < inBuf.length && inBuf.data[p] == LF
      requires forall i :: start <= i < p ==> inBuf.data[i] !in {LF, NUL}
      modifies inBuf.data
      ensures Valid() && start <= end <= p && inBuf.data[end] == NUL && inBuf.data[p] == NUL
      ensures inBuf.data[start..end] == Chomp(old(inBuf.data[start..p]))
      ensures forall k :: start <= k < end ==> inBuf.data[k] != NUL
      ensures forall i :: 0 <= i < inBuf.maxSize ==>
        inBuf.data[i] == old(inBuf.data[i]) || (start <= i <= p && inBuf.data[i] == NUL)
    {
      var data := inBuf.data;
      end := p;
      if p > start && data[p - 1] == CR {
        data[p - 1] := NUL;
        end := p - 1;
      }
      data[p] := NUL;
      assert data[start..end] == old(data[start..end]);
    }

    /** The tokens of a request line that has been ended in place. */
    method SplitMethodLine(start: nat, end: nat) returns (r: Option<Request>)
      requires Valid() && start <= end < inBuf.maxSize && inBuf.data[end] == NUL
      requires forall k :: start <= k < end ==> inBuf.data[k] != NUL
      modifies inBuf.data
      ensures Valid() && r == ParseMethodLine(old(inBuf.data[start..end]))
      ensures forall i :: 0 <= i < inBuf.maxSize ==>
        inBuf.data[i] == old(inBuf.data[i]) || (start <= i < end && inBuf.data[i] == NUL)
    {
      hide Token, CanonicalMethod, SupportedProtocol;
      var name, next := StrTok(start, end, {' '});
      if name.None? {
        return None;
      }
      var target;
      target, next := StrTok(next, end, {' '});
      if target.None? {
        return None;
      }
      var version;
      version, next := StrTok(next, end, {' '});
      if version.None? {
        return None;
      }
      var canonical := CanonicalMethod(name.value);
      if canonical.None? || target.value[0] != '/' || !SupportedProtocol(version.value) {
        return None;
      }
      return Some(Request(canonical.value, target.value, version.value, []));
    }

    /** The key and value of a header line that has been ended in place. */
    method SplitHeaderLine(start: nat, end: nat) returns (r: Option<(string, string)>)
      requires Valid() && start <= end < inBuf.maxSize && inBuf.data[end] == NUL
      requires forall k :: start <= k < end ==> inBuf.data[k] != NUL
      modifies inBuf.data
      ensures Valid() && r == ParseHeaderLine(old(inBuf.data[start..end]))
      ensures forall i :: 0 <= i < inBuf.maxSize ==>
        inBuf.data[i] == old(inBuf.data[i]) || (start <= i < end && inBuf.data[i] == NUL)
    {
      hide Token;
      var key, next := StrTok(start, end, {':', ' '});
      if key.None? {
        return None;
      }
      var value;
      value, next := StrTok(next, end, {CR, LF});
      if value.None? {
        return None;
      }
      return Some((key.value, value.value));
    }

    /** The buffer after a line has been taken: the rest unread is untouched and safe to scan. */
    lemma AfterLine(memory: string, line: nat, p: nat)
      requires Valid() && line <= p < inBuf.length && LineTaken(memory, inBuf.data[..], line, p + 1)
      requires forall i :: line <= i <= p ==> memory[i] != NUL
      requires NUL in memory[line..inBuf.length] || forall i :: inBuf.length <= i < inBuf.maxSize ==> memory[i] != LF
      ensures inBuf.data[p + 1..inBuf.length] == memory[p + 1..inBuf.length]
      ensures inBuf.ScanSafe(p + 1)
    {
      RestUntouched(memory, inBuf.data[..], line, p + 1, inBuf.length);
      if NUL in memory[line..inBuf.length] {
        NulIsBehindLine(memory, inBuf.data[..], line, p, inBuf.length);
      }
    }

    /** The complete request line at the front of the buffer, ending at `p`. */
    method TakeMethodLine(p: nat) returns (ok: bool)
      requires Valid() && stage == StageNone && headers == [] && p < inBuf.length
      requires inBuf.data[p] == LF && forall i :: 0 <= i < p ==> inBuf.data[i] !in {LF, NUL}
      modifies this`stage, this`verb, this`path, this`protocol, inBuf.data
      ensures Valid() && LineTaken(old(inBuf.data[..]), inBuf.data[..], 0, p + 1)
      ensures var phase := StepLine(AwaitMethod, old(inBuf.data[0..p]));
              if ok then stage == StageMethodParsed && CurrentPhase() == phase && !phase.Rejected?
              else phase == Rejected
    {
      hide ParseMethodLine, ParseHeaderLine, Chomp;
      var end := EndLine(0, p);
      var request := SplitMethodLine(0, end);
      if request.None? {
        return false;
      }
      verb, path, protocol := request.value.verb, request.value.path, request.value.protocol;
      stage := StageMethodParsed;
      return true;
    }

    /** parse_http_method: the request line, or position 0 when it is still incomplete. */
    method ParseMethod() returns (r: LineResult)
      requires Valid() && inBuf.maxSize > 0 && inBuf.ScanSafe(0) && stage == StageNone && headers == []
      modifies this`stage, this`verb, this`path, this`protocol, inBuf.data
      ensures Valid()
      ensures var u := old(inBuf.data[0..inBuf.length]);
              var n := LineLength(u);
              if !HasLine(u) then r == NextLine(0) && stage == StageNone && inBuf.data[..] == old(inBuf.data[..])
              else
                var phase := StepLine(AwaitMethod, u[..n]);
                if phase.Rejected? then r == BadLine
                else
                  && r == NextLine(n + 1) && stage == StageMethodParsed && CurrentPhase() == phase
                  && inBuf.data[n + 1..inBuf.length] == u[n + 1..]
                  && LineTaken(old(inBuf.data[..]), inBuf.data[..], 0, n + 1)
      ensures r.NextLine? ==> r.pos <= inBuf.length && inBuf.ScanSafe(r.pos)
    {
      hide StepLine;
      ghost var unread := inBuf.data[0..inBuf.length];
      var p := FindNewline(0);
      if p < 0 {
        return NextLine(0);
      }
      ghost var memory := inBuf.data[..];
      CutAtLineFeed(memory, 0, p, inBuf.length);
      var ok := TakeMethodLine(p);
      if !ok {
        return BadLine;
      }
      AfterLine(memory, 0, p);
      return NextLine(p + 1);
    }

    /** One complete header line at `line`, ending at `p`. */
    method TakeHeaderLine(line: nat, p: nat) returns (ok: bool)
      requires Valid() && stage == StageMethodParsed && line <= p < inBuf.length
      requires inBuf.data[p] == LF && forall i :: line <= i < p ==> inBuf.data[i] !in {LF, NUL}
      modifies this`stage, this`headers, inBuf.data
      ensures Valid() && LineTaken(old(inBuf.data[..]), inBuf.data[..], line, p + 1)
      ensures ok ==> stage == StageMethodParsed || stage == StageRequestBody
      ensures var phase := StepLine(old(CurrentPhase()), old(inBuf.data[line..p]));
              if ok then CurrentPhase() == phase && !phase.Rejected? else phase == Rejected
    {
      hide ParseMethodLine, ParseHeaderLine, Chomp;
      var end := EndLine(line, p);
      if inBuf.data[line] == NUL {
        assert inBuf.data[line..end] == "";
        stage := StageRequestBody;
        return true;
      }
      assert inBuf.data[line..end] != "";
      var kv := SplitHeaderLine(line, end);
      if kv.None? {
        return false;
      }
      headers := headers + [kv.value];
      return true;
    }

    /** One turn of the header loop at `line`: nothing when no line is complete yet. */
    method NextHeaderLine(line: nat) returns (r: LineResult)
      requires Valid() && inBuf.maxSize > 0 && line < inBuf.length && inBuf.ScanSafe(line) && stage == StageMethodParsed
      modifies this`stage, this`headers, inBuf.data
      ensures Valid()
      ensures var u := old(inBuf.data[line..inBuf.length]);
              var n := LineLength(u);
              if !HasLine(u) then
                r == NextLine(line) && CurrentPhase() == old(CurrentPhase()) && inBuf.data[..] == old(inBuf.data[..])
              else if line == 0 && n == 0 then r == OutOfBounds
              else
                var phase := StepLine(old(CurrentPhase()), u[..n]);
                if phase.Rejected? then r == BadLine
                else
                  && r == NextLine(line + n + 1) && CurrentPhase() == phase
                  && inBuf.data[r.pos..inBuf.length] == u[n + 1..]
                  && LineTaken(old(inBuf.data[..]), inBuf.data[..], line, r.pos)
      ensures r.NextLine? ==> line <= r.pos <= inBuf.length && inBuf.ScanSafe(r.pos)
      ensures r.NextLine? ==> stage == StageMethodParsed || stage == StageRequestBody
    {
      hide StepLine, LineTaken, Token, Span;
      ghost var unread := inBuf.data[line..inBuf.length];
      var p := FindNewline(line);
      if p < 0 {
        return NextLine(line);
      }
      if p == 0 {
        return OutOfBounds;
      }
      ghost var memory := inBuf.data[..];
      CutAtLineFeed(memory, line, p, inBuf.length);
      var ok := TakeHeaderLine(line, p);
      if !ok {
        return BadLine;
      }
      AfterLine(memory, line, p);
      return NextLine(p + 1);
    }

    /** parse_http_request_headers from `start`: every complete line up to the blank one. */
    method ParseHeaders(start: nat) returns (r: LineResult)
      requires Valid() && inBuf.maxSize > 0 && start <= inBuf.length && inBuf.ScanSafe(start)
      requires stage == StageMethodParsed
      modifies this`stage, this`headers, inBuf.data
      ensures Valid()
      ensures var u := old(inBuf.data[start..inBuf.length]);
              if start == 0 && ReadsBeforeBuffer(old(CurrentPhase()), u) then r == OutOfBounds
              else
                var (phase, tail) := Run(old(CurrentPhase()), u);
                if phase.Rejected? then r == BadLine
                else
                  && r.NextLine? && CurrentPhase() == phase && start <= r.pos <= inBuf.length
                  && (stage == StageMethodParsed || stage == StageRequestBody)
                  && inBuf.data[r.pos..inBuf.length] == tail && inBuf.ScanSafe(r.pos)
                  && LineTaken(old(inBuf.data[..]), inBuf.data[..], start, r.pos)
    {
      hide Run, StepLine, LineTaken, HttpBuffer.Buffer.ScanSafe, ReadsBeforeBuffer, Span, LineLength;
      ghost var phase0, unread0 := CurrentPhase(), inBuf.data[start..inBuf.length];
      LooksBefore(phase0, unread0);
      LineTakenNone(inBuf.data[..], start);
      var line := start;
      while line < inBuf.length
        invariant Valid() && start <= line <= inBuf.length && inBuf.ScanSafe(line) && stage == StageMethodParsed
        invariant LineTaken(old(inBuf.data[..]), inBuf.data[..], start, line)
        invariant line == start ==> CurrentPhase() == phase0 && inBuf.data[line..inBuf.length] == unread0
        invariant start == 0 && ReadsBeforeBuffer(phase0, unread0) ==> line == start
        invariant Run(phase0, unread0) == Run(CurrentPhase(), inBuf.data[line..inBuf.length])
        decreases inBuf.length - line
      {
        ghost var phase, unread, memory := CurrentPhase(), inBuf.data[line..inBuf.length], inBuf.data[..];
        r := NextHeaderLine(line);
        if r == NextLine(line) {
          RunStops(phase, unread);
          return;
        }
        RunSteps(phase, unread);
        if !r.NextLine? {
          RunStops(Rejected, unread[LineLength(unread) + 1..]);
          return;
        }
        LineTakenTwice(old(inBuf.data[..]), memory, inBuf.data[..], start, line, r.pos);
        line := r.pos;
        if stage == StageRequestBody {
          RunStops(CurrentPhase(), inBuf.data[line..inBuf.length]);
          return;
        }
      }
      NothingUnread();
      assert inBuf.data[line..inBuf.length] == "";
      RunStops(CurrentPhase(), "");
      return NextLine(line);
    }

    /** The unread tail moves to the front of the buffer and is terminated there. Stale copies of
        consumed bytes stay behind it, but no line feed does. */
    method Compact(line: nat)
      requires Valid() && inBuf.maxSize > 0 && line <= inBuf.length && inBuf.ScanSafe(line)
      requires forall i :: 0 <= i < line ==> inBuf.data[i] != LF
      modifies inBuf`length, inBuf.data
      ensures Valid() && Unread() == old(inBuf.data[line..inBuf.length])
      ensures !HasLine(Unread()) ==> inBuf.ScanSafe(0)
    {
      ghost var memory, tail := inBuf.data[..], inBuf.data[line..inBuf.length];
      inBuf.MoveToFront(line);
      HttpBuffer.MovedTail(memory, inBuf.data[..], line, old(inBuf.length));
      if !HasLine(tail) && NUL !in tail {
        NoLineNoFeed(tail);
        HttpBuffer.MovedStaysQuiet(memory, inBuf.data[..], line, old(inBuf.length));
      }
    }

    /** The on_http_request callback: only GET requests are served, others close the connection. */
    method OnHttpRequest() returns (rc: int)
      modifies this`stage, this`dispatched, this`reply
      ensures dispatched == old(dispatched) + [CurrentRequest()]
      ensures reply == Replied(old(reply), Answer(CurrentRequest(), true))
      ensures rc == if verb == "GET" then 0 else -1
      ensures stage == if verb == "GET" then StageSendResponse else StageFinal
    {
      dispatched := dispatched + [CurrentRequest()];
      if verb != "GET" {
        stage := StageFinal;
        reply := reply.(sent := reply.sent + NOT_ALLOWED);
        assert reply.pushed + "" == reply.pushed;
        return -1;
      }
      stage := StageSendResponse;
      reply := reply.(multipart := true, pushed := reply.pushed + Multipart.RESPONSE_HEADER);
      assert reply.sent + "" == reply.sent;
      return 0;
    }

    /** What one parse of the buffer does to the connection, in terms of the one-shot parser. */
    twostate predicate Advanced(s: ClientState, rc: int, fault: bool)
      requires old(Valid()) && Valid()
      reads this, inBuf, inBuf.data
    {
      && (fault <==> s.Undefined?)
      && (s.Refused? ==> rc == -1 && dispatched == old(dispatched) && reply == old(reply))
      && (s.Waiting? ==>
        && rc == 1 && dispatched == old(dispatched) && reply == old(reply)
        && (old(open) && reply == NO_REPLY ==> Ready()) && State() == s)
      && (s.Dispatched? ==>
        && dispatched == old(dispatched) + [s.request] && reply == Replied(old(reply), Answer(s.request, hasHandler))
        && stage == (if Streams(s, hasHandler) then StageSendResponse else StageFinal)
        && rc == if !hasHandler then 1 else if s.request.verb == "GET" then 0 else -1)
    }

    /** The line-consuming half of http_client_parse_request. */
    method ReadLines() returns (r: LineResult)
      requires Valid() && inBuf.maxSize > 0 && inBuf.ScanSafe(0)
      requires stage == StageMethodParsed || (stage == StageNone && headers == [])
      modifies this`stage, this`verb, this`path, this`protocol, this`headers, inBuf.data
      ensures Valid()
      ensures var u := old(inBuf.data[0..inBuf.length]);
              if ReadsBeforeBuffer(old(CurrentPhase()), u) then r == OutOfBounds
              else
                var (phase, tail) := Run(old(CurrentPhase()), u);
                if phase.Rejected? then r == BadLine
                else
                  && r.NextLine? && r.pos <= inBuf.length && inBuf.ScanSafe(r.pos)
                  && CurrentPhase() == phase && inBuf.data[r.pos..inBuf.length] == tail
                  && LineTaken(old(inBuf.data[..]), inBuf.data[..], 0, r.pos)
                  && (stage == StageMethodParsed || stage == StageRequestBody || (stage == StageNone && headers == []))
    {
      hide Run, StepLine, HttpBuffer.Buffer.ScanSafe;
      ghost var phase0, unread0 := CurrentPhase(), inBuf.data[0..inBuf.length];
      if stage == StageMethodParsed {
        r := ParseHeaders(0);
        return;
      }
      r := ParseMethod();
      if r == NextLine(0) {
        RunStops(phase0, unread0);
        return;
      }
      RunSteps(phase0, unread0);
      if r == BadLine {
        RunStops(Rejected, unread0[LineLength(unread0) + 1..]);
        return;
      }
      r := ParseHeaders(r.pos);
    }

    /** The request-dispatching half of http_client_parse_request, and its final compaction. */
    method Conclude(line: nat) returns (rc: int)
      requires Valid() && inBuf.maxSize > 0 && line <= inBuf.length && inBuf.ScanSafe(line)
      requires forall i :: 0 <= i < line ==> inBuf.data[i] != LF
      requires stage == StageMethodParsed || stage == StageRequestBody || (stage == StageNone && headers == [])
      requires stage == StageRequestBody || !HasLine(inBuf.data[line..inBuf.length])
      modifies this`stage, this`dispatched, this`reply, inBuf`length, inBuf.data
      ensures Valid()
      ensures Advanced(Outcome((old(CurrentPhase()), old(inBuf.data[line..inBuf.length]))), rc, false)
    {
      hide HttpBuffer.Buffer.ScanSafe;
      if stage == StageRequestBody {
        stage := StageFinished;
        if hasHandler {
          rc := OnHttpRequest();
          return;
        }
        dispatched := dispatched + [CurrentRequest()];
        reply := reply.(pushed := reply.pushed + HELLO);
        assert reply.sent + "" == reply.sent;
        stage := StageFinal;
      }
      Compact(line);
      rc := 1;
    }

    /** http_client_parse_request. */
    method ParseRequest() returns (rc: int, fault: bool)
      requires Valid() && inBuf.maxSize > 0 && inBuf.ScanSafe(0)
      requires stage == StageMethodParsed || (stage == StageNone && headers == [])
      modifies this`stage, this`verb, this`path, this`protocol, this`headers, this`dispatched, this`reply
      modifies inBuf`length, inBuf.data
      ensures Valid()
      ensures Advanced(Feed(old(Waiting(CurrentPhase(), "")), old(Unread())), rc, fault)
    {
      hide Run, StepLine, HasLine, Concat, HttpBuffer.Buffer.ScanSafe, Replied, Answer;
      ghost var unread0 := Unread();
      assert "" + unread0 == unread0 == inBuf.data[0..inBuf.length];
      RunLeavesNoLine(CurrentPhase(), unread0);
      var h := ReadLines();
      match h
      case OutOfBounds =>
        return -1, true;
      case BadLine =>
        return -1, false;
      case NextLine(line) =>
        rc := Conclude(line);
        fault := false;
    }

    /** One successful read(2) appended to the buffer. */
    method PushKeepsScanSafe(bytes: string)
      requires Valid() && bytes != ""
      modifies inBuf, inBuf.data
      ensures Valid() && (inBuf.data == old(inBuf.data) || fresh(inBuf.data))
      ensures inBuf.maxSize > 0 && inBuf.maxSize >= old(inBuf.maxSize)
      ensures Unread() == old(Unread()) + bytes
      ensures old(inBuf.ScanSafe(0)) ==> inBuf.ScanSafe(0)
    {
      ghost var memory := inBuf.data[..];
      inBuf.PushData(bytes);
      HttpBuffer.PushAppends(memory, inBuf.data[..], old(inBuf.length), bytes);
    }

    /** The read loop of http_client_on_read. */
    method Receive(received: seq<string>)
      requires Valid() && forall k :: 0 <= k < |received| ==> 0 < |received[k]| < 4096
      modifies inBuf, inBuf.data
      ensures Valid() && (inBuf.data == old(inBuf.data) || fresh(inBuf.data))
      ensures inBuf.maxSize >= old(inBuf.maxSize) && (received != [] ==> inBuf.maxSize > 0)
      ensures received == [] ==> inBuf.maxSize == old(inBuf.maxSize)
      ensures Unread() == old(Unread()) + Concat(received)
      ensures old(inBuf.ScanSafe(0)) ==> inBuf.ScanSafe(0)
    {
      hide HttpBuffer.Buffer.ScanSafe;
      var k := 0;
      while k < |received|
        invariant 0 <= k <= |received| && Valid() && (inBuf.data == old(inBuf.data) || fresh(inBuf.data))
        invariant inBuf.maxSize >= old(inBuf.maxSize) && (k > 0 ==> inBuf.maxSize > 0)
        invariant k == 0 ==> inBuf.maxSize == old(inBuf.maxSize)
        invariant Unread() == old(Unread()) + Concat(received[..k])
        invariant old(inBuf.ScanSafe(0)) ==> inBuf.ScanSafe(0)
      {
        PushKeepsScanSafe(received[k]);
        ConcatSnoc(received[..k], received[k]);
        assert received[..k + 1] == received[..k] + [received[k]];
        k := k + 1;
      }
      assert received[..k] == received;
    }

    /** http_client_on_read. An event without a byte on a client that never received one makes the parser scan
        a null pointer. */
    method OnRead(received: seq<string>, failed: bool) returns (rc: int, fault: bool)
      requires Ready() || Served()
      requires forall k :: 0 <= k < |received| ==> 0 < |received[k]| < 4096
      modifies this`stage, this`verb, this`path, this`protocol, this`headers, this`dispatched, this`reply
      modifies inBuf, inBuf.data
      ensures Valid() && (inBuf.data == old(inBuf.data) || fresh(inBuf.data))
      ensures inBuf.maxSize > 0 <==> old(inBuf.maxSize) > 0 || received != []
      ensures failed ==>
        rc == -1 && !fault && dispatched == old(dispatched) && stage == old(stage) && reply == old(reply)
      ensures !failed && old(Ready()) ==>
        if received == [] && old(inBuf.maxSize) == 0 then
          rc == -1 && fault && dispatched == old(dispatched) && reply == old(reply)
        else Advanced(Feed(old(State()), Concat(received)), rc, fault)
      ensures old(Served()) ==>
        rc == -1 && !fault && dispatched == old(dispatched) && stage == old(stage) && reply == old(reply)
    {
      hide Feed, HttpBuffer.Buffer.ScanSafe;
      FeedFront(CurrentPhase(), Unread(), Concat(received));
      Receive(received);
      if failed || stage == StageSendResponse || stage == StageFinal {
        return -1, false;
      }
      if inBuf.maxSize == 0 {
        return -1, true;
      }
      rc, fault := ParseRequest();
    }

    /** The client is in the state the connection is in. */
    ghost predicate Shows(c: Connection, fault: bool)
      reads this, inBuf, inBuf.data
    {
      && Valid()
      && (fault <==> c.state.Undefined?)
      && (match c.state
          case Undefined => true
          case Waiting(_, _) =>
            && open == c.open && dispatched == [] && reply == NO_REPLY
            && (open ==> Ready() && State() == c.state && (inBuf.maxSize > 0 <==> c.touched))
          case Refused => open == c.open == false && dispatched == [] && reply == NO_REPLY
          case Dispatched(request) =>
            && open == c.open && dispatched == [request] && reply == Answer(request, hasHandler)
            && (open ==> Served() && (stage == StageFinal <==> !Streams(c.state, hasHandler))))
    }

    /** The end of http_client_on_write, after the loop over write(2). */
    method OnWrite(w: WriteEvent) returns (rc: int)
      ensures rc == -1 <==> w.WriteFails? || (w.WriteDrains? && (!reply.multipart || stage == StageFinal))
    {
      if w.WriteFails? {
        return -1;
      }
      if w.WriteDrains? && (!reply.multipart || stage == StageFinal) {
        return -1;
      }
      return 0;
    }

    method OnReadable(e: ReadEvent, ghost c: Connection) returns (fault: bool)
      requires Shows(c, false) && open
      requires forall k :: 0 <= k < |e.received| ==> 0 < |e.received[k]| < 4096
      modifies this, inBuf, inBuf.data
      ensures Valid() && (inBuf.data == old(inBuf.data) || fresh(inBuf.data))
      ensures Shows(ServeRead(c, e, hasHandler), fault)
    {
      hide Feed, HttpBuffer.Buffer.ScanSafe;
      var rc;
      rc, fault := OnRead(e.received, e.failed);
      if rc == -1 {
        open := false;
      }
    }

    method OnWritable(w: WriteEvent, ghost c: Connection)
      requires Shows(c, false) && open
      modifies this`open
      ensures Shows(ServeWrite(c, w, hasHandler), false)
    {
      hide Feed, HttpBuffer.Buffer.ScanSafe;
      assert reply.multipart == Streams(c.state, hasHandler);
      var rc := OnWrite(w);
      if rc == -1 {
        open := false;
        assert Valid() && !ServeWrite(c, w, hasHandler).open;
      }
      assert ServeWrite(c, w, hasHandler).state == c.state;
    }

    /** The event loop: a result of -1 from either half removes the client, and so does a hang-up. */
    method OnEvent(e: Event, ghost c: Connection) returns (fault: bool)
      requires Shows(c, false) && open
      requires e.read.Some? ==>
        forall k :: 0 <= k < |e.read.value.received| ==> 0 < |e.read.value.received[k]| < 4096
      modifies this, inBuf, inBuf.data
      ensures Valid() && (inBuf.data == old(inBuf.data) || fresh(inBuf.data))
      ensures Shows(Serve(c, e, hasHandler), fault)
    {
      hide Feed, ServeRead, ServeWrite, HttpBuffer.Buffer.ScanSafe;
      fault := false;
      ghost var d := c;
      if e.read.None? && e.write.None? {
        open := false;
        return;
      }
      if e.read.Some? {
        fault := OnReadable(e.read.value, c);
        d := ServeRead(c, e.read.value, hasHandler);
        if fault || !open {
          return;
        }
      }
      if e.write.Some? {
        OnWritable(e.write.value, d);
      }
    }
  }
}
