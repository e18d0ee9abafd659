/** The event loop in motion-jpeg/http-server.c, for one connection. */
module HttpServer {
  import opened Text
  import opened HttpRequest
  import opened HttpClient
  import HttpChunking
  import HttpRoundTrip
  import Multipart

  function Bytes(e: Event): string { if e.read.None? then "" else Concat(e.read.value.received) }

  /** The bytes each event delivered. */
  function Chunks(events: seq<Event>): (c: seq<string>)
    ensures |c| == |events|
  {
    if events == [] then [] else [Bytes(events[0])] + Chunks(events[1..])
  }

  lemma FinalIsAbsorbing(s: ClientState, chunks: seq<string>)
    requires !s.Waiting?
    ensures FeedAll(s, chunks) == s
    decreases |chunks|
  {
  }

  /** A read that neither fails nor comes with anything to write. */
  predicate Delivers(e: Event) { e.read.Some? && !e.read.value.failed && e.write.None? }

  /** Until the request has been handed over there are only such events: writing is not asked for before that. */
  predicate Usual(s: ClientState, events: seq<Event>)
    decreases |events|
  {
    events != [] ==> (s.Dispatched? || Delivers(events[0])) && Usual(Feed(s, Bytes(events[0])), events[1..])
  }

  /** The client has received a byte, or the first event brings one. */
  predicate Touches(c: Connection, events: seq<Event>) {
    c.touched || !c.state.Waiting? || events == [] || (events[0].read.Some? && events[0].read.value.received != [])
  }

  predicate Delivering(events: seq<Event>) { Usual(FRESH, events) && Touches(ACCEPTED, events) }

  /** Waiting clients are open, refused ones closed. */
  predicate Sound(c: Connection) { (c.state.Waiting? ==> c.open) && (c.state.Refused? ==> !c.open) }

  lemma ServeFollows(c: Connection, e: Event, hasHandler: bool)
    requires Sound(c) && Touches(c, [e]) && (c.state.Dispatched? || Delivers(e))
    ensures var d := Serve(c, e, hasHandler);
      && d.state == Feed(c.state, Bytes(e)) && Sound(d) && (d.touched || !d.state.Waiting?)
      && (c.state.Dispatched? ==> (d.open <==> c.open && Harmless(e, c.state, hasHandler)))
      && (!c.state.Dispatched? && d.state.Dispatched? ==> (d.open <==> KeepsOpen(d.state, hasHandler)))
  {
    hide Concat, Run;
  }

  lemma {:induction false} StateFollowsBytes(c: Connection, events: seq<Event>, hasHandler: bool)
    requires Sound(c) && Usual(c.state, events) && Touches(c, events)
    ensures ServeAll(c, events, hasHandler).state == FeedAll(c.state, Chunks(events))
    decreases |events|
  {
    hide Serve, Feed, Sound, Delivers, Bytes;
    if events != [] {
      ServeFollows(c, events[0], hasHandler);
      StateFollowsBytes(Serve(c, events[0], hasHandler), events[1..], hasHandler);
    }
  }

  /** What has been requested depends on the bytes alone, not on the events they came in, when every line feed
      follows a carriage return. */
  lemma RequestDependsOnBytes(events: seq<Event>, hasHandler: bool)
    requires Delivering(events) && HttpChunking.EveryLineFeedFollowsCr(Concat(Chunks(events)))
    ensures ServeAll(ACCEPTED, events, hasHandler).state == Feed(FRESH, Concat(Chunks(events)))
  {
    hide Feed, ServeAll, Usual;
    StateFollowsBytes(ACCEPTED, events, hasHandler);
    HttpChunking.CrlfChunkingIndependence(Chunks(events));
  }

  /** An event that a client served with `s` outlives: nothing to read, no hang-up, and a write that does not fail;
      one that leaves nothing to write only if the client is sent a stream. */
  predicate Harmless(e: Event, s: ClientState, hasHandler: bool) {
    && e.read.None? && e.write.Some? && !e.write.value.WriteFails?
    && (e.write.value.WriteDrains? ==> hasHandler && s.Dispatched? && s.request.verb == "GET")
  }

  /** Every event after the one that completes the request is harmless. */
  predicate HarmlessAfter(s: ClientState, events: seq<Event>, hasHandler: bool)
    decreases |events|
  {
    events != [] ==>
      && (s.Dispatched? ==> Harmless(events[0], s, hasHandler))
      && HarmlessAfter(Feed(s, Bytes(events[0])), events[1..], hasHandler)
  }

  lemma {:induction false} OpenFrom(c: Connection, events: seq<Event>, hasHandler: bool)
    requires Sound(c) && Usual(c.state, events) && Touches(c, events)
    ensures var d := ServeAll(c, events, hasHandler);
      d.state.Dispatched? ==>
        (d.open <==> (if c.state.Dispatched? then c.open else KeepsOpen(d.state, hasHandler))
                     && HarmlessAfter(c.state, events, hasHandler))
    decreases |events|
  {
    hide Serve, Feed, Sound, Delivers, Bytes, Harmless, KeepsOpen;
    if events == [] {
      NothingServed(c, hasHandler);
    } else {
      var next := Serve(c, events[0], hasHandler);
      ServeFollows(c, events[0], hasHandler);
      OpenFrom(next, events[1..], hasHandler);
      StateFollowsBytes(next, events[1..], hasHandler);
      DispatchedStays(c.state, Bytes(events[0]));
      if next.state.Dispatched? {
        FinalIsAbsorbing(next.state, Chunks(events[1..]));
      }
    }
  }

  lemma NothingServed(c: Connection, hasHandler: bool)
    requires Sound(c)
    ensures ServeAll(c, [], hasHandler) == c && HarmlessAfter(c.state, [], hasHandler)
  {
  }

  lemma DispatchedStays(s: ClientState, chunk: string)
    ensures s.Dispatched? ==> Feed(s, chunk) == s
  {
  }

  /** Whether the connection is still open does depend on the events: once a request has been handed over, exactly
      when it may be served and every event after the one that completed it was harmless. */
  lemma OpenExactly(events: seq<Event>, hasHandler: bool)
    requires Delivering(events) && ServeAll(ACCEPTED, events, hasHandler).state.Dispatched?
    ensures var c := ServeAll(ACCEPTED, events, hasHandler);
      c.open <==> (!hasHandler || c.state.request.verb == "GET") && HarmlessAfter(FRESH, events, hasHandler)
  {
    hide Feed, ServeAll, Usual, HarmlessAfter;
    assert Sound(ACCEPTED) && ACCEPTED.state == FRESH;
    OpenFrom(ACCEPTED, events, hasHandler);
  }

  /** A failed read or a hang-up ends the connection with what has been requested so far, whatever follows. */
  lemma FailureCloses(events: seq<Event>, e: Event, more: seq<Event>, hasHandler: bool)
    requires if e.read.Some? then e.read.value.failed else e.write.None?
    requires !ServeAll(ACCEPTED, events, hasHandler).state.Undefined?
    ensures ServeAll(ACCEPTED, events + [e] + more, hasHandler) ==
      ServeAll(ACCEPTED, events, hasHandler).(open := false)
  {
    hide ServeAll;
    var c := ServeAll(ACCEPTED, events, hasHandler);
    ServeAllSnoc(ACCEPTED, events, e, hasHandler);
    assert Serve(c, e, hasHandler) == c.(open := false);
    ServeAllSplit(ACCEPTED, events + [e], more, hasHandler);
    ClosedStays(c.(open := false), more, hasHandler);
  }

  lemma {:induction false} ServeAllSplit(c: Connection, a: seq<Event>, b: seq<Event>, hasHandler: bool)
    ensures ServeAll(c, a + b, hasHandler) == ServeAll(ServeAll(c, a, hasHandler), b, hasHandler)
    decreases |a|
  {
    hide Serve;
    if a == [] {
      assert a + b == b;
    } else {
      assert (a + b)[1..] == a[1..] + b;
      ServeAllSplit(Serve(c, a[0], hasHandler), a[1..], b, hasHandler);
    }
  }

  lemma ClosedStays(c: Connection, events: seq<Event>, hasHandler: bool)
    requires !c.open
    ensures ServeAll(c, events, hasHandler) == c
    decreases |events|
  {
  }

  /** A refused request closes the connection, and a first event without a byte scans a null pointer. */
  lemma FirstEventExactly(e: Event, hasHandler: bool)
    requires Delivers(e)
    ensures var c := ServeAll(ACCEPTED, [e], hasHandler);
      if e.read.value.received == [] then c.state.Undefined?
      else c.state == Feed(FRESH, Concat(e.read.value.received)) && (c.state.Refused? ==> !c.open)
  {
    hide Feed, Concat;
    assert [e][1..] == [];
  }

  function Read(bytes: string): Event { Event(Some(ReadEvent([bytes], false)), None) }

  lemma OneRead(s: string)
    ensures Bytes(Read(s)) == s
  {
    assert [s][1..] == [] && s + "" == s;
    assert Concat([s]) == s;
    assert Read(s).read.value.received == [s];
  }

  lemma ServeAllSnoc(c: Connection, events: seq<Event>, e: Event, hasHandler: bool)
    ensures ServeAll(c, events + [e], hasHandler) == Serve(ServeAll(c, events, hasHandler), e, hasHandler)
    decreases |events|
  {
    hide Serve;
    if events == [] {
      assert [e][1..] == [] && events + [e] == [e];
    } else {
      assert (events + [e])[1..] == events[1..] + [e];
      ServeAllSnoc(Serve(c, events[0], hasHandler), events[1..], e, hasHandler);
    }
  }

  lemma OneEvent(s: string, hasHandler: bool)
    ensures ServeAll(ACCEPTED, [Read(s)], hasHandler)
      == Connection(Feed(FRESH, s), KeepsOpen(Feed(FRESH, s), hasHandler), true)
  {
    hide Feed, Concat;
    OneRead(s);
    assert [Read(s)][1..] == [];
  }

  lemma ReadOnceServed(r: Request, request: string, behind: string)
    requires Feed(FRESH, request) == Dispatched(r) && r.verb == "GET"
    ensures ServeAll(ACCEPTED, [Read(request), Read(behind)], true) == Connection(Dispatched(r), false, true)
  {
    hide Feed, ServeAll;
    var first, second := Read(request), Read(behind);
    OneEvent(request, true);
    assert [first] + [second] == [first, second];
    ServeAllSnoc(ACCEPTED, [first], second, true);
  }

  /** The same bytes, a request and more behind it: one read leaves the connection open, two close it. */
  lemma BytesBehindRequest(r: Request, behind: string)
    requires HttpRoundTrip.Writable(r) && r.verb == "GET"
    ensures ServeAll(ACCEPTED, [Read(HttpRoundTrip.Write(r) + behind)], true) == Connection(Dispatched(r), true, true)
    ensures ServeAll(ACCEPTED, [Read(HttpRoundTrip.Write(r)), Read(behind)], true)
      == Connection(Dispatched(r), false, true)
  {
    hide Feed, ServeAll, Read, HttpRoundTrip.Write, HttpRoundTrip.Writable;
    var request := HttpRoundTrip.Write(r);
    HttpRoundTrip.WriteThenParse(r, behind);
    HttpRoundTrip.WriteThenParse(r, "");
    assert request + "" == request;
    OneEvent(request + behind, true);
    ReadOnceServed(r, request, behind);
  }

  /** Serving any sequence of events ends in the state the stateless connection is in. */
  method ServeEvents(events: seq<Event>, hasHandler: bool) returns (client: Client, fault: bool)
    requires forall j :: 0 <= j < |events| && events[j].read.Some? ==>
      forall k :: 0 <= k < |events[j].read.value.received| ==> 0 < |events[j].read.value.received[k]| < 4096
    ensures fresh(client) && client.Shows(ServeAll(ACCEPTED, events, hasHandler), fault)
    ensures var s, reply := ServeAll(ACCEPTED, events, hasHandler).state, client.reply;
      && (!s.Undefined? ==> (reply.multipart <==> s.Dispatched? && hasHandler && s.request.verb == "GET"))
      && (s.Waiting? || s.Refused? ==> reply.pushed == "" && reply.sent == "")
      && (s.Dispatched? && !hasHandler ==>
            && reply.sent == ""
            && Multipart.ReadAnswer(reply.pushed) == Some((200, [("Connection", "Close")], "Hello World\n")))
      && (s.Dispatched? && hasHandler && s.request.verb == "GET" ==> reply.sent == "" && Multipart.Heads(reply.pushed))
      && (s.Dispatched? && hasHandler && s.request.verb != "GET" ==>
            reply.pushed == "" && Multipart.ReadAnswer(reply.sent) == Some((405, [], "")))
  {
    hide Serve, ServeAll, Answer, Multipart.Heads, Multipart.ReadAnswer;
    client := new Client(hasHandler);
    fault := false;
    ghost var c := ACCEPTED;
    assert events[..0] == [] && ServeAll(ACCEPTED, [], hasHandler) == ACCEPTED by { NoEvents(hasHandler); }
    var j := 0;
    while j < |events| && !fault && client.open
      invariant 0 <= j <= |events|
      invariant fresh(client) && fresh(client.inBuf) && fresh(client.inBuf.data)
      invariant c == ServeAll(ACCEPTED, events[..j], hasHandler)
      invariant client.Shows(c, fault) && client.hasHandler == hasHandler
    {
      assert events[..j + 1] == events[..j] + [events[j]];
      ServeAllSnoc(ACCEPTED, events[..j], events[j], hasHandler);
      fault := client.OnEvent(events[j], c);
      c := Serve(c, events[j], hasHandler);
      j := j + 1;
    }
    ServedAll(events, j, hasHandler);
    if c.state.Dispatched? {
      AnswerMeans(c.state.request, hasHandler);
    }
  }

  /** A viewer from its first byte to its last: whatever events its GET request came in, the stream that starts with
      the answer reads back as the frames that were newest when looked at. */
  method Watch(requests: seq<Event>, frames: seq<Multipart.Event>)
    returns (client: Client, viewer: Multipart.Viewer?, fault: bool)
    requires forall j :: 0 <= j < |requests| && requests[j].read.Some? ==>
      forall k :: 0 <= k < |requests[j].read.value.received| ==> 0 < |requests[j].read.value.received[k]| < 4096
    ensures var s := ServeAll(ACCEPTED, requests, true).state;
      if s.Dispatched? && s.request.verb == "GET" then
        && viewer != null && client.reply.pushed <= viewer.pushed
        && Multipart.ReadResponse(viewer.pushed) == Some(Multipart.Sent(Multipart.Looks(frames, None, None), 0))
      else viewer == null
  {
    hide Serve, ServeAll, Answer, Multipart.Heads, Multipart.ReadAnswer, Multipart.Sent, Multipart.Looks;
    client, fault := ServeEvents(requests, true);
    viewer := null;
    if !fault && client.reply.multipart {
      var channel;
      viewer, channel := Multipart.Broadcast(client.reply.pushed, frames);
    }
  }

  lemma NoEvents(hasHandler: bool)
    ensures ServeAll(ACCEPTED, [], hasHandler) == ACCEPTED
  {
  }

  /** Nothing happens any more on a connection that is closed or undefined. */
  lemma {:induction false} ServedAll(events: seq<Event>, j: nat, hasHandler: bool)
    requires j <= |events|
    ensures var c := ServeAll(ACCEPTED, events[..j], hasHandler);
      j == |events| || !c.open || c.state.Undefined? ==> ServeAll(ACCEPTED, events, hasHandler) == c
    decreases |events| - j
  {
    hide ServeAll;
    if j == |events| {
      assert events[..j] == events;
    } else {
      assert events[..j + 1] == events[..j] + [events[j]];
      ServeAllSnoc(ACCEPTED, events[..j], events[j], hasHandler);
      ServedAll(events, j + 1, hasHandler);
    }
  }
}
