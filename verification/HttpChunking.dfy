/** The streaming parser against the one-shot parser, for every way of cutting the input into reads. */
module HttpChunking {
  import opened Text
  import opened HttpRequest

  /** More input after a complete first line leaves that line alone. */
  lemma LineLengthAppend(a: string, b: string)
    requires LineLength(a) < |a|
    ensures LineLength(a + b) == LineLength(a)
  {
    SpanUnique(a + b, {LF, NUL}, LineLength(a));
  }

  /** Parsing may stop anywhere and resume from the phase and tail it left. */
  lemma {:induction false} RunResumes(phase: Phase, a: string, b: string)
    ensures var (p, t) := Run(phase, a); Outcome(Run(p, t + b)) == Outcome(Run(phase, a + b))
    decreases |a|
  {
    hide StepLine;
    if !phase.Final() && HasLine(a) {
      var n := LineLength(a);
      LineLengthAppend(a, b);
      assert (a + b)[..n] == a[..n];
      assert (a + b)[n + 1..] == a[n + 1..] + b;
      RunResumes(StepLine(phase, a[..n]), a[n + 1..], b);
    }
  }

  /** Every waiting state a client can reach: no complete line is left unread. */
  ghost predicate Settled(s: ClientState) {
    s.Waiting? ==> !s.phase.Final() && !HasLine(s.tail)
  }

  lemma FeedSettled(s: ClientState, chunk: string)
    requires Settled(s)
    ensures Settled(Feed(s, chunk))
  {
    if s.Waiting? {
      RunLeavesNoLine(s.phase, s.tail + chunk);
    }
  }

  lemma {:induction false} FeedAllSettled(s: ClientState, chunks: seq<string>)
    requires Settled(s)
    ensures Settled(FeedAll(s, chunks))
    decreases |chunks|
  {
    if chunks != [] {
      FeedSettled(s, chunks[0]);
      FeedAllSettled(Feed(s, chunks[0]), chunks[1..]);
    }
  }

  lemma FeedAllSnoc(s: ClientState, chunks: seq<string>, last: string)
    ensures FeedAll(s, chunks + [last]) == Feed(FeedAll(s, chunks), last)
    decreases |chunks|
  {
    if chunks != [] {
      assert (chunks + [last])[1..] == chunks[1..] + [last];
      FeedAllSnoc(Feed(s, chunks[0]), chunks[1..], last);
    } else {
      assert chunks + [last] == [last];
    }
  }

  /** Chunking independence. Every split of every input into reads ends as one read of the whole input
      does, with the same request or the same unread tail, unless some read made the code look at the
      byte before its buffer. */
  lemma {:induction false} ChunkingIndependence(chunks: seq<string>)
    ensures FeedAll(FRESH, chunks).Undefined? || FeedAll(FRESH, chunks) == Feed(FRESH, Concat(chunks))
    decreases |chunks|
  {
    hide StepLine;
    if chunks == [] {
      assert FRESH.tail + Concat(chunks) == "";
    } else {
      var front, last := chunks[..|chunks| - 1], chunks[|chunks| - 1];
      assert chunks == front + [last];
      ChunkingIndependence(front);
      FeedAllSnoc(FRESH, front, last);
      ConcatSnoc(front, last);
      var whole := Concat(front);
      assert "" + whole == whole && "" + (whole + last) == whole + last;
      RunResumes(AwaitMethod, whole, last);
      var (p, t) := Run(AwaitMethod, whole);
      if p.Final() {
        FinalRunStays(p, t + last);
      }
    }
  }

  lemma FinalRunStays(phase: Phase, unread: string)
    requires phase.Final()
    ensures Run(phase, unread) == (phase, unread)
  {
  }

  /** The request's blank line, when the parser reaches one, is a lone line feed. */
  predicate EndsWithBareLineFeed(phase: Phase, unread: string)
    decreases |unread|
  {
    !phase.Final() && HasLine(unread) &&
    var n := LineLength(unread);
    if phase.AwaitHeaders? && n == 0 then true
    else EndsWithBareLineFeed(StepLine(phase, unread[..n]), unread[n + 1..])
  }

  lemma BareLineFeedSteps(phase: Phase, unread: string)
    requires !phase.Final() && HasLine(unread) && !(phase.AwaitHeaders? && LineLength(unread) == 0)
    ensures var n := LineLength(unread);
            EndsWithBareLineFeed(phase, unread) == EndsWithBareLineFeed(StepLine(phase, unread[..n]), unread[n + 1..])
  {
    hide StepLine;
  }

  lemma BareLineFeedHasLine(phase: Phase, unread: string)
    requires EndsWithBareLineFeed(phase, unread)
    ensures !phase.Final() && HasLine(unread)
  {
  }

  lemma BareLineFeedHere(phase: Phase, unread: string)
    requires phase.AwaitHeaders? && HasLine(unread) && LineLength(unread) == 0
    ensures EndsWithBareLineFeed(phase, unread)
  {
    hide StepLine;
  }

  /** Reaching a waiting state after `a` means the parse of `a + b` passes through that state. */
  lemma {:induction false} BareLineFeedResumes(phase: Phase, a: string, b: string)
    requires !EndsWithBareLineFeed(phase, a)
    ensures var (p, t) := Run(phase, a);
            EndsWithBareLineFeed(phase, a + b) == EndsWithBareLineFeed(p, t + b)
    decreases |a|
  {
    hide StepLine, Run, EndsWithBareLineFeed;
    if phase.Final() || !HasLine(a) {
      RunStops(phase, a);
    } else {
      var n := LineLength(a);
      RunSteps(phase, a);
      LineLengthAppend(a, b);
      if phase.AwaitHeaders? && n == 0 {
        BareLineFeedHere(phase, a);
      } else {
        assert (a + b)[..n] == a[..n] && (a + b)[n + 1..] == a[n + 1..] + b;
        BareLineFeedSteps(phase, a);
        BareLineFeedSteps(phase, a + b);
        BareLineFeedResumes(StepLine(phase, a[..n]), a[n + 1..], b);
      }
    }
  }

  /** What follows the bare blank line does not matter. */
  lemma {:induction false} BareLineFeedPrefix(phase: Phase, a: string, b: string)
    requires EndsWithBareLineFeed(phase, a)
    ensures EndsWithBareLineFeed(phase, a + b)
    decreases |a|
  {
    hide StepLine, Span, EndsWithBareLineFeed;
    BareLineFeedHasLine(phase, a);
    var n := LineLength(a);
    LineLengthAppend(a, b);
    if phase.AwaitHeaders? && n == 0 {
      BareLineFeedHere(phase, a + b);
    } else {
      assert (a + b)[..n] == a[..n];
      assert (a + b)[n + 1..] == a[n + 1..] + b;
      BareLineFeedSteps(phase, a);
      BareLineFeedSteps(phase, a + b);
      BareLineFeedPrefix(StepLine(phase, a[..n]), a[n + 1..], b);
    }
  }

  lemma BareLineFeedNow(phase: Phase, unread: string)
    requires ReadsBeforeBuffer(phase, unread)
    ensures EndsWithBareLineFeed(phase, unread)
  {
    hide StepLine;
    SpanUnique(unread, {LF, NUL}, 0);
  }

  /** Only inputs whose header block ends in a lone line feed can make a split undefined. */
  lemma {:induction false} UndefinedNeedsBareLineFeed(chunks: seq<string>)
    ensures FeedAll(FRESH, chunks).Undefined? ==> EndsWithBareLineFeed(AwaitMethod, Concat(chunks))
    decreases |chunks|
  {
    hide Run, EndsWithBareLineFeed;
    if chunks != [] && FeedAll(FRESH, chunks).Undefined? {
      var front, last := chunks[..|chunks| - 1], chunks[|chunks| - 1];
      assert chunks == front + [last];
      FeedAllSnoc(FRESH, front, last);
      ConcatSnoc(front, last);
      var whole := Concat(front);
      if FeedAll(FRESH, front).Undefined? {
        UndefinedNeedsBareLineFeed(front);
        BareLineFeedPrefix(AwaitMethod, whole, last);
      } else {
        ChunkingIndependence(front);
        assert "" + whole == whole;
        if EndsWithBareLineFeed(AwaitMethod, whole) {
          BareLineFeedPrefix(AwaitMethod, whole, last);
        } else {
          BareLineFeedResumes(AwaitMethod, whole, last);
          BareLineFeedNow(Run(AwaitMethod, whole).0, Run(AwaitMethod, whole).1 + last);
        }
      }
    }
  }

  /** Cutting behind a complete first line cuts what follows it. */
  lemma RunPrefix(phase: Phase, unread: string, j: nat)
    requires !phase.Final() && HasLine(unread) && j <= |unread| - LineLength(unread) - 1
    ensures var n := LineLength(unread);
            Run(phase, unread[..n + 1 + j]) == Run(StepLine(phase, unread[..n]), unread[n + 1..][..j])
  {
    hide Run, StepLine;
    var n := LineLength(unread);
    var a := unread[..n + 1 + j];
    SpanUnique(a, {LF, NUL}, n);
    assert a[..n] == unread[..n] && a[n + 1..] == unread[n + 1..][..j];
    RunSteps(phase, a);
  }

  /** An input with a bare blank line splits right before it. */
  lemma {:induction false} BareLineFeedSplit(phase: Phase, unread: string) returns (k: nat)
    requires EndsWithBareLineFeed(phase, unread)
    ensures k < |unread| && unread[k] == LF
    ensures Run(phase, unread[..k]).1 == "" && Run(phase, unread[..k]).0.AwaitHeaders?
    decreases |unread|
  {
    hide Run, StepLine;
    var n := LineLength(unread);
    if phase.AwaitHeaders? && n == 0 {
      k := 0;
      RunStops(phase, "");
    } else {
      var j := BareLineFeedSplit(StepLine(phase, unread[..n]), unread[n + 1..]);
      RunPrefix(phase, unread, j);
      k := n + 1 + j;
    }
  }

  /** Exactly which inputs are safe: no split is undefined if and only if the header block does not end
      in a lone line feed. */
  lemma SafeUnderEverySplit(input: string)
    ensures (forall chunks: seq<string> | Concat(chunks) == input :: !FeedAll(FRESH, chunks).Undefined?)
       <==> !EndsWithBareLineFeed(AwaitMethod, input)
  {
    hide Run, EndsWithBareLineFeed;
    if EndsWithBareLineFeed(AwaitMethod, input) {
      var k := BareLineFeedSplit(AwaitMethod, input);
      var chunks := [input[..k], input[k..]];
      assert Concat(chunks[1..]) == input[k..] + "" by {
        assert chunks[1..][1..] == [];
      }
      assert Concat(chunks) == input;
      assert "" + input[..k] == input[..k];
      var s := Feed(FRESH, input[..k]);
      assert chunks[1..] == [input[k..]];
      assert FeedAll(FRESH, chunks) == FeedAll(s, [input[k..]]);
      assert FeedAll(s, [input[k..]]) == FeedAll(Feed(s, input[k..]), []);
      assert s.tail + input[k..] == input[k..];
      assert FeedAll(FRESH, chunks).Undefined?;
    }
    forall chunks: seq<string> | Concat(chunks) == input && FeedAll(FRESH, chunks).Undefined?
      ensures EndsWithBareLineFeed(AwaitMethod, input)
    {
      UndefinedNeedsBareLineFeed(chunks);
    }
  }

  /** No line feed directly follows another, which holds when every line ends in CR LF. */
  predicate NoDoubledLineFeed(s: string) {
    forall i :: 0 < i < |s| && s[i] == LF ==> s[i - 1] != LF
  }

  lemma {:induction false} NoDoubledIsSafe(phase: Phase, unread: string)
    requires NoDoubledLineFeed(unread)
    requires phase.AwaitHeaders? ==> unread == "" || unread[0] != LF
    ensures !EndsWithBareLineFeed(phase, unread)
    decreases |unread|
  {
    hide StepLine;
    if !phase.Final() && HasLine(unread) {
      var n := LineLength(unread);
      var rest := unread[n + 1..];
      assert forall i :: 0 <= i < |rest| ==> rest[i] == unread[n + 1 + i];
      NoDoubledIsSafe(StepLine(phase, unread[..n]), rest);
    }
  }

  predicate EveryLineFeedFollowsCr(s: string) {
    forall i :: 0 <= i < |s| && s[i] == LF ==> i > 0 && s[i - 1] == CR
  }

  lemma NoDoubledFromCrlf(s: string)
    requires EveryLineFeedFollowsCr(s)
    ensures NoDoubledLineFeed(s)
  {
  }

  /** For input whose line feeds each follow a carriage return, every split agrees with one read. */
  lemma CrlfChunkingIndependence(chunks: seq<string>)
    requires EveryLineFeedFollowsCr(Concat(chunks))
    ensures FeedAll(FRESH, chunks) == Feed(FRESH, Concat(chunks))
  {
    hide *;
    NoDoubledFromCrlf(Concat(chunks));
    ChunkingIndependence(chunks);
    NoDoubledIsSafe(AwaitMethod, Concat(chunks));
    SafeUnderEverySplit(Concat(chunks));
  }

  const SAMPLE: Request := Request("GET", "/", "HTTP/1.1", [])

  /** A token that starts the string and is followed by one space. */
  lemma TokenThenRest(token: string, rest: string)
    requires token != "" && ' ' !in token
    ensures Token(token + " " + rest, {' '}) == Some((token, rest))
    ensures Token(token, {' '}) == Some((token, ""))
  {
    var s := token + " " + rest;
    SkipUnique(s, {' '}, 0);
    SpanUnique(s[0..], {' '}, |token|);
    assert s[0..0 + |token|] == token && s[|token| + 1..] == rest;
    SkipUnique(token, {' '}, 0);
    SpanUnique(token[0..], {' '}, |token|);
    assert token[0..|token|] == token;
  }

  lemma SampleLineParses()
    ensures ParseMethodLine("GET / HTTP/1.1") == Some(SAMPLE)
  {
    hide Token;
    TokenThenRest("GET", "/ HTTP/1.1");
    TokenThenRest("/", "HTTP/1.1");
    TokenThenRest("HTTP/1.1", "");
    assert "GET" + " " + "/ HTTP/1.1" == "GET / HTTP/1.1";
    assert "/" + " " + "HTTP/1.1" == "/ HTTP/1.1";
  }

  lemma SampleRuns(a: string, b: string)
    requires a == "GET / HTTP/1.1\n" && b == "\n"
    ensures Run(AwaitMethod, a) == (AwaitHeaders(SAMPLE), "")
    ensures Run(AwaitMethod, a + b).0 == Complete(SAMPLE)
  {
    hide ParseMethodLine, ParseHeaderLine;
    SampleLineParses();
    SpanUnique(a, {LF, NUL}, 14);
    SpanUnique(a + b, {LF, NUL}, 14);
    SpanUnique(b, {LF, NUL}, 0);
    assert a[..14] == (a + b)[..14] == "GET / HTTP/1.1" && a[15..] == "" && (a + b)[15..] == b;
    assert StepLine(AwaitMethod, a[..14]) == AwaitHeaders(SAMPLE);
    assert b[..0] == "" && StepLine(AwaitHeaders(SAMPLE), "") == Complete(SAMPLE);
    assert Run(AwaitHeaders(SAMPLE), b).0 == Complete(SAMPLE);
  }

  /** Two ways to cut the same bytes: one read dispatches the request, two reads are undefined. */
  lemma BareLineFeedCounterexample()
    ensures var a := "GET / HTTP/1.1\n"; var b := "\n";
            FeedAll(FRESH, [a, b]).Undefined? && Feed(FRESH, a + b) == Dispatched(SAMPLE)
  {
    hide Run;
    var a, b := "GET / HTTP/1.1\n", "\n";
    SampleRuns(a, b);
    assert "" + a == a && "" + (a + b) == a + b && "" + b == b;
    assert [a, b][1..] == [b] && [b][1..] == [];
    assert FeedAll(FRESH, [a, b]) == FeedAll(Feed(FRESH, a), [b]) == FeedAll(Feed(Feed(FRESH, a), b), []);
  }
}
