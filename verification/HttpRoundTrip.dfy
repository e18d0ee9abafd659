/** The request parser against a writer of requests, at any cut of the written bytes. */
module HttpRoundTrip {
  import opened Text
  import opened HttpRequest
  import HttpChunking

  predicate Clean(s: string, stops: set<char>) {
    s != "" && forall c :: c in s ==> c !in stops && c !in {CR, LF, NUL}
  }

  /** A request that fits the grammar of sections 3 and 5 of RFC 9112 as far as this parser reads it. */
  predicate Writable(r: Request) {
    && r.verb in METHODS
    && Clean(r.path, {' '}) && r.path[0] == '/'
    && (r.protocol == "HTTP/1.0" || r.protocol == "HTTP/1.1")
    && forall h :: h in r.headers ==> Clean(h.0, {':', ' '}) && Clean(h.1, {})
  }

  function MethodLine(r: Request): string { r.verb + " " + (r.path + " " + r.protocol) }

  function HeaderLine(h: (string, string)): string { h.0 + ":" + h.1 }

  function WriteHeaders(headers: seq<(string, string)>): string {
    if headers == [] then [CR, LF] else HeaderLine(headers[0]) + [CR, LF] + WriteHeaders(headers[1..])
  }

  function Write(r: Request): string {
    MethodLine(r) + [CR, LF] + WriteHeaders(r.headers)
  }

  /** One step of the parser over a CR LF terminated line. */
  lemma RunOneLine(phase: Phase, line: string, rest: string)
    requires !phase.Final()
    requires forall c :: c in line ==> c !in {LF, NUL}
    ensures Run(phase, line + [CR, LF] + rest) == Run(StepLine(phase, line + [CR]), rest)
    ensures Chomp(line + [CR]) == line
  {
    hide StepLine;
    var u := line + [CR, LF] + rest;
    forall i | 0 <= i < |line| + 1 ensures u[i] !in {LF, NUL} {
      if i < |line| {
        assert u[i] == line[i] && line[i] in line;
      }
    }
    SpanUnique(u, {LF, NUL}, |line| + 1);
    assert u[..|line| + 1] == line + [CR] && u[|line| + 2..] == rest;
    assert (line + [CR])[..|line|] == line;
  }

  lemma TokenBefore(token: string, c: char, rest: string, delims: set<char>)
    requires token != "" && c in delims && forall x :: x in token ==> x !in delims
    ensures Token(token + [c] + rest, delims) == Some((token, rest))
    ensures Token(token, delims) == Some((token, ""))
  {
    var s := token + [c] + rest;
    SkipUnique(s, delims, 0);
    SpanUnique(s[0..], delims, |token|);
    assert s[0..|token|] == token && s[|token| + 1..] == rest;
    SkipUnique(token, delims, 0);
    SpanUnique(token[0..], delims, |token|);
    assert token[0..|token|] == token;
  }

  lemma CanonicalIsItself(k: nat)
    requires k < |METHODS|
    ensures CanonicalMethod(METHODS[k]) == Some(METHODS[k])
    ensures Clean(METHODS[k], {' '})
  {
    assert METHODS == ["GET", "PUT", "POST", "HEAD", "OPTIONS", "DELETE"];
    assert EqualsIgnoringCase(METHODS[k], METHODS[k]);
    assert "PUT"[0] == 'P' && "POST"[0] == 'P' && "PUT"[1] == 'U' && "POST"[1] == 'O';
    assert "GET"[0] == 'G' && "HEAD"[0] == 'H' && "OPTIONS"[0] == 'O' && "DELETE"[0] == 'D';
  }

  lemma MethodLineParses(r: Request)
    requires Writable(r)
    ensures ParseMethodLine(MethodLine(r)) == Some(r.(headers := []))
  {
    hide Token;
    var k :| 0 <= k < |METHODS| && METHODS[k] == r.verb;
    CanonicalIsItself(k);
    assert SupportedProtocol(r.protocol);
    hide CanonicalMethod, EqualsIgnoringCase;
    var tail := r.path + " " + r.protocol;
    assert MethodLine(r) == r.verb + [' '] + tail;
    TokenBefore(r.verb, ' ', tail, {' '});
    assert tail == r.path + [' '] + r.protocol;
    TokenBefore(r.path, ' ', r.protocol, {' '});
    TokenBefore(r.protocol, ' ', "", {' '});
  }

  /** A line cut into three words, the spaces before each, and what is behind the third. */
  datatype Words = Words(
    lead: string, first: string, gap: string, second: string, space: string, third: string, behind: string)

  predicate Spaces(s: string) { forall i :: 0 <= i < |s| ==> s[i] == ' ' }

  predicate Word(s: string) { s != "" && ' ' !in s }

  predicate Splits(line: string, w: Words) {
    && line == w.lead + (w.first + (w.gap + (w.second + (w.space + (w.third + w.behind)))))
    && Spaces(w.lead) && Spaces(w.gap) && Spaces(w.space) && w.gap != "" && w.space != ""
    && Word(w.first) && Word(w.second) && Word(w.third) && (w.behind != "" ==> w.behind[0] == ' ')
  }

  lemma TokenAfterSpaces(lead: string, word: string, behind: string)
    requires Spaces(lead) && Word(word) && (behind != "" ==> behind[0] == ' ')
    ensures Token(lead + (word + behind), {' '}) == Some((word, if behind == "" then "" else behind[1..]))
  {
    hide Token;
    var s := lead + (word + behind);
    var b, e := |lead|, |lead| + |word|;
    assert s[b..e] == word && s[e..] == behind;
    assert forall i :: 0 <= i < b ==> s[i] == lead[i];
    assert forall i :: b <= i < e ==> s[i] == word[i - b];
    assert e < |s| ==> s[e] == behind[0] && s[e + 1..] == behind[1..];
    TokenFound(s, {' '}, b, e);
  }

  lemma MethodLineWords(line: string, w: Words)
    requires Splits(line, w)
    ensures var m := CanonicalMethod(w.first);
      ParseMethodLine(line) ==
        if m.Some? && w.second[0] == '/' && SupportedProtocol(w.third) then
          Some(Request(m.value, w.second, w.third, []))
        else None
  {
    hide Token, CanonicalMethod, EqualsIgnoringCase;
    var third := w.third + w.behind;
    var second := w.second + (w.space + third);
    TokenAfterSpaces(w.lead, w.first, w.gap + second);
    assert (w.gap + second)[1..] == w.gap[1..] + second;
    TokenAfterSpaces(w.gap[1..], w.second, w.space + third);
    assert (w.space + third)[1..] == w.space[1..] + third;
    TokenAfterSpaces(w.space[1..], w.third, w.behind);
  }

  /** Of a line with three words exactly the first three count. It is accepted exactly when they are one of the six
      methods, a path and a known protocol, in capitals or the small letters 32 above them. */
  lemma MethodLineExactly(line: string, w: Words, k: nat)
    requires Splits(line, w) && k < |METHODS|
    ensures ParseMethodLine(line) == Some(Request(METHODS[k], w.second, w.third, [])) <==>
      && |w.first| == |METHODS[k]| && w.second[0] == '/'
      && (forall i :: 0 <= i < |w.first| ==>
           w.first[i] == METHODS[k][i] || w.first[i] as int == METHODS[k][i] as int + 32)
      && |w.third| == 8 && (w.third[4..] == "/1.0" || w.third[4..] == "/1.1")
      && (forall i :: 0 <= i < 4 ==>
           w.third[i] == "HTTP"[i] || w.third[i] as int == "HTTP"[i] as int + 32)
    ensures ParseMethodLine(line).Some? ==>
      exists j :: 0 <= j < |METHODS| && ParseMethodLine(line).value == Request(METHODS[j], w.second, w.third, [])
  {
    hide ParseMethodLine, CanonicalMethod, SupportedProtocol, Splits;
    MethodLineWords(line, w);
    CanonicalExactly(w.first, k);
    ProtocolExactly(w.third);
    assert Splits(line, w) ==> w.second != "" by { SecondWord(line, w); }
    if ParseMethodLine(line).Some? {
      var j :| 0 <= j < |METHODS| && METHODS[j] == CanonicalMethod(w.first).value;
    }
  }

  lemma SecondWord(line: string, w: Words)
    requires Splits(line, w)
    ensures w.second != ""
  {
  }

  lemma TokenSplits(s: string) returns (lead: string, behind: string)
    requires Token(s, {' '}).Some?
    ensures var t := Token(s, {' '}).value;
      && Spaces(lead) && Word(t.0) && s == lead + (t.0 + behind)
      && (if behind == "" then t.1 == "" else behind == [' '] + t.1)
  {
    hide Skip, Span;
    var b := Skip(s, {' '});
    var n := Span(s[b..], {' '});
    lead, behind := s[..b], s[b + n..];
    assert s[b..b + n] == s[b..][..n];
    if behind != "" {
      assert s[b..][n] == ' ' && behind == [' '] + s[b + n + 1..];
    }
  }

  lemma AcceptedTokens(line: string)
    requires ParseMethodLine(line).Some?
    ensures var t1 := Token(line, {' '});
      && t1.Some? && Token(t1.value.1, {' '}).Some?
      && Token(Token(t1.value.1, {' '}).value.1, {' '}).Some?
  {
    hide Token, CanonicalMethod, EqualsIgnoringCase;
  }

  lemma NoTokenInNothing()
    ensures Token("", {' '}).None?
  {
  }

  lemma WordsCover(w: Words, behind1: string, behind2: string)
    requires behind2 == w.space + (w.third + w.behind)
    requires behind1 == w.gap + (w.second + behind2)
    requires Spaces(w.gap) && Spaces(w.space)
    ensures w.lead + (w.first + behind1) ==
            w.lead + (w.first + (w.gap + (w.second + (w.space + (w.third + w.behind)))))
  {
  }

  lemma SpaceInFront(rest: string, spaces: string, back: string)
    requires Spaces(spaces) && rest == spaces + back
    ensures Spaces([' '] + spaces) && [' '] + rest == ([' '] + spaces) + back
  {
  }

  /** Every accepted line has three words. */
  lemma AcceptedLineSplits(line: string) returns (w: Words)
    requires ParseMethodLine(line).Some?
    ensures Splits(line, w)
  {
    AcceptedTokens(line);
    NoTokenInNothing();
    hide ParseMethodLine, Token, Spaces, Word;
    var t1 := Token(line, {' '}).value;
    var t2 := Token(t1.1, {' '}).value;
    var t3 := Token(t2.1, {' '}).value;
    var lead, behind1 := TokenSplits(line);
    var gap, behind2 := TokenSplits(t1.1);
    var space, behind3 := TokenSplits(t2.1);
    SpaceInFront(t1.1, gap, t2.0 + behind2);
    SpaceInFront(t2.1, space, t3.0 + behind3);
    w := Words(lead, t1.0, [' '] + gap, t2.0, [' '] + space, t3.0, behind3);
    WordsCover(w, behind1, behind2);
  }

  lemma HeaderLineParses(h: (string, string))
    requires Clean(h.0, {':', ' '}) && Clean(h.1, {})
    ensures ParseHeaderLine(HeaderLine(h)) == Some(h)
  {
    hide Token;
    assert HeaderLine(h) == h.0 + [':'] + h.1;
    TokenBefore(h.0, ':', h.1, {':', ' '});
    TokenBefore(h.1, CR, "", {CR, LF});
  }

  lemma HeaderSteps(r: Request, h: (string, string))
    requires Clean(h.0, {':', ' '}) && Clean(h.1, {})
    ensures StepLine(AwaitHeaders(r), HeaderLine(h) + [CR]) == AwaitHeaders(r.(headers := r.headers + [h]))
    ensures forall c :: c in HeaderLine(h) ==> c !in {LF, NUL}
  {
    hide ParseHeaderLine;
    HeaderLineParses(h);
  }

  lemma BlankLineSteps(r: Request)
    ensures StepLine(AwaitHeaders(r), "" + [CR]) == Complete(r)
  {
    hide ParseHeaderLine;
  }

  lemma {:induction false} HeadersParse(r: Request, headers: seq<(string, string)>, behind: string)
    requires forall h :: h in headers ==> Clean(h.0, {':', ' '}) && Clean(h.1, {})
    ensures Run(AwaitHeaders(r), WriteHeaders(headers) + behind) ==
      (Complete(r.(headers := r.headers + headers)), behind)
    decreases |headers|
  {
    hide StepLine, HeaderLine, Run;
    if headers == [] {
      RunOneLine(AwaitHeaders(r), "", behind);
      BlankLineSteps(r);
      assert "" + [CR, LF] + behind == WriteHeaders(headers) + behind;
      assert r.headers + headers == r.headers;
      HttpChunking.FinalRunStays(Complete(r), behind);
    } else {
      var h, rest := headers[0], headers[1..];
      assert h in headers;
      HeaderSteps(r, h);
      RunOneLine(AwaitHeaders(r), HeaderLine(h), WriteHeaders(rest) + behind);
      assert WriteHeaders(headers) + behind == HeaderLine(h) + [CR, LF] + (WriteHeaders(rest) + behind);
      var next := r.(headers := r.headers + [h]);
      HeadersParse(next, rest, behind);
      assert next.headers + rest == r.headers + headers;
    }
  }

  /** What is written is what is dispatched: verb, path, protocol, and the headers in order. Bytes behind the
      request are not looked at. */
  lemma WriteThenParse(r: Request, behind: string)
    requires Writable(r)
    ensures Run(AwaitMethod, Write(r) + behind) == (Complete(r), behind)
    ensures Feed(FRESH, Write(r) + behind) == Dispatched(r)
  {
    hide Run, ParseMethodLine;
    MethodLineParses(r);
    var line := MethodLine(r);
    forall c | c in line ensures c !in {LF, NUL} {
      var k :| 0 <= k < |METHODS| && METHODS[k] == r.verb;
      CanonicalIsItself(k);
    }
    RunOneLine(AwaitMethod, line, WriteHeaders(r.headers) + behind);
    assert Write(r) + behind == line + [CR, LF] + (WriteHeaders(r.headers) + behind);
    var bare := r.(headers := []);
    HeadersParse(bare, r.headers, behind);
    assert bare.headers + r.headers == r.headers;
    assert "" + (Write(r) + behind) == Write(r) + behind;
  }

  lemma LineFeedsAfterLine(line: string, rest: string)
    requires LF !in line && HttpChunking.EveryLineFeedFollowsCr(rest)
    requires rest == "" || rest[0] != LF
    ensures HttpChunking.EveryLineFeedFollowsCr(line + [CR, LF] + rest)
  {
    var s := line + [CR, LF] + rest;
    forall i | 0 <= i < |s| && s[i] == LF ensures i > 0 && s[i - 1] == CR {
      if i >= |line| + 2 {
        assert s[i] == rest[i - |line| - 2];
      }
    }
  }

  lemma {:induction false} WrittenLineFeedsFollowCr(headers: seq<(string, string)>)
    requires forall h :: h in headers ==> Clean(h.0, {':', ' '}) && Clean(h.1, {})
    ensures HttpChunking.EveryLineFeedFollowsCr(WriteHeaders(headers)) && WriteHeaders(headers)[0] != LF
    decreases |headers|
  {
    if headers != [] {
      assert headers[0] in headers;
      WrittenLineFeedsFollowCr(headers[1..]);
      LineFeedsAfterLine(HeaderLine(headers[0]), WriteHeaders(headers[1..]));
    }
  }

  lemma WrittenIsCrlf(r: Request)
    requires Writable(r)
    ensures HttpChunking.EveryLineFeedFollowsCr(Write(r))
  {
    hide HttpChunking.EveryLineFeedFollowsCr;
    WrittenLineFeedsFollowCr(r.headers);
    var k :| 0 <= k < |METHODS| && METHODS[k] == r.verb;
    CanonicalIsItself(k);
    assert LF !in MethodLine(r);
    LineFeedsAfterLine(MethodLine(r), WriteHeaders(r.headers));
  }

  /** The same, however the written bytes are cut into reads. */
  lemma WriteThenParseAnySplit(r: Request, chunks: seq<string>)
    requires Writable(r) && Concat(chunks) == Write(r)
    ensures FeedAll(FRESH, chunks) == Dispatched(r)
  {
    hide *;
    assert Write(r) + "" == Write(r);
    WriteThenParse(r, "");
    WrittenIsCrlf(r);
    HttpChunking.CrlfChunkingIndependence(chunks);
  }
}
