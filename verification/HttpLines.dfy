/** Which lines the request parser accepts, by the shape of the text alone. */
module HttpLines {
  import opened Text
  import opened HttpRequest
  import HttpChunking
  import HttpRoundTrip

  // One header line.

  predicate Made(s: string, members: set<char>) { forall i :: 0 <= i < |s| ==> s[i] in members }

  predicate Word(s: string, stops: set<char>) { s != "" && forall i :: 0 <= i < |s| ==> s[i] !in stops }

  /** A line cut into what the tokenizer skips, the key, the character it overwrites, skipped line ends, the value,
      and what is behind it. */
  datatype HeaderWords = HeaderWords(
    lead: string, key: string, gap: char, ends: string, value: string, behind: string)

  predicate Splits(line: string, w: HeaderWords) {
    && line == w.lead + (w.key + ([w.gap] + (w.ends + (w.value + w.behind))))
    && Made(w.lead, {':', ' '}) && Word(w.key, {':', ' '}) && w.gap in {':', ' '}
    && Made(w.ends, {CR, LF}) && Word(w.value, {CR, LF}) && (w.behind != "" ==> w.behind[0] in {CR, LF})
  }

  lemma TokenAfter(lead: string, word: string, behind: string, delims: set<char>)
    requires Made(lead, delims) && Word(word, delims) && (behind != "" ==> behind[0] in delims)
    ensures Token(lead + (word + behind), delims) == Some((word, if behind == "" then "" else behind[1..]))
  {
    hide Token;
    var s := lead + (word + behind);
    var b, e := |lead|, |lead| + |word|;
    assert s[b..e] == word && s[e..] == behind;
    assert forall i :: 0 <= i < b ==> s[i] == lead[i];
    assert forall i :: b <= i < e ==> s[i] == word[i - b];
    assert e < |s| ==> s[e] == behind[0] && s[e + 1..] == behind[1..];
    TokenFound(s, delims, b, e);
  }

  lemma TokenSplits(s: string, delims: set<char>) returns (lead: string, behind: string)
    requires Token(s, delims).Some?
    ensures var t := Token(s, delims).value;
      && Made(lead, delims) && Word(t.0, delims) && s == lead + (t.0 + behind)
      && (if behind == "" then t.1 == "" else behind[0] in delims && t.1 == behind[1..])
  {
    hide Skip, Span;
    var b := Skip(s, delims);
    var n := Span(s[b..], delims);
    lead, behind := s[..b], s[b + n..];
    assert s[b..b + n] == s[b..][..n];
    if behind != "" {
      assert s[b..][n] == behind[0] && behind[1..] == s[b + n + 1..];
    }
  }

  /** A line of that shape is accepted, with its key and its value. */
  lemma HeaderLineExactly(line: string, w: HeaderWords)
    requires Splits(line, w)
    ensures ParseHeaderLine(line) == Some((w.key, w.value))
  {
    hide Token, Made, Word;
    var behind := w.ends + (w.value + w.behind);
    TokenAfter(w.lead, w.key, [w.gap] + behind, {':', ' '});
    assert ([w.gap] + behind)[1..] == behind;
    TokenAfter(w.ends, w.value, w.behind, {CR, LF});
  }

  lemma NothingBehind(delims: set<char>)
    ensures Token("", delims).None?
  {
  }

  /** No other line is: an accepted one has a key and something behind it. */
  lemma AcceptedHeaderSplits(line: string) returns (w: HeaderWords)
    requires ParseHeaderLine(line).Some?
    ensures Splits(line, w)
  {
    hide Token, Made, Word;
    NothingBehind({CR, LF});
    var t1 := Token(line, {':', ' '}).value;
    var lead, rest := TokenSplits(line, {':', ' '});
    var ends, behind := TokenSplits(t1.1, {CR, LF});
    var value := Token(t1.1, {CR, LF}).value.0;
    w := HeaderWords(lead, t1.0, rest[0], ends, value, behind);
    assert rest == [rest[0]] + rest[1..];
  }

  /** Exact condition: a header line is accepted if and only if it has that shape. */
  lemma HeaderAcceptedExactly(line: string)
    ensures ParseHeaderLine(line).Some? <==> exists w :: Splits(line, w)
  {
    hide ParseHeaderLine, Splits;
    if ParseHeaderLine(line).Some? {
      var w := AcceptedHeaderSplits(line);
    }
    if w :| Splits(line, w) {
      HeaderLineExactly(line, w);
    }
  }

  // Whole requests.

  /** A line without its end. */
  predicate Plain(line: string) {
    LF !in line && NUL !in line && (line != "" ==> line[|line| - 1] != CR)
  }

  predicate LineEnd(eol: string) { eol == [LF] || eol == [CR, LF] }

  /** Header lines and the blank line. */
  function Block(headers: seq<string>, eol: string): string
    decreases |headers|
  {
    if headers == [] then eol else headers[0] + eol + Block(headers[1..], eol)
  }

  /** The keys and values of header lines, if all are accepted. */
  function KeysAndValues(headers: seq<string>): Option<seq<(string, string)>>
    decreases |headers|
  {
    if headers == [] then Some([])
    else
      var kv, rest := ParseHeaderLine(headers[0]), KeysAndValues(headers[1..]);
      if kv.None? || rest.None? then None else Some([kv.value] + rest.value)
  }

  lemma LineEnds(phase: Phase, line: string, eol: string, rest: string)
    requires !phase.Final() && Plain(line) && LineEnd(eol)
    ensures var ended := if eol == [LF] then line else line + [CR];
      && Run(phase, line + eol + rest) == Run(StepLine(phase, ended), rest)
      && Chomp(ended) == line
  {
    hide StepLine, Span;
    if eol == [LF] {
      var u := line + eol + rest;
      forall i | 0 <= i < |line| ensures u[i] !in {LF, NUL} {
        assert u[i] == line[i] && line[i] in line;
      }
      SpanUnique(u, {LF, NUL}, |line|);
      assert u[..|line|] == line && u[|line| + 1..] == rest;
    } else {
      HttpRoundTrip.RunOneLine(phase, line, rest);
    }
  }

  /** One line, as the parser decides on it. */
  lemma FirstLineDecides(line: string, eol: string, rest: string)
    requires Plain(line) && LineEnd(eol)
    ensures Run(AwaitMethod, line + eol + rest) ==
      match ParseMethodLine(line)
      case None => (Rejected, rest)
      case Some(r) => Run(AwaitHeaders(r), rest)
  {
    hide ParseMethodLine, ParseHeaderLine, Run, Plain, Chomp;
    LineEnds(AwaitMethod, line, eol, rest);
    RunStops(Rejected, rest);
  }

  lemma HeaderLineDecides(r: Request, line: string, eol: string, rest: string)
    requires Plain(line) && LineEnd(eol)
    ensures Run(AwaitHeaders(r), line + eol + rest) ==
      if line == "" then (Complete(r), rest)
      else
        match ParseHeaderLine(line)
        case None => (Rejected, rest)
        case Some(kv) => Run(AwaitHeaders(r.(headers := r.headers + [kv])), rest)
  {
    hide ParseMethodLine, ParseHeaderLine, Run, Plain, Chomp;
    LineEnds(AwaitHeaders(r), line, eol, rest);
    RunStops(Rejected, rest);
    RunStops(Complete(r), rest);
  }

  lemma {:induction false} BlockDecides(r: Request, headers: seq<string>, eol: string, behind: string)
    requires LineEnd(eol) && forall i :: 0 <= i < |headers| ==> Plain(headers[i]) && headers[i] != ""
    ensures Outcome(Run(AwaitHeaders(r), Block(headers, eol) + behind)) == HeadersGive(r, headers)
    decreases |headers|
  {
    hide ParseHeaderLine, Run, Plain, LineEnd, Block, KeysAndValues, HeadersGive;
    BlockStarts(headers, eol, behind);
    if headers == [] {
      EmptyIsPlain();
      HeaderLineDecides(r, "", eol, behind);
      NothingGiven(r);
    } else {
      var rest := Block(headers[1..], eol) + behind;
      HeaderLineDecides(r, headers[0], eol, rest);
      GivenFirst(r, headers);
      var kv := ParseHeaderLine(headers[0]);
      if kv.Some? {
        BlockDecides(r.(headers := r.headers + [kv.value]), headers[1..], eol, behind);
      }
    }
  }

  /** The outcome of header lines behind those `r` already has. */
  function HeadersGive(r: Request, headers: seq<string>): ClientState {
    match KeysAndValues(headers)
    case None => Refused
    case Some(kvs) => Dispatched(r.(headers := r.headers + kvs))
  }

  lemma NothingGiven(r: Request)
    ensures HeadersGive(r, []) == Dispatched(r)
  {
    assert r.headers + [] == r.headers;
  }

  lemma GivenFirst(r: Request, headers: seq<string>)
    requires headers != []
    ensures HeadersGive(r, headers) ==
      match ParseHeaderLine(headers[0])
      case None => Refused
      case Some(kv) => HeadersGive(r.(headers := r.headers + [kv]), headers[1..])
  {
    hide ParseHeaderLine;
    var kv, rest := ParseHeaderLine(headers[0]), KeysAndValues(headers[1..]);
    if kv.Some? && rest.Some? {
      assert r.headers + [kv.value] + rest.value == r.headers + ([kv.value] + rest.value);
    }
  }

  lemma BlockStarts(headers: seq<string>, eol: string, behind: string)
    ensures headers == [] ==> Block(headers, eol) + behind == "" + eol + behind
    ensures headers != [] ==>
      Block(headers, eol) + behind == headers[0] + eol + (Block(headers[1..], eol) + behind)
  {
  }

  lemma EmptyIsPlain()
    ensures Plain("")
  {
  }

  /** Exact condition: a request of whole lines, ended by line feeds with or without carriage returns, is
      dispatched if and only if its first line and every header line are accepted, and refused otherwise. */
  lemma RequestTextExactly(first: string, headers: seq<string>, eol: string, behind: string)
    requires Plain(first) && LineEnd(eol) && forall i :: 0 <= i < |headers| ==> Plain(headers[i]) && headers[i] != ""
    ensures Feed(FRESH, first + eol + (Block(headers, eol) + behind)) ==
      if ParseMethodLine(first).None? || KeysAndValues(headers).None? then Refused
      else Dispatched(ParseMethodLine(first).value.(headers := KeysAndValues(headers).value))
  {
    hide ParseMethodLine, KeysAndValues, Run, Plain, LineEnd, Block;
    var rest := Block(headers, eol) + behind;
    FirstLineDecides(first, eol, rest);
    assert "" + (first + eol + rest) == first + eol + rest;
    var r := ParseMethodLine(first);
    if r.Some? {
      BlockDecides(r.value, headers, eol, behind);
      FirstLineBare(first);
      if KeysAndValues(headers).Some? {
        assert [] + KeysAndValues(headers).value == KeysAndValues(headers).value;
      }
    }
  }

  lemma FirstLineBare(line: string)
    ensures ParseMethodLine(line).Some? ==> ParseMethodLine(line).value.headers == []
  {
  }
}
