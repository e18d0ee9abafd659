/** The line-by-line scan of a PTX listing in tools/cuda-api.c: which kernels it declares, and with how many
    parameters. Assertions are enabled: a failed one ends the scan. */
module PtxScan {
  import opened Text
  import opened CStrings

  datatype Stage = Invalid | Unknown | Begin | Params | Final

  /** cuda_function_description_t */
  datatype Desc = Desc(name: string, params: int, index: int, stage: Stage)

  const BLANK := Desc("", 0, 0, Unknown)

  const MAX_LINE: nat := 4096
  const MAX_NAME: nat := 200

  function BeforeComment(line: string): (text: string)
    ensures text <= line
  {
    var i := Find(line, "//");
    if i.None? then line else line[..i.value]
  }

  /** The name a declaration line gives: between ".entry " and the last opening parenthesis. The pointer
      trim returns is dropped, so only trailing blanks go. */
  function HeaderName(text: string): (name: Option<string>)
    ensures name.Some? ==> name.value != ""
  {
    if !Contains(text, ".visible") then None
    else
      var open := FindLast(text, '(');
      if open.None? then None
      else
        var head := text[..open.value];
        var entry := Find(head, ".entry ");
        if entry.None? then None
        else
          assert |".entry "| == 7;
          var name := TrimmedInPlace(head[entry.value + 7..]);
          if name == "" then None else Some(name)
  }

  datatype Parsed = Parsed(desc: Desc, returned: Stage) | Abort

  /** cuda_function_description_parse_partial */
  function ParsePartial(desc: Desc, line: string): Parsed {
    if line == "" then Parsed(desc, Invalid)
    else if |line| >= MAX_LINE then Abort
    else
      var text := BeforeComment(line);
      var d := if desc.stage.Final? then BLANK else desc;
      if d.stage.Invalid? || d.stage.Unknown? then
        var name := HeaderName(text);
        if name.None? then Parsed(d, Invalid)
        else if |name.value| >= MAX_NAME then Abort
        else Parsed(d.(name := name.value, stage := Begin), Begin)
      else if ')' in text then
        if d.params > 0 then Parsed(d.(stage := Final), Final) else Abort
      else
        Parsed(d.(params := d.params + Counted(text), stage := Params), Params)
  }

  /** The parser's assertions: a line of 4096 characters, a name of 200, and a list closed without a parameter. */
  lemma AssertionsExactly(desc: Desc, line: string)
    ensures var text := BeforeComment(line);
      ParsePartial(desc, line).Abort? <==>
        || |line| >= 4096
        || (line != "" && !desc.stage.Begin? && !desc.stage.Params?
            && HeaderName(text).Some? && |HeaderName(text).value| >= 200)
        || ((desc.stage.Begin? || desc.stage.Params?) && ')' in text && desc.params <= 0)
  {
    hide HeaderName;
  }

  function Counted(text: string): nat { if Contains(text, ".param") then 1 else 0 }

  /** The descriptions handed to add_function, and whether the scan reached the end. */
  datatype Scanned = Found(descs: seq<Desc>) | Aborted(descs: seq<Desc>)

  function Prepend(descs: seq<Desc>, s: Scanned): Scanned { s.(descs := descs + s.descs) }

  /** The loop over the lines of the listing. */
  function Scan(desc: Desc, lines: seq<string>): Scanned
    decreases |lines|
  {
    if lines == [] then Found([])
    else
      match ParsePartial(desc, lines[0])
      case Abort => Aborted([])
      case Parsed(d, returned) =>
        if returned.Final? then Prepend([d], Scan(BLANK, lines[1..])) else Scan(d, lines[1..])
  }

  // Listings.

  /** A declaration line: the name stands before its last opening parenthesis. */
  datatype Declaration = Declaration(before: string, name: string, blanks: string, after: string, comment: string)

  /** A line that declares nothing; a kernel whose parameter list is closed on a line of its own, behind any lines
      without a closing parenthesis; a kernel whose list is closed on its declaration line. */
  datatype Item =
    | Other(line: string)
    | Kernel(decl: Declaration, body: seq<string>, close: string)
    | OneLine(decl: Declaration)

  function HeaderText(d: Declaration): string {
    d.before + ".entry " + (d.name + d.blanks) + "(" + d.after
  }

  function HeaderLine(d: Declaration): string { HeaderText(d) + d.comment }

  /** No comment starts in `s`, nor with its last character and a slash. */
  predicate NoComment(s: string) {
    (s != "" ==> s[|s| - 1] != '/') && forall i :: 0 <= i < |s| - 1 ==> !(s[i] == '/' && s[i + 1] == '/')
  }

  predicate ValidComment(s: string) { s == "" || "//" <= s }

  predicate ValidDeclaration(d: Declaration) {
    && d.name != "" && |d.name| < MAX_NAME && NoEdgeBlanks(d.name) && '(' !in d.after && AllWhite(d.blanks)
    && Contains(d.before, ".visible") && !Contains(d.before, ".entry ")
    && NoComment(HeaderText(d)) && ValidComment(d.comment) && |HeaderLine(d)| < MAX_LINE
  }

  predicate DeclaresNothing(line: string) { |line| < MAX_LINE && HeaderName(BeforeComment(line)).None? }

  predicate Closes(line: string) { ')' in BeforeComment(line) }

  predicate ValidItem(item: Item) {
    match item
    case Other(line) => DeclaresNothing(line)
    case Kernel(decl, body, close) =>
      && ValidDeclaration(decl) && ')' !in HeaderText(decl)
      && (forall i :: 0 <= i < |body| ==> DeclaresNothing(body[i]) && !Closes(body[i]))
      && DeclaresNothing(close) && Closes(close)
    case OneLine(decl) => ValidDeclaration(decl) && ')' in decl.after
  }

  predicate ValidListing(items: seq<Item>) { forall i :: 0 <= i < |items| ==> ValidItem(items[i]) }

  /** The lines an item is written as. */
  function ItemLines(item: Item): seq<string> {
    match item
    case Other(line) => [line]
    case Kernel(decl, body, close) => [HeaderLine(decl)] + body + [close]
    case OneLine(decl) => [HeaderLine(decl)]
  }

  function ListingLines(items: seq<Item>): seq<string>
    decreases |items|
  {
    if items == [] then [] else ItemLines(items[0]) + ListingLines(items[1..])
  }

  /** What the parser counts for a line. */
  function LineParams(line: string): nat { Counted(BeforeComment(line)) }

  /** The number of lines with a parameter. */
  function ParamLines(body: seq<string>): nat
    decreases |body|
  {
    if body == [] then 0 else LineParams(body[0]) + ParamLines(body[1..])
  }

  // What a listing declares.

  function Occurrences(text: string, p: string): nat {
    if text == "" then 0 else (if p <= text then 1 else 0) + Occurrences(text[1..], p)
  }

  /** The parameters a piece of text lists, up to a closing parenthesis. */
  function Listed(text: string): nat { Occurrences(text[..Span(text, {')'})], ".param") }

  function ListedAll(body: seq<string>): nat
    decreases |body|
  {
    if body == [] then 0 else Listed(BeforeComment(body[0])) + ListedAll(body[1..])
  }

  /** The number of parameters a kernel is declared with, wherever they stand. */
  function DeclaredParams(k: Item): nat
    requires !k.Other?
  {
    match k
    case Kernel(decl, body, close) => Listed(decl.after) + ListedAll(body) + Listed(BeforeComment(close))
    case OneLine(decl) => Listed(decl.after)
  }

  /** Every kernel of a listing, in order. */
  function Declared(items: seq<Item>): (descs: seq<Desc>)
    ensures |descs| <= |items|
    decreases |items|
  {
    if items == [] then []
    else if items[0].Other? then Declared(items[1..])
    else [Desc(items[0].decl.name, DeclaredParams(items[0]), 0, Final)] + Declared(items[1..])
  }

  // What the scan makes of it.

  function Begun(name: string): (d: Desc)
    ensures d.stage.Begin?
  {
    Desc(name, 0, 0, Begin)
  }

  /** A closing parenthesis behind the lines counted into `d`. */
  function Hand(d: Desc, rest: Scanned): Scanned {
    if d.params > 0 then Prepend([d.(stage := Final)], rest) else Aborted([])
  }

  /** A kernel declared while the list of another is taken to be open goes into that list. */
  function Swallowed(k: Item, d: Desc): Desc
    requires !k.Other?
  {
    match k
    case Kernel(decl, body, _) => d.(params := d.params + Counted(HeaderText(decl)) + ParamLines(body))
    case OneLine(_) => d
  }

  /** The scan from one item to the next; `open` is a kernel whose list it still takes to be open. */
  function Handed(items: seq<Item>, open: Option<Desc>): Scanned
    decreases |items|
  {
    if items == [] then Found([])
    else
      var rest := items[1..];
      match (items[0], open)
      case (Other(line), None) => Handed(rest, None)
      case (Kernel(decl, body, _), None) =>
        Hand(Begun(decl.name).(params := ParamLines(body)), Handed(rest, None))
      case (OneLine(decl), None) => Handed(rest, Some(Begun(decl.name)))
      case (Other(line), Some(d)) =>
        if Closes(line) then Hand(d, Handed(rest, None))
        else Handed(rest, Some(d.(params := d.params + LineParams(line))))
      case (_, Some(d)) => Hand(Swallowed(items[0], d), Handed(rest, None))
  }

  /** Parameters stand on lines of their own between declaration and closing line. */
  predicate OwnLines(k: Item)
    requires !k.Other?
  {
    match k
    case Kernel(decl, body, close) =>
      && Listed(decl.after) == 0 && Listed(BeforeComment(close)) == 0
      && forall i :: 0 <= i < |body| ==> Listed(BeforeComment(body[i])) <= 1
    case OneLine(decl) => Listed(decl.after) == 0
  }

  /** Lines that declare nothing follow, `missing` of them with a parameter, then one with a closing parenthesis. */
  predicate MadeUp(items: seq<Item>, missing: int)
    decreases |items|
  {
    && items != [] && items[0].Other?
    && var line := items[0].line;
      if Closes(line) then missing == 0 else MadeUp(items[1..], missing - LineParams(line))
  }

  /** Each kernel closed on a line of its own has parameters, on lines of their own, and each closed on its
      declaration line has parameters, as many as the lines behind it happen to make up for. */
  predicate Right(items: seq<Item>)
    decreases |items|
  {
    items != [] ==>
      && (match items[0]
          case Other(_) => true
          case Kernel(_, body, _) => OwnLines(items[0]) && ParamLines(body) > 0
          case OneLine(decl) => Listed(decl.after) > 0 && MadeUp(items[1..], Listed(decl.after)))
      && Right(items[1..])
  }

  lemma CommentCutOff(text: string, comment: string)
    requires NoComment(text) && ValidComment(comment)
    ensures BeforeComment(text + comment) == text
  {
    hide Find, At;
    var line := text + comment;
    forall j: nat | j < |text| ensures !At(line, j, "//") {
      if text[j] != '/' {
        NotAt(line, j, "//", 0);
      } else {
        NotAt(line, j, "//", 1);
      }
    }
    if comment != "" {
      assert line[|text|..|text| + 2] == comment[..2] == "//";
      IsAt(line, |text|, "//");
      FindIs(line, "//", |text|);
    } else {
      assert line == text;
      forall j: nat | j >= |text| ensures !At(text, j, "//") {
        NotAt(text, j, "//", 0);
      }
    }
  }

  /** ".entry " cannot start inside itself, so the first one is where it was written. */
  lemma FirstEntry(before: string, rest: string)
    requires !Contains(before, ".entry ")
    ensures Find(before + ".entry " + rest, ".entry ") == Some(|before|)
  {
    hide Find;
    var p := ".entry ";
    var s := before + p + rest;
    assert s[|before|..|before| + 7] == p;
    forall j: nat | j < |before| ensures !At(s, j, p) {
      if j + 7 <= |before| {
        assert !At(before, j, p) && before[j..j + 7] == s[j..j + 7];
      } else {
        assert s[|before|] == '.' != p[|before| - j];
        NotAt(s, j, p, |before| - j);
      }
    }
    FindIs(s, p, |before|);
  }

  lemma NameBetween(before: string, padded: string, after: string)
    requires Contains(before, ".visible") && !Contains(before, ".entry ") && '(' !in after
    requires TrimmedInPlace(padded) != ""
    ensures HeaderName(before + ".entry " + padded + "(" + after) == Some(TrimmedInPlace(padded))
  {
    hide Find, FindLast, At, TrimmedInPlace;
    var head := before + ".entry " + padded;
    var text := head + ['('] + after;
    assert before + ".entry " + padded + "(" + after == text;
    FindLastIs(head, '(', after);
    assert text[..|head|] == head;
    FirstEntry(before, padded);
    assert head[|before| + 7..] == padded;
    assert text == "" + before + (".entry " + padded + "(" + after);
    ContainsWithin("", before, ".entry " + padded + "(" + after, ".visible");
  }

  lemma HeaderGivesName(d: Declaration)
    requires ValidDeclaration(d)
    ensures HeaderName(HeaderText(d)) == Some(d.name)
  {
    hide Contains, TrimmedInPlace, NoComment, HeaderName;
    var padded := d.name + d.blanks;
    TrimPadded("", d.name, d.blanks);
    assert "" + d.name + d.blanks == padded && "" + d.name == d.name;
    NameBetween(d.before, padded, d.after);
  }

  lemma HeaderParses(d: Declaration)
    requires ValidDeclaration(d)
    ensures BeforeComment(HeaderLine(d)) == HeaderText(d) && 0 < |HeaderLine(d)| < MAX_LINE
    ensures ParsePartial(BLANK, HeaderLine(d)) == Parsed(Begun(d.name), Begin)
  {
    hide HeaderName, BeforeComment, NoComment, Contains;
    CommentCutOff(HeaderText(d), d.comment);
    HeaderGivesName(d);
  }

  /** Begin and Params scan alike. */
  lemma {:induction false} StageIrrelevant(d: Desc, lines: seq<string>)
    requires d.stage.Begin?
    ensures Scan(d.(stage := Params), lines) == Scan(d, lines)
    decreases |lines|
  {
    hide BeforeComment, Contains;
    if lines != [] && lines[0] == "" {
      StageIrrelevant(d, lines[1..]);
    }
  }

  /** One line in an open parameter list. */
  lemma LineScans(d: Desc, line: string, rest: seq<string>)
    requires d.stage.Begin? && |line| < MAX_LINE
    ensures Scan(d, [line] + rest) ==
      if Closes(line) then Hand(d, Scan(BLANK, rest))
      else Scan(d.(params := d.params + LineParams(line)), rest)
  {
    hide BeforeComment, Contains;
    assert ([line] + rest)[1..] == rest;
    if line == "" {
      NothingCounted();
    } else if !Closes(line) {
      StageIrrelevant(d.(params := d.params + LineParams(line)), rest);
    }
  }

  lemma NothingCounted()
    ensures LineParams("") == 0 && !Closes("")
  {
    assert BeforeComment("") == "" && !(".param" <= "");
  }

  /** Lines without a closing parenthesis are counted by their parameters. */
  lemma {:induction false} BodyScans(d: Desc, body: seq<string>, rest: seq<string>)
    requires d.stage.Begin?
    requires forall i :: 0 <= i < |body| ==> |body[i]| < MAX_LINE && !Closes(body[i])
    ensures Scan(d, body + rest) == Scan(d.(params := d.params + ParamLines(body)), rest)
    decreases |body|
  {
    hide Closes, BeforeComment, Counted, Scan;
    if body == [] {
      assert body + rest == rest;
    } else {
      LineScans(d, body[0], body[1..] + rest);
      assert body + rest == [body[0]] + (body[1..] + rest);
      BodyScans(d.(params := d.params + LineParams(body[0])), body[1..], rest);
    }
  }

  lemma HeaderScans(d: Declaration, rest: seq<string>)
    requires ValidDeclaration(d)
    ensures Scan(BLANK, [HeaderLine(d)] + rest) == Scan(Begun(d.name), rest)
  {
    hide ParsePartial, ValidDeclaration, HeaderText, HeaderLine;
    HeaderParses(d);
    assert ([HeaderLine(d)] + rest)[1..] == rest;
  }

  /** Body and closing line of a kernel. */
  lemma ListScans(d: Desc, body: seq<string>, close: string, rest: seq<string>)
    requires d.stage.Begin?
    requires forall i :: 0 <= i < |body| ==> |body[i]| < MAX_LINE && !Closes(body[i])
    requires |close| < MAX_LINE && Closes(close)
    ensures Scan(d, body + ([close] + rest)) == Hand(d.(params := d.params + ParamLines(body)), Scan(BLANK, rest))
  {
    hide Closes, BeforeComment, Scan, ParamLines, Hand;
    BodyScans(d, body, [close] + rest);
    LineScans(d.(params := d.params + ParamLines(body)), close, rest);
  }

  lemma KernelScans(k: Item, rest: seq<string>)
    requires k.Kernel? && ValidItem(k)
    ensures Scan(BLANK, ItemLines(k) + rest) ==
      Hand(Begun(k.decl.name).(params := ParamLines(k.body)), Scan(BLANK, rest))
  {
    hide Closes, Scan, BeforeComment, HeaderLine, ValidDeclaration, HeaderName, ParamLines, Hand;
    assert ItemLines(k) + rest == [HeaderLine(k.decl)] + (k.body + ([k.close] + rest));
    HeaderScans(k.decl, k.body + ([k.close] + rest));
    ListScans(Begun(k.decl.name), k.body, k.close, rest);
  }

  lemma HeaderSwallowed(d: Desc, decl: Declaration, rest: seq<string>)
    requires d.stage.Begin? && ValidDeclaration(decl)
    ensures Scan(d, [HeaderLine(decl)] + rest) ==
      if ')' in HeaderText(decl) then Hand(d, Scan(BLANK, rest))
      else Scan(d.(params := d.params + Counted(HeaderText(decl))), rest)
  {
    hide Scan, BeforeComment, HeaderLine, HeaderText, ValidDeclaration, ParsePartial, Counted, Hand;
    HeaderParses(decl);
    LineScans(d, HeaderLine(decl), rest);
  }

  lemma KernelSwallowed(d: Desc, k: Item, rest: seq<string>)
    requires d.stage.Begin? && k.Kernel? && ValidItem(k)
    ensures Scan(d, ItemLines(k) + rest) == Hand(Swallowed(k, d), Scan(BLANK, rest))
  {
    hide Closes, Scan, BeforeComment, HeaderLine, HeaderText, HeaderName, ValidDeclaration, Counted, ParamLines, Hand;
    var behind := k.body + ([k.close] + rest);
    assert ItemLines(k) + rest == [HeaderLine(k.decl)] + behind;
    HeaderSwallowed(d, k.decl, behind);
    ListScans(d.(params := d.params + Counted(HeaderText(k.decl))), k.body, k.close, rest);
  }

  lemma OneLineScans(k: Item, rest: seq<string>)
    requires k.OneLine? && ValidItem(k)
    ensures Scan(BLANK, ItemLines(k) + rest) == Scan(Begun(k.decl.name), rest)
  {
    hide Scan, ValidDeclaration;
    HeaderScans(k.decl, rest);
  }

  lemma OneLineCloses(d: Desc, k: Item, rest: seq<string>)
    requires d.stage.Begin? && k.OneLine? && ValidItem(k)
    ensures Scan(d, ItemLines(k) + rest) == Hand(Swallowed(k, d), Scan(BLANK, rest))
  {
    hide Scan, ValidDeclaration, HeaderLine, Hand;
    HeaderSwallowed(d, k.decl, rest);
  }

  lemma OtherScans(line: string, rest: seq<string>)
    requires DeclaresNothing(line)
    ensures Scan(BLANK, [line] + rest) == Scan(BLANK, rest)
  {
    hide HeaderName, BeforeComment;
    assert ([line] + rest)[1..] == rest;
  }

  lemma NothingScans(d: Desc)
    ensures Scan(d, ListingLines([])) == Found([]) == Handed([], None) == Handed([], Some(d))
    ensures Declared([]) == [] && Right([])
  {
  }

  lemma FirstItem(items: seq<Item>)
    requires items != [] && ValidListing(items)
    ensures ValidItem(items[0]) && ValidListing(items[1..])
    ensures ListingLines(items) == ItemLines(items[0]) + ListingLines(items[1..])
    ensures items[0].Other? ==> ItemLines(items[0]) == [items[0].line] && DeclaresNothing(items[0].line)
    ensures items[0].Other? ==> |items[0].line| < MAX_LINE
  {
  }

  lemma HandedNext(items: seq<Item>)
    requires items != []
    ensures var rest := Handed(items[1..], None);
      match items[0]
      case Other(_) => Handed(items, None) == rest
      case Kernel(decl, body, _) => Handed(items, None) == Hand(Begun(decl.name).(params := ParamLines(body)), rest)
      case OneLine(decl) => Handed(items, None) == Handed(items[1..], Some(Begun(decl.name)))
  {
    hide Hand, ParamLines;
  }

  /** The scan of the lines of any listing, item by item. */
  lemma {:induction false} ScanHands(items: seq<Item>)
    requires ValidListing(items)
    ensures Scan(BLANK, ListingLines(items)) == Handed(items, None)
    decreases |items|
  {
    hide *;
    if items == [] {
      NothingScans(BLANK);
      return;
    }
    FirstItem(items);
    HandedNext(items);
    match items[0]
    case Other(line) =>
      OtherScans(line, ListingLines(items[1..]));
      ScanHands(items[1..]);
    case Kernel(_, _, _) =>
      KernelScans(items[0], ListingLines(items[1..]));
      ScanHands(items[1..]);
    case OneLine(decl) =>
      OneLineScans(items[0], ListingLines(items[1..]));
      OpenScanHands(items[1..], Begun(decl.name));
  }

  lemma HandedOpen(items: seq<Item>, d: Desc)
    requires items != []
    ensures var rest := Handed(items[1..], None);
      match items[0]
      case Other(line) =>
        Handed(items, Some(d)) ==
          if Closes(line) then Hand(d, rest)
          else Handed(items[1..], Some(d.(params := d.params + LineParams(line))))
      case _ => Handed(items, Some(d)) == Hand(Swallowed(items[0], d), rest)
  {
    hide Hand, Swallowed, Closes, Counted, BeforeComment;
  }

  lemma FirstLineScans(items: seq<Item>, line: string, d: Desc)
    requires items != [] && items[0] == Other(line) && ValidListing(items) && d.stage.Begin?
    ensures Scan(d, ListingLines(items)) ==
      if Closes(line) then Hand(d, Scan(BLANK, ListingLines(items[1..])))
      else Scan(d.(params := d.params + LineParams(line)), ListingLines(items[1..]))
  {
    hide *;
    FirstItem(items);
    LineScans(d, line, ListingLines(items[1..]));
  }

  lemma {:induction false} OpenScanHands(items: seq<Item>, d: Desc)
    requires ValidListing(items) && d.stage.Begin?
    ensures Scan(d, ListingLines(items)) == Handed(items, Some(d))
    decreases |items|
  {
    hide *;
    if items == [] {
      NothingScans(d);
      return;
    }
    FirstItem(items);
    HandedOpen(items, d);
    match items[0]
    case Other(line) =>
      FirstLineScans(items, line, d);
      if Closes(line) {
        ScanHands(items[1..]);
      } else {
        OpenScanHands(items[1..], d.(params := d.params + LineParams(line)));
      }
    case Kernel(_, _, _) =>
      KernelSwallowed(d, items[0], ListingLines(items[1..]));
      ScanHands(items[1..]);
    case OneLine(_) =>
      OneLineCloses(d, items[0], ListingLines(items[1..]));
      ScanHands(items[1..]);
  }

  // Against what is declared.

  /** A kernel swallowed is a kernel lost. */
  lemma {:induction false} HandedAtMost(items: seq<Item>, open: Option<Desc>)
    ensures |Handed(items, open).descs| <= |Declared(items)| + (if open.None? then 0 else 1)
    decreases |items|
  {
    hide Closes, BeforeComment, HeaderText, ParamLines, Counted, DeclaredParams;
    if items != [] {
      HandedAtMost(items[1..], None);
      match (items[0], open)
      case (Other(line), Some(d)) =>
        HandedAtMost(items[1..], Some(d.(params := d.params + LineParams(line))));
      case (OneLine(decl), None) =>
        HandedAtMost(items[1..], Some(Begun(decl.name)));
      case _ =>
    }
  }

  lemma {:induction false} OccursExactly(text: string, p: string)
    requires p != ""
    ensures Contains(text, p) <==> Occurrences(text, p) > 0
    decreases |text|
  {
    if text != "" {
      OccursExactly(text[1..], p);
    }
  }

  /** Without a closing parenthesis a line is counted once if it lists anything. */
  lemma CountedExactly(line: string)
    requires !Closes(line)
    ensures LineParams(line) == if Listed(BeforeComment(line)) > 0 then 1 else 0
  {
    hide BeforeComment;
    var text := BeforeComment(line);
    SpanUnique(text, {')'}, |text|);
    assert text[..|text|] == text;
    OccursExactly(text, ".param");
  }

  lemma {:induction false} LinesCountedExactly(body: seq<string>)
    requires forall i :: 0 <= i < |body| ==> !Closes(body[i])
    ensures ParamLines(body) <= ListedAll(body)
    ensures ParamLines(body) == ListedAll(body) <==> forall i :: 0 <= i < |body| ==> Listed(BeforeComment(body[i])) <= 1
    decreases |body|
  {
    hide Closes, BeforeComment, Counted, Listed;
    if body != [] {
      CountedExactly(body[0]);
      LinesCountedExactly(body[1..]);
      assert forall i :: 1 <= i < |body| ==> body[i] == body[1..][i - 1];
      assert forall i :: 0 <= i < |body| - 1 ==> body[1..][i] == body[i + 1];
    }
  }

  /** A kernel closed on a line of its own is counted right exactly when its parameters have lines of their own. */
  lemma KernelCountedExactly(k: Item)
    requires k.Kernel? && ValidItem(k)
    ensures ParamLines(k.body) == DeclaredParams(k) <==> OwnLines(k)
  {
    hide Closes, BeforeComment, HeaderText, ParamLines, Listed, ListedAll, ValidDeclaration;
    LinesCountedExactly(k.body);
  }

  /** The scan reaches the end and finds `first`, then `declared`. */
  predicate Gives(s: Scanned, first: Desc, declared: seq<Desc>) { s == Found([first] + declared) }

  lemma HandsExactly(d: Desc, rest: Scanned, name: string, params: nat, declared: seq<Desc>)
    requires d.stage.Begin? && d.index == 0 && d.name == name
    ensures Gives(Hand(d, rest), Desc(name, params, 0, Final), declared)
      <==> d.params == params > 0 && rest == Found(declared)
  {
    var first, done := Desc(name, params, 0, Final), d.(stage := Final);
    if d.params > 0 {
      assert ([done] + rest.descs)[0] == done && ([done] + rest.descs)[1..] == rest.descs;
      assert ([first] + declared)[0] == first && ([first] + declared)[1..] == declared;
    }
  }

  lemma SwallowedIsLost(items: seq<Item>, d: Desc)
    requires items != [] && !items[0].Other?
    ensures |Handed(items, Some(d)).descs| <= |Declared(items)|
  {
    hide Handed, Swallowed, DeclaredParams;
    HandedOpen(items, d);
    HandedAtMost(items[1..], None);
  }

  lemma FirstLine(items: seq<Item>, line: string, missing: int)
    requires items != [] && items[0] == Other(line)
    ensures Declared(items) == Declared(items[1..]) && Right(items) == Right(items[1..])
    ensures MadeUp(items, missing) ==
      if Closes(line) then missing == 0 else MadeUp(items[1..], missing - LineParams(line))
  {
    hide Closes, Counted, BeforeComment;
  }

  lemma GivesAll(s: Scanned, first: Desc, declared: seq<Desc>)
    requires Gives(s, first, declared)
    ensures |s.descs| == 1 + |declared|
  {
  }

  lemma NotMadeUp(items: seq<Item>, d: Desc, first: Desc, missing: int)
    requires items == [] || !items[0].Other?
    ensures !Gives(Handed(items, Some(d)), first, Declared(items)) && !MadeUp(items, missing)
  {
    if Gives(Handed(items, Some(d)), first, Declared(items)) {
      GivesAll(Handed(items, Some(d)), first, Declared(items));
      if items != [] {
        SwallowedIsLost(items, d);
      }
    }
  }

  /** A list taken to be open comes out right exactly when lines that declare nothing make it up. */
  lemma {:induction false} OpenExactly(items: seq<Item>, d: Desc, params: nat)
    requires ValidListing(items) && d.stage.Begin? && d.index == 0
    ensures Gives(Handed(items, Some(d)), Desc(d.name, params, 0, Final), Declared(items))
      <==> params > 0 && MadeUp(items, params - d.params) && Right(items)
    decreases |items|, 0
  {
    hide *;
    if items == [] || !items[0].Other? {
      NotMadeUp(items, d, Desc(d.name, params, 0, Final), params - d.params);
    } else {
      var rest, line := items[1..], items[0].line;
      FirstItem(items);
      HandedOpen(items, d);
      FirstLine(items, line, params - d.params);
      if Closes(line) {
        HandsExactly(d, Handed(rest, None), d.name, params, Declared(rest));
        HandsRight(rest);
      } else {
        OpenExactly(rest, d.(params := d.params + LineParams(line)), params);
      }
    }
  }

  lemma FirstRight(items: seq<Item>)
    requires items != []
    ensures Right(items) ==
      (Right(items[1..]) &&
       match items[0]
       case Other(_) => true
       case Kernel(_, body, _) => OwnLines(items[0]) && ParamLines(body) > 0
       case OneLine(decl) => Listed(decl.after) > 0 && MadeUp(items[1..], Listed(decl.after)))
    ensures Declared(items) ==
      if items[0].Other? then Declared(items[1..])
      else [Desc(items[0].decl.name, DeclaredParams(items[0]), 0, Final)] + Declared(items[1..])
    ensures items[0].OneLine? ==> DeclaredParams(items[0]) == Listed(items[0].decl.after)
  {
    hide OwnLines, ParamLines, Listed, MadeUp;
  }

  lemma {:induction false} HandsRight(items: seq<Item>)
    requires ValidListing(items)
    ensures Handed(items, None) == Found(Declared(items)) <==> Right(items)
    decreases |items|, 1
  {
    hide BeforeComment, HeaderText, ParamLines, OwnLines, Listed, ListedAll, DeclaredParams, ValidListing, ValidItem,
      Declared, Right, MadeUp, Handed, Hand;
    if items == [] {
      NothingScans(BLANK);
      return;
    }
    FirstItem(items);
    FirstRight(items);
    HandedNext(items);
    match items[0]
    case Other(_) =>
      HandsRight(items[1..]);
    case Kernel(decl, body, _) =>
      HandsRight(items[1..]);
      KernelCountedExactly(items[0]);
      HandsExactly(Begun(decl.name).(params := ParamLines(body)), Handed(items[1..], None), decl.name,
        DeclaredParams(items[0]), Declared(items[1..]));
    case OneLine(decl) =>
      OpenExactly(items[1..], Begun(decl.name), Listed(decl.after));
  }

  /** Exact condition: the scan finds the declared kernels, with their parameter counts in order, and reaches the
      end, if and only if the listing is laid out right. */
  lemma FindsDeclaredExactly(items: seq<Item>)
    requires ValidListing(items)
    ensures Scan(BLANK, ListingLines(items)) == Found(Declared(items)) <==> Right(items)
  {
    ScanHands(items);
    HandsRight(items);
  }

  /** With parameters on lines of their own: if and only if no kernel is closed on its declaration line and each
      has a line with a parameter. */
  lemma {:induction false} FindsOwnLinesExactly(items: seq<Item>)
    requires ValidListing(items) && forall i :: 0 <= i < |items| && !items[i].Other? ==> OwnLines(items[i])
    ensures Scan(BLANK, ListingLines(items)) == Found(Declared(items))
      <==> forall i :: 0 <= i < |items| && !items[i].Other? ==> items[i].Kernel? && ParamLines(items[i].body) > 0
    decreases |items|
  {
    hide Scan, ValidItem, OwnLines, ParamLines, Declared, MadeUp;
    FindsDeclaredExactly(items);
    RightOwnLines(items);
  }

  lemma {:induction false} RightOwnLines(items: seq<Item>)
    requires forall i :: 0 <= i < |items| && !items[i].Other? ==> OwnLines(items[i])
    ensures Right(items)
      <==> forall i :: 0 <= i < |items| && !items[i].Other? ==> items[i].Kernel? && ParamLines(items[i].body) > 0
    decreases |items|
  {
    hide ParamLines, MadeUp, Listed, BeforeComment;
    if items != [] {
      assert items[0].OneLine? ==> OwnLines(items[0]);
      RightOwnLines(items[1..]);
      assert forall i :: 1 <= i < |items| ==> items[i] == items[1..][i - 1];
      assert forall i :: 0 <= i < |items| - 1 ==> items[1..][i] == items[i + 1];
    }
  }

  // Kernels without parameters: three ways to go wrong.

  /** A kernel closed on its declaration line takes the list of the next one for its own, and that one is lost. */
  lemma ClosedTakesNext(decl: Declaration, next: Item, items: seq<Item>)
    requires next.Kernel? && ValidListing([OneLine(decl), next] + items)
    ensures Scan(BLANK, ListingLines([OneLine(decl), next] + items)) ==
      Hand(Swallowed(next, Begun(decl.name)), Scan(BLANK, ListingLines(items)))
  {
    hide ValidItem, Scan, ListingLines, Handed, Swallowed, Hand, Begun;
    var all := [OneLine(decl), next] + items;
    assert all[1..] == [next] + items && all[1..][1..] == items;
    assert forall i :: 0 <= i < |items| ==> items[i] == all[i + 2];
    ScanHands(all);
    HandedNext(all);
    HandedOpen(all[1..], Begun(decl.name));
    ScanHands(items);
  }

  lemma NoSlashNoComment(line: string)
    requires '/' !in line
    ensures BeforeComment(line) == line
  {
    hide BeforeComment;
    assert line + "" == line;
    CommentCutOff(line, "");
  }

  lemma Lacks(s: string, p: string, m: nat)
    requires m < |p| && p[m] !in s
    ensures !Contains(s, p)
  {
    hide Find, At;
    forall j: nat ensures !At(s, j, p) {
      NotAt(s, j, p, m);
    }
  }

  lemma PlainLine(line: string)
    requires 'v' !in line && '/' !in line && |line| < MAX_LINE
    ensures DeclaresNothing(line) && (Closes(line) <==> ')' in line)
  {
    hide Contains, BeforeComment;
    NoSlashNoComment(line);
    Lacks(line, ".visible", 1);
  }

  lemma PlainDeclaration(name: string, after: string)
    requires name != "" && NoEdgeBlanks(name) && |name + after| < MAX_NAME
    requires '/' !in name && '/' !in after && '(' !in after
    ensures ValidDeclaration(Declaration(".visible ", name, "", after, ""))
  {
    hide Find, At;
    var before := ".visible ";
    IsAt(before, 0, ".visible");
    FindIs(before, ".visible", 0);
    Lacks(before, ".entry ", 2);
    var text := before + ".entry " + (name + "") + "(" + after;
    assert forall i :: 0 <= i < |text| ==> text[i] != '/';
  }

  const FOO: Item := OneLine(Declaration(".visible ", "foo", "", ")", ""))
  const BAR: Item := Kernel(Declaration(".visible ", "bar", "", "", ""), [".param .u64 x"], ")")

  lemma OneParameter(rest: string)
    requires 'p' !in rest
    ensures Contains(".param" + rest, ".param") && Occurrences(".param" + rest, ".param") == 1
  {
    hide Find, At;
    var p := ".param";
    var line := p + rest;
    var behind := line[1..];
    OccursExactly(line, p);
    OccursExactly(behind, p);
    forall j: nat ensures !At(behind, j, p) {
      assert j + 1 < |behind| ==> behind[j + 1] != 'p';
      NotAt(behind, j, p, 1);
    }
  }

  /** The one parameter of BAR has a line of its own. */
  lemma ParameterLine(line: string, rest: string)
    requires line == ".param" + rest && 'p' !in rest && 'v' !in rest && '/' !in rest && ')' !in rest && |rest| < 100
    ensures DeclaresNothing(line) && !Closes(line) && LineParams(line) == 1 && Listed(BeforeComment(line)) == 1
  {
    hide Contains, BeforeComment, DeclaresNothing, Closes, Occurrences;
    PlainLine(line);
    NoSlashNoComment(line);
    OneParameter(rest);
    SpanUnique(line, {')'}, |line|);
    assert line[..|line|] == line;
  }

  lemma ClosingLine(text: string)
    requires text == ")"
    ensures DeclaresNothing(text) && Closes(text) && Listed(BeforeComment(text)) == 0 && Listed(text) == 0
  {
    hide Contains, BeforeComment, DeclaresNothing, Closes;
    PlainLine(text);
    NoSlashNoComment(text);
    SpanUnique(text, {')'}, 0);
  }

  lemma NothingListed()
    ensures Listed("") == 0
  {
    SpanUnique("", {')'}, 0);
  }

  lemma FooIsValid()
    ensures ValidItem(FOO) && DeclaredParams(FOO) == 0
  {
    hide ValidDeclaration, Listed;
    PlainDeclaration("foo", ")");
    ClosingLine(")");
  }

  /** A kernel with one parameter line. */
  lemma OneParameterKernel(k: Item, line: string)
    requires k.Kernel? && ValidDeclaration(k.decl) && k.decl.after == "" && k.body == [line] && k.close == ")"
    requires DeclaresNothing(line) && !Closes(line) && LineParams(line) == 1 && Listed(BeforeComment(line)) == 1
    requires ')' !in HeaderText(k.decl)
    ensures ValidItem(k) && DeclaredParams(k) == 1 && ParamLines(k.body) == 1
  {
    hide ValidDeclaration, Listed, BeforeComment, DeclaresNothing, Closes, LineParams, HeaderText;
    ClosingLine(k.close);
    NothingListed();
    assert k.body[0] == line && k.body[1..] == [];
    assert ListedAll(k.body) == 1;
  }

  lemma PlainHeader(name: string)
    requires ')' !in name && 'p' !in name
    ensures var text := HeaderText(Declaration(".visible ", name, "", "", "")); ')' !in text && Counted(text) == 0
  {
    hide Contains;
    Lacks(HeaderText(Declaration(".visible ", name, "", "", "")), ".param", 1);
  }

  lemma BarIsValid()
    ensures ValidItem(BAR) && DeclaredParams(BAR) == 1
    ensures Counted(HeaderText(BAR.decl)) == 0 && ParamLines(BAR.body) == 1
  {
    hide ValidDeclaration, Listed, BeforeComment, DeclaresNothing, Closes, LineParams, Counted, ValidItem,
      DeclaredParams, ParamLines, HeaderText;
    PlainDeclaration("bar", "");
    PlainHeader("bar");
    ParameterLine(".param .u64 x", " .u64 x");
    OneParameterKernel(BAR, ".param .u64 x");
  }

  /** The lines ".visible .entry foo()", ".visible .entry bar(", ".param .u64 x" and ")" declare foo without
      parameters and bar with one; the scan finds foo with one. */
  lemma SwallowedKernel()
    ensures ValidListing([FOO, BAR]) && Declared([FOO, BAR]) == [Desc("foo", 0, 0, Final), Desc("bar", 1, 0, Final)]
    ensures Scan(BLANK, ListingLines([FOO, BAR])) == Found([Desc("foo", 1, 0, Final)])
  {
    hide Scan, ListingLines, ValidItem, Counted, ParamLines, DeclaredParams, HeaderText;
    FooIsValid();
    BarIsValid();
    assert [FOO, BAR] + [] == [FOO, BAR];
    ClosedTakesNext(FOO.decl, BAR, []);
    NothingScans(BLANK);
  }

  /** Such a kernel at the end of a listing is lost without a failed assertion. */
  lemma LastKernelLost(decl: Declaration)
    requires ValidItem(OneLine(decl))
    ensures Scan(BLANK, ListingLines([OneLine(decl)])) == Found([])
  {
    hide Scan, ListingLines, ValidItem;
    ScanHands([OneLine(decl)]);
  }

  /** One closed on a line of its own ends the scan. */
  lemma NoParametersAborts(k: Item)
    requires k.Kernel? && ValidItem(k) && ParamLines(k.body) == 0
    ensures Scan(BLANK, ListingLines([k])) == Aborted([])
  {
    hide Scan, ListingLines, ValidItem;
    ScanHands([k]);
  }

  // From text to lines.

  /** What strchr cuts the text into; a text that ends in a line feed has no further line. */
  function Lines(text: string): (lines: seq<string>)
    decreases |text|
  {
    if text == "" then []
    else
      var i := Span(text, {LF});
      if i == |text| then [text] else [text[..i]] + Lines(text[i + 1..])
  }

  function Written(lines: seq<string>): string
    decreases |lines|
  {
    if lines == [] then "" else lines[0] + [LF] + Written(lines[1..])
  }

  lemma {:induction false} LinesWritten(lines: seq<string>)
    requires forall i :: 0 <= i < |lines| ==> LF !in lines[i]
    ensures Lines(Written(lines)) == lines
    decreases |lines|
  {
    hide Span;
    if lines != [] {
      var text, rest := Written(lines), Written(lines[1..]);
      LinesWritten(lines[1..]);
      assert text == lines[0] + [LF] + rest;
      SpanUnique(text, {LF}, |lines[0]|);
      assert text[..|lines[0]|] == lines[0] && text[|lines[0]| + 1..] == rest;
    }
  }

  /** The same for the text of a listing, one line feed after every line. */
  lemma ListingTextScans(items: seq<Item>)
    requires ValidListing(items)
    requires forall i :: 0 <= i < |ListingLines(items)| ==> LF !in ListingLines(items)[i]
    ensures Scan(BLANK, Lines(Written(ListingLines(items)))) == Handed(items, None)
    ensures Scan(BLANK, Lines(Written(ListingLines(items)))) == Found(Declared(items)) <==> Right(items)
  {
    LinesWritten(ListingLines(items));
    ScanHands(items);
    HandsRight(items);
  }

  /** cuda_function_description_t as the parser updates it. */
  class Description {
    var funcName: string
    var numParams: int
    var index: int
    var stage: Stage

    constructor ()
      ensures Value() == BLANK
    {
      funcName, numParams, index, stage := "", 0, 0, Unknown;
    }

    function Value(): Desc
      reads this
    {
      Desc(funcName, numParams, index, stage)
    }

    method Clear()
      modifies this
      ensures Value() == BLANK
    {
      funcName, numParams, index, stage := "", 0, 0, Unknown;
    }

    /** cuda_function_description_parse_partial; None is a failed assertion. */
    method Parse(line: string) returns (r: Option<Stage>)
      modifies this
      ensures r.None? <==> ParsePartial(old(Value()), line).Abort?
      ensures r.Some? ==> ParsePartial(old(Value()), line) == Parsed(Value(), r.value)
    {
      hide HeaderName, Contains;
      if line == "" { return Some(Invalid); }
      if |line| >= MAX_LINE { return None; }
      var text := BeforeComment(line);
      if stage.Final? {
        Clear();
      }
      if stage.Invalid? || stage.Unknown? {
        var name := DeclaredName(text);
        if name.None? { return Some(Invalid); }
        if |name.value| >= MAX_NAME { return None; }
        funcName, stage := name.value, Begin;
        return Some(stage);
      }
      stage := Params;
      if ')' in text {
        if numParams <= 0 { return None; }
        stage := Final;
      } else {
        var param := Contains(text, ".param");
        if param { numParams := numParams + 1; }
      }
      return Some(stage);
    }

    /** The declaration branch: every cut is made in a copy of the line. */
    static method DeclaredName(text: string) returns (name: Option<string>)
      ensures name == HeaderName(text)
    {
      hide Find, FindLast;
      var visible := Contains(text, ".visible");
      if !visible { return None; }
      var open := FindLast(text, '(');
      if open.None? { return None; }
      var head := text[..open.value];
      var entry := Find(head, ".entry ");
      if entry.None? { return None; }
      assert |".entry "| == 7;
      // The pointer trim returns is dropped.
      var _, funcName := Trim(head[entry.value + 7..]);
      if funcName == "" { return None; }
      return Some(funcName);
    }
  }
}
