/** The definition file of tools/cuda-api.c, one "name@count" line for each kernel: writing it, and reading it
    back as cuda_module_load_module does. Assertions are enabled. */
module DefFile {
  import opened Text
  import opened CStrings
  import opened Decimal
  import opened PtxScan
  import opened FunctionTable

  function EntryLine(d: Desc): string { d.name + "@" + ShowInt(d.params) + [LF] }

  /** The file for a list of kernels. */
  function Save(list: seq<Desc>): string
    decreases |list|
  {
    if list == [] then "" else EntryLine(list[0]) + Save(list[1..])
  }

  /** fgets with room for 4094 characters: up to a line feed, the end, or that many. */
  const ROOM: nat := 4094

  function ChunkLength(file: string): (n: nat)
    requires file != ""
    ensures 0 < n <= |file| && n <= ROOM
  {
    var i := Span(file, {LF});
    if i < |file| && i < ROOM then i + 1 else if |file| <= ROOM then |file| else ROOM
  }

  function LeadingDigits(s: string): (n: nat)
    ensures n <= |s| && AllDigits(s[..n])
    ensures n < |s| ==> !IsDigit(s[n])
  {
    if s == "" || !IsDigit(s[0]) then 0
    else
      var n := LeadingDigits(s[1..]);
      assert s[..n + 1] == [s[0]] + s[1..][..n];
      n + 1
  }

  const SPACES: set<char> := {' ', '\t', LF, 11 as char, 12 as char, CR}

  /** atoi, without its overflow. */
  function Atoi(s: string): int {
    var t := s[Skip(s, SPACES)..];
    if t != "" && t[0] == '-' then 0 - Value(t[1..][..LeadingDigits(t[1..])])
    else if t != "" && t[0] == '+' then Value(t[1..][..LeadingDigits(t[1..])])
    else Value(t[..LeadingDigits(t)])
  }

  /** What one chunk of the file says. A line that is blank but not empty has no '@' and stops the load. */
  datatype Meaning = Nothing | Wrong | Entry(name: string, count: int)

  function Read(chunk: string): (m: Meaning)
    ensures m.Entry? ==> m.count > 0 && '@' !in m.name && '#' !in m.name && NoEdgeBlanks(m.name)
  {
    var text := chunk[..Span(chunk, {'#'})];
    if text == "" then Nothing
    else
      var line := Trimmed(text);
      var at := Span(line, {'@'});
      if at == |line| then Wrong
      else
        var name, count := Trimmed(line[..at]), Atoi(line[at + 1..]);
        TrimmedHasNoEdgeBlanks(line[..at]);
        assert forall c :: c in name ==> c in line[..at];
        assert forall c :: c in line ==> c in text;
        assert '#' !in text;
        if count <= 0 then Wrong else Entry(name, count)
  }

  lemma TrimmedHasNoEdgeBlanks(s: string)
    ensures NoEdgeBlanks(Trimmed(s))
    ensures forall c :: c in Trimmed(s) ==> c in s
  {
  }

  datatype Load = Loaded(list: seq<Desc>) | Stopped

  /** add_function during a load, where it must succeed. A name too long for its field is not described. */
  predicate Accepts(list: seq<Desc>, kernels: set<string>, name: string) {
    name != "" && |name| < MAX_NAME && |list| < MAX_FUNCTIONS && name in kernels
  }

  /** The loop, from `list` with `index` lines accepted so far. */
  function LoadFrom(list: seq<Desc>, kernels: set<string>, index: nat, file: string): Load
    decreases |file|
  {
    if file == "" then
      if index == |list| then Loaded(list) else Stopped
    else
      var n := ChunkLength(file);
      match Read(file[..n])
      case Nothing => LoadFrom(list, kernels, index, file[n..])
      case Wrong => Stopped
      case Entry(name, count) =>
        if !Accepts(list, kernels, name) then Stopped
        else LoadFrom(Insert(list, Desc(name, count, index, Unknown)), kernels, index + 1, file[n..])
  }

  lemma LoadStep(list: seq<Desc>, kernels: set<string>, index: nat, file: string)
    ensures file == "" ==> LoadFrom(list, kernels, index, file) == if index == |list| then Loaded(list) else Stopped
    ensures file != "" ==>
      var n := ChunkLength(file);
      LoadFrom(list, kernels, index, file) ==
        match Read(file[..n])
        case Nothing => LoadFrom(list, kernels, index, file[n..])
        case Wrong => Stopped
        case Entry(name, count) =>
          if !Accepts(list, kernels, name) then Stopped
          else LoadFrom(Insert(list, Desc(name, count, index, Unknown)), kernels, index + 1, file[n..])
  {
  }

  // What a file contains, and when it is accepted.

  /** All entries, if every chunk can be read. */
  function Entries(file: string): Option<seq<(string, int)>>
    decreases |file|
  {
    if file == "" then Some([])
    else
      var n := ChunkLength(file);
      var rest := Entries(file[n..]);
      match Read(file[..n])
      case Nothing => rest
      case Wrong => None
      case Entry(name, count) => if rest.None? then None else Some([(name, count)] + rest.value)
  }

  /** Entries as the table holds them, each with its position. */
  function Indexed(entries: seq<(string, int)>): (list: seq<Desc>)
    ensures |list| == |entries|
    ensures forall i :: 0 <= i < |list| ==> list[i] == Desc(entries[i].0, entries[i].1, i, Unknown)
  {
    seq(|entries|, i requires 0 <= i < |entries| => Desc(entries[i].0, entries[i].1, i, Unknown))
  }

  predicate Admissible(entries: seq<(string, int)>, kernels: set<string>) {
    && |entries| <= MAX_FUNCTIONS
    && (forall i :: 0 <= i < |entries| ==> entries[i].0 != "" && |entries[i].0| < MAX_NAME && entries[i].0 in kernels)
    && (forall i, j :: 0 <= i < j < |entries| ==> entries[i].0 != entries[j].0)
  }

  lemma InsertAddsOne(list: seq<Desc>, d: Desc)
    ensures |Insert(list, d)| <= |list| + 1
  {
  }

  lemma {:induction false} BehindNeverLoads(list: seq<Desc>, kernels: set<string>, index: nat, file: string)
    requires |list| < index
    ensures LoadFrom(list, kernels, index, file).Stopped?
    decreases |file|
  {
    hide Read, ChunkLength, Insert, Accepts;
    if file != "" {
      var n := ChunkLength(file);
      match Read(file[..n])
      case Nothing => BehindNeverLoads(list, kernels, index, file[n..]);
      case Wrong =>
      case Entry(name, count) =>
        var d := Desc(name, count, index, Unknown);
        InsertAddsOne(list, d);
        BehindNeverLoads(Insert(list, d), kernels, index + 1, file[n..]);
    }
  }

  lemma {:induction false} LoadsFrom(done: seq<(string, int)>, kernels: set<string>, file: string)
    requires Admissible(done, kernels)
    ensures LoadFrom(Indexed(done), kernels, |done|, file) ==
      if Entries(file).Some? && Admissible(done + Entries(file).value, kernels)
      then Loaded(Indexed(done + Entries(file).value)) else Stopped
    decreases |file|
  {
    hide Read, Admissible, Insert;
    if file == "" {
      assert done + [] == done;
    } else {
      var n := ChunkLength(file);
      match Read(file[..n])
      case Nothing => LoadsFrom(done, kernels, file[n..]);
      case Wrong =>
      case Entry(name, count) =>
        var more := done + [(name, count)];
        OneMoreEntry(done, kernels, name, count);
        if Admissible(more, kernels) {
          LoadsFrom(more, kernels, file[n..]);
        } else if Accepts(Indexed(done), kernels, name) {
          BehindNeverLoads(Insert(Indexed(done), Desc(name, count, |done|, Unknown)), kernels, |done| + 1, file[n..]);
        }
        if Entries(file).Some? {
          var rest := Entries(file[n..]).value;
          assert done + ([(name, count)] + rest) == more + rest;
          PrefixAdmissible(more, rest, kernels);
        }
    }
  }

  lemma OneMoreEntry(done: seq<(string, int)>, kernels: set<string>, name: string, count: int)
    requires Admissible(done, kernels)
    ensures var more, d := done + [(name, count)], Desc(name, count, |done|, Unknown);
      && (Admissible(more, kernels) ==>
            Accepts(Indexed(done), kernels, name) && Insert(Indexed(done), d) == Indexed(more))
      && (!Admissible(more, kernels) && Accepts(Indexed(done), kernels, name) ==> |Insert(Indexed(done), d)| == |done|)
  {
    var more := done + [(name, count)];
    var p := Position(Indexed(done), name);
    assert more[|done|] == (name, count);
    if p.Some? {
      assert more[p.value].0 == name == more[|done|].0;
      assert !Admissible(more, kernels);
    } else {
      assert forall i :: 0 <= i < |done| ==> Indexed(done)[i].name == done[i].0;
    }
  }

  lemma PrefixAdmissible(a: seq<(string, int)>, b: seq<(string, int)>, kernels: set<string>)
    ensures Admissible(a + b, kernels) ==> Admissible(a, kernels)
  {
    var all := a + b;
    assert forall i :: 0 <= i < |a| ==> a[i] == all[i];
  }

  /** A file loads into an empty module exactly when every line can be read, the kernels exist, and no name
      occurs twice; then the module holds its entries in order. */
  lemma LoadsExactly(kernels: set<string>, file: string)
    ensures LoadFrom([], kernels, 0, file) ==
      if Entries(file).Some? && Admissible(Entries(file).value, kernels) then Loaded(Indexed(Entries(file).value))
      else Stopped
  {
    hide Entries, LoadFrom;
    LoadsFrom([], kernels, file);
    assert Indexed([]) == [];
    if Entries(file).Some? {
      assert [] + Entries(file).value == Entries(file).value;
    }
  }

  // The round trip.

  /** An entry whose line is read back as written. */
  predicate Restorable(d: Desc) { '@' !in d.name && '#' !in d.name && NoEdgeBlanks(d.name) && d.params > 0 }

  lemma AtoiShow(n: nat)
    ensures Atoi(Show(n)) == n
  {
    hide Value, Show, LeadingDigits;
    var s := Show(n);
    SkipUnique(s, SPACES, 0);
    assert s[0..] == s;
    assert IsDigit(s[0]);
    ValueShow(n);
    AllLeading(s);
    assert s[..|s|] == s;
  }

  lemma {:induction false} AllLeading(s: string)
    requires AllDigits(s)
    ensures LeadingDigits(s) == |s|
  {
    if s != "" {
      AllLeading(s[1..]);
    }
  }

  lemma EntryLineReads(d: Desc)
    requires d.name != "" && LF !in d.name
    ensures Read(EntryLine(d)) == Entry(d.name, d.params) <==> Restorable(d)
  {
    hide Span, Trimmed, ShowInt, Atoi, NoEdgeBlanks;
    if Restorable(d) {
      var number := ShowInt(d.params);
      var line := d.name + "@" + number;
      assert EntryLine(d) == line + [LF];
      assert '#' !in EntryLine(d);
      SpanUnique(EntryLine(d), {'#'}, |EntryLine(d)|);
      assert EntryLine(d)[..|EntryLine(d)|] == EntryLine(d);
      TrimEntry(d);
      SpanUnique(line, {'@'}, |d.name|);
      assert line[..|d.name|] == d.name && line[|d.name| + 1..] == number;
      TrimmedExactly(d.name);
      PositiveShows(d.params);
      AtoiShow(d.params);
    }
  }

  lemma PositiveShows(n: nat)
    ensures ShowInt(n) == Show(n)
  {
  }

  lemma TrimEntry(d: Desc)
    requires d.name != "" && NoEdgeBlanks(d.name)
    ensures Trimmed(EntryLine(d)) == d.name + "@" + ShowInt(d.params)
  {
    hide Trimmed, ShowInt;
    var line := d.name + "@" + ShowInt(d.params);
    var last := ShowInt(d.params)[|ShowInt(d.params)| - 1];
    assert line[|line| - 1] == last && (IsDigit(last) || last == '-');
    TrimPadded("", line, [LF]);
    assert "" + line + [LF] == EntryLine(d);
  }

  predicate IsInt32(n: int) { -0x8000_0000 <= n <= 0x7fff_ffff }

  /** What every table holds: names from single lines that fit their field, and C ints. */
  lemma LeadingDigitsIs(s: string, n: nat)
    requires n <= |s| && AllDigits(s[..n]) && (n < |s| ==> !IsDigit(s[n]))
    ensures LeadingDigits(s) == n
  {
    hide LeadingDigits;
    var k := LeadingDigits(s);
    assert forall i :: 0 <= i < n ==> s[..n][i] == s[i];
    assert forall i :: 0 <= i < k ==> s[..k][i] == s[i];
  }

  /** atoi: blanks, a sign, digits, and whatever comes behind them. */
  lemma AtoiExactly(blanks: string, sign: string, n: nat, rest: string)
    requires forall i :: 0 <= i < |blanks| ==> blanks[i] in {' ', '\t', '\n', '\r', 11 as char, 12 as char}
    requires sign == "" || sign == "+" || sign == "-"
    requires rest != "" ==> !('0' <= rest[0] <= '9')
    ensures Atoi(blanks + (sign + (Show(n) + rest))) == if sign == "-" then 0 - n else n
  {
    hide Atoi, Show, AllDigits;
    var digits := Show(n) + rest;
    assert IsDigit(Show(n)[0]) by { FirstDigit(Show(n)); }
    AtoiSkips(blanks, sign + digits);
    DigitsRead(n, rest);
    if sign == "" {
      assert sign + digits == digits;
    } else {
      assert (sign + digits)[1..] == digits;
    }
    AtoiSigned(sign + digits);
  }

  lemma FirstDigit(s: string)
    requires s != "" && AllDigits(s)
    ensures IsDigit(s[0])
  {
  }

  /** The number at the front of a string. */
  function Front(s: string): nat { Value(s[..LeadingDigits(s)]) }

  lemma DigitsRead(n: nat, rest: string)
    requires rest != "" ==> !IsDigit(rest[0])
    ensures Front(Show(n) + rest) == n
  {
    hide Show, Value, LeadingDigits;
    var digits := Show(n) + rest;
    assert digits[..|Show(n)|] == Show(n);
    LeadingDigitsIs(digits, |Show(n)|);
    ValueShow(n);
  }

  lemma AtoiSkips(blanks: string, t: string)
    requires forall i :: 0 <= i < |blanks| ==> blanks[i] in SPACES
    requires t != "" && t[0] !in SPACES
    ensures Atoi(blanks + t) == Atoi(t)
  {
    hide Skip, Value, LeadingDigits;
    var s := blanks + t;
    assert forall i :: 0 <= i < |blanks| ==> s[i] == blanks[i];
    SkipUnique(s, SPACES, |blanks|);
    SkipUnique(t, SPACES, 0);
    assert s[|blanks|..] == t && t[0..] == t;
  }

  lemma AtoiSigned(t: string)
    requires t != "" && t[0] !in SPACES
    ensures Atoi(t) ==
      if t[0] == '-' then 0 - Front(t[1..]) else if t[0] == '+' then Front(t[1..]) else Front(t)
  {
    hide Skip, Value, LeadingDigits;
    SkipUnique(t, SPACES, 0);
    assert t[0..] == t;
  }

  /** Without a digit there it is zero. */
  lemma AtoiNothing(blanks: string, rest: string)
    requires forall i :: 0 <= i < |blanks| ==> blanks[i] in {' ', '\t', '\n', '\r', 11 as char, 12 as char}
    requires rest != "" ==>
      rest[0] !in {' ', '\t', '\n', '\r', 11 as char, 12 as char, '+', '-'} && !('0' <= rest[0] <= '9')
    ensures Atoi(blanks + rest) == 0
  {
    hide Value, Skip, LeadingDigits;
    var s := blanks + rest;
    assert forall i :: 0 <= i < |blanks| ==> s[i] == blanks[i];
    SkipUnique(s, SPACES, |blanks|);
    assert s[|blanks|..] == rest;
    LeadingDigitsIs(rest, 0);
    NoDigits();
  }

  lemma NoDigits()
    ensures Value("") == 0
  {
  }

  /** A line of a definition file that holds a name and a count, with blanks around either and a comment behind. */
  lemma EntryReadsExactly(lead: string, name: string, mid: string, num: string, trail: string, comment: string)
    requires AllWhite(lead) && AllWhite(mid) && AllWhite(trail) && (comment == "" || comment[0] == '#')
    requires name != "" && NoEdgeBlanks(name) && '@' !in name && '#' !in name
    requires num != "" && NoEdgeBlanks(num) && '#' !in num
    ensures Read(lead + ((name + (mid + ("@" + num))) + (trail + comment))) ==
      if Atoi(num) > 0 then Entry(name, Atoi(num)) else Wrong
  {
    hide Atoi, Trimmed, TrimmedInPlace, Span, Skip;
    var middle := name + (mid + ("@" + num));
    var text := lead + middle + trail;
    var chunk := lead + (middle + (trail + comment));
    assert chunk == text + comment;
    NoHash(text, lead, name, mid, num, trail);
    SpanUnique(chunk, {'#'}, |text|);
    assert chunk[..|text|] == text && text != "";
    assert middle[0] == name[0] && middle[|middle| - 1] == num[|num| - 1];
    TrimPadded(lead, middle, trail);
    var at := |name| + |mid|;
    assert middle[at] == '@' && middle[..at] == name + mid && middle[at + 1..] == num;
    forall i | 0 <= i < at ensures middle[i] != '@' {
      assert middle[i] == (name + mid)[i];
      assert i >= |name| ==> mid[i - |name|] in WHITE;
    }
    SpanUnique(middle, {'@'}, at);
    TrimPadded("", name, mid);
    assert "" + name + mid == name + mid;
  }

  lemma NoHash(text: string, lead: string, name: string, mid: string, num: string, trail: string)
    requires text == lead + (name + (mid + ("@" + num))) + trail
    requires AllWhite(lead) && AllWhite(mid) && AllWhite(trail) && '#' !in name && '#' !in num
    ensures forall i :: 0 <= i < |text| ==> text[i] != '#'
  {
    assert forall i :: 0 <= i < |lead| ==> lead[i] in WHITE;
    assert forall i :: 0 <= i < |mid| ==> mid[i] in WHITE;
    assert forall i :: 0 <= i < |trail| ==> trail[i] in WHITE;
  }

  /** Text without an '@' stops the load; a comment alone, or nothing, does not. */
  lemma OtherLinesExactly(text: string, comment: string)
    requires '@' !in text && '#' !in text && (comment == "" || comment[0] == '#')
    ensures Read(text + comment) == if text == "" then Nothing else Wrong
  {
    hide Atoi, Span;
    var chunk := text + comment;
    SpanUnique(chunk, {'#'}, |text|);
    assert chunk[..|text|] == text;
    TrimmedHasNoEdgeBlanks(text);
    var line := Trimmed(text);
    assert forall c :: c in line ==> c in text;
    SpanUnique(line, {'@'}, |line|);
  }

  /** Comment lines may stand anywhere, and a blank line nowhere. */
  lemma CommentLinesDoNotMatter(list: seq<Desc>, kernels: set<string>, index: nat, comment: string, rest: string)
    requires comment != "" && comment[0] == '#' && LF !in comment && |comment| < 4094
    ensures LoadFrom(list, kernels, index, comment + [LF] + rest) == LoadFrom(list, kernels, index, rest)
    ensures LoadFrom(list, kernels, index, [LF] + rest) == Stopped
  {
    hide Read, LoadFrom;
    var file, blank := comment + [LF] + rest, [LF] + rest;
    SpanUnique(file, {LF}, |comment|);
    SpanUnique(blank, {LF}, 0);
    LoadStep(list, kernels, index, file);
    LoadStep(list, kernels, index, blank);
    assert file[..|comment| + 1] == "" + (comment + [LF]) && file[|comment| + 1..] == rest;
    assert blank[..1] == [LF] + "";
    OtherLinesExactly("", comment + [LF]);
    OtherLinesExactly([LF], "");
  }

  /** A longer line is read in pieces of 4094 characters. */
  lemma LongLineIsCut(file: string)
    requires |file| >= 4094 && LF !in file[..4094]
    ensures ChunkLength(file) == 4094
  {
    hide Span;
    assert forall j :: 0 <= j < 4094 ==> file[j] == file[..4094][j];
  }

  predicate Writable(d: Desc) { d.name != "" && LF !in d.name && |d.name| < MAX_NAME && IsInt32(d.params) }

  lemma EntryLineIsChunk(d: Desc, rest: string)
    requires Writable(d)
    ensures ChunkLength(EntryLine(d) + rest) == |EntryLine(d)|
    ensures (EntryLine(d) + rest)[..|EntryLine(d)|] == EntryLine(d)
    ensures (EntryLine(d) + rest)[|EntryLine(d)|..] == rest
  {
    hide ShowInt, Show, Span;
    var line, file := EntryLine(d), EntryLine(d) + rest;
    Int32Shows(d.params);
    assert forall i :: 0 <= i < |line| - 1 ==> file[i] == (d.name + "@" + ShowInt(d.params))[i];
    assert file[|line| - 1] == LF;
    SpanUnique(file, {LF}, |line| - 1);
  }

  lemma Int32Shows(n: int)
    requires IsInt32(n)
    ensures |ShowInt(n)| <= 11
  {
    assert PowerOfTen(10) == 10_000_000_000;
    ShowLength(if n < 0 then -n else n, 10);
  }

  function Pairs(list: seq<Desc>): (entries: seq<(string, int)>)
    ensures |entries| == |list| && forall i :: 0 <= i < |list| ==> entries[i] == (list[i].name, list[i].params)
    decreases |list|
  {
    if list == [] then [] else [(list[0].name, list[0].params)] + Pairs(list[1..])
  }

  lemma {:induction false} SavedEntries(list: seq<Desc>)
    requires forall i :: 0 <= i < |list| ==> Writable(list[i])
    ensures Entries(Save(list)) == Some(Pairs(list)) <==> forall i :: 0 <= i < |list| ==> Restorable(list[i])
    ensures Entries(Save(list)).Some? ==> |Entries(Save(list)).value| <= |list|
    decreases |list|
  {
    hide Read, EntryLine, Restorable, ChunkLength;
    if list != [] {
      var d, rest := list[0], list[1..];
      SavedEntries(rest);
      EntryLineReads(d);
      EntryLineIsChunk(d, Save(rest));
      assert forall i :: 0 <= i < |rest| ==> rest[i] == list[i + 1];
      SavedStep(d, rest);
    }
  }

  lemma SavedStep(d: Desc, rest: seq<Desc>)
    requires Writable(d)
    ensures var all, entries := Entries(EntryLine(d) + Save(rest)), Entries(Save(rest));
      && (all.Some? ==> entries.Some? && |all.value| <= |entries.value| + 1)
      && (entries.None? || |entries.value| <= |rest| ==>
           (all == Some([(d.name, d.params)] + Pairs(rest)) <==>
             Read(EntryLine(d)) == Entry(d.name, d.params) && entries == Some(Pairs(rest))))
  {
    hide Read, EntryLine, ChunkLength, Save, Pairs;
    EntryLineIsChunk(d, Save(rest));
    assert EntryLine(d) != "" by { LineIsNotEmpty(d); }
    var all, entries := Entries(EntryLine(d) + Save(rest)), Entries(Save(rest));
    if all.Some? && Read(EntryLine(d)).Entry? {
      var m := Read(EntryLine(d));
      assert ([(m.name, m.count)] + entries.value)[0] == (m.name, m.count);
      assert ([(m.name, m.count)] + entries.value)[1..] == entries.value;
      assert ([(d.name, d.params)] + Pairs(rest))[0] == (d.name, d.params);
      assert ([(d.name, d.params)] + Pairs(rest))[1..] == Pairs(rest);
    }
  }

  lemma LineIsNotEmpty(d: Desc)
    ensures EntryLine(d) != ""
  {
  }

  /** Saving a table and loading the file into an empty module gives back the same kernels in the same order
      exactly when no name holds '@' or '#' or starts or ends with a blank, and every count is positive. */
  lemma SaveThenLoad(list: seq<Desc>, kernels: set<string>)
    requires Distinct(list) && |list| <= MAX_FUNCTIONS
    requires forall i :: 0 <= i < |list| ==> Writable(list[i]) && list[i].name in kernels
    ensures LoadFrom([], kernels, 0, Save(list)) == Loaded(Indexed(Pairs(list)))
      <==> forall i :: 0 <= i < |list| ==> Restorable(list[i])
  {
    hide Entries, Save, LoadFrom, Restorable, Writable;
    SavedEntries(list);
    LoadsExactly(kernels, Save(list));
    assert Admissible(Pairs(list), kernels) by { PairsAdmissible(list, kernels); }
    var entries := Entries(Save(list));
    if entries.Some? && Indexed(entries.value) == Indexed(Pairs(list)) {
      IndexedInjective(entries.value, Pairs(list));
    }
  }

  lemma UnrestorableIsLost(d: Desc)
    requires Writable(d) && !Restorable(d)
    ensures LoadFrom([], {d.name}, 0, Save([d])) != Loaded(Indexed(Pairs([d])))
  {
    hide Writable, Restorable, LoadFrom, Save;
    assert [d][0] == d;
    SaveThenLoad([d], {d.name});
  }

  /** A kernel called a#b with one parameter is not restored. */
  lemma HashInNameIsLost()
    ensures var d := Desc("a#b", 1, 0, Final);
      LoadFrom([], {d.name}, 0, Save([d])) != Loaded(Indexed(Pairs([d])))
  {
    hide LoadFrom, Save;
    UnrestorableIsLost(Desc("a#b", 1, 0, Final)) by { assert "a#b"[1] == '#'; }
  }

  lemma PairsAdmissible(list: seq<Desc>, kernels: set<string>)
    requires Distinct(list) && |list| <= MAX_FUNCTIONS
    requires forall i :: 0 <= i < |list| ==> Writable(list[i]) && list[i].name in kernels
    ensures Admissible(Pairs(list), kernels)
  {
    hide Writable, Distinct;
    var entries := Pairs(list);
    forall i | 0 <= i < |entries| ensures entries[i].0 != "" && |entries[i].0| < MAX_NAME && entries[i].0 in kernels {
      WritableNames(list[i]);
    }
    forall i, j | 0 <= i < j < |entries| ensures entries[i].0 != entries[j].0 {
      DistinctNames(list, i, j);
    }
  }

  lemma WritableNames(d: Desc)
    requires Writable(d)
    ensures d.name != "" && |d.name| < MAX_NAME
  {
  }

  lemma DistinctNames(list: seq<Desc>, i: nat, j: nat)
    requires Distinct(list) && i < j < |list|
    ensures list[i].name != list[j].name
  {
  }

  lemma IndexedInjective(a: seq<(string, int)>, b: seq<(string, int)>)
    requires Indexed(a) == Indexed(b)
    ensures a == b
  {
    hide Indexed;
    assert |a| == |b|;
    forall i | 0 <= i < |a| ensures a[i] == b[i] {
      assert Indexed(a)[i] == Indexed(b)[i];
    }
  }
}
