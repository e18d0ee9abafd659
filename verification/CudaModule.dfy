/** cuda_module_t of tools/cuda-api.c: the fixed array of kernels with its name index, filled from PTX listings
    and definition files. */
module CudaModule {
  import opened Text
  import opened CStrings
  import opened PtxScan
  import opened FunctionTable
  import opened DefFile

  /** What add_function leaves: the table, or a failed assertion. */
  datatype Added = Table(list: seq<Desc>) | Full

  /** One add_function. With a loaded module a kernel it does not have is refused, and the table stays. */
  function AddOne(list: seq<Desc>, ctx: Option<set<string>>, d: Desc): Added {
    if d.name == "" || |list| >= MAX_FUNCTIONS then Full
    else if ctx.Some? && d.name !in ctx.value then Table(list)
    else Table(Insert(list, d))
  }

  function AddAll(list: seq<Desc>, ctx: Option<set<string>>, ds: seq<Desc>): Added
    decreases |ds|
  {
    if ds == [] then Table(list)
    else
      match AddOne(list, ctx, ds[0])
      case Full => Full
      case Table(next) => AddAll(next, ctx, ds[1..])
  }

  lemma {:induction false} AddAllAppend(list: seq<Desc>, ctx: Option<set<string>>, a: seq<Desc>, b: seq<Desc>)
    ensures AddAll(list, ctx, a + b) ==
      if AddAll(list, ctx, a).Full? then Full else AddAll(AddAll(list, ctx, a).list, ctx, b)
    decreases |a|
  {
    hide AddOne;
    if a == [] {
      assert a + b == b;
    } else {
      assert (a + b)[1..] == a[1..] + b && (a + b)[0] == a[0];
      if AddOne(list, ctx, a[0]).Table? {
        AddAllAppend(AddOne(list, ctx, a[0]).list, ctx, a[1..], b);
      }
    }
  }

  /** Without a loaded module, and while there is room for all, additions are the list operations. */
  lemma {:induction false} AddAllInserts(list: seq<Desc>, ds: seq<Desc>)
    requires |list| + |ds| <= MAX_FUNCTIONS && forall i :: 0 <= i < |ds| ==> ds[i].name != ""
    ensures AddAll(list, None, ds) == Table(InsertAll(list, ds))
    decreases |ds|
  {
    if ds != [] {
      AddAllInserts(Insert(list, ds[0]), ds[1..]);
    }
  }

  lemma AddAllOneMore(list: seq<Desc>, ctx: Option<set<string>>, found: seq<Desc>, d: Desc)
    requires AddAll(list, ctx, found).Table?
    ensures AddAll(list, ctx, found + [d]) == AddOne(AddAll(list, ctx, found).list, ctx, d)
  {
    AddAllAppend(list, ctx, found, [d]);
    assert [d][1..] == [];
  }

  lemma PositionIs(list: seq<Desc>, i: nat, name: string)
    requires Distinct(list) && i < |list| && list[i].name == name
    ensures Position(list, name) == Some(i)
  {
  }

  // Walking through a listing in memory.

  /** The string a pointer to `s` shows: up to the first NUL. */
  function CText(s: string): string { s[..Span(s, {NUL})] }

  /** `next` is what is left once the line that ends at `end` has been taken: what follows its line feed, or
      nothing after a NUL. */
  ghost predicate LineTaken(rest: string, end: nat, next: string) {
    && end == Span(rest, {LF, NUL}) < |rest|
    && (rest[end] == LF ==> next == rest[end + 1..])
    && (rest[end] == NUL ==> next != "" && next[0] == NUL)
  }

  lemma LinesStep(rest: string, end: nat, next: string)
    requires LineTaken(rest, end, next)
    ensures Lines(CText(rest)) == [rest[..end]] + Lines(CText(next))
      || (end == 0 && Lines(CText(rest)) == [] == Lines(CText(next)))
  {
    if rest[end] == LF {
      LinesAtLineFeed(rest, end);
    } else {
      LinesAtNul(rest, end);
      LinesAtNul(next, 0);
    }
  }

  lemma LinesAtLineFeed(rest: string, end: nat)
    requires end < |rest| && rest[end] == LF && forall i :: 0 <= i < end ==> rest[i] !in {LF, NUL}
    ensures Lines(CText(rest)) == [rest[..end]] + Lines(CText(rest[end + 1..]))
  {
    hide Span;
    var next := rest[end + 1..];
    var n := Span(next, {NUL});
    assert forall i :: 0 <= i < n ==> rest[end + 1 + i] == next[i];
    SpanUnique(rest, {NUL}, end + 1 + n);
    var text := CText(rest);
    assert text == rest[..end + 1 + n];
    SpanUnique(text, {LF}, end);
    assert text[..end] == rest[..end] && text[end + 1..] == CText(next);
  }

  lemma LinesAtNul(rest: string, end: nat)
    requires end < |rest| && rest[end] == NUL && forall i :: 0 <= i < end ==> rest[i] !in {LF, NUL}
    ensures Lines(CText(rest)) == if end == 0 then [] else [rest[..end]]
  {
    hide Span;
    SpanUnique(rest, {NUL}, end);
    SpanUnique(rest[..end], {LF}, end);
  }

  lemma ScanStep(d: Desc, rest: string, end: nat, next: string)
    requires LineTaken(rest, end, next)
    ensures Scan(d, Lines(CText(rest))) ==
      match ParsePartial(d, rest[..end])
      case Abort => Aborted([])
      case Parsed(parsed, returned) =>
        if returned.Final? then Prepend([parsed], Scan(BLANK, Lines(CText(next)))) else Scan(parsed, Lines(CText(next)))
  {
    hide CText, Lines, BeforeComment, HeaderName;
    LinesStep(rest, end, next);
    var lines := Lines(CText(next));
    assert ([rest[..end]] + lines)[1..] == lines;
  }

  lemma PrependTwice(a: seq<Desc>, b: seq<Desc>, s: Scanned)
    ensures Prepend(a, Prepend(b, s)) == Prepend(a + b, s)
  {
    assert a + (b + s.descs) == a + b + s.descs;
  }

  /** strchr for a line feed, and the NUL put in its place. */
  method TakeLine(data: array<char>, line: nat, length: nat) returns (text: string, next: nat)
    requires line < length < data.Length && data[length] == NUL
    modifies data
    ensures line < next <= length && data[next..] == old(data[next..])
    ensures |text| <= |old(data[line..])| && text == old(data[line..])[..|text|]
    ensures LineTaken(old(data[line..]), |text|, old(data[next..]))
  {
    ghost var rest := data[line..];
    var end := line;
    while data[end] != LF && data[end] != NUL
      invariant line <= end <= length && forall i :: 0 <= i < end - line ==> rest[i] !in {LF, NUL}
      decreases length - end
    {
      assert rest[end - line] == data[end];
      end := end + 1;
    }
    assert rest[end - line] == data[end];
    SpanUnique(rest, {LF, NUL}, end - line);
    text := data[line..end];
    next := length;
    if data[end] == LF {
      data[end] := NUL;
      next := end + 1;
      assert rest[end - line + 1..] == data[next..];
    }
  }

  /** What get_function returns: a null pointer, a slot, or a failed assertion. */
  datatype Lookup = Missing | Slot(slot: nat) | NotLoaded

  class Module {
    const functions: array<Desc>
    const handles: array<Option<nat>> // the load each kernel handle was taken from, None while it is null
    var count: nat
    var table: map<string, nat>     // the tsearch tree, from names to slots
    var ctx: Option<set<string>>    // the kernels of the loaded module
    var loads: nat                  // how many modules have been loaded

    ghost predicate Valid()
      reads this, functions
    {
      && functions.Length == handles.Length == MAX_FUNCTIONS && count <= MAX_FUNCTIONS
      && (forall i :: 0 <= i < count ==> functions[i].name in table && table[functions[i].name] == i)
      && (forall name :: name in table ==> table[name] < count && functions[table[name]].name == name)
    }

    ghost function Entries(): (list: seq<Desc>)
      requires Valid()
      reads this, functions
      ensures Distinct(list)
    {
      functions[..count]
    }

    ghost function Handles(): seq<Option<nat>>
      requires Valid()
      reads this, functions, handles
    {
      handles[..count]
    }

    constructor ()
      ensures Valid() && Entries() == [] && ctx == None && loads == 0 && fresh(functions) && fresh(handles)
    {
      functions := new Desc[MAX_FUNCTIONS](_ => BLANK);
      handles := new Option<nat>[MAX_FUNCTIONS](_ => None);
      count, table, ctx, loads := 0, map[], None, 0;
    }

    /** cuda_module_add_function; None is a failed assertion. The slot behind the last is scratch space. */
    method AddFunction(d: Desc) returns (rc: Option<int>)
      requires Valid()
      modifies this`count, this`table, functions, handles
      ensures Valid()
      ensures old(count) <= count && forall i :: 0 <= i < old(count) ==> handles[i] == old(handles[i])
      ensures ctx.Some? ==> forall i :: old(count) <= i < count ==> handles[i] == Some(loads)
      ensures ctx.None? ==> forall i :: old(count) <= i < count ==> handles[i] == None
      ensures rc.None? <==> d.name == "" || |old(Entries())| >= 4096
      ensures rc == Some(-1) ==> Entries() == old(Entries())
      ensures rc.None? <==> AddOne(old(Entries()), ctx, d).Full?
      ensures Entries() == if rc.None? then old(Entries()) else AddOne(old(Entries()), ctx, d).list
      ensures rc.Some? ==> rc.value == if ctx.Some? && d.name !in ctx.value then -1 else 0
    {
      hide Distinct, Insert;
      if d.name == "" || count >= MAX_FUNCTIONS {
        return None;
      }
      ghost var list := Entries();
      functions[count], handles[count] := d, None;
      assert functions[..count] == list;
      if ctx.Some? {
        if d.name !in ctx.value {
          return Some(-1);
        }
        handles[count] := Some(loads);
      }
      assert Entries() == list;
      if d.name in table {
        Replace(d);
      } else {
        Adopt(d);
      }
      return Some(0);
    }

    /** tsearch has found the name: its description is replaced, its handle stays. */
    method Replace(d: Desc)
      requires Valid() && d.name in table
      modifies functions
      ensures Valid() && Entries() == Insert(old(Entries()), d)
    {
      hide Distinct;
      ghost var list := Entries();
      PositionIs(list, table[d.name], d.name);
      functions[table[d.name]] := d;
      assert functions[..count] == list[table[d.name] := d];
    }

    /** tsearch has entered the scratch slot. */
    method Adopt(d: Desc)
      requires Valid() && d.name !in table && count < MAX_FUNCTIONS && functions[count] == d
      modifies this`count, this`table
      ensures Valid() && count == old(count) + 1 && Entries() == Insert(old(Entries()), d)
    {
      hide Distinct;
      ghost var list := Entries();
      assert forall i :: 0 <= i < |list| ==> list[i].name in table;
      assert Position(list, d.name).None?;
      table := table[d.name := count];
      count := count + 1;
      assert functions[..count] == list + [d];
    }

    /** The lookup of cuda_module_get_function. */
    method FindFunction(name: string) returns (slot: Option<nat>)
      requires Valid()
      ensures slot == Position(Entries(), name)
    {
      if name in table {
        PositionIs(Entries(), table[name], name);
        return Some(table[name]);
      }
      assert forall i :: 0 <= i < |Entries()| ==> Entries()[i] == functions[i];
      return None;
    }

    /** cuda_module_get_function: a handle once taken stays, whatever module has been loaded since. */
    method GetFunction(name: Option<string>) returns (r: Lookup)
      requires Valid()
      modifies handles
      ensures Valid() && Entries() == old(Entries())
      ensures r.Slot? ==> r.slot < count && handles[..] == old(handles[..])[r.slot := handles[r.slot]]
      ensures !r.Slot? ==> handles[..] == old(handles[..])
      ensures var at := if name.None? then None else Position(Entries(), name.value);
        if at.None? then r == Missing
        else if ctx.None? then r == NotLoaded
        else if old(handles[at.value]).Some? then r == Slot(at.value) && handles[r.slot] == old(handles[r.slot])
        else if name.value in ctx.value then r == Slot(at.value) && handles[r.slot] == Some(loads)
        else r == Missing
    {
      if name.None? { return Missing; }
      var slot := FindFunction(name.value);
      if slot.None? { return Missing; }
      if ctx.None? { return NotLoaded; }
      if handles[slot.value].None? {
        if name.value !in ctx.value { return Missing; }
        handles[slot.value] := Some(loads);
      }
      return Slot(slot.value);
    }

    /** The scan in cuda_module_add_kernel_data: every line end becomes a NUL, every kernel found is added. The
        listing ends at `length`, behind which there is a NUL; one within ends it earlier. */
    method AddKernelData(data: array<char>, length: nat) returns (ok: bool)
      requires Valid() && length < data.Length && data[length] == NUL
      modifies this`count, this`table, functions, handles, data
      ensures Valid()
      ensures var scan := Scan(BLANK, Lines(CText(old(data[..]))));
        && (ok <==> scan.Found? && AddAll(old(Entries()), ctx, scan.descs).Table?)
        && (ok ==> Table(Entries()) == AddAll(old(Entries()), ctx, scan.descs))
    {
      hide Scan, Lines, CText, AddAll, AddOne, ParsePartial, LineTaken, Distinct;
      var desc := new Description();
      var line := 0;
      ghost var found: seq<Desc> := [];
      ghost var memory, list := data[..], Entries();
      assert memory[0..] == memory && data[0..] == memory;
      NothingYet(memory, list, ctx);
      while line < length
        invariant 0 <= line <= length && Valid() && fresh(desc)
        invariant data[line..] == memory[line..]
        invariant Scan(BLANK, Lines(CText(memory))) == Prepend(found, Scan(desc.Value(), Lines(CText(memory[line..]))))
        invariant AddAll(list, ctx, found) == Table(Entries())
        decreases length - line
      {
        ghost var rest, d := memory[line..], desc.Value();
        assert data[line..][length - line] == data[length] && memory[line..][length - line] == memory[length];
        var text, next := TakeLine(data, line, length);
        assert memory[line..][next - line..] == memory[next..];
        ScanStep(d, rest, |text|, memory[next..]);
        var stage := desc.Parse(text);
        if stage.None? {
          return false;
        }
        if stage.value.Final? {
          ghost var later := Scan(BLANK, Lines(CText(memory[next..])));
          PrependTwice(found, [desc.Value()], later);
          AddAllOneMore(list, ctx, found, desc.Value());
          AddAllAppend(list, ctx, found + [desc.Value()], later.descs);
          found := found + [desc.Value()];
          var rc := AddFunction(desc.Value());
          if rc.None? {
            return false;
          }
          desc.Clear();
        }
        line := next;
      }
      EndOfListing(memory, length, desc.Value());
      assert Prepend(found, Found([])) == Found(found) by { assert found + [] == found; }
      ok := true;
    }

    /** The definition file part of cuda_module_save_module. */
    method SaveDefinitions() returns (file: string)
      requires Valid()
      ensures file == Save(Entries())
    {
      hide EntryLine;
      file := "";
      var i := 0;
      while i < count
        invariant i <= count && file + Save(Entries()[i..]) == Save(Entries())
      {
        var d := functions[i];
        assert Entries()[i..][0] == d && Entries()[i..][1..] == Entries()[i + 1..];
        assert file + (EntryLine(d) + Save(Entries()[i + 1..])) == file + EntryLine(d) + Save(Entries()[i + 1..]);
        file := file + EntryLine(d);
        i := i + 1;
      }
      assert file + "" == file;
    }

    /** The definition file part of cuda_module_load_module, once the module with `kernels` is loaded. */
    method LoadDefinitions(kernels: set<string>, file: string) returns (ok: bool)
      requires Valid()
      modifies this, functions, handles
      ensures Valid() && ctx == Some(kernels) && loads == old(loads) + 1
      ensures old(count) <= count && forall i :: 0 <= i < old(count) ==> handles[i] == old(handles[i])
      ensures forall i :: old(count) <= i < count ==> handles[i] == Some(loads)
      ensures LoadFrom(old(Entries()), kernels, 0, file) == if ok then Loaded(Entries()) else Stopped
    {
      hide Read, Insert, Distinct, LoadFrom, ChunkLength;
      ctx, loads := Some(kernels), loads + 1;
      var index, p := 0, 0;
      assert file[0..] == file;
      while p < |file|
        invariant p <= |file| && Valid() && ctx == Some(kernels) && loads == old(loads) + 1
        invariant old(count) <= count && forall i :: 0 <= i < old(count) ==> handles[i] == old(handles[i])
        invariant forall i :: old(count) <= i < count ==> handles[i] == Some(loads)
        invariant LoadFrom(old(Entries()), kernels, 0, file) == LoadFrom(Entries(), kernels, index, file[p..])
        decreases |file| - p
      {
        ghost var rest := file[p..];
        LoadStep(Entries(), kernels, index, rest);
        var chunk := NextChunk(file, p);
        p := p + |chunk|;
        assert rest[|chunk|..] == file[p..];
        var meaning := ReadChunk(chunk);
        match meaning {
          case Nothing =>
          case Wrong => return false;
          case Entry(name, num) =>
            if |name| >= MAX_NAME { return false; }
            var rc := AddFunction(Desc(name, num, index, Unknown));
            if rc != Some(0) { return false; }
            index := index + 1;
        }
      }
      LoadStep(Entries(), kernels, index, file[p..]);
      ok := index == count;
    }

    /** fgets */
    static method NextChunk(file: string, p: nat) returns (chunk: string)
      requires p < |file|
      ensures chunk == file[p..][..ChunkLength(file[p..])]
    {
      var end := p;
      while end < |file| && end - p < ROOM && (end == p || file[end - 1] != LF)
        invariant p <= end <= |file| && end - p <= ROOM
        invariant forall i :: p <= i < end - 1 ==> file[i] != LF
      {
        end := end + 1;
      }
      chunk := file[p..end];
      ChunkIs(file[p..], end - p);
    }

    /** What the loop of load does with one chunk before it calls add_function. */
    static method ReadChunk(chunk: string) returns (m: Meaning)
      ensures m == Read(chunk)
    {
      hide Trimmed, Span, Atoi;
      var text := chunk[..Span(chunk, {'#'})];
      if text == "" { return Nothing; }
      var line, _ := Trim(text);
      var at := Span(line, {'@'});
      if at == |line| { return Wrong; }
      var name, _ := Trim(line[..at]);
      var num := Atoi(line[at + 1..]);
      if num <= 0 { return Wrong; }
      return Entry(name, num);
    }
  }

  lemma ChunkIs(rest: string, n: nat)
    requires 0 < n <= |rest| && n <= ROOM
    requires forall i :: 0 <= i < n - 1 ==> rest[i] != LF
    requires n == |rest| || n == ROOM || rest[n - 1] == LF
    ensures ChunkLength(rest) == n
  {
  }

  /** A module's kernels, written out and loaded into a new module, are the same kernels in the same order. */
  method SaveAndRestore(m: Module, kernels: set<string>) returns (restored: Module, ok: bool)
    requires m.Valid()
    requires forall d :: d in m.Entries() ==> Writable(d) && d.name in kernels
    ensures restored.Valid()
    ensures ok && restored.Entries() == Indexed(Pairs(m.Entries())) <==> forall d :: d in m.Entries() ==> Restorable(d)
  {
    hide Save, LoadFrom, Restorable, Writable;
    ghost var list := m.Entries();
    var file := m.SaveDefinitions();
    restored := new Module();
    ok := restored.LoadDefinitions(kernels, file);
    SaveThenLoad(list, kernels);
  }

  /** Loading a second module over a first leaves every known kernel with its handle of the first. */
  method LoadAgain(m: Module, first: set<string>, second: set<string>, file: string) returns (loaded: nat, ok: bool)
    requires m.Valid() && m.count == 0
    modifies m, m.functions, m.handles
    ensures m.Valid() && m.ctx == Some(second) && loaded <= m.count
    ensures forall i :: 0 <= i < loaded ==> m.handles[i] == Some(m.loads - 1)
    ensures var before := LoadFrom([], first, 0, file); before.Loaded? ==> loaded == |before.list|
  {
    hide LoadFrom;
    assert m.Entries() == [];
    ok := m.LoadDefinitions(first, file);
    loaded := m.count;
    ok := m.LoadDefinitions(second, file);
  }

  predicate Named(descs: seq<Desc>) { forall i :: 0 <= i < |descs| ==> descs[i].name != "" }

  lemma HandNamed(d: Desc, rest: Scanned)
    requires d.name != "" && Named(rest.descs)
    ensures Named(Hand(d, rest).descs)
  {
  }

  lemma {:induction false} HandedNamed(items: seq<Item>, open: Option<Desc>)
    requires ValidListing(items) && (open.Some? ==> open.value.name != "")
    ensures Named(Handed(items, open).descs)
    decreases |items|
  {
    hide Named, Hand, ValidDeclaration, HeaderText, ParamLines, Counted, Closes;
    if items == [] {
      NothingNamed();
      return;
    }
    assert ValidItem(items[0]);
    DeclaredNamed(items[0]);
    HandedNamed(items[1..], None);
    match (items[0], open)
    case (Other(_), None) =>
    case (Other(line), Some(d)) =>
      HandNamed(d, Handed(items[1..], None));
      HandedNamed(items[1..], Some(d.(params := d.params + LineParams(line))));
    case (Kernel(decl, body, _), None) =>
      HandNamed(Begun(decl.name).(params := ParamLines(body)), Handed(items[1..], None));
    case (OneLine(decl), None) =>
      HandedNamed(items[1..], Some(Begun(decl.name)));
    case (_, Some(d)) =>
      HandNamed(Swallowed(items[0], d), Handed(items[1..], None));
  }

  lemma NothingNamed()
    ensures Named([])
  {
  }

  lemma DeclaredNamed(item: Item)
    requires ValidItem(item)
    ensures !item.Other? ==> item.decl.name != ""
  {
  }

  /** The text of a listing fills an empty module with the kernels its scan finds: each name where it was first
      found, with the parameters it was last found with. They are the declared ones exactly when it is laid out
      right. */
  lemma ListingFillsModule(items: seq<Item>)
    requires ValidListing(items) && |items| <= MAX_FUNCTIONS
    requires forall i :: 0 <= i < |ListingLines(items)| ==> LF !in ListingLines(items)[i]
    ensures var text, found := Written(ListingLines(items)), Handed(items, None).descs;
      && Scan(BLANK, Lines(text)) == Handed(items, None)
      && (Scan(BLANK, Lines(text)) == Found(Declared(items)) <==> Right(items))
      && AddAll([], None, found) == Table(InsertAll([], found))
      && Names(InsertAll([], found)) == FirstSeen([], found)
      && forall i :: 0 <= i < |InsertAll([], found)| ==>
           LastNamed(found, InsertAll([], found)[i].name) == Some(InsertAll([], found)[i])
  {
    hide Scan, Lines, Written, Handed, Declared, Right, ValidItem, InsertAll, FirstSeen, LastNamed;
    var found := Handed(items, None).descs;
    ListingTextScans(items);
    HandedNamed(items, None);
    HandedAtMost(items, None);
    AddAllInserts([], found);
    InsertionOrder([], found);
    assert Names([]) == [] && [] + FirstSeen([], found) == FirstSeen([], found);
    forall i | 0 <= i < |InsertAll([], found)|
      ensures LastNamed(found, InsertAll([], found)[i].name) == Some(InsertAll([], found)[i])
    {
      LastAdditionWins(found, i);
    }
  }

  lemma NothingYet(memory: string, list: seq<Desc>, ctx: Option<set<string>>)
    ensures Scan(BLANK, Lines(CText(memory))) == Prepend([], Scan(BLANK, Lines(CText(memory))))
    ensures AddAll(list, ctx, []) == Table(list)
  {
    assert [] + Scan(BLANK, Lines(CText(memory))).descs == Scan(BLANK, Lines(CText(memory))).descs;
  }

  lemma EndOfListing(memory: string, length: nat, d: Desc)
    requires length < |memory| && memory[length] == NUL
    ensures Scan(d, Lines(CText(memory[length..]))) == Found([])
  {
    SpanUnique(memory[length..], {NUL}, 0);
    assert CText(memory[length..]) == "";
  }
}
