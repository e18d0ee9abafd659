/** The kernels of a module in tools/cuda-api.c as a list with distinct names: what adding one does, and what
    any sequence of additions leaves. */
module FunctionTable {
  import opened Text
  import opened PtxScan

  const MAX_FUNCTIONS: nat := 4096

  function Position(list: seq<Desc>, name: string): (r: Option<nat>)
    ensures r.Some? ==> r.value < |list| && list[r.value].name == name
    ensures r.Some? ==> forall i :: 0 <= i < r.value ==> list[i].name != name
    ensures r.None? ==> forall i :: 0 <= i < |list| ==> list[i].name != name
    decreases |list|
  {
    if list == [] then None
    else if list[0].name == name then Some(0)
    else
      var r := Position(list[1..], name);
      if r.None? then None else Some(r.value + 1)
  }

  predicate Distinct(list: seq<Desc>) {
    forall i, j :: 0 <= i < j < |list| ==> list[i].name != list[j].name
  }

  /** A new name goes to the end, a known one is updated where it is. */
  function Insert(list: seq<Desc>, d: Desc): (r: seq<Desc>)
    ensures Distinct(list) ==> Distinct(r)
  {
    var p := Position(list, d.name);
    if p.Some? then list[p.value := d] else list + [d]
  }

  function InsertAll(list: seq<Desc>, ds: seq<Desc>): (r: seq<Desc>)
    ensures Distinct(list) ==> Distinct(r)
    decreases |ds|
  {
    if ds == [] then list else InsertAll(Insert(list, ds[0]), ds[1..])
  }

  function Names(list: seq<Desc>): (names: seq<string>)
    ensures |names| == |list| && forall i :: 0 <= i < |list| ==> names[i] == list[i].name
  {
    seq(|list|, i requires 0 <= i < |list| => list[i].name)
  }

  /** The names of `ds` that are not in `seen`, each where it occurs first. */
  function FirstSeen(seen: seq<string>, ds: seq<Desc>): seq<string>
    decreases |ds|
  {
    if ds == [] then []
    else if ds[0].name in seen then FirstSeen(seen, ds[1..])
    else [ds[0].name] + FirstSeen(seen + [ds[0].name], ds[1..])
  }

  /** The last description with that name. */
  function LastNamed(ds: seq<Desc>, name: string): (r: Option<Desc>)
    ensures r.Some? ==> r.value in ds && r.value.name == name
    ensures r.None? ==> forall i :: 0 <= i < |ds| ==> ds[i].name != name
    decreases |ds|
  {
    if ds == [] then None
    else
      var last := ds[|ds| - 1];
      if last.name == name then Some(last) else LastNamed(ds[..|ds| - 1], name)
  }

  lemma InsertNames(list: seq<Desc>, d: Desc)
    ensures Names(Insert(list, d)) == if d.name in Names(list) then Names(list) else Names(list) + [d.name]
  {
    var p := Position(list, d.name);
    if p.Some? {
      assert Names(list)[p.value] == d.name;
    }
  }

  /** Insertion order is the order of first additions. */
  lemma {:induction false} InsertionOrder(list: seq<Desc>, ds: seq<Desc>)
    ensures Names(InsertAll(list, ds)) == Names(list) + FirstSeen(Names(list), ds)
    decreases |ds|
  {
    hide Names, Insert;
    if ds == [] {
      assert Names(list) + [] == Names(list);
    } else {
      InsertNames(list, ds[0]);
      InsertionOrder(Insert(list, ds[0]), ds[1..]);
      if ds[0].name !in Names(list) {
        var first, rest := [ds[0].name], FirstSeen(Names(list) + [ds[0].name], ds[1..]);
        assert Names(list) + first + rest == Names(list) + (first + rest);
      }
    }
  }

  lemma InsertSnoc(list: seq<Desc>, ds: seq<Desc>, d: Desc)
    ensures InsertAll(list, ds + [d]) == Insert(InsertAll(list, ds), d)
    decreases |ds|
  {
    hide Insert;
    if ds == [] {
      assert InsertAll(list, [d]) == InsertAll(Insert(list, d), [d][1..]) == Insert(list, d);
      assert ds + [d] == [d];
    } else {
      assert (ds + [d])[1..] == ds[1..] + [d];
      InsertSnoc(Insert(list, ds[0]), ds[1..], d);
    }
  }

  /** Every entry is the last description added under its name. */
  lemma {:induction false} LastAdditionWins(ds: seq<Desc>, i: nat)
    requires i < |InsertAll([], ds)|
    ensures LastNamed(ds, InsertAll([], ds)[i].name) == Some(InsertAll([], ds)[i])
    decreases |ds|
  {
    if ds != [] {
      var before, d := ds[..|ds| - 1], ds[|ds| - 1];
      assert ds == before + [d];
      InsertSnoc([], before, d);
      var list := InsertAll([], before);
      assert Distinct(list);
      if InsertAll([], ds)[i].name != d.name {
        assert i < |list| && InsertAll([], ds)[i] == list[i];
        LastAdditionWins(before, i);
      }
    }
  }

  /** Distinct names are simply appended. */
  lemma {:induction false} InsertDistinct(list: seq<Desc>, ds: seq<Desc>)
    requires Distinct(list + ds)
    ensures InsertAll(list, ds) == list + ds
    decreases |ds|
  {
    if ds == [] {
      assert list + ds == list;
    } else {
      assert (list + ds)[|list|] == ds[0];
      assert forall i :: 0 <= i < |list| ==> (list + ds)[i] == list[i];
      assert Position(list, ds[0].name).None?;
      assert list + [ds[0]] + ds[1..] == list + ds;
      InsertDistinct(list + [ds[0]], ds[1..]);
    }
  }
}
