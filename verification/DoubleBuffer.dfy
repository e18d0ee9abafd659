/** The double buffer of src/io-input.c: one writer publishes frames, any number of readers copy the
    latest one out. The writer fills the back cell byte by byte without the lock and swaps the cells
    under it; a reader copies the front cell byte by byte under the lock. */
module DoubleBuffer {
  import opened Text

  type Bytes = seq<int>

  /** One of the two frames. `readable` says its type tag names an image format. */
  datatype Cell = Cell(readable: bool, image: Bytes, meta: Option<Bytes>)

  /** What a caller passes to set. input_frame_copy leaves its target alone for a `Refused` frame, and only
      clears the target's type for an `Unparsable` one, a picture whose header does not parse. */
  datatype Input =
    | Valid(image: Bytes, meta: Option<Bytes>, number: int)
    | Refused(number: int)
    | Unparsable(number: int)

  datatype Pair = Pair(front: Cell, back: Cell, number: int)

  const EMPTY: Cell := Cell(false, [], None)
  const NEW: Pair := Pair(EMPTY, EMPTY, 0)

  /** input_frame_copy into a cell. A frame without metadata leaves the old metadata in place. */
  function Written(cell: Cell, f: Input): Cell {
    match f
    case Valid(image, meta, _) => Cell(true, image, if meta.Some? then meta else cell.meta)
    case Refused(_) => cell
    case Unparsable(_) => cell.(readable := false)
  }

  function NextNumber(current: int, supplied: int): int {
    if supplied > 0 then supplied else current + 1
  }

  /** A whole call of double_buffer_set. */
  function After(p: Pair, f: Input): Pair {
    Pair(Written(p.back, f), p.front, NextNumber(p.number, f.number))
  }

  function Fold(history: seq<Input>): Pair {
    if history == [] then NEW
    else After(Fold(history[..|history| - 1]), history[|history| - 1])
  }

  /** The frame a reader passes in. */
  datatype Target = Target(cell: Cell, number: int)

  /** A whole call of double_buffer_get; its result is the number in the target. */
  function Fetched(p: Pair, t: Target): Target {
    var cell := if p.front.readable
                then Cell(true, p.front.image, if p.front.meta.Some? then p.front.meta else t.cell.meta)
                else t.cell;
    Target(cell, if p.number > 0 then p.number else t.number)
  }

  datatype Owner = Free | Writer | Reader(index: nat)

  datatype WriterPc = WrIdle | WrCopying(input: Input) | WrCopied(copied: Input) | WrLocked(pending: Input)

  datatype ReaderPc =
    | RdIdle
    | RdCopying(given: Target, partial: Bytes) // the image bytes copied so far
    | RdCopied                                 // the frame copy is finished

  /** A finished get: the target before and after, and how many frames had been published. */
  datatype Get = Get(published: nat, given: Target, taken: Target)

  datatype State = State(
    front: Cell, back: Cell, number: int, mutex: Owner,
    writer: WriterPc, readers: seq<ReaderPc>,
    history: seq<Input>, gets: seq<Get>)

  datatype Step =
    | SetBegin(f: Input) | SetCopy | SetLock | SetSwap
    | GetLock(r: nat, given: Target) | GetCopy(r: nat) | GetFinish(r: nat) | GetReturn(r: nat)

  predicate Enabled(s: State, e: Step) {
    match e
    case SetBegin(_) => s.writer.WrIdle?
    case SetCopy => s.writer.WrCopying? && s.writer.input.Valid?
    case SetLock => s.writer.WrCopied? && s.mutex.Free?
    case SetSwap => s.writer.WrLocked?
    case GetLock(r, _) => r < |s.readers| && s.readers[r].RdIdle? && s.mutex.Free?
    case GetCopy(r) =>
      r < |s.readers| && s.readers[r].RdCopying? && s.front.readable && |s.readers[r].partial| < |s.front.image|
    case GetFinish(r) =>
      && r < |s.readers| && s.readers[r].RdCopying?
      && (s.front.readable ==> |s.front.image| <= |s.readers[r].partial|)
    case GetReturn(r) => r < |s.readers| && s.readers[r].RdCopied?
  }

  function Do(s: State, e: Step): State
    requires Enabled(s, e)
  {
    match e
    case SetBegin(f) =>
      if f.Valid? then s.(writer := WrCopying(f), back := s.back.(readable := false, image := []))
      else s.(writer := WrCopied(f), back := Written(s.back, f))
    case SetCopy =>
      var f, n := s.writer.input, |s.back.image|;
      if n < |f.image| then s.(back := s.back.(image := s.back.image + [f.image[n]]))
      else s.(writer := WrCopied(f), back := Cell(true, s.back.image, if f.meta.Some? then f.meta else s.back.meta))
    case SetLock => s.(writer := WrLocked(s.writer.copied), mutex := Writer)
    case SetSwap =>
      s.(front := s.back, back := s.front, number := NextNumber(s.number, s.writer.pending.number),
         history := s.history + [s.writer.pending], writer := WrIdle, mutex := Free)
    case GetLock(r, given) => s.(readers := s.readers[r := RdCopying(given, [])], mutex := Reader(r))
    case GetCopy(r) =>
      var pc := s.readers[r];
      s.(readers := s.readers[r := RdCopying(pc.given, pc.partial + [s.front.image[|pc.partial|]])])
    case GetFinish(r) =>
      var pc := s.readers[r];
      var given := pc.given;
      var cell := if s.front.readable
                  then Cell(true, pc.partial, if s.front.meta.Some? then s.front.meta else given.cell.meta)
                  else given.cell;
      var taken := Target(cell, if s.number > 0 then s.number else given.number);
      s.(readers := s.readers[r := RdCopied], gets := s.gets + [Get(|s.history|, given, taken)])
    case GetReturn(r) => s.(readers := s.readers[r := RdIdle], mutex := Free)
  }

  predicate Initial(s: State) {
    && s.front == s.back == EMPTY && s.number == 0 && s.mutex.Free? && s.writer.WrIdle?
    && (forall r :: 0 <= r < |s.readers| ==> s.readers[r].RdIdle?)
    && s.history == [] && s.gets == []
  }

  /** Only the lock holder is between lock and unlock. */
  ghost predicate LockInv(s: State) {
    && (s.mutex.Writer? <==> s.writer.WrLocked?)
    && (forall r :: 0 <= r < |s.readers| && !s.readers[r].RdIdle? ==> s.mutex == Reader(r))
  }

  /** The cells against whole calls of set, with the back cell possibly half written. */
  ghost predicate CellInv(s: State) {
    var p := Fold(s.history);
    && s.front == p.front && s.number == p.number
    && match s.writer
       case WrIdle => s.back == p.back
       case WrCopying(f) => f.Valid? && s.back.image <= f.image && s.back.meta == p.back.meta
       case WrCopied(f) => s.back == Written(p.back, f)
       case WrLocked(f) => s.back == Written(p.back, f)
  }

  /** A copy in progress has taken a prefix of the front cell. */
  ghost predicate CopyInv(s: State) {
    forall r :: 0 <= r < |s.readers| && s.readers[r].RdCopying? ==> s.readers[r].partial <= s.front.image
  }

  /** Every finished get was one whole get of what was published at some point, and later gets never see
      an older point. */
  ghost predicate GetInv(s: State) {
    && (forall i :: 0 <= i < |s.gets| ==>
      && s.gets[i].published <= |s.history|
      && s.gets[i].taken == Fetched(Fold(s.history[..s.gets[i].published]), s.gets[i].given))
    && (forall i, j :: 0 <= i < j < |s.gets| ==> s.gets[i].published <= s.gets[j].published)
  }

  ghost predicate Inv(s: State) {
    LockInv(s) && CellInv(s) && CopyInv(s) && GetInv(s)
  }

  lemma InitInv(s: State)
    requires Initial(s)
    ensures Inv(s)
  {
  }

  lemma FoldSnoc(history: seq<Input>, f: Input)
    ensures Fold(history + [f]) == After(Fold(history), f)
  {
    assert (history + [f])[..|history|] == history;
  }

  lemma LockPreserved(s: State, e: Step)
    requires Inv(s) && Enabled(s, e)
    ensures LockInv(Do(s, e))
  {
    hide CellInv, CopyInv, GetInv;
  }

  lemma CellPreserved(s: State, e: Step)
    requires Inv(s) && Enabled(s, e)
    ensures CellInv(Do(s, e))
  {
    hide LockInv, CopyInv, GetInv;
    if e.SetSwap? {
      FoldSnoc(s.history, s.writer.pending);
    }
    hide Fold;
    if e.SetCopy? && |s.back.image| >= |s.writer.input.image| {
      assert s.back.image == s.writer.input.image;
    }
  }

  lemma CopyPreserved(s: State, e: Step)
    requires Inv(s) && Enabled(s, e)
    ensures CopyInv(Do(s, e))
  {
    hide CellInv, GetInv;
  }

  lemma GetPreserved(s: State, e: Step)
    requires Inv(s) && Enabled(s, e)
    ensures GetInv(Do(s, e))
  {
    hide LockInv, Fold;
    var t := Do(s, e);
    if e.SetSwap? {
      forall i | 0 <= i < |t.gets|
        ensures t.history[..t.gets[i].published] == s.history[..t.gets[i].published]
      {
      }
    }
    if e.GetFinish? {
      assert s.history[..|s.history|] == s.history;
      assert s.front.readable ==> s.readers[e.r].partial == s.front.image;
    }
  }

  lemma StepInv(s: State, e: Step)
    requires Inv(s) && Enabled(s, e)
    ensures Inv(Do(s, e))
  {
    LockPreserved(s, e);
    CellPreserved(s, e);
    CopyPreserved(s, e);
    GetPreserved(s, e);
    hide LockInv, CellInv, CopyInv, GetInv, Do;
  }

  predicate IsRun(s: State, steps: seq<Step>, t: State)
    decreases |steps|
  {
    if steps == [] then s == t
    else Enabled(s, steps[0]) && IsRun(Do(s, steps[0]), steps[1..], t)
  }

  lemma {:induction false} RunInv(s: State, steps: seq<Step>, t: State)
    requires Inv(s) && IsRun(s, steps, t)
    ensures Inv(t)
    decreases |steps|
  {
    hide Inv, Do, Enabled;
    if steps != [] {
      StepInv(s, steps[0]);
      RunInv(Do(s, steps[0]), steps[1..], t);
    }
  }

  /** Interleaved set and get calls refine atomic ones: in every run each get returns what one
      uninterrupted get would have returned after some number of complete sets, and that number never
      falls from one get to the next. */
  lemma GetsAreAtomic(s: State, steps: seq<Step>, t: State)
    requires Initial(s) && IsRun(s, steps, t)
    ensures forall i :: 0 <= i < |t.gets| ==>
      && t.gets[i].published <= |t.history|
      && t.gets[i].taken == Fetched(Fold(t.history[..t.gets[i].published]), t.gets[i].given)
    ensures forall i, j :: 0 <= i < j < |t.gets| ==> t.gets[i].published <= t.gets[j].published
  {
    InitInv(s);
    RunInv(s, steps, t);
    hide LockInv, CellInv, CopyInv, Fold;
  }

  /** A get that finishes sees every set that has swapped before it, not an earlier state. */
  lemma GetSeesLatest(s: State, steps: seq<Step>, t: State, r: nat)
    requires Initial(s) && IsRun(s, steps, t) && Enabled(t, GetFinish(r))
    ensures Do(t, GetFinish(r)).gets ==
      t.gets + [Get(|t.history|, t.readers[r].given, Fetched(Fold(t.history), t.readers[r].given))]
  {
    InitInv(s);
    RunInv(s, steps, t);
    hide LockInv, GetInv, Fold;
    assert t.front.readable ==> t.readers[r].partial == t.front.image;
  }

  /** After a valid frame with metadata a get returns that frame: its image, its metadata, and the number
      the buffer gave it, whatever was in the cells and in the reader's target before. */
  lemma LatestValidFrame(history: seq<Input>, f: Input, given: Target)
    requires f.Valid? && f.meta.Some?
    ensures var g := Fetched(Fold(history + [f]), given);
            g.cell == Cell(true, f.image, f.meta) && g.number == Fold(history + [f]).number > 0
  {
    FoldSnoc(history, f);
    NumberNonNegative(history);
  }

  /** No valid frame at an index of that parity brought metadata. */
  predicate BareAt(history: seq<Input>, parity: nat) {
    forall i :: 0 <= i < |history| && i % 2 == parity && history[i].Valid? ==> history[i].meta.None?
  }

  lemma BareSnoc(init: seq<Input>, last: Input, parity: nat)
    ensures BareAt(init + [last], parity) <==>
      BareAt(init, parity) && (|init| % 2 == parity && last.Valid? ==> last.meta.None?)
  {
    var all := init + [last];
    assert forall i :: 0 <= i < |init| ==> all[i] == init[i];
    assert all[|init|] == last;
  }

  /** A cell holds metadata when any frame written to it brought some: each cell gets every other frame. */
  lemma {:induction false} MetadataOfCells(history: seq<Input>)
    ensures Fold(history).back.meta.None? <==> BareAt(history, |history| % 2)
    ensures Fold(history).front.meta.None? <==> BareAt(history, (|history| + 1) % 2)
    decreases |history|
  {
    if history != [] {
      var init, last := history[..|history| - 1], history[|history| - 1];
      assert history == init + [last];
      MetadataOfCells(init);
      BareSnoc(init, last, 0);
      BareSnoc(init, last, 1);
    }
  }

  /** The image is always the latest valid one; the metadata is the frame's own exactly when it brings some,
      or when neither the reader's target nor any earlier valid frame an even number of publications before
      it brought any. */
  lemma LatestValidMetadata(history: seq<Input>, f: Input, given: Target)
    requires f.Valid?
    ensures var g := Fetched(Fold(history + [f]), given);
            && g.cell.image == f.image
            && (g.cell.meta == f.meta <==> f.meta.Some? || (BareAt(history, |history| % 2) && given.cell.meta.None?))
  {
    FoldSnoc(history, f);
    MetadataOfCells(history);
  }

  /** The third frame comes out with the metadata of the first. */
  lemma OlderMetadataStays()
    ensures var history := [Valid([1], Some([7]), 0), Valid([2], None, 0), Valid([3], None, 0)];
            var g := Fetched(Fold(history), Target(EMPTY, 0));
            g.cell == Cell(true, [3], Some([7]))
  {
    var a, b, c := Valid([1], Some([7]), 0), Valid([2], None, 0), Valid([3], None, 0);
    FoldSnoc([], a);
    FoldSnoc([a], b);
    FoldSnoc([a, b], c);
    assert [a, b, c] == [a, b] + [c] && [a, b] == [a] + [b] && [a] == [] + [a];
  }

  lemma {:induction false} NumberNonNegative(history: seq<Input>)
    ensures Fold(history).number >= 0 && (history != [] ==> Fold(history).number > 0)
    decreases |history|
  {
    if history != [] {
      NumberNonNegative(history[..|history| - 1]);
    }
  }

  /** One more publication lowers the number exactly when the caller supplies a positive smaller one. */
  lemma NumberStep(history: seq<Input>, f: Input)
    ensures Fold(history + [f]).number >= Fold(history).number <==>
            f.number <= 0 || f.number >= Fold(history).number
  {
    FoldSnoc(history, f);
  }

  /** The number counts on from the last positive one supplied, or from zero. */
  lemma {:induction false} NumberCounts(history: seq<Input>, k: nat)
    requires k <= |history| && (k > 0 ==> history[k - 1].number > 0)
    requires forall i :: k <= i < |history| ==> history[i].number <= 0
    ensures Fold(history).number == (if k == 0 then 0 else history[k - 1].number) + (|history| - k)
    decreases |history|
  {
    if |history| > k {
      NumberCounts(history[..|history| - 1], k);
    }
  }

  ghost predicate NumbersGrow(history: seq<Input>) {
    forall i :: 0 <= i < |history| ==> history[i].number <= 0 || history[i].number >= Fold(history[..i]).number
  }

  lemma {:induction false} NumbersMonotone(history: seq<Input>, m: nat, n: nat)
    requires NumbersGrow(history) && m <= n <= |history|
    ensures Fold(history[..m]).number <= Fold(history[..n]).number
    decreases n - m
  {
    hide Fold;
    if m < n {
      NumbersMonotone(history, m, n - 1);
      assert history[..n] == history[..n - 1] + [history[n - 1]];
      NumberStep(history[..n - 1], history[n - 1]);
    }
  }

  /** In every run whose supplied numbers are zero, negative or not below the current one, the numbers
      returned by gets that find a published frame never decrease. */
  lemma ReturnedNumbersNeverDecrease(s: State, steps: seq<Step>, t: State, i: nat, j: nat)
    requires Initial(s) && IsRun(s, steps, t) && NumbersGrow(t.history)
    requires i <= j < |t.gets| && t.gets[i].published > 0
    ensures t.gets[i].taken.number <= t.gets[j].taken.number
  {
    hide Fold;
    GetsAreAtomic(s, steps, t);
    var m, n := t.gets[i].published, t.gets[j].published;
    assert m <= n;
    NumbersMonotone(t.history, m, n);
    NumberNonNegative(t.history[..m]);
    NumberNonNegative(t.history[..n]);
  }

  /** Some unparsable frame sits at an index of the given parity. */
  predicate ClearsAt(tail: seq<Input>, parity: nat) {
    exists i :: 0 <= i < |tail| && i % 2 == parity && tail[i].Unparsable?
  }

  function Cleared(c: Cell, b: bool): Cell { if b then c.(readable := false) else c }

  /** What rejected frames do to the cells: each one still swaps them. */
  lemma {:induction false} RejectedFramesSwap(history: seq<Input>, tail: seq<Input>)
    requires forall i :: 0 <= i < |tail| ==> !tail[i].Valid?
    ensures var p, q := Fold(history), Fold(history + tail);
            var kept, other := Cleared(p.front, ClearsAt(tail, 1)), Cleared(p.back, ClearsAt(tail, 0));
            if |tail| % 2 == 0 then q.front == kept && q.back == other else q.front == other && q.back == kept
    decreases |tail|
  {
    hide Fold;
    if tail == [] {
      assert history + tail == history;
    } else {
      var init, last := tail[..|tail| - 1], tail[|tail| - 1];
      RejectedFramesSwap(history, init);
      assert history + tail == (history + init) + [last];
      FoldSnoc(history + init, last);
      ClearsSnoc(init, last, 0);
      ClearsSnoc(init, last, 1);
      assert tail == init + [last];
    }
  }

  lemma ClearsSnoc(init: seq<Input>, last: Input, parity: nat)
    ensures ClearsAt(init + [last], parity) <==> ClearsAt(init, parity) || (|init| % 2 == parity && last.Unparsable?)
  {
    var all := init + [last];
    if ClearsAt(init, parity) {
      var i :| 0 <= i < |init| && i % 2 == parity && init[i].Unparsable?;
      assert all[i] == init[i];
    }
    if |init| % 2 == parity && last.Unparsable? {
      assert all[|init|].Unparsable?;
    }
  }

  /** Which published frame each cell's picture is from, None when its type names no picture. */
  datatype Origins = Origins(front: Option<nat>, back: Option<nat>)

  function Origin(history: seq<Input>): Origins {
    if history == [] then Origins(None, None)
    else
      var n := |history| - 1;
      var o := Origin(history[..n]);
      var written := match history[n]
        case Valid(_, _, _) => Some(n)
        case Refused(_) => o.back
        case Unparsable(_) => None;
      Origins(written, o.front)
  }

  ghost predicate From(history: seq<Input>, c: Cell, o: Option<nat>) {
    && (c.readable <==> o.Some?)
    && (o.Some? ==> o.value < |history| && history[o.value].Valid? && c.image == history[o.value].image)
  }

  lemma {:induction false} OriginsRight(history: seq<Input>)
    ensures From(history, Fold(history).front, Origin(history).front)
    ensures From(history, Fold(history).back, Origin(history).back)
    decreases |history|
  {
    if history != [] {
      OriginsRight(history[..|history| - 1]);
    }
  }

  lemma OriginSnoc(history: seq<Input>, f: Input)
    ensures Origin(history + [f]) == Origins(
      match f
      case Valid(_, _, _) => Some(|history|)
      case Refused(_) => Origin(history).back
      case Unparsable(_) => None, Origin(history).front)
  {
    assert (history + [f])[..|history|] == history;
  }

  /** Before any valid frame a get leaves the reader's frame alone, but for the number. */
  lemma NothingToSee(history: seq<Input>, given: Target)
    requires forall i :: 0 <= i < |history| ==> !history[i].Valid?
    ensures Fetched(Fold(history), given).cell == given.cell
    ensures history == [] ==> Fetched(Fold(history), given) == given
  {
    OriginsRight(history);
  }

  function Lost(o: Option<nat>, b: bool): Option<nat> { if b then None else o }

  lemma {:induction false} RejectedFramesMove(history: seq<Input>, tail: seq<Input>)
    requires forall i :: 0 <= i < |tail| ==> !tail[i].Valid?
    ensures var p, q := Origin(history), Origin(history + tail);
            var kept, other := Lost(p.front, ClearsAt(tail, 1)), Lost(p.back, ClearsAt(tail, 0));
            q == if |tail| % 2 == 0 then Origins(kept, other) else Origins(other, kept)
    decreases |tail|
  {
    hide Origin;
    if tail == [] {
      assert history + tail == history;
    } else {
      var init, last := tail[..|tail| - 1], tail[|tail| - 1];
      RejectedFramesMove(history, init);
      assert history + tail == (history + init) + [last];
      OriginSnoc(history + init, last);
      ClearsSnoc(init, last, 0);
      ClearsSnoc(init, last, 1);
      assert tail == init + [last];
    }
  }

  /** Exactly when the latest valid frame is still the one a get returns after rejected ones: an even number
      of them, none at an odd index unparsable. Otherwise a get returns an older valid frame, or none. */
  lemma LatestValidSurvivesExactly(history: seq<Input>, f: Input, tail: seq<Input>)
    requires f.Valid? && forall i :: 0 <= i < |tail| ==> !tail[i].Valid?
    ensures var all := history + [f] + tail; var q, o := Fold(all).front, Origin(all).front;
      && (o == Some(|history|) <==> |tail| % 2 == 0 && !ClearsAt(tail, 1))
      && (o == Some(|history|) ==> q.readable && q.image == f.image)
      && (o.Some? && o.value != |history| ==> o.value < |history| && q.readable && From(history, q, o))
      && (o.None? ==> !q.readable)
  {
    hide Fold, Origin;
    var all := history + [f] + tail;
    OriginSnoc(history, f);
    RejectedFramesMove(history + [f], tail);
    OriginsRight(history);
    OriginsRight(all);
    assert all[|history|] == f;
    assert forall i :: 0 <= i < |history| ==> all[i] == history[i];
  }

  /** A refused frame right after two valid ones makes readers go back to the first. */
  lemma RefusedFrameShowsOlder()
    ensures var q := Fold([Valid([1], None, 0), Valid([2], None, 0), Refused(0)]); q.front.image == [1] && q.number == 3
  {
    var a, b, c := Valid([1], None, 0), Valid([2], None, 0), Refused(0);
    FoldSnoc([], a);
    FoldSnoc([a], b);
    FoldSnoc([a, b], c);
    assert [a, b, c] == [a, b] + [c] && [a, b] == [a] + [b] && [a] == [] + [a];
  }
}
