/** The byte queue of utils/auto-buffer.c: a growing array with a write position and a read cursor. */
module AutoBuffer {

  type Byte = x: int | 0 <= x < 256

  const ALLOCATION_SIZE: nat := 65536

  function RoundUp(n: nat): (r: nat)
    ensures n <= r < n + 65536 && r % 65536 == 0
  {
    (n + ALLOCATION_SIZE - 1) / ALLOCATION_SIZE * ALLOCATION_SIZE
  }

  /** How many bytes a request for `n` of `available` bytes gets: all of them unless 0 < n <= available. */
  function Granted(n: int, available: nat): (k: nat)
    ensures k <= available
  {
    if n <= 0 || n > available then available else n
  }

  // The specification: a queue, and what has gone through it.

  datatype Op = Push(bytes: seq<Byte>) | Peek(room: int) | Pop(room: int) | Skip(count: int)

  datatype Queue = Queue(pushed: seq<Byte>, popped: seq<Byte>, pending: seq<Byte>)

  const EMPTY := Queue([], [], [])

  /** Only skipping is unchecked: beyond the end it aborts, and backwards it brings bytes back. */
  predicate InRange(q: Queue, op: Op) {
    op.Skip? ==> 0 <= op.count <= |q.pending|
  }

  function Remove(q: Queue, k: nat): Queue
    requires k <= |q.pending|
  {
    q.(popped := q.popped + q.pending[..k], pending := q.pending[k..])
  }

  function Do(q: Queue, op: Op): Queue
    requires InRange(q, op)
  {
    match op
    case Push(bytes) => q.(pushed := q.pushed + bytes, pending := q.pending + bytes)
    case Peek(_) => q
    case Pop(room) => Remove(q, Granted(room, |q.pending|))
    case Skip(count) => Remove(q, count)
  }

  predicate AllInRange(q: Queue, ops: seq<Op>)
    decreases |ops|
  {
    ops != [] ==> InRange(q, ops[0]) && AllInRange(Do(q, ops[0]), ops[1..])
  }

  function DoAll(q: Queue, ops: seq<Op>): Queue
    requires AllInRange(q, ops)
    decreases |ops|
  {
    if ops == [] then q else DoAll(Do(q, ops[0]), ops[1..])
  }

  /** First in, first out, nothing lost and nothing made up. */
  lemma {:induction false} Conserved(q: Queue, ops: seq<Op>)
    requires AllInRange(q, ops) && q.popped + q.pending == q.pushed
    ensures var r := DoAll(q, ops); r.popped + r.pending == r.pushed
    ensures q.pushed <= DoAll(q, ops).pushed && q.popped <= DoAll(q, ops).popped
    decreases |ops|
  {
    if ops != [] {
      Conserved(Do(q, ops[0]), ops[1..]);
    }
  }

  /** The bytes of all pushes. */
  function Offered(ops: seq<Op>): seq<Byte>
    decreases |ops|
  {
    if ops == [] then [] else (if ops[0].Push? then ops[0].bytes else []) + Offered(ops[1..])
  }

  lemma {:induction false} PushedExactly(q: Queue, ops: seq<Op>)
    requires AllInRange(q, ops)
    ensures DoAll(q, ops).pushed == q.pushed + Offered(ops)
    decreases |ops|
  {
    hide AllInRange, Granted;
    AllInRangeFirst(q, ops);
    if ops != [] {
      PushedExactly(Do(q, ops[0]), ops[1..]);
    }
  }

  lemma AllInRangeFirst(q: Queue, ops: seq<Op>)
    requires AllInRange(q, ops)
    ensures ops != [] ==> InRange(q, ops[0]) && AllInRange(Do(q, ops[0]), ops[1..])
  {
  }

  /** A last pop that asks for nothing in particular, or for too much, empties the queue: all bytes pushed have then
      been popped, in order. */
  lemma LastPopEmpties(ops: seq<Op>, room: int)
    requires AllInRange(EMPTY, ops) && (room <= 0 || room > |DoAll(EMPTY, ops).pending|)
    ensures AllInRange(EMPTY, ops + [Pop(room)])
    ensures var r := DoAll(EMPTY, ops + [Pop(room)]);
      r.pending == [] && r.popped == r.pushed == Offered(ops)
  {
    hide DoAll, AllInRange, Do;
    OneMore(EMPTY, ops, Pop(room));
    Conserved(EMPTY, ops);
    PushedExactly(EMPTY, ops);
    EmptiedByPop(DoAll(EMPTY, ops), room);
    assert [] + Offered(ops) == Offered(ops);
  }

  lemma EmptiedByPop(q: Queue, room: int)
    requires room <= 0 || room > |q.pending|
    ensures Do(q, Pop(room)) == Queue(q.pushed, q.popped + q.pending, [])
  {
    assert q.pending[..|q.pending|] == q.pending;
  }

  lemma {:induction false} OneMore(q: Queue, ops: seq<Op>, op: Op)
    requires AllInRange(q, ops) && InRange(DoAll(q, ops), op)
    ensures AllInRange(q, ops + [op]) && DoAll(q, ops + [op]) == Do(DoAll(q, ops), op)
    decreases |ops|
  {
    hide Do, InRange;
    if ops == [] {
      assert ops + [op] == [op] && [op][1..] == [];
    } else {
      assert (ops + [op])[1..] == ops[1..] + [op];
      OneMore(Do(q, ops[0]), ops[1..], op);
    }
  }

  lemma {:induction false} AllInRangeSplit(q: Queue, ops: seq<Op>, k: nat)
    requires k < |ops| && AllInRange(q, ops)
    ensures AllInRange(q, ops[..k]) && InRange(DoAll(q, ops[..k]), ops[k])
    ensures AllInRange(q, ops[..k + 1]) && DoAll(q, ops[..k + 1]) == Do(DoAll(q, ops[..k]), ops[k])
    decreases k
  {
    hide Do, InRange;
    if k > 0 {
      AllInRangeSplit(Do(q, ops[0]), ops[1..], k - 1);
      assert ops[..k][1..] == ops[1..][..k - 1];
    }
    assert ops[..k + 1][1..] == ops[1..][..k];
  }

  /** Bytes written behind the pending ones, after the memory may have grown. */
  lemma Appended(before: seq<Byte>, grown: seq<Byte>, after: seq<Byte>, from: nat, to: nat, added: seq<Byte>)
    requires from <= to <= |before| && to + |added| <= |after|
    requires |before| <= |grown| && before == grown[..|before|]
    requires after[..to + |added|] == grown[..to] + added
    ensures after[from..to + |added|] == before[from..to] + added
  {
    assert after[from..to + |added|] == after[..to + |added|][from..];
    assert before[from..to] == grown[..to][from..];
  }

  class AutoBuffer {
    var data: array<Byte>   // of length 0 while the pointer is null
    var maxSize: nat
    var length: nat
    var cursor: int

    ghost predicate Valid()
      reads this
    {
      && data.Length == maxSize && maxSize % ALLOCATION_SIZE == 0
      && 0 <= cursor <= length && (length > 0 ==> length < maxSize)
    }

    /** The bytes not yet read. */
    ghost function Pending(): seq<Byte>
      requires Valid()
      reads this, data
    {
      data[cursor..length]
    }

    /** auto_buffer_init */
    constructor (size: int)
      ensures Valid() && Pending() == [] && maxSize == (if size <= 0 then 0 else RoundUp(size)) && fresh(data)
    {
      maxSize, length, cursor := 0, 0, 0;
      data := new Byte[0];
      new;
      Resize(size);
    }

    /** auto_buffer_resize; realloc keeps the bytes and leaves the rest unspecified. */
    method Resize(size: int)
      requires Valid()
      modifies this`data, this`maxSize
      ensures Valid() && (data == old(data) || fresh(data))
      ensures maxSize == if size <= old(maxSize) then old(maxSize) else RoundUp(size)
      ensures old(data[..]) == data[..old(maxSize)]
    {
      if size <= maxSize {
        return;
      }
      var grown := new Byte[RoundUp(size)];
      forall i | 0 <= i < maxSize { grown[i] := data[i]; }
      assert grown[..maxSize] == data[..];
      data, maxSize := grown, RoundUp(size);
    }

    /** The memcpy of push and the end mark behind it. */
    method CopyIn(bytes: array<Byte>, count: nat)
      requires bytes != data && count <= bytes.Length && length + count < data.Length
      modifies data
      ensures data[..length + count] == old(data[..length]) + bytes[..count]
      ensures data[length + count] == 0
    {
      forall i | 0 <= i < count { data[length + i] := bytes[i]; }
      data[length + count] := 0;
      assert data[..length] == old(data[..length]) && data[length..length + count] == bytes[..count];
      assert data[..length + count] == data[..length] + data[length..length + count];
    }

    /** auto_buffer_push_data; null data and a length of zero or less are refused. */
    method PushData(bytes: array?<Byte>, count: int) returns (r: int)
      requires Valid() && bytes != data && (bytes != null ==> count <= bytes.Length)
      modifies this, data
      ensures Valid() && (data == old(data) || fresh(data))
      ensures bytes == null || count <= 0 ==> r == -1 && Pending() == old(Pending()) && maxSize == old(maxSize)
      ensures bytes != null && count > 0 ==>
        && Pending() == old(Pending() + bytes[..count]) && r == |Pending()|
        && data[length] == 0
        && maxSize == if length + 1 <= old(maxSize) then old(maxSize) else RoundUp(length + 1)
    {
      hide RoundUp;
      if bytes == null || count <= 0 {
        return -1;
      }
      ghost var before, added := data[..], bytes[..count];
      Resize(length + count + 1);
      ghost var grown := data[..];
      CopyIn(bytes, count);
      ghost var after := data[..];
      assert after[..length + count] == data[..length + count] && grown[..length] == old(data[..])[..length];
      Appended(before, grown, after, cursor, length, added);
      assert data[cursor..length + count] == after[cursor..length + count];
      length := length + count;
      return length - cursor;
    }

    /** auto_buffer_peek_data; without a destination it reports the room a copy needs, with its end mark. */
    method PeekData(dst: array?<Byte>, count: int) returns (r: int)
      requires Valid() && dst != data
      requires dst != null ==> (if 0 < count <= length - cursor then count else length - cursor) <= dst.Length
      modifies if dst == null then {} else {dst}
      ensures dst == null ==> r == |Pending()| + 1
      ensures dst != null ==> r == if 0 < count <= |Pending()| then count else |Pending()|
      ensures dst != null ==> dst[..r] == Pending()[..r]
      ensures dst != null ==> dst[..][r..] == old(dst[..])[r..]
      ensures Pending() == old(Pending())
    {
      if dst == null {
        return length - cursor + 1;
      }
      r := Granted(count, length - cursor);
      forall i | 0 <= i < r { dst[i] := data[cursor + i]; }
      assert dst[..r] == data[cursor..cursor + r] == data[cursor..length][..r];
      assert dst[..][r..] == old(dst[..])[r..];
    }

    /** auto_buffer_pop_data into a destination. */
    method PopData(dst: array<Byte>, count: int) returns (r: int)
      requires Valid() && dst != data
      requires (if 0 < count <= length - cursor then count else length - cursor) <= dst.Length
      modifies this`cursor, this`length, dst
      ensures Valid()
      ensures 0 < count <= |old(Pending())| ==> r == count
      ensures !(0 < count <= |old(Pending())|) ==> r == |old(Pending())| && Pending() == []
      ensures dst[..r] + Pending() == old(Pending())
    {
      ghost var pending := Pending();
      r := PeekData(dst, count);
      cursor := cursor + r;
      ResetWhenRead();
      assert pending == pending[..r] + pending[r..];
    }

    /** auto_buffer_pop_data without one: the cursor moves unchecked, backwards too, up to an assertion. Moved to
        before the buffer it leaves a state no other operation is safe in. */
    method SkipData(count: int) returns (ok: bool)
      requires Valid()
      modifies this`cursor, this`length
      ensures ok <==> count <= |old(Pending())|
      ensures ok ==> (Valid() <==> 0 <= old(cursor) + count)
      ensures ok && count >= 0 ==> Pending() == old(Pending())[count..]
      ensures ok && count < 0 <= old(cursor) + count ==> Pending() == old(data[cursor + count..length])
      ensures ok && old(cursor) + count < 0 ==> cursor == old(cursor) + count && length == old(length)
    {
      if cursor + count > length {
        return false;
      }
      cursor := cursor + count;
      if cursor >= 0 {
        ResetWhenRead();
      }
      return true;
    }

    /** auto_buffer_reset as pop uses it. */
    method ResetWhenRead()
      requires Valid()
      modifies this`cursor, this`length
      ensures Valid() && Pending() == old(Pending())
      ensures Pending() == [] ==> cursor == 0 && length == 0
      ensures Pending() != [] ==> cursor == old(cursor) && length == old(length)
    {
      if cursor == length {
        cursor, length := 0, 0;
      }
    }
  }

  /** Any sequence of operations on a new buffer hands out the pushed bytes in order. */
  method Drive(size: int, ops: seq<Op>) returns (buf: AutoBuffer, popped: seq<Byte>)
    requires AllInRange(EMPTY, ops)
    ensures buf.Valid() && fresh(buf) && fresh(buf.data)
    ensures popped == DoAll(EMPTY, ops).popped && buf.Pending() == DoAll(EMPTY, ops).pending
    ensures popped + buf.Pending() == Offered(ops)
  {
    hide Do, DoAll, AllInRange;
    buf := new AutoBuffer(size);
    popped := [];
    ghost var q := EMPTY;
    assert AllInRange(EMPTY, []) && DoAll(EMPTY, []) == EMPTY by { NoOps(EMPTY); }
    assert ops[..0] == [];
    for i := 0 to |ops|
      invariant buf.Valid() && fresh(buf) && fresh(buf.data)
      invariant AllInRange(EMPTY, ops[..i]) && q == DoAll(EMPTY, ops[..i])
      invariant popped == q.popped && buf.Pending() == q.pending
    {
      AllInRangeSplit(EMPTY, ops, i);
      popped := DriveOne(buf, popped, ops[i], q);
      q := Do(q, ops[i]);
    }
    assert ops[..|ops|] == ops;
    Conserved(EMPTY, ops);
    PushedExactly(EMPTY, ops);
    assert [] + Offered(ops) == Offered(ops);
  }

  lemma NoOps(q: Queue)
    ensures AllInRange(q, []) && DoAll(q, []) == q
  {
  }

  method DrivePush(buf: AutoBuffer, bytes: seq<Byte>)
    requires buf.Valid()
    modifies buf, buf.data
    ensures buf.Valid() && (buf.data == old(buf.data) || fresh(buf.data))
    ensures buf.Pending() == old(buf.Pending()) + bytes
  {
    hide RoundUp;
    var source := new Byte[|bytes|](i requires 0 <= i < |bytes| => bytes[i]);
    assert source[..|bytes|] == bytes;
    assert buf.Pending() + [] == buf.Pending();
    var n := buf.PushData(source, |bytes|);
  }

  method DriveOne(buf: AutoBuffer, popped: seq<Byte>, op: Op, ghost q: Queue) returns (after: seq<Byte>)
    requires buf.Valid() && InRange(q, op) && popped == q.popped && buf.Pending() == q.pending
    modifies buf, buf.data
    ensures buf.Valid() && (buf.data == old(buf.data) || fresh(buf.data))
    ensures after == Do(q, op).popped && buf.Pending() == Do(q, op).pending
  {
    hide RoundUp;
    after := popped;
    match op
    case Push(bytes) =>
      DrivePush(buf, bytes);
    case Peek(room) =>
      var n := buf.PeekData(null, room);
    case Pop(room) =>
      var dst := new Byte[Granted(room, buf.length - buf.cursor)];
      var n := buf.PopData(dst, room);
      after := popped + dst[..n];
    case Skip(count) =>
      ghost var pending := buf.Pending();
      after := popped + buf.data[buf.cursor..buf.cursor + count];
      assert buf.data[buf.cursor..buf.cursor + count] == pending[..count];
      var ok := buf.SkipData(count);
  }
}
