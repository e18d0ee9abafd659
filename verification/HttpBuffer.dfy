/** The growable byte buffer of motion-jpeg/http-server.c. */
module HttpBuffer {
  import opened Text

  const ALLOC_SIZE: nat := 0x10_0000

  /** A size of -1, the largest size_t, stands for the default like 0. */
  function RoundUp(size: int): (r: nat)
    requires size >= -1
    ensures r % 1048576 == 0 && size <= r
    ensures size > 0 ==> r < size + 1048576
    ensures size <= 0 ==> r == 1048576
  {
    if size == -1 || size == 0 then ALLOC_SIZE else (size + ALLOC_SIZE - 1) / ALLOC_SIZE * ALLOC_SIZE
  }

  /** `after` is `before`, possibly grown with zeros, with `bytes` copied over position `at`. */
  ghost predicate CopiedAt(before: string, after: string, at: nat, bytes: string) {
    && |before| <= |after| && at + |bytes| <= |after|
    && forall i :: 0 <= i < |after| ==>
      after[i] == (if at <= i < at + |bytes| then bytes[i - at] else if i < |before| then before[i] else NUL)
  }

  /** A push appends to what the reader sees. */
  ghost predicate Appends(before: string, after: string, start: nat, length: nat, bytes: string)
    requires start + length <= |before|
  {
    start + length + |bytes| <= |after| ==>
      after[start..start + length + |bytes|] == before[start..start + length] + bytes
  }

  /** The push keeps queue order for all data exactly when the read position is 0: after a partial write
      has moved the read position, some pushed byte comes out wrong. */
  lemma QueueOrderExactlyAtStartZero(before: string, start: nat, length: nat)
    requires start + length < |before|
    ensures start == 0 <==> forall bytes: string, after: string ::
      CopiedAt(before, after, length, bytes) ==> Appends(before, after, start, length, bytes)
  {
    if start != 0 {
      var c := if before[start + length] == LF then CR else LF;
      var after := before[length := c];
      assert CopiedAt(before, after, length, [c]);
      var seen, wanted := after[start..start + length + 1], before[start..start + length] + [c];
      assert seen[length] == before[start + length] != wanted[length];
    }
  }

  /** With the read position at 0 a push appends, and stale bytes stay free of line feeds. */
  lemma PushAppends(before: string, after: string, length: nat, bytes: string)
    requires CopiedAt(before, after, length, bytes) && length <= |before|
    ensures after[0..length + |bytes|] == before[0..length] + bytes
    ensures (forall i :: length <= i < |before| ==> before[i] != LF) ==>
      forall i :: length + |bytes| <= i < |after| ==> after[i] != LF
    ensures NUL in before[0..length] ==> NUL in after[0..length + |bytes|]
  {
  }

  /** memmove of the unread tail to the front, and its terminator. */
  ghost predicate MovedToFront(before: string, after: string, line: nat, length: nat)
    requires line <= length < |before|
  {
    && |after| == |before|
    && (forall i :: 0 <= i < length - line ==> after[i] == before[line + i])
    && after[length - line] == NUL
    && (forall i :: length - line < i < |after| ==> after[i] == before[i])
  }

  lemma MovedTail(before: string, after: string, line: nat, length: nat)
    requires line <= length < |before| && MovedToFront(before, after, line, length)
    ensures after[0..length - line] == before[line..length]
  {
  }

  /** Stale copies left behind by the move hold no line feed. */
  lemma MovedStaysQuiet(before: string, after: string, line: nat, length: nat)
    requires line <= length < |before| && MovedToFront(before, after, line, length)
    requires forall i :: 0 <= i < line || length <= i < |before| ==> before[i] != LF
    requires LF !in before[line..length]
    ensures forall i :: length - line <= i < |after| ==> after[i] != LF
  {
    forall i | 0 <= i < |before| ensures before[i] != LF {
      if line <= i < length {
        assert before[line..length][i - line] == before[i];
      }
    }
  }

  class Buffer {
    var maxSize: nat
    var length: nat
    var startPos: nat
    var data: array<char> // the null pointer is the array of length 0

    /** Once anything is allocated, there is room for a terminator and the last byte is one. */
    ghost predicate Valid()
      reads this, data
    {
      && data.Length == maxSize
      && maxSize % ALLOC_SIZE == 0
      && (maxSize == 0 ==> length == startPos == 0)
      && (maxSize > 0 ==> startPos + length < maxSize && data[maxSize - 1] == NUL)
    }

    ghost function Contents(): string
      requires Valid()
      reads this, data
    {
      data[startPos..startPos + length]
    }

    /** No line feed in the part of the allocation that holds no data. */
    ghost predicate QuietTail()
      requires Valid()
      reads this, data
    {
      forall i :: startPos + length <= i < maxSize ==> data[i] != LF
    }

    /** The newline scans are not bounded by the logical length. They are safe because either a NUL
        among the unread bytes stops them, or nothing after the unread bytes looks like a line end. */
    ghost predicate ScanSafe(from: nat)
      requires Valid()
      reads this, data
    {
      from <= length && startPos == 0 && (NUL in data[from..length] || QuietTail())
    }

    constructor ()
      ensures Valid() && QuietTail() && Contents() == "" && startPos == 0 && maxSize == 0
      ensures fresh(data)
    {
      maxSize, length, startPos := 0, 0, 0;
      data := new char[0];
    }

    method Resize(size: int)
      requires Valid() && size >= -1
      modifies this`data, this`maxSize
      ensures Valid() && (data == old(data) || fresh(data))
      ensures maxSize >= RoundUp(size) && maxSize >= old(maxSize)
      ensures forall i :: 0 <= i < maxSize ==> data[i] == if i < old(maxSize) then old(data[i]) else NUL
    {
      var newSize := RoundUp(size);
      if newSize < maxSize {
        return;
      }
      var grown := new char[newSize];
      forall i | 0 <= i < newSize {
        grown[i] := if i < maxSize then data[i] else NUL;
      }
      data, maxSize := grown, newSize;
    }

    /** The copy lands at `length`, whatever `startPos` is. */
    method PushData(bytes: string)
      requires Valid()
      modifies this, data
      ensures Valid() && (data == old(data) || fresh(data))
      ensures startPos == old(startPos) && length == old(length) + |bytes| && maxSize >= old(maxSize)
      ensures bytes != "" ==> maxSize > startPos + length
      ensures CopiedAt(old(data[..]), data[..], old(length), bytes)
    {
      if bytes == "" {
        return;
      }
      ghost var before := data[..];
      Resize(startPos + length + |bytes| + 1);
      ghost var grown := data[..];
      assert forall i :: 0 <= i < |grown| ==> grown[i] == if i < |before| then before[i] else NUL;
      forall i | 0 <= i < |bytes| {
        data[length + i] := bytes[i];
      }
      length := length + |bytes|;
    }

    /** The unread bytes from `line` on become the whole contents. */
    method MoveToFront(line: nat)
      requires Valid() && maxSize > 0 && startPos == 0 && line <= length
      modifies this`length, data
      ensures Valid() && length == old(length) - line
      ensures MovedToFront(old(data[..]), data[..], line, old(length))
    {
      ghost var memory := data[..];
      var bytesLeft := length - line;
      var k := 0;
      while k < bytesLeft
        invariant 0 <= k <= bytesLeft
        invariant forall i :: 0 <= i < k ==> data[i] == memory[line + i]
        invariant forall i :: k <= i < maxSize ==> data[i] == memory[i]
      {
        data[k] := data[line + k];
        k := k + 1;
      }
      length := bytesLeft;
      data[bytesLeft] := NUL;
    }
  }
}
