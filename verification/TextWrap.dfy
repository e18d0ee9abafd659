/** The line breaking of draw_text in demo/demo-02.c: UTF-8 text is cut into lines in a fixed buffer. */
module TextWrap {

  type Byte = x: int | 0 <= x < 256

  const LF: Byte := 10
  const MAX_CHARS_PER_LINE: nat := 80

  /** How many bytes the code takes for a sequence that starts with `lead`; 5 stands for the failed assertion.
      A stray continuation byte counts as a sequence of its own. */
  function SequenceLength(lead: Byte): (n: nat)
    ensures 1 <= n <= 5
  {
    if lead < 0xC0 then 1 else if lead < 0xE0 then 2 else if lead < 0xF0 then 3 else if lead < 0xF8 then 4 else 5
  }

  /** Bit `i` of a byte from the left, 0 the highest. */
  predicate Bit(lead: Byte, i: nat)
    requires i < 8
  {
    match i
    case 0 => lead / 128 % 2 == 1
    case 1 => lead / 64 % 2 == 1
    case 2 => lead / 32 % 2 == 1
    case 3 => lead / 16 % 2 == 1
    case 4 => lead / 8 % 2 == 1
    case 5 => lead / 4 % 2 == 1
    case 6 => lead / 2 % 2 == 1
    case 7 => lead % 2 == 1
  }

  /** A sequence has as many bytes as its lead byte has leading one bits: one at least, and more than four fail. */
  lemma SequenceIsLeadingOnes(lead: Byte)
    ensures var n := SequenceLength(lead);
      && (n == 1 <==> !Bit(lead, 0) || !Bit(lead, 1))
      && (n > 1 ==> (forall i :: 0 <= i < n ==> Bit(lead, i)) && (n < 5 ==> !Bit(lead, n)))
  {
  }

  /** The lines drawn, and how drawing ended. */
  datatype Drawing = Drawn(lines: seq<seq<Byte>>) | Aborted(lines: seq<seq<Byte>>) | PastEnd(lines: seq<seq<Byte>>)

  function Before(lines: seq<seq<Byte>>, d: Drawing): Drawing {
    d.(lines := lines + d.lines)
  }

  /** What the loop draws of `text` when `line` already holds `chars` characters. A sequence cut off by the end
      of the text is read beyond it; what is drawn after that is not described. */
  function Wrap(text: seq<Byte>, line: seq<Byte>, chars: nat, perLine: int): Drawing
    decreases |text|
  {
    if text == [] then Drawn([])
    else if text[0] == LF then Before([line], Wrap(text[1..], [], 0, perLine))
    else
      var n := SequenceLength(text[0]);
      if n > 4 then Aborted([])
      else if n > |text| then PastEnd([])
      else if chars + 1 >= perLine || n == |text| then Before([line + text[..n]], Wrap(text[n..], [], 0, perLine))
      else Wrap(text[n..], line + text[..n], chars + 1, perLine)
  }

  /** Every sequence has an admissible lead byte and ends within the text. */
  predicate Structured(text: seq<Byte>)
    decreases |text|
  {
    text != [] ==>
      var n := SequenceLength(text[0]);
      n <= 4 && n <= |text| && Structured(text[n..])
  }

  /** Exactly such texts are drawn to the end. */
  lemma {:induction false} DrawnExactly(text: seq<Byte>, line: seq<Byte>, chars: nat, perLine: int)
    ensures Wrap(text, line, chars, perLine).Drawn? <==> Structured(text)
    decreases |text|
  {
    if text != [] {
      var n := SequenceLength(text[0]);
      if n <= |text| {
        DrawnExactly(text[n..], [], 0, perLine);
        DrawnExactly(text[n..], line + text[..n], chars + 1, perLine);
      }
    }
  }

  // Well-formed text, section 3 of RFC 3629, and what its layout should be.

  type CodePoint = c: int | 0 < c <= 0x10FFFF && !(0xD800 <= c <= 0xDFFF) witness 1

  function Utf8(c: CodePoint): (s: seq<Byte>)
    ensures 1 <= |s| <= 4 && SequenceLength(s[0]) == |s| && (s[0] == LF <==> c == LF) && 0 !in s
  {
    if c < 0x80 then [c]
    else if c < 0x800 then [0xC0 + c / 64, 0x80 + c % 64]
    else if c < 0x10000 then [0xE0 + c / 4096, 0x80 + c / 64 % 64, 0x80 + c % 64]
    else [0xF0 + c / 262144, 0x80 + c / 4096 % 64, 0x80 + c / 64 % 64, 0x80 + c % 64]
  }

  function Utf8All(text: seq<CodePoint>): (s: seq<Byte>)
    ensures text != [] ==> s != []
    decreases |text|
  {
    if text == [] then [] else Utf8(text[0]) + Utf8All(text[1..])
  }

  lemma {:induction false} Utf8Append(a: seq<CodePoint>, b: seq<CodePoint>)
    ensures Utf8All(a + b) == Utf8All(a) + Utf8All(b)
    decreases |a|
  {
    hide Utf8;
    if a == [] {
      assert a + b == b;
    } else {
      Utf8Append(a[1..], b);
      assert (a + b)[1..] == a[1..] + b;
    }
  }

  function Utf8Lines(lines: seq<seq<CodePoint>>): (s: seq<seq<Byte>>)
    ensures |s| == |lines| && forall i :: 0 <= i < |lines| ==> s[i] == Utf8All(lines[i])
    decreases |lines|
  {
    if lines == [] then [] else [Utf8All(lines[0])] + Utf8Lines(lines[1..])
  }

  /** A paragraph that a newline ends: full lines, then what is left, which may be nothing. */
  function Chunks(paragraph: seq<CodePoint>, width: nat): (lines: seq<seq<CodePoint>>)
    requires width > 0
    decreases |paragraph|
  {
    if |paragraph| < width then [paragraph]
    else [paragraph[..width]] + Chunks(paragraph[width..], width)
  }

  /** The last paragraph: the same, without an empty line at its end. */
  function LastChunks(paragraph: seq<CodePoint>, width: nat): (lines: seq<seq<CodePoint>>)
    requires width > 0
    decreases |paragraph|
  {
    if paragraph == [] then []
    else if |paragraph| <= width then [paragraph]
    else [paragraph[..width]] + LastChunks(paragraph[width..], width)
  }

  function FirstNewline(text: seq<CodePoint>): (i: nat)
    ensures i <= |text| && (i < |text| ==> text[i] == LF) && forall j :: 0 <= j < i ==> text[j] != LF
    decreases |text|
  {
    if text == [] || text[0] == LF then 0 else 1 + FirstNewline(text[1..])
  }

  /** The lines of a text, paragraph by paragraph. */
  function Layout(text: seq<CodePoint>, width: nat): (lines: seq<seq<CodePoint>>)
    requires width > 0
    decreases |text|
  {
    var i := FirstNewline(text);
    if i == |text| then LastChunks(text, width)
    else Chunks(text[..i], width) + Layout(text[i + 1..], width)
  }

  function Width(perLine: int): (w: nat)
    ensures w > 0
  {
    if perLine < 1 then 1 else perLine
  }

  lemma NewlineIs(text: seq<CodePoint>, i: nat)
    requires i <= |text| && (i < |text| ==> text[i] == LF) && forall j :: 0 <= j < i ==> text[j] != LF
    ensures FirstNewline(text) == i
  {
  }

  lemma LayoutAtNewline(line: seq<CodePoint>, rest: seq<CodePoint>, width: nat)
    requires LF !in line && |line| < width
    ensures Layout(line + [LF] + rest, width) == [line] + Layout(rest, width)
  {
    var text := line + [LF] + rest;
    NewlineIs(text, |line|);
    assert text[..|line|] == line && text[|line| + 1..] == rest;
  }

  lemma LayoutWithNewline(text: seq<CodePoint>, i: nat, width: nat)
    requires width > 0 && i < |text| && text[i] == LF && LF !in text[..i]
    ensures Layout(text, width) == Chunks(text[..i], width) + Layout(text[i + 1..], width)
  {
    assert forall j :: 0 <= j < i ==> text[j] == text[..i][j];
    NewlineIs(text, i);
  }

  lemma LayoutWithoutNewline(text: seq<CodePoint>, width: nat)
    requires width > 0 && LF !in text
    ensures Layout(text, width) == LastChunks(text, width)
  {
    NewlineIs(text, |text|);
  }

  lemma ChunksFullLine(line: seq<CodePoint>, rest: seq<CodePoint>, width: nat)
    requires |line| == width > 0
    ensures Chunks(line + rest, width) == [line] + Chunks(rest, width)
    ensures LastChunks(line + rest, width) == [line] + LastChunks(rest, width)
  {
    assert (line + rest)[..width] == line && (line + rest)[width..] == rest;
    if rest == [] {
      assert line + rest == line && [line] + [] == [line];
    }
  }

  lemma LayoutFullLine(line: seq<CodePoint>, rest: seq<CodePoint>, width: nat)
    requires LF !in line && |line| == width > 0
    ensures Layout(line + rest, width) == [line] + Layout(rest, width)
  {
    hide Chunks, LastChunks, Layout;
    var text, i := line + rest, FirstNewline(rest);
    ChunksFullLine(line, rest[..i], width);
    if i < |rest| {
      assert text[..width + i] == line + rest[..i] && text[width + i + 1..] == rest[i + 1..];
      LayoutWithNewline(text, width + i, width);
      LayoutWithNewline(rest, i, width);
      assert [line] + Chunks(rest[..i], width) + Layout(rest[i + 1..], width)
          == [line] + (Chunks(rest[..i], width) + Layout(rest[i + 1..], width));
    } else {
      assert rest[..i] == rest;
      LayoutWithoutNewline(text, width);
      LayoutWithoutNewline(rest, width);
    }
  }

  lemma LayoutLastLine(line: seq<CodePoint>, width: nat)
    requires LF !in line && 0 < |line| <= width
    ensures Layout(line, width) == [line]
  {
    NewlineIs(line, |line|);
  }

  lemma WrapNoText(perLine: int)
    ensures Wrap(Utf8All([]), Utf8All([]), 0, perLine) == Drawn([])
  {
  }

  /** One turn of the loop, by code points. */
  lemma WrapFirst(line: seq<CodePoint>, rest: seq<CodePoint>, perLine: int)
    requires rest != []
    ensures var next, longer := rest[1..], line + [rest[0]];
      Wrap(Utf8All(rest), Utf8All(line), |line|, perLine) ==
        if rest[0] == LF then Before([Utf8All(line)], Wrap(Utf8All(next), Utf8All([]), 0, perLine))
        else if |longer| >= perLine || next == [] then
          Before([Utf8All(longer)], Wrap(Utf8All(next), Utf8All([]), 0, perLine))
        else Wrap(Utf8All(next), Utf8All(longer), |longer|, perLine)
  {
    hide Utf8, SequenceLength;
    var c, next := rest[0], rest[1..];
    var n := |Utf8(c)|;
    var text := Utf8All(rest);
    assert text[..n] == Utf8(c) && text[n..] == Utf8All(next) && text[0] == Utf8(c)[0];
    Utf8Append(line, [c]);
    assert Utf8All([c]) == Utf8(c) + Utf8All([]) == Utf8(c);
    if c == LF {
      NewlineIsOneByte();
    }
  }

  /** The loop, with part of a line in its buffer, draws the layout of that part and the rest. */
  lemma {:induction false} WrapIsLayout(line: seq<CodePoint>, rest: seq<CodePoint>, perLine: int)
    requires LF !in line && |line| < Width(perLine) && (rest == [] ==> line == [])
    ensures Wrap(Utf8All(rest), Utf8All(line), |line|, perLine) == Drawn(Utf8Lines(Layout(line + rest, Width(perLine))))
    decreases |rest|
  {
    hide Utf8, Utf8All, Layout, SequenceLength, Wrap;
    var width := Width(perLine);
    if rest == [] {
      WrapNoText(perLine);
      LayoutNothing(width);
      assert line + rest == [];
    } else {
      var c, next := rest[0], rest[1..];
      WrapFirst(line, rest, perLine);
      if c == LF {
        assert line + rest == line + [LF] + next;
        LayoutAtNewline(line, next, width);
        WrapIsLayout([], next, perLine);
        assert [] + next == next;
      } else {
        var longer := line + [c];
        assert line + rest == longer + next;
        if |longer| >= perLine || next == [] {
          if |longer| == width {
            LayoutFullLine(longer, next, width);
          } else {
            LayoutLastLine(longer, width);
            assert longer + next == longer;
            LayoutNothing(width);
          }
          WrapIsLayout([], next, perLine);
          assert [] + next == next;
        } else {
          WrapIsLayout(longer, next, perLine);
        }
      }
    }
  }

  lemma LayoutNothing(width: nat)
    requires width > 0
    ensures Layout([], width) == []
  {
  }

  lemma NewlineIsOneByte()
    ensures Utf8(LF) == [LF]
  {
  }

  function Flatten(lines: seq<seq<CodePoint>>): seq<CodePoint>
    decreases |lines|
  {
    if lines == [] then [] else lines[0] + Flatten(lines[1..])
  }

  function WithoutNewlines(text: seq<CodePoint>): seq<CodePoint>
    decreases |text|
  {
    if text == [] then []
    else (if text[0] == LF then [] else [text[0]]) + WithoutNewlines(text[1..])
  }

  lemma {:induction false} FlattenAppend(a: seq<seq<CodePoint>>, b: seq<seq<CodePoint>>)
    ensures Flatten(a + b) == Flatten(a) + Flatten(b)
    decreases |a|
  {
    if a == [] {
      assert a + b == b;
    } else {
      FlattenAppend(a[1..], b);
      assert (a + b)[1..] == a[1..] + b;
    }
  }

  lemma {:induction false} WithoutNewlinesSplit(text: seq<CodePoint>, i: nat)
    requires i <= |text| && forall j :: 0 <= j < i ==> text[j] != LF
    ensures WithoutNewlines(text) == text[..i] + WithoutNewlines(text[i..])
    decreases i
  {
    if i > 0 {
      WithoutNewlinesSplit(text[1..], i - 1);
      assert text[..i] == [text[0]] + text[1..][..i - 1];
    }
  }

  lemma {:induction false} ChunksKeep(paragraph: seq<CodePoint>, width: nat)
    requires width > 0
    ensures Flatten(Chunks(paragraph, width)) == paragraph == Flatten(LastChunks(paragraph, width))
    ensures forall l :: l in Chunks(paragraph, width) ==> |l| <= width
    ensures forall l :: l in LastChunks(paragraph, width) ==> 0 < |l| <= width
    decreases |paragraph|
  {
    if |paragraph| >= width {
      ChunksKeep(paragraph[width..], width);
      assert paragraph == paragraph[..width] + paragraph[width..];
    }
    if 0 < |paragraph| <= width {
      assert Flatten([paragraph]) == paragraph + Flatten([]) == paragraph;
    }
  }

  /** The layout loses and invents nothing but newlines, and keeps to the width. */
  lemma {:induction false} LayoutKeeps(text: seq<CodePoint>, width: nat)
    requires width > 0
    ensures Flatten(Layout(text, width)) == WithoutNewlines(text)
    ensures forall l :: l in Layout(text, width) ==> |l| <= width
    decreases |text|
  {
    hide Chunks, LastChunks, Flatten, Layout, WithoutNewlines;
    var i := FirstNewline(text);
    WithoutNewlinesSplit(text, i);
    ChunksKeep(text[..i], width);
    if i == |text| {
      assert text[..i] == text && text[i..] == [];
      LayoutWithoutNewline(text, width);
      OnlyNewline([]);
    } else {
      LayoutWithNewline(text, i, width);
      LayoutKeeps(text[i + 1..], width);
      FlattenAppend(Chunks(text[..i], width), Layout(text[i + 1..], width));
      assert text[i..] == [LF] + text[i + 1..];
      OnlyNewline(text[i + 1..]);
    }
  }

  lemma OnlyNewline(rest: seq<CodePoint>)
    ensures WithoutNewlines([LF] + rest) == WithoutNewlines(rest)
    ensures WithoutNewlines([]) == []
  {
    assert ([LF] + rest)[1..] == rest;
  }

  function Least(a: nat, b: nat): nat { if a < b then a else b }

  lemma ProductSteps(i: nat, width: nat)
    requires i > 0
    ensures i * width == width + (i - 1) * width && (i - 1) * width >= 0
  {
  }

  /** Line `i` of a last paragraph: no line is broken before it is full. */
  lemma {:induction false} LastChunkAt(p: seq<CodePoint>, width: nat, i: nat)
    requires width > 0
    ensures i < |LastChunks(p, width)| <==> i * width < |p|
    ensures i < |LastChunks(p, width)| ==>
      LastChunks(p, width)[i] == p[i * width..Least(i * width + width, |p|)]
    decreases i
  {
    if i > 0 {
      ProductSteps(i, width);
      if |p| > width {
        LastChunkAt(p[width..], width, i - 1);
        if i * width < |p| {
          ShiftedSlice(p, width, (i - 1) * width, Least(i * width + width, |p|) - width);
        }
      }
    }
  }

  lemma ShiftedSlice(p: seq<CodePoint>, width: nat, from: nat, to: nat)
    requires from <= to && width + to <= |p|
    ensures p[width..][from..to] == p[width + from..width + to]
  {
  }

  /** Line `i` of a paragraph ended by a newline: the same, with one more line, empty when the last is full. */
  lemma {:induction false} ChunkAt(p: seq<CodePoint>, width: nat, i: nat)
    requires width > 0
    ensures i < |Chunks(p, width)| <==> i * width <= |p|
    ensures i < |Chunks(p, width)| ==> Chunks(p, width)[i] == p[i * width..Least(i * width + width, |p|)]
    decreases i
  {
    if i > 0 {
      ProductSteps(i, width);
      if |p| >= width {
        ChunkAt(p[width..], width, i - 1);
        if i * width <= |p| {
          ShiftedSlice(p, width, (i - 1) * width, Least(i * width + width, |p|) - width);
        }
      }
    }
  }

  /** Line by line: a text without newlines. */
  lemma LineExactly(text: seq<CodePoint>, width: nat, i: nat)
    requires width > 0 && LF !in text
    ensures i < |Layout(text, width)| <==> i * width < |text|
    ensures i < |Layout(text, width)| ==>
      Layout(text, width)[i] == text[i * width..Least(i * width + width, |text|)]
  {
    hide LastChunks, Layout;
    LayoutWithoutNewline(text, width);
    LastChunkAt(text, width, i);
  }

  /** And the lines in front of a newline, behind which the layout starts afresh. */
  lemma LineBeforeNewline(p: seq<CodePoint>, rest: seq<CodePoint>, width: nat, i: nat)
    requires width > 0 && LF !in p && i * width <= |p|
    ensures var lines := Layout(p + [LF] + rest, width);
      && i < |lines| && lines[i] == p[i * width..Least(i * width + width, |p|)]
      && ((i + 1) * width > |p| ==> lines[i + 1..] == Layout(rest, width))
  {
    hide Chunks, Layout;
    var text := p + [LF] + rest;
    assert text[..|p|] == p && text[|p| + 1..] == rest;
    LayoutWithNewline(text, |p|, width);
    ChunkAt(p, width, i);
    ChunkAt(p, width, i + 1);
  }

  /** Whole code points, at most perLine of them on a line, and together the text without its newlines. */
  lemma WellFormedText(text: seq<CodePoint>, perLine: int)
    ensures var lines := Layout(text, Width(perLine));
      && Wrap(Utf8All(text), [], 0, perLine) == Drawn(Utf8Lines(lines))
      && Flatten(lines) == WithoutNewlines(text)
      && forall l :: l in lines ==> |l| <= Width(perLine)
  {
    WrapIsLayout([], text, perLine);
    assert [] + text == text;
    LayoutKeeps(text, Width(perLine));
  }

  // The loop.

  /** `c` after n left shifts in an unsigned char. */
  function Shifted(c: Byte, n: nat): Byte {
    if n == 0 then c else Shifted(c, n - 1) * 2 % 256
  }

  method CountBytes(lead: Byte) returns (bytes: nat)
    ensures bytes == SequenceLength(lead)
  {
    bytes := 1;
    var c: int := lead;
    if c >= 0x80 {
      c := c * 2 % 256;
      assert c == Shifted(lead, 1);
      while c >= 0x80
        invariant 1 <= bytes <= 4 && c == Shifted(lead, bytes)
        invariant bytes > 1 ==> bytes <= SequenceLength(lead)
        invariant c >= 0x80 <==> bytes < SequenceLength(lead)
        decreases 4 - bytes
      {
        bytes := bytes + 1;
        c := c * 2 % 256;
        if bytes > 4 { return; }
      }
    }
  }

  lemma BeforeTwice(a: seq<seq<Byte>>, b: seq<seq<Byte>>, d: Drawing)
    ensures Before(a, Before(b, d)) == Before(a + b, d)
  {
  }

  /** One round of the loop: what is left to draw after a newline, or after a sequence. */
  lemma WrapStep(text: seq<Byte>, line: seq<Byte>, chars: nat, perLine: int)
    requires text != []
    ensures text[0] == LF ==> Wrap(text, line, chars, perLine) == Before([line], Wrap(text[1..], [], 0, perLine))
    ensures text[0] != LF ==>
      var n := SequenceLength(text[0]);
      && (n > 4 ==> Wrap(text, line, chars, perLine) == Aborted([]))
      && (n <= 4 && n > |text| ==> Wrap(text, line, chars, perLine) == PastEnd([]))
      && (n <= 4 && n <= |text| && (chars + 1 >= perLine || n == |text|) ==>
            Wrap(text, line, chars, perLine) == Before([line + text[..n]], Wrap(text[n..], [], 0, perLine)))
      && (n <= 4 && n < |text| && chars + 1 < perLine ==>
            Wrap(text, line, chars, perLine) == Wrap(text[n..], line + text[..n], chars + 1, perLine))
  {
  }

  method DrawText(text: seq<Byte>, perLine: int) returns (d: Drawing)
    requires 0 !in text
    ensures perLine > 80 ==> d == Aborted([])
    ensures perLine <= 80 ==> d == Wrap(text, [], 0, perLine)
  {
    hide Wrap, SequenceLength;
    if perLine > MAX_CHARS_PER_LINE {
      return Aborted([]);
    }
    var utf8 := new Byte[MAX_CHARS_PER_LINE * 4 + 1](_ => 0);
    var p, chars, line := 0, 0, 0;
    var lines := [];
    assert text[0..] == text && utf8[..0] == [];
    while p < |text|
      invariant p <= |text|
      invariant chars < Width(perLine) && line <= 4 * chars
      invariant Wrap(text, [], 0, perLine) == Before(lines, Wrap(text[p..], utf8[..line], chars, perLine))
    {
      ghost var rest, held, count := text[p..], utf8[..line], chars;
      WrapStep(rest, held, chars, perLine);
      var newline := text[p] == LF;
      if newline {
        p := p + 1;
      } else {
        var bytes := CountBytes(text[p]);
        if bytes > 4 { return Aborted(lines); }
        if p + bytes > |text| { return PastEnd(lines); }
        CopySequence(text, p, bytes, utf8, line);
        assert text[p..p + bytes] == rest[..bytes];
        p, line, chars := p + bytes, line + bytes, chars + 1;
        held := held + rest[..bytes];
        assert utf8[..line] == held;
        assert rest[bytes..] == text[p..];
      }
      assert utf8[..line] == held;
      if chars >= perLine || p == |text| || newline {
        utf8[line] := 0;
        assert utf8[..line] == held;
        BeforeTwice(lines, [held], Wrap(text[p..], [], 0, perLine));
        lines := lines + [utf8[..line]];
        chars, line := 0, 0;
        assert utf8[..0] == [];
      }
    }
    assert text[p..] == [] && lines + [] == lines;
    WrapNothing(utf8[..line], chars, perLine);
    return Drawn(lines);
  }

  lemma WrapNothing(line: seq<Byte>, chars: nat, perLine: int)
    ensures Wrap([], line, chars, perLine) == Drawn([])
  {
  }

  method CopySequence(text: seq<Byte>, p: nat, bytes: nat, utf8: array<Byte>, line: nat)
    requires p + bytes <= |text| && line + bytes <= utf8.Length
    modifies utf8
    ensures utf8[..line + bytes] == old(utf8[..line]) + text[p..p + bytes]
  {
    var k := 0;
    while k < bytes
      invariant k <= bytes && utf8[..line + k] == old(utf8[..line]) + text[p..p + k]
    {
      utf8[line + k] := text[p + k];
      k := k + 1;
    }
  }
}
