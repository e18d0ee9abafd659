/** The padded stream encryption of utils/crypto.c. The cipher behind aes->handle is an exclusive-or with a
    keystream read at a position that every call advances; everything around it is the repository's. */
module Crypto {

  type Byte = x: int | 0 <= x < 256
  type Keystream = nat -> Byte

  const BLOCK: nat := 16
  const MARK: Byte := 0x80

  function PowerOfTwo(n: nat): (r: nat)
    ensures r > 0
  {
    if n == 0 then 1 else 2 * PowerOfTwo(n - 1)
  }

  /** Exclusive or, bit by bit, of numbers of `bits` bits. */
  function XorBits(a: nat, b: nat, bits: nat): (r: nat)
    requires a < PowerOfTwo(bits) && b < PowerOfTwo(bits)
    ensures r < PowerOfTwo(bits)
  {
    if bits == 0 then 0 else 2 * XorBits(a / 2, b / 2, bits - 1) + (if a % 2 == b % 2 then 0 else 1)
  }

  lemma Halves(high: nat, low: nat)
    requires low < 2
    ensures (2 * high + low) / 2 == high && (2 * high + low) % 2 == low
  {
  }

  lemma {:induction false} XorBitsTwice(a: nat, b: nat, bits: nat)
    requires a < PowerOfTwo(bits) && b < PowerOfTwo(bits)
    ensures XorBits(XorBits(a, b, bits), b, bits) == a
  {
    if bits > 0 {
      var high, low := XorBits(a / 2, b / 2, bits - 1), if a % 2 == b % 2 then 0 else 1;
      XorBitsTwice(a / 2, b / 2, bits - 1);
      Halves(high, low);
    }
  }

  function Xor(a: Byte, b: Byte): Byte {
    assert PowerOfTwo(8) == 256;
    XorBits(a, b, 8)
  }

  lemma {:induction false} XorBitsZero(a: nat, bits: nat)
    requires a < PowerOfTwo(bits)
    ensures XorBits(a, 0, bits) == XorBits(0, a, bits) == a && XorBits(a, a, bits) == 0
  {
    if bits > 0 {
      XorBitsZero(a / 2, bits - 1);
    }
  }

  /** A zero byte shows the keystream, and a keystream of zeros the byte. */
  lemma XorZero(a: Byte)
    ensures Xor(a, 0) == Xor(0, a) == a && Xor(a, a) == 0
  {
    assert PowerOfTwo(8) == 256;
    XorBitsZero(a, 8);
  }

  lemma XorTwice(a: Byte, b: Byte)
    ensures Xor(Xor(a, b), b) == a
  {
    assert PowerOfTwo(8) == 256;
    XorBitsTwice(a, b, 8);
  }

  /** gnutls_cipher_encrypt2 and gnutls_cipher_decrypt2: `data` against the keystream from `pos` on. */
  function Keyed(key: Keystream, pos: nat, data: seq<Byte>): (r: seq<Byte>)
    ensures |r| == |data|
    ensures forall i :: 0 <= i < |data| ==> r[i] == Xor(data[i], key(pos + i))
  {
    seq(|data|, i requires 0 <= i < |data| => Xor(data[i], key(pos + i)))
  }

  lemma KeyedTwice(key: Keystream, pos: nat, data: seq<Byte>)
    ensures Keyed(key, pos, Keyed(key, pos, data)) == data
  {
    hide Xor;
    forall i | 0 <= i < |data| ensures Xor(Xor(data[i], key(pos + i)), key(pos + i)) == data[i] {
      XorTwice(data[i], key(pos + i));
    }
  }

  lemma KeyedAppend(key: Keystream, pos: nat, a: seq<Byte>, b: seq<Byte>)
    ensures Keyed(key, pos, a + b) == Keyed(key, pos, a) + Keyed(key, pos + |a|, b)
  {
    hide Xor;
    var whole, parts := Keyed(key, pos, a + b), Keyed(key, pos, a) + Keyed(key, pos + |a|, b);
    forall i | 0 <= i < |a| + |b| ensures whole[i] == parts[i] {
      if i >= |a| {
        assert parts[i] == Xor(b[i - |a|], key(pos + |a| + (i - |a|)));
      }
    }
  }

  function Zeros(n: nat): (r: seq<Byte>)
    ensures |r| == n && forall i :: 0 <= i < n ==> r[i] == 0
  {
    seq(n, _ => 0)
  }

  /** The least multiple of 16 that leaves room for the marker and the count. */
  function PaddedLength(n: nat): nat { (n + 2 + BLOCK - 1) / BLOCK * BLOCK }

  lemma PaddedLengthIsLeast(n: nat)
    ensures PaddedLength(n) % BLOCK == 0 && n + 2 <= PaddedLength(n) <= n + 17
    ensures forall m: nat :: m % BLOCK == 0 && n + 2 <= m ==> PaddedLength(n) <= m
    ensures PaddedLength(n) == n / 16 * 16 + (if n % 16 == 15 then 32 else 16)
  {
  }

  /** A message with padding: the marker, zeros, and how many bytes were added. */
  function Pad(plain: seq<Byte>): (r: seq<Byte>)
    ensures |r| == PaddedLength(|plain|)
  {
    PaddedLengthIsLeast(|plain|);
    var added := PaddedLength(|plain|) - |plain|;
    plain + [MARK] + Zeros(added - 2) + [added]
  }

  /** What encrypt2 encrypts. Without padding a zero-filled block still closes the message. */
  function Message(plain: seq<Byte>, usePadding: bool): (r: seq<Byte>)
    ensures |plain| < |r| && |r| % BLOCK == 0
  {
    PaddedLengthIsLeast(|plain|);
    if usePadding then Pad(plain) else plain + Zeros(BLOCK - |plain| % BLOCK)
  }

  datatype Plain = Data(bytes: seq<Byte>) | Aborted | OutOfBounds

  /** What decrypt2 does to decrypted bytes. The count is read through a signed char, so 128 and above
      abort like any count above 17; a count of 17 in a single block reads before the buffer. */
  function Unpad(text: seq<Byte>): Plain
    requires text != []
  {
    var count := text[|text| - 1];
    if count >= 18 then Aborted
    else if count <= 1 then Data(text[..|text| - count])
    else if |text| < count then OutOfBounds
    else if text[|text| - count] != MARK then Aborted
    else Data(text[..|text| - count])
  }

  /** A padded message, byte by byte. */
  lemma PadExactly(plain: seq<Byte>)
    ensures var r, n := Pad(plain), |plain|;
      && |r| == n / 16 * 16 + (if n % 16 == 15 then 32 else 16)
      && r[..n] == plain && r[n] == 0x80 && r[|r| - 1] == |r| - n
      && forall i :: n < i < |r| - 1 ==> r[i] == 0
  {
    PaddedLengthIsLeast(|plain|);
  }

  /** Without padding: the message and one to sixteen zeros. */
  lemma UnpaddedExactly(plain: seq<Byte>)
    ensures var r, n := Message(plain, false), |plain|;
      |r| == n / 16 * 16 + 16 && r[..n] == plain && forall i :: n <= i < |r| ==> r[i] == 0
  {
  }

  /** What is refused: counts of 18 and more, and counts whose place does not hold the marker. */
  lemma RefusedExactly(text: seq<Byte>)
    requires text != []
    ensures var count := text[|text| - 1];
      && (Unpad(text).OutOfBounds? <==> |text| < count <= 17 && count > 1)
      && (Unpad(text).Aborted? <==>
            count >= 18 || (2 <= count <= |text| && text[|text| - count] != 0x80))
      && (Unpad(text).Data? ==> Unpad(text).bytes == text[..|text| - count])
  {
  }

  lemma UnpadPad(plain: seq<Byte>)
    ensures Unpad(Pad(plain)) == Data(plain)
  {
    PaddedLengthIsLeast(|plain|);
    var added := PaddedLength(|plain|) - |plain|;
    assert Pad(plain)[..|plain|] == plain;
  }

  /** The padding decrypt2 should have insisted on: it looks at the count and the marker only. */
  ghost predicate WellPadded(text: seq<Byte>)
    requires text != []
  {
    var count := text[|text| - 1];
    2 <= count <= 17 && count <= |text| && text[|text| - count] == 0x80
    && forall i :: |text| - count < i < |text| - 1 ==> text[i] == 0
  }

  /** Exactly the well padded texts are those some message is padded to. */
  lemma PaddedExactly(text: seq<Byte>)
    requires text != [] && |text| % BLOCK == 0
    ensures WellPadded(text) <==> Unpad(text).Data? && Pad(Unpad(text).bytes) == text
  {
    var count := text[|text| - 1];
    if WellPadded(text) {
      var plain := text[..|text| - count];
      PaddedLengthIsLeast(|plain|);
      assert PaddedLength(|plain|) == |text|;
      assert Pad(plain) == text;
    }
    if Unpad(text).Data? && Pad(Unpad(text).bytes) == text {
      var plain := Unpad(text).bytes;
      UnpadPad(plain);
      PaddedLengthIsLeast(|plain|);
      assert text == Pad(plain);
    }
  }

  /** Text that no message is padded to, returned whole: a count of zero needs no marker. */
  lemma UnpaddedTextAccepted()
    ensures var text := Zeros(BLOCK); Unpad(text) == Data(text) && !WellPadded(text)
  {
    assert Zeros(BLOCK)[..BLOCK] == Zeros(BLOCK);
  }

  /** One message through encrypt2 at `pos` on one side and decrypt2 at `pos` on the other. */
  lemma MessageRoundTrip(key: Keystream, pos: nat, plain: seq<Byte>)
    ensures Unpad(Keyed(key, pos, Keyed(key, pos, Message(plain, true)))) == Data(plain)
  {
    KeyedTwice(key, pos, Message(plain, true));
    UnpadPad(plain);
  }

  /** encrypt2 message after message, the position running on. */
  function EncryptAll(key: Keystream, pos: nat, messages: seq<seq<Byte>>): (packets: seq<seq<Byte>>)
    ensures |packets| == |messages|
    decreases |messages|
  {
    if messages == [] then []
    else
      var packet := Keyed(key, pos, Message(messages[0], true));
      [packet] + EncryptAll(key, pos + |packet|, messages[1..])
  }

  /** decrypt2 packet after packet; an empty packet leaves the position and yields nothing. */
  function DecryptAll(key: Keystream, pos: nat, packets: seq<seq<Byte>>): (texts: seq<Plain>)
    requires forall i :: 0 <= i < |packets| ==> packets[i] != []
    ensures |texts| == |packets|
    decreases |packets|
  {
    if packets == [] then []
    else [Unpad(Keyed(key, pos, packets[0]))] + DecryptAll(key, pos + |packets[0]|, packets[1..])
  }

  function Texts(messages: seq<seq<Byte>>): seq<Plain>
    decreases |messages|
  {
    if messages == [] then [] else [Data(messages[0])] + Texts(messages[1..])
  }

  /** A whole session needs one reset on each side, not one per message. */
  lemma {:induction false} SessionRoundTrip(key: Keystream, pos: nat, messages: seq<seq<Byte>>)
    ensures var packets := EncryptAll(key, pos, messages);
      && (forall i :: 0 <= i < |packets| ==> packets[i] != [])
      && DecryptAll(key, pos, packets) == Texts(messages)
    decreases |messages|
  {
    hide Message, Keyed, Unpad;
    if messages != [] {
      var packet := Keyed(key, pos, Message(messages[0], true));
      MessageRoundTrip(key, pos, messages[0]);
      SessionRoundTrip(key, pos + |packet|, messages[1..]);
      var rest := EncryptAll(key, pos + |packet|, messages[1..]);
      assert EncryptAll(key, pos, messages) == [packet] + rest;
      assert ([packet] + rest)[1..] == rest;
      assert forall i :: 0 < i <= |rest| ==> ([packet] + rest)[i] == rest[i - 1];
    }
  }

  /** The length query, p_encrypted == NULL, and the size the function allocates. */
  function EncryptedCapacity(length: nat): (n: nat) { ((length + BLOCK - 1) / BLOCK + 1) * BLOCK }

  /** What is written fits, and the query is exact when the last block holds 0 or 15 bytes. */
  lemma EncryptedFits(plain: seq<Byte>, usePadding: bool)
    ensures |Message(plain, usePadding)| <= EncryptedCapacity(|plain|)
    ensures |Message(plain, true)| == EncryptedCapacity(|plain|) <==> |plain| % BLOCK == 0 || |plain| % BLOCK == 15
    ensures |Message(plain, false)| == EncryptedCapacity(|plain|) <==> |plain| % BLOCK == 0
  {
    PaddedLengthIsLeast(|plain|);
  }

  /** The last one or two blocks: the bytes left over, then the padding. */
  function Tail(left: seq<Byte>, usePadding: bool): (r: seq<Byte>)
    requires |left| < BLOCK
  {
    Message(left, usePadding)
  }

  lemma MessageSplits(plain: seq<Byte>, usePadding: bool)
    ensures var whole := |plain| / BLOCK * BLOCK;
      Message(plain, usePadding) == plain[..whole] + Tail(plain[whole..], usePadding)
  {
    var whole := |plain| / BLOCK * BLOCK;
    PaddedLengthIsLeast(|plain|);
    PaddedLengthIsLeast(|plain| - whole);
    assert plain == plain[..whole] + plain[whole..];
    assert PaddedLength(|plain|) == whole + PaddedLength(|plain| - whole);
  }

  /** Two cipher calls, whole blocks then tail, give what one call on the padded message gives. */
  lemma TwoCallsAreOne(key: Keystream, pos: nat, plain: seq<Byte>, usePadding: bool)
    ensures var whole := |plain| / BLOCK * BLOCK;
      Keyed(key, pos, plain[..whole]) + Keyed(key, pos + whole, Tail(plain[whole..], usePadding))
      == Keyed(key, pos, Message(plain, usePadding))
  {
    var whole := |plain| / BLOCK * BLOCK;
    MessageSplits(plain, usePadding);
    KeyedAppend(key, pos, plain[..whole], Tail(plain[whole..], usePadding));
  }

  datatype Outcome = Done(length: nat) | NoInput | Abort | OutOfBoundsRead

  /** What decrypt2 reports and leaves in its buffer for the decrypted `text`. A message that had a marker
      is followed by a zero byte, so it can be used as a C string. */
  ghost predicate Stripped(text: seq<Byte>, r: Outcome, buffer: seq<Byte>)
    requires text != []
  {
    match Unpad(text)
    case Data(bytes) => r == Done(|bytes|) && bytes <= buffer
      && (text[|text| - 1] > 1 ==> |bytes| < |buffer| && buffer[|bytes|] == 0)
    case Aborted => r == Abort
    case OutOfBounds => r == OutOfBoundsRead
  }

  lemma PadStripped(plain: seq<Byte>, r: Outcome, buffer: seq<Byte>)
    requires Stripped(Message(plain, true), r, buffer)
    ensures r == Done(|plain|) && |plain| < |buffer| && buffer[..|plain|] == plain && buffer[|plain|] == 0
  {
    UnpadPad(plain);
    PaddedLengthIsLeast(|plain|);
  }

  /** Two writes, one behind the other. */
  lemma Spliced(before: seq<Byte>, middle: seq<Byte>, after: seq<Byte>, first: seq<Byte>, second: seq<Byte>)
    requires |first| + |second| <= |before|
    requires middle == first + before[|first|..]
    requires after == middle[..|first|] + second + middle[|first| + |second|..]
    ensures after[..|first| + |second|] == first + second
    ensures after[|first| + |second|..] == before[|first| + |second|..]
  {
    assert middle[..|first|] == first;
    assert middle[|first| + |second|..] == before[|first| + |second|..];
  }

  lemma BothCalls(key: Keystream, pos: nat, plain: seq<Byte>, usePadding: bool,
                  before: seq<Byte>, middle: seq<Byte>, after: seq<Byte>)
    requires |Message(plain, usePadding)| <= |before| == |middle|
    requires var whole := |plain| / BLOCK * BLOCK;
      && whole <= |before| && middle == Keyed(key, pos, plain[..whole]) + before[whole..]
      && whole + |Tail(plain[whole..], usePadding)| == |Message(plain, usePadding)|
      && after == middle[..whole] + Keyed(key, pos + whole, Tail(plain[whole..], usePadding))
           + middle[|Message(plain, usePadding)|..]
    ensures |after| == |before|
    ensures after[..|Message(plain, usePadding)|] == Keyed(key, pos, Message(plain, usePadding))
    ensures after[|Message(plain, usePadding)|..] == before[|Message(plain, usePadding)|..]
  {
    hide Message, Keyed, Tail;
    var whole := |plain| / BLOCK * BLOCK;
    TwoCallsAreOne(key, pos, plain, usePadding);
    Spliced(before, middle, after, Keyed(key, pos, plain[..whole]),
      Keyed(key, pos + whole, Tail(plain[whole..], usePadding)));
  }

  class Aes256Gcm {
    const key: Keystream
    var position: nat    // how much keystream the handle has used
    var usePadding: bool

    constructor (key: Keystream)
      ensures this.key == key && position == 0 && !usePadding
    {
      this.key := key;
      position, usePadding := 0, false;
    }

    /** aes256_gcm_reset */
    method Reset()
      modifies this`position
      ensures position == 0
    {
      position := 0;
    }

    /** The foreign cipher, on n bytes of `src` from `start` on, into `dst` at `to`. */
    method Apply(src: array<Byte>, start: nat, n: nat, dst: array<Byte>, to: nat)
      requires src != dst && start + n <= src.Length && to + n <= dst.Length
      modifies this`position, dst
      ensures position == old(position) + n
      ensures dst[..] == old(dst[..to]) + Keyed(key, old(position), src[start..start + n]) + old(dst[to + n..])
    {
      hide Xor;
      forall i | 0 <= i < n { dst[to + i] := Xor(src[start + i], key(position + i)); }
      position := position + n;
      assert dst[..to] == old(dst[..to]) && dst[to + n..] == old(dst[to + n..]);
      assert dst[to..to + n] == Keyed(key, old(position), src[start..start + n]);
      assert dst[..] == dst[..to] + dst[to..to + n] + dst[to + n..];
    }

    /** The paddings array of encrypt2. */
    method FillTail(plain: array<Byte>, start: nat) returns (paddings: array<Byte>, size: nat)
      requires start <= plain.Length < start + BLOCK
      ensures fresh(paddings) && size <= paddings.Length == 32
      ensures paddings[..size] == Tail(plain[start..], usePadding)
    {
      size := 16;
      var left := plain.Length - start;
      paddings := new Byte[32](_ => 0);
      forall i | 0 <= i < left { paddings[i] := plain[start + i]; }
      if usePadding {
        paddings[left] := MARK;
        var count := 16 - left;
        if count < 2 {
          count := count + 16;
          size := size + 16;
        }
        paddings[size - 1] := count;
      }
      PaddedLengthIsLeast(left);
      assert paddings[..left] == plain[start..];
      assert paddings[..size] == Tail(plain[start..], usePadding);
    }

    /** The first cipher call of encrypt2, skipped when no block is full. */
    method EncryptBlocks(plain: array<Byte>, encrypted: array<Byte>) returns (whole: nat)
      requires encrypted != plain && plain.Length / BLOCK * BLOCK <= encrypted.Length
      modifies this`position, encrypted
      ensures whole == plain.Length / BLOCK * BLOCK && position == old(position) + whole
      ensures encrypted[..] == Keyed(key, old(position), plain[..][..whole]) + old(encrypted[..])[whole..]
    {
      hide Keyed;
      whole := plain.Length / BLOCK * BLOCK;
      assert plain[..][..whole] == plain[0..whole];
      if whole != 0 {
        Apply(plain, 0, whole, encrypted, 0);
      }
    }

    /** The second cipher call of encrypt2, which is always made. */
    method EncryptTail(plain: array<Byte>, start: nat, encrypted: array<Byte>) returns (n: nat)
      requires encrypted != plain && start <= plain.Length < start + BLOCK
      requires start + |Tail(plain[..][start..], usePadding)| <= encrypted.Length
      modifies this`position, encrypted
      ensures n == start + |Tail(plain[..][start..], usePadding)| && position == old(position) + n - start
      ensures encrypted[..] == old(encrypted[..])[..start]
        + Keyed(key, old(position), Tail(plain[..][start..], usePadding)) + old(encrypted[..])[n..]
    {
      hide Keyed, Tail;
      assert plain[..][start..] == plain[start..];
      var paddings, size := FillTail(plain, start);
      assert paddings[..size] == paddings[0..size];
      Apply(paddings, 0, size, encrypted, start);
      n := start + size;
    }

    /** The two cipher calls of encrypt2: whole blocks from `plain`, then the padded tail. */
    method EncryptInto(plain: array<Byte>, encrypted: array<Byte>) returns (n: nat)
      requires encrypted != plain && |Message(plain[..], usePadding)| <= encrypted.Length
      modifies this`position, encrypted
      ensures n == |Message(plain[..], usePadding)|
      ensures encrypted[..n] == Keyed(key, old(position), Message(plain[..], usePadding))
      ensures encrypted[..][n..] == old(encrypted[..])[n..]
      ensures position == old(position) + n
    {
      hide Message, Keyed, Tail;
      ghost var before, bytes := encrypted[..], plain[..];
      MessageSplits(bytes, usePadding);
      var dst := EncryptBlocks(plain, encrypted);
      ghost var middle := encrypted[..];
      n := EncryptTail(plain, dst, encrypted);
      BothCalls(key, old(position), bytes, usePadding, before, middle, encrypted[..]);
    }

    /** aes256_gcm_encrypt2 with p_encrypted given; a null buffer is allocated. */
    method Encrypt(plain: array<Byte>, buffer: array?<Byte>) returns (encrypted: array<Byte>, n: nat)
      requires buffer != null ==>
        buffer != plain && |Message(plain[..], usePadding)| <= buffer.Length
      modifies this`position, if buffer == null then {} else {buffer}
      ensures n == |Message(plain[..], usePadding)| <= encrypted.Length
      ensures if buffer == null then fresh(encrypted) && encrypted.Length == EncryptedCapacity(plain.Length)
              else encrypted == buffer && encrypted[..][n..] == old(buffer[..])[n..]
      ensures encrypted[..n] == Keyed(key, old(position), Message(plain[..], usePadding))
      ensures position == old(position) + n
    {
      hide Message, Keyed;
      EncryptedFits(plain[..], usePadding);
      if buffer == null {
        encrypted := new Byte[EncryptedCapacity(plain.Length)](_ => 0);
      } else {
        encrypted := buffer;
      }
      n := EncryptInto(plain, encrypted);
    }

    /** The end of decrypt2: read the count, check the marker and end the string there. */
    method StripPadding(plain: array<Byte>, size: nat) returns (r: Outcome)
      requires 0 < size <= plain.Length
      modifies plain
      ensures Stripped(old(plain[..size]), r, plain[..])
    {
      var count := plain[size - 1];
      if count >= 18 { return Abort; }
      if count > 1 {
        if size < count { return OutOfBoundsRead; }
        if plain[size - count] != MARK { return Abort; }
        plain[size - count] := 0;
      }
      assert plain[..][..size - count] == old(plain[..size])[..size - count];
      return Done(size - count);
    }

    /** aes256_gcm_decrypt2 as a length query, p_plain_text == NULL: room for the padded text. */
    method DecryptedSize(encrypted: array<Byte>) returns (r: Outcome)
      ensures r ==
        if encrypted.Length % BLOCK != 0 then Abort
        else if encrypted.Length == 0 then NoInput
        else Done(encrypted.Length)
    {
      if encrypted.Length % BLOCK != 0 { return Abort; }
      if encrypted.Length == 0 { return NoInput; }
      var totalBlocks := (encrypted.Length + BLOCK - 1) / BLOCK;
      return Done(totalBlocks * BLOCK);
    }

    /** aes256_gcm_decrypt2 with p_plain_text given, assertions enabled; a null buffer is allocated. */
    method Decrypt(encrypted: array<Byte>, buffer: array?<Byte>) returns (plain: array?<Byte>, r: Outcome)
      requires buffer != null ==> buffer != encrypted && encrypted.Length <= buffer.Length
      modifies this`position, if buffer == null then {} else {buffer}
      ensures encrypted.Length % BLOCK != 0 ==> r == Abort
      ensures encrypted.Length == 0 ==> r == NoInput && position == old(position)
      ensures encrypted.Length != 0 && encrypted.Length % BLOCK == 0 ==>
        && position == old(position) + encrypted.Length
        && plain != null && (buffer != null ==> plain == buffer) && (buffer == null ==> fresh(plain))
        && var text := old(Keyed(key, position, encrypted[..]));
          if usePadding then Stripped(text, r, plain[..])
          else r == Done(encrypted.Length) && encrypted.Length <= plain.Length && plain[..encrypted.Length] == text
    {
      hide Keyed, Stripped;
      plain := buffer;
      if encrypted.Length % BLOCK != 0 { return plain, Abort; }
      if encrypted.Length == 0 { return plain, NoInput; }
      var length := encrypted.Length;
      if plain == null {
        plain := new Byte[length](_ => 0);
      }
      Apply(encrypted, 0, length, plain, 0);
      assert encrypted[..] == encrypted[0..length];
      assert plain[..length] == Keyed(key, old(position), encrypted[..]);
      if usePadding {
        r := StripPadding(plain, length);
      } else {
        r := Done(length);
      }
    }
  }

  /** Both ends reset, any byte string comes back, terminated by a zero byte. */
  method RoundTrip(sender: Aes256Gcm, receiver: Aes256Gcm, plain: array<Byte>) returns (back: array<Byte>, n: nat)
    requires sender != receiver && sender.key == receiver.key && sender.usePadding && receiver.usePadding
    modifies sender`position, receiver`position
    ensures fresh(back) && n == plain.Length < back.Length && back[..n] == plain[..] && back[n] == 0
  {
    hide Keyed, Message, Stripped;
    sender.Reset();
    receiver.Reset();
    var encrypted, size := sender.Encrypt(plain, null);
    var packet := new Byte[size](i requires 0 <= i < size reads encrypted => encrypted[i]);
    assert packet[..] == encrypted[..size];
    KeyedTwice(sender.key, 0, Message(plain[..], true));
    var text, outcome := receiver.Decrypt(packet, null);
    PadStripped(plain[..], outcome, text[..]);
    back := text;
    n := plain.Length;
  }
}
