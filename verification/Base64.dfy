/** base64_encode, base64_decode and base64url_encode of utils/base64.c. Bit operations are written as the
    divisions and remainders they compute. */
module Base64 {
  import opened Text

  type Byte = x: int | 0 <= x < 256
  type Sextet = x: int | 0 <= x < 64

  const INVALID: int := 255

  /** s_b64_table, or s_b64url_table when `url`: A-Z, a-z, 0-9 and two more. */
  function Digit(x: Sextet, url: bool): char {
    if x < 26 then ('A' as int + x) as char
    else if x < 52 then ('a' as int + x - 26) as char
    else if x < 62 then ('0' as int + x - 52) as char
    else if x == 62 then (if url then '-' else '+')
    else (if url then '_' else '/')
  }

  /** s_b64_index, with the stray entry for DEL it contains. Read with unsigned bytes. */
  function DigitIndex(c: char): (x: int)
    ensures x == INVALID || 0 <= x < 64
  {
    if 'A' <= c <= 'Z' then c as int - 'A' as int
    else if 'a' <= c <= 'z' then c as int - 'a' as int + 26
    else if '0' <= c <= '9' then c as int - '0' as int + 52
    else if c == '+' then 62
    else if c == '/' || c == 127 as char then 63
    else INVALID
  }

  /** The alphabets of tables 1 and 2 of RFC 4648, in ASCII codes: A is 65, a is 97, 0 is 48. */
  lemma AlphabetExactly(x: Sextet)
    ensures x < 26 ==> Digit(x, false) as int == Digit(x, true) as int == 65 + x
    ensures 26 <= x < 52 ==> Digit(x, false) as int == Digit(x, true) as int == 97 + (x - 26)
    ensures 52 <= x < 62 ==> Digit(x, false) as int == Digit(x, true) as int == 48 + (x - 52)
    ensures Digit(62, false) == '+' && Digit(63, false) == '/' && Digit(62, true) == '-' && Digit(63, true) == '_'
  {
  }

  /** The index finds exactly the digits, and DEL as a second slash. */
  lemma IndexExactly(c: char, x: Sextet)
    ensures DigitIndex(c) == x <==> c == Digit(x, false) || (x == 63 && c == 127 as char)
  {
  }

  lemma DigitRoundTrip(x: Sextet)
    ensures DigitIndex(Digit(x, false)) == x && Digit(x, false) != '=' && Digit(x, false) != 127 as char
  {
  }

  lemma IndexRoundTrip(c: char)
    requires DigitIndex(c) != INVALID
    ensures Digit(DigitIndex(c), false) == c <==> c != 127 as char
  {
  }

  /** base64_encode_block */
  function EncodeBlock(a: Byte, b: Byte, c: Byte, url: bool): (s: string)
    ensures |s| == 4
  {
    [Digit(a / 4, url), Digit(a % 4 * 16 + b / 16, url), Digit(b % 16 * 4 + c / 64, url), Digit(c % 64, url)]
  }

  /** base64_encode_block_partial without padding. */
  function EncodePartial(rest: seq<Byte>, url: bool): (s: string)
    requires |rest| == 1 || |rest| == 2
    ensures |s| == |rest| + 1
  {
    if |rest| == 1 then [Digit(rest[0] / 4, url), Digit(rest[0] % 4 * 16, url)]
    else [Digit(rest[0] / 4, url), Digit(rest[0] % 4 * 16 + rest[1] / 16, url), Digit(rest[1] % 16 * 4, url)]
  }

  /** Read as numbers, most significant first, four digits are the three bytes they stand for. */
  lemma BlockIsNumber(a: Byte, b: Byte, c: Byte, url: bool) returns (p: Sextet, q: Sextet, r: Sextet, t: Sextet)
    ensures EncodeBlock(a, b, c, url) == [Digit(p, url), Digit(q, url), Digit(r, url), Digit(t, url)]
    ensures p as int * 262144 + q as int * 4096 + r as int * 64 + t == a as int * 65536 + b as int * 256 + c
  {
    p, q, r, t := a / 4, a % 4 * 16 + b / 16, b % 16 * 4 + c / 64, c % 64;
  }

  /** Two or three last digits are one or two bytes with zero bits behind them. */
  lemma PartialIsNumber(rest: seq<Byte>, url: bool) returns (p: Sextet, q: Sextet, r: Sextet)
    requires |rest| == 1 || |rest| == 2
    ensures |rest| == 1 ==>
      EncodePartial(rest, url) == [Digit(p, url), Digit(q, url)] && p as int * 64 + q == rest[0] as int * 16
    ensures |rest| == 2 ==>
      && EncodePartial(rest, url) == [Digit(p, url), Digit(q, url), Digit(r, url)]
      && p as int * 4096 + q as int * 64 + r == (rest[0] as int * 256 + rest[1]) * 4
  {
    p, r := rest[0] / 4, 0;
    if |rest| == 1 {
      q := rest[0] % 4 * 16;
    } else {
      q, r := rest[0] % 4 * 16 + rest[1] / 16, rest[1] % 16 * 4;
    }
  }

  /** The digits alone, as base64url_encode writes them. */
  function Unpadded(data: seq<Byte>, url: bool): string {
    if data == [] then ""
    else if |data| < 3 then EncodePartial(data, url)
    else EncodeBlock(data[0], data[1], data[2], url) + Unpadded(data[3..], url)
  }

  function Padding(n: nat): string {
    if n % 3 == 0 then "" else if n % 3 == 1 then "==" else "="
  }

  /** base64_encode */
  function Encode(data: seq<Byte>): string { Unpadded(data, false) + Padding(|data|) }

  lemma {:induction false} UnpaddedLength(data: seq<Byte>, url: bool)
    ensures |Unpadded(data, url)| == |data| / 3 * 4 + (if |data| % 3 == 0 then 0 else |data| % 3 + 1)
    decreases |data|
  {
    if |data| >= 3 {
      UnpaddedLength(data[3..], url);
    }
  }

  /** The encoded length is 4 * ceil(n / 3), and it fits what the function allocates. */
  lemma EncodedLength(data: seq<Byte>)
    ensures |Encode(data)| == (|data| + 2) / 3 * 4 && |Encode(data)| + 1 <= (|data| / 3 + 1) * 4 + 1
  {
    hide Unpadded;
    UnpaddedLength(data, false);
    assert |data| == |data| / 3 * 3 + |data| % 3;
  }

  datatype Decoded = Data(bytes: seq<Byte>) | Invalid

  /** base64_decode after the padding has been cut off. */
  function DecodeDigits(s: string): Decoded {
    if s == "" then Data([])
    else if |s| == 1 then Invalid
    else
      var a, b := DigitIndex(s[0]), DigitIndex(s[1]);
      if a == INVALID || b == INVALID then Invalid
      else if |s| == 2 then Data([a * 4 + b / 16])
      else
        var c := DigitIndex(s[2]);
        if c == INVALID then Invalid
        else if |s| == 3 then Data([a * 4 + b / 16, b % 16 * 16 + c / 4])
        else
          var d := DigitIndex(s[3]);
          if d == INVALID then Invalid
          else
            match DecodeDigits(s[4..])
            case Invalid => Invalid
            case Data(rest) => Data([a * 4 + b / 16, b % 16 * 16 + c / 4, c % 4 * 64 + d] + rest)
  }

  function Strip(s: string): (t: string)
    ensures |t| <= |s| <= |t| + 2 && t == s[..|t|]
  {
    var t := if s != "" && s[|s| - 1] == '=' then s[..|s| - 1] else s;
    if t != "" && t[|t| - 1] == '=' then t[..|t| - 1] else t
  }

  /** base64_decode of a non-empty string. */
  function Decode(s: string): Decoded
    requires s != ""
  {
    if Strip(s) == "" then Invalid else DecodeDigits(Strip(s))
  }

  /** Exact condition: digits are accepted if and only if all have an index and their number does not leave one. */
  lemma {:induction false} AcceptedExactly(t: string)
    ensures DecodeDigits(t).Data? <==> |t| % 4 != 1 && forall i :: 0 <= i < |t| ==> DigitIndex(t[i]) != INVALID
    decreases |t|
  {
    hide DigitIndex;
    if |t| >= 4 {
      AcceptedExactly(t[4..]);
      assert forall i :: 4 <= i < |t| ==> t[i] == t[4..][i - 4];
      assert forall i :: 0 <= i < |t| - 4 ==> t[4..][i] == t[i + 4];
    }
  }

  /** Up to two padding characters come off, whatever is before them. */
  lemma StripExactly(t: string)
    ensures Strip(t + "==") == t
    ensures t == "" || t[|t| - 1] != '=' ==> Strip(t + "=") == t && Strip(t) == t
  {
    var two, one := t + "==", t + "=";
    assert two[..|two| - 1] == one && one[..|t|] == t;
  }

  lemma LastDigitsRoundTrip(data: seq<Byte>)
    requires 1 <= |data| < 3
    ensures DecodeDigits(EncodePartial(data, false)) == Data(data)
  {
    hide Digit, DigitIndex;
    DigitRoundTrip(data[0] / 4);
    DigitRoundTrip(if |data| == 1 then data[0] % 4 * 16 else data[0] % 4 * 16 + data[1] / 16);
    if |data| == 2 {
      DigitRoundTrip(data[1] % 16 * 4);
    }
  }

  lemma BlockBits(a: Byte, b: Byte, c: Byte)
    ensures var p, q, r, t := a / 4, a % 4 * 16 + b / 16, b % 16 * 4 + c / 64, c % 64;
      p * 4 + q / 16 == a && q % 16 * 16 + r / 4 == b && r % 4 * 64 + t == c
  {
  }

  lemma DigitsDecode(s: string, p: Sextet, q: Sextet, r: Sextet, t: Sextet, rest: string)
    requires |s| == 4 + |rest| && s[4..] == rest && DecodeDigits(rest).Data?
    requires s[0] == Digit(p, false) && s[1] == Digit(q, false) && s[2] == Digit(r, false) && s[3] == Digit(t, false)
    requires p * 4 + q / 16 < 256 && q % 16 * 16 + r / 4 < 256 && r % 4 * 64 + t < 256
    ensures DecodeDigits(s) == Data([p * 4 + q / 16, q % 16 * 16 + r / 4, r % 4 * 64 + t] + DecodeDigits(rest).bytes)
  {
    hide Digit, DigitIndex;
    DigitRoundTrip(p);
    DigitRoundTrip(q);
    DigitRoundTrip(r);
    DigitRoundTrip(t);
  }

  lemma BlockDecodes(a: Byte, b: Byte, c: Byte, rest: string)
    requires DecodeDigits(rest).Data?
    ensures DecodeDigits(EncodeBlock(a, b, c, false) + rest) == Data([a, b, c] + DecodeDigits(rest).bytes)
  {
    hide Digit, DecodeDigits;
    BlockBits(a, b, c);
    assert (EncodeBlock(a, b, c, false) + rest)[4..] == rest;
    DigitsDecode(EncodeBlock(a, b, c, false) + rest, a / 4, a % 4 * 16 + b / 16, b % 16 * 4 + c / 64, c % 64, rest);
  }

  lemma {:induction false} DigitsRoundTrip(data: seq<Byte>)
    ensures DecodeDigits(Unpadded(data, false)) == Data(data)
    decreases |data|
  {
    hide EncodeBlock, EncodePartial;
    if 1 <= |data| < 3 {
      LastDigitsRoundTrip(data);
    } else if |data| >= 3 {
      DigitsRoundTrip(data[3..]);
      BlockDecodes(data[0], data[1], data[2], Unpadded(data[3..], false));
      assert data == [data[0], data[1], data[2]] + data[3..];
    }
  }

  lemma {:induction false} UnpaddedEndsInDigit(data: seq<Byte>)
    requires data != []
    ensures Unpadded(data, false) != "" && Unpadded(data, false)[|Unpadded(data, false)| - 1] != '='
    decreases |data|
  {
    if |data| > 3 {
      UnpaddedEndsInDigit(data[3..]);
    } else if |data| == 3 {
      assert Unpadded(data[3..], false) == "";
    }
  }

  lemma StripPadding(t: string, n: nat)
    requires t != "" && t[|t| - 1] != '='
    ensures Strip(t + Padding(n)) == t
  {
    var s := t + Padding(n);
    if n % 3 == 1 {
      assert s[..|s| - 1] == t + "=";
      assert (t + "=")[..|t|] == t;
    } else if n % 3 == 2 {
      assert s[..|s| - 1] == t;
    } else {
      assert s == t;
    }
  }

  /** Decoding undoes encoding, for every non-empty byte string. */
  lemma DecodeEncode(data: seq<Byte>)
    requires data != []
    ensures Decode(Encode(data)) == Data(data)
  {
    UnpaddedEndsInDigit(data);
    StripPadding(Unpadded(data, false), |data|);
    DigitsRoundTrip(data);
  }

  /** Digits only, and zero bits where a partial last group has spare ones. */
  predicate CanonicalDigits(t: string) {
    && (forall i :: 0 <= i < |t| ==> DigitIndex(t[i]) != INVALID && t[i] != 127 as char)
    && |t| % 4 != 1
    && (|t| % 4 == 2 ==> DigitIndex(t[|t| - 1]) % 16 == 0)
    && (|t| % 4 == 3 ==> DigitIndex(t[|t| - 1]) % 4 == 0)
  }

  /** The canonical strings of section 3.5 of RFC 4648. */
  predicate Canonical(s: string) {
    var t := Strip(s);
    t != "" && CanonicalDigits(t) && |s| % 4 == 0
  }

  lemma {:induction false} DecodedLength(t: string)
    requires DecodeDigits(t).Data?
    ensures |t| % 4 != 1 && |DecodeDigits(t).bytes| == |t| / 4 * 3 + (if |t| % 4 == 0 then 0 else |t| % 4 - 1)
    decreases |t|
  {
    if |t| >= 4 {
      DecodedLength(t[4..]);
    }
  }

  lemma CanonicalTail(t: string)
    requires |t| >= 4
    ensures CanonicalDigits(t) <==>
      CanonicalDigits(t[4..]) && forall i :: 0 <= i < 4 ==> DigitIndex(t[i]) != INVALID && t[i] != 127 as char
  {
    assert forall i :: 4 <= i < |t| ==> t[i] == t[4..][i - 4];
    assert |t[4..]| % 4 == |t| % 4;
  }

  lemma {:induction false} CanonicalDecodes(t: string)
    requires CanonicalDigits(t)
    ensures DecodeDigits(t).Data?
    decreases |t|
  {
    if |t| >= 4 {
      CanonicalTail(t);
      CanonicalDecodes(t[4..]);
    }
  }

  lemma BlockReencodes(a: Sextet, b: Sextet, c: Sextet, d: Sextet)
    ensures EncodeBlock(a * 4 + b / 16, b % 16 * 16 + c / 4, c % 4 * 64 + d, false) ==
      [Digit(a, false), Digit(b, false), Digit(c, false), Digit(d, false)]
  {
    hide Digit;
    assert (a * 4 + b / 16) / 4 == a && (a * 4 + b / 16) % 4 * 16 + (b % 16 * 16 + c / 4) / 16 == b;
    assert (b % 16 * 16 + c / 4) % 16 * 4 + (c % 4 * 64 + d) / 64 == c && (c % 4 * 64 + d) % 64 == d;
  }

  /** Re-encoding decoded digits gives them back exactly when they are canonical. */
  lemma {:induction false} DigitsReencode(t: string)
    requires DecodeDigits(t).Data?
    ensures Unpadded(DecodeDigits(t).bytes, false) == t <==> CanonicalDigits(t)
    decreases |t|
  {
    hide Digit, DigitIndex;
    DecodedLength(t);
    if |t| < 4 {
      PartialReencodes(t);
    } else {
      var a, b, c, d := DigitIndex(t[0]), DigitIndex(t[1]), DigitIndex(t[2]), DigitIndex(t[3]);
      var rest := DecodeDigits(t[4..]).bytes;
      var bytes := DecodeDigits(t).bytes;
      assert bytes[3..] == rest;
      BlockReencodes(a, b, c, d);
      IndexRoundTrip(t[0]);
      IndexRoundTrip(t[1]);
      IndexRoundTrip(t[2]);
      IndexRoundTrip(t[3]);
      DigitsReencode(t[4..]);
      CanonicalTail(t);
      var block := [Digit(a, false), Digit(b, false), Digit(c, false), Digit(d, false)];
      assert Unpadded(bytes, false) == block + Unpadded(rest, false);
      assert t == t[..4] + t[4..];
      assert block + Unpadded(rest, false) == t <==> block == t[..4] && Unpadded(rest, false) == t[4..] by {
        assert (block + Unpadded(rest, false))[..4] == block;
        assert (block + Unpadded(rest, false))[4..] == Unpadded(rest, false);
      }
    }
  }

  lemma PartialReencodes(t: string)
    requires |t| < 4 && DecodeDigits(t).Data?
    ensures Unpadded(DecodeDigits(t).bytes, false) == t <==> CanonicalDigits(t)
  {
    hide Digit, DigitIndex;
    if |t| == 2 {
      PairReencodes(t);
    } else if |t| == 3 {
      TripleReencodes(t);
    }
  }

  lemma PairDecodes(t: string)
    requires |t| == 2 && DecodeDigits(t).Data?
    ensures var a, b := DigitIndex(t[0]), DigitIndex(t[1]);
      a != INVALID && b != INVALID && DecodeDigits(t) == Data([a * 4 + b / 16])
  {
    hide DigitIndex;
  }

  lemma PairBytes(a: Sextet, b: Sextet)
    ensures var x := a * 4 + b / 16;
      0 <= x < 256 && x / 4 == a && x % 4 * 16 == b / 16 * 16 && (b / 16 * 16 == b <==> b % 16 == 0)
  {
  }

  lemma PairReencodes(t: string)
    requires |t| == 2 && DecodeDigits(t).Data?
    ensures Unpadded(DecodeDigits(t).bytes, false) == t <==> CanonicalDigits(t)
  {
    hide Digit, DigitIndex, DecodeDigits;
    PairDecodes(t);
    var a: Sextet, b: Sextet := DigitIndex(t[0]), DigitIndex(t[1]);
    IndexRoundTrip(t[0]);
    IndexRoundTrip(t[1]);
    DelIsNoCanonicalDigit(b / 16 * 16);
    SameDigit(b / 16 * 16, b);
    PairBytes(a, b);
    var x: Byte := a * 4 + b / 16;
    assert Unpadded([x], false) == [Digit(a, false), Digit(b / 16 * 16, false)];
    assert t == [t[0], t[1]];
  }

  lemma TripleBytes(a: Sextet, b: Sextet, c: Sextet)
    ensures var x, y := a * 4 + b / 16, b % 16 * 16 + c / 4;
      && 0 <= x < 256 && 0 <= y < 256
      && x / 4 == a && x % 4 * 16 + y / 16 == b && y % 16 * 4 == c / 4 * 4
      && (c / 4 * 4 == c <==> c % 4 == 0)
  {
  }

  lemma TripleDecodes(t: string)
    requires |t| == 3 && DecodeDigits(t).Data?
    ensures var a, b, c := DigitIndex(t[0]), DigitIndex(t[1]), DigitIndex(t[2]);
      && a != INVALID && b != INVALID && c != INVALID
      && DecodeDigits(t) == Data([a * 4 + b / 16, b % 16 * 16 + c / 4])
  {
    hide DigitIndex;
  }

  lemma TripleReencodes(t: string)
    requires |t| == 3 && DecodeDigits(t).Data?
    ensures Unpadded(DecodeDigits(t).bytes, false) == t <==> CanonicalDigits(t)
  {
    hide Digit, DigitIndex, DecodeDigits;
    TripleDecodes(t);
    var a: Sextet, b: Sextet, c: Sextet := DigitIndex(t[0]), DigitIndex(t[1]), DigitIndex(t[2]);
    IndexRoundTrip(t[0]);
    IndexRoundTrip(t[1]);
    IndexRoundTrip(t[2]);
    DelIsNoCanonicalDigit(c / 4 * 4);
    SameDigit(c / 4 * 4, c);
    TripleBytes(a, b, c);
    var x: Byte, y: Byte := a * 4 + b / 16, b % 16 * 16 + c / 4;
    assert DecodeDigits(t).bytes == [x, y];
    assert Unpadded([x, y], false) == [Digit(a, false), Digit(b, false), Digit(c / 4 * 4, false)];
    assert t == [t[0], t[1], t[2]];
  }

  lemma DelIsNoCanonicalDigit(x: Sextet)
    ensures Digit(x, false) != 127 as char && DigitIndex(Digit(x, false)) == x
  {
  }

  lemma SameDigit(x: Sextet, y: Sextet)
    ensures Digit(x, false) == Digit(y, false) <==> x == y
  {
    DigitRoundTrip(x);
    DigitRoundTrip(y);
  }

  /** For every string the decoder accepts, encoding the result gives the string back exactly when the
      string is canonical; and the decoder accepts every canonical string. */
  lemma EncodeDecode(s: string)
    requires s != ""
    ensures Canonical(s) ==> Decode(s).Data?
    ensures Decode(s).Data? ==> (Encode(Decode(s).bytes) == s <==> Canonical(s))
  {
    hide Digit, DigitIndex, CanonicalDigits, DecodeDigits, Unpadded;
    var t := Strip(s);
    if Canonical(s) {
      CanonicalDecodes(t);
    }
    if Decode(s).Data? {
      var bytes := Decode(s).bytes;
      DecodedLength(t);
      DigitsReencode(t);
      UnpaddedLength(bytes, false);
      EncodedLength(bytes);
      StripShape(s);
      if Encode(bytes) == s {
        UnpaddedEndsInDigit(bytes);
        StripPadding(Unpadded(bytes, false), |bytes|);
      }
      if Canonical(s) {
        assert s == t + Padding(|bytes|);
      }
    }
  }

  /** What Strip removed was padding. */
  lemma StripShape(s: string)
    ensures s == Strip(s) || s == Strip(s) + "=" || s == Strip(s) + "=="
  {
  }

  function UrlChar(c: char): char { if c == '+' then '-' else if c == '/' then '_' else c }

  function MapUrl(s: string): (t: string)
    ensures |t| == |s|
  {
    seq(|s|, i requires 0 <= i < |s| => UrlChar(s[i]))
  }

  lemma {:induction false} UnpaddedUrl(data: seq<Byte>)
    ensures Unpadded(data, true) == MapUrl(Unpadded(data, false))
    decreases |data|
  {
    UnpaddedLength(data, true);
    UnpaddedLength(data, false);
    if |data| >= 3 {
      UnpaddedUrl(data[3..]);
    }
  }

  /** base64url is base64 with two digits replaced and the padding removed. */
  lemma UrlEncodingIsMappedEncoding(data: seq<Byte>)
    ensures Unpadded(data, true) == MapUrl(Strip(Encode(data)))
  {
    UnpaddedUrl(data);
    if data != [] {
      UnpaddedEndsInDigit(data);
      StripPadding(Unpadded(data, false), |data|);
    }
  }

  /** Room the encoders ask for, terminator included. */
  function EncodeRoom(n: nat): nat { (n / 3 + 1) * 4 + 1 }

  lemma UnpaddedBlock(data: seq<Byte>, src: nat, url: bool)
    requires src + 3 <= |data|
    ensures Unpadded(data[src..], url) ==
      EncodeBlock(data[src], data[src + 1], data[src + 2], url) + Unpadded(data[src + 3..], url)
  {
    assert data[src..][3..] == data[src + 3..];
  }

  /** The block loop both encoders share: all whole groups of three bytes. */
  method EncodeBlocks(data: seq<Byte>, out: array<char>, url: bool) returns (src: nat, dst: nat)
    requires out.Length >= EncodeRoom(|data|)
    modifies out
    ensures src == |data| / 3 * 3 && dst == |data| / 3 * 4
    ensures out[..dst] + Unpadded(data[src..], url) == Unpadded(data, url)
  {
    hide Unpadded, EncodeBlock;
    src, dst := 0, 0;
    assert out[..0] + Unpadded(data[0..], url) == Unpadded(data, url) by {
      assert data[0..] == data;
    }
    for i := 0 to |data| / 3
      invariant src == i * 3 && dst == i * 4
      invariant out[..dst] + Unpadded(data[src..], url) == Unpadded(data, url)
    {
      var block := EncodeBlock(data[src], data[src + 1], data[src + 2], url);
      UnpaddedBlock(data, src, url);
      ghost var done, rest := out[..dst], Unpadded(data[src + 3..], url);
      out[dst], out[dst + 1], out[dst + 2], out[dst + 3] := block[0], block[1], block[2], block[3];
      assert out[..dst + 4] == done + block;
      assert (done + block) + rest == done + (block + rest);
      src, dst := src + 3, dst + 4;
    }
  }

  /** base64_encode into a caller's buffer; an empty input writes nothing and returns 0. */
  method EncodeInto(data: seq<Byte>, out: array<char>) returns (written: nat)
    requires out.Length >= EncodeRoom(|data|)
    modifies out
    ensures written == |Encode(data)| < out.Length && out[..written] == Encode(data)
    ensures data != [] ==> out[written] == NUL
    ensures data == [] ==> out[..] == old(out[..])
  {
    if data == [] {
      return 0;
    }
    hide Unpadded, Padding;
    var src, dst := EncodeBlocks(data, out, false);
    written := PaddedTail(data[src..], out, dst);
    out[written] := NUL;
    PaddingOfRest(data, src);
  }

  lemma PaddingOfRest(data: seq<Byte>, src: nat)
    requires src == |data| / 3 * 3
    ensures Padding(|data[src..]|) == Padding(|data|)
  {
  }

  /** The last one or two bytes as base64 writes them, a whole group of four. */
  method PaddedTail(rest: seq<Byte>, out: array<char>, dst: nat) returns (next: nat)
    requires |rest| < 3 && dst + (if rest == [] then 0 else 4) < out.Length
    modifies out
    ensures next == dst + |Unpadded(rest, false)| + |Padding(|rest|)| < out.Length
    ensures out[..next] == old(out[..dst]) + Unpadded(rest, false) + Padding(|rest|)
  {
    hide Unpadded;
    PartialIs(rest);
    ghost var done := out[..dst];
    if rest == [] {
      assert done + "" + "" == done;
      return dst;
    }
    var tail := EncodePartial(rest, false);
    out[dst], out[dst + 1] := tail[0], tail[1];
    out[dst + 2] := if |rest| == 2 then tail[2] else '=';
    out[dst + 3] := '=';
    next := dst + 4;
    assert out[..next] == done + tail + Padding(|rest|);
  }

  lemma PartialIs(rest: seq<Byte>)
    requires |rest| < 3
    ensures forall url :: Unpadded(rest, url) == if rest == [] then "" else EncodePartial(rest, url)
  {
  }

  /** The last one or two bytes as base64url writes them. */
  method UrlTail(rest: seq<Byte>, out: array<char>, dst: nat) returns (next: nat)
    requires |rest| < 3 && dst + 4 <= out.Length
    modifies out
    ensures next == dst + |Unpadded(rest, true)| < out.Length && out[..next] == old(out[..dst]) + Unpadded(rest, true)
  {
    hide Unpadded;
    PartialIs(rest);
    ghost var done := out[..dst];
    next := dst;
    if rest == [] {
      assert done + "" == done;
      return;
    }
    var tail := EncodePartial(rest, true);
    out[dst], out[dst + 1] := tail[0], tail[1];
    if |tail| == 3 {
      out[dst + 2] := tail[2];
    }
    next := dst + |tail|;
    assert out[..next] == done + tail;
  }

  /** base64url_encode into a caller's buffer. */
  method UrlEncodeInto(data: seq<Byte>, out: array<char>) returns (written: nat)
    requires out.Length >= EncodeRoom(|data|)
    modifies out
    ensures written == |Unpadded(data, true)| < out.Length && out[..written] == Unpadded(data, true)
    ensures data != [] ==> out[written] == NUL && out[..written] == MapUrl(Strip(Encode(data)))
  {
    if data == [] {
      return 0;
    }
    hide Unpadded, MapUrl, Strip, Encode;
    UrlEncodingIsMappedEncoding(data);
    var src, dst := EncodeBlocks(data, out, true);
    written := UrlTail(data[src..], out, dst);
    out[written] := NUL;
  }

  /** The index of a character above 127 is negative. */
  predicate High(c: char) { c >= 128 as char }

  /** Whether decoding looks up such a character before it is done or gives up. */
  predicate ReadsOutside(t: string)
    decreases |t|
  {
    if |t| < 2 then false
    else if High(t[0]) || High(t[1]) then true
    else if |t| == 2 then false
    else if |t| == 3 then DigitIndex(t[0]) != INVALID && DigitIndex(t[1]) != INVALID && High(t[2])
    else
      High(t[2]) || High(t[3]) ||
      (DigitIndex(t[0]) != INVALID && DigitIndex(t[1]) != INVALID && DigitIndex(t[2]) != INVALID
        && DigitIndex(t[3]) != INVALID && ReadsOutside(t[4..]))
  }

  /** ASCII text never makes it do so. */
  lemma {:induction false} AsciiStaysInside(t: string)
    requires forall i :: 0 <= i < |t| ==> !High(t[i])
    ensures !ReadsOutside(t)
    decreases |t|
  {
    hide DigitIndex;
    if |t| >= 4 {
      AsciiStaysInside(t[4..]);
    }
  }

  /** Where decoding looks a character up: whole groups of four, and of a shorter last group two characters, and
      the third when those are digits. */
  predicate LookedUp(t: string, k: nat)
    requires k < |t|
  {
    var b := k / 4 * 4;
    && (forall i :: 0 <= i < b ==> DigitIndex(t[i]) != INVALID)
    && (b + 4 <= |t| || (b + 2 <= |t| &&
         (k < b + 2 || (DigitIndex(t[b]) != INVALID && DigitIndex(t[b + 1]) != INVALID))))
  }

  /** Exact condition: the table is read outside if and only if a character above 127 is looked up. */
  lemma {:induction false} OutsideExactly(t: string)
    ensures ReadsOutside(t) <==> exists k :: 0 <= k < |t| && t[k] as int > 127 && LookedUp(t, k)
    decreases |t|
  {
    hide DigitIndex;
    if |t| < 4 {
      OutsideInShort(t);
    } else {
      var rest := t[4..];
      OutsideExactly(rest);
      forall k | 4 <= k < |t| ensures LookedUp(t, k) <==>
        LookedUp(rest, k - 4) && forall i :: 0 <= i < 4 ==> DigitIndex(t[i]) != INVALID
      {
        LookedUpLater(t, k);
      }
      HighIsNoDigit(t);
      if ReadsOutside(t) {
        if !(High(t[0]) || High(t[1]) || High(t[2]) || High(t[3])) {
          var k :| 0 <= k < |rest| && rest[k] as int > 127 && LookedUp(rest, k);
          assert t[k + 4] == rest[k] && LookedUp(t, k + 4);
        } else {
          assert LookedUp(t, 0) && LookedUp(t, 1) && LookedUp(t, 2) && LookedUp(t, 3);
        }
      }
      if k :| 0 <= k < |t| && t[k] as int > 127 && LookedUp(t, k) {
        if k >= 4 {
          assert rest[k - 4] == t[k] && LookedUp(rest, k - 4);
        }
      }
    }
  }

  lemma OutsideInShort(t: string)
    requires |t| < 4
    ensures ReadsOutside(t) <==> exists k :: 0 <= k < |t| && t[k] as int > 127 && LookedUp(t, k)
  {
    hide DigitIndex;
    if |t| >= 2 {
      assert LookedUp(t, 0) && LookedUp(t, 1);
    }
  }

  lemma HighIsNoDigit(t: string)
    ensures forall i :: 0 <= i < |t| ==> (High(t[i]) <==> t[i] as int > 127)
  {
  }

  lemma LookedUpLater(t: string, k: nat)
    requires 4 <= k < |t|
    ensures LookedUp(t, k) <==>
      LookedUp(t[4..], k - 4) && forall i :: 0 <= i < 4 ==> DigitIndex(t[i]) != INVALID
  {
    hide DigitIndex;
    var rest, b := t[4..], k / 4 * 4;
    assert (k - 4) / 4 * 4 == b - 4;
    assert forall i :: 4 <= i < |t| ==> t[i] == rest[i - 4];
    assert forall i :: 0 <= i < |rest| ==> rest[i] == t[i + 4];
  }

  lemma OutsideStep(t: string, src: nat)
    requires src + 4 <= |t|
    ensures var a, b, c, d := t[src], t[src + 1], t[src + 2], t[src + 3];
      ReadsOutside(t[src..]) <==>
        High(a) || High(b) || High(c) || High(d) ||
        (DigitIndex(a) != INVALID && DigitIndex(b) != INVALID && DigitIndex(c) != INVALID && DigitIndex(d) != INVALID
          && ReadsOutside(t[src + 4..]))
  {
    hide DigitIndex;
    assert t[src..][4..] == t[src + 4..];
  }

  /** base64_decode into a caller's buffer of the size the query form reports; -1 for a rejected string.
      `fault`: the table was read outside. */
  method DecodeInto(s: string, out: array<Byte>) returns (written: int, fault: bool)
    requires s != "" ==> out.Length >= (|Strip(s)| + 3) / 4 * 3
    modifies out
    ensures s == "" ==> written == 0 && !fault
    ensures s != "" ==> (fault <==> ReadsOutside(Strip(s)))
    ensures s != "" && !fault && Decode(s) == Invalid ==> written == -1
    ensures s != "" && !fault && Decode(s).Data? ==>
      0 <= written <= out.Length && out[..written] == Decode(s).bytes
  {
    if s == "" {
      return 0, false;
    }
    hide Strip;
    var length := StrippedLength(s);
    if length == 0 {
      return -1, false;
    }
    hide DecodeDigits, ReadsOutside, After;
    var ok, src, dst;
    ok, fault, src, dst := DecodeBlocks(s[..length], out);
    if fault || !ok {
      return -1, fault;
    }
    written, fault := DecodeTail(s[..length], src, out, dst);
  }

  /** At most two padding characters are taken off the end. */
  method StrippedLength(s: string) returns (length: nat)
    requires s != ""
    ensures length <= |s| && Strip(s) == s[..length]
  {
    length := |s|;
    if s[length - 1] == '=' {
      length := length - 1;
    }
    if length > 0 && s[length - 1] == '=' {
      length := length - 1;
    }
  }

  /** The whole groups of four digits. */
  method DecodeBlocks(t: string, out: array<Byte>) returns (ok: bool, fault: bool, src: nat, dst: nat)
    requires out.Length >= (|t| + 3) / 4 * 3
    modifies out
    ensures fault ==> ReadsOutside(t)
    ensures !fault && !ok ==> DecodeDigits(t) == Invalid && !ReadsOutside(t)
    ensures !fault && ok ==> src == |t| / 4 * 4 && dst == |t| / 4 * 3
    ensures !fault && ok ==> After(out[..dst], DecodeDigits(t[src..])) == DecodeDigits(t)
    ensures !fault && ok ==> (ReadsOutside(t) <==> ReadsOutside(t[src..]))
  {
    hide DigitIndex, DecodeDigits, After, ReadsOutside, High;
    src, dst := 0, 0;
    assert t[0..] == t && out[..0] == [];
    AfterNothing(DecodeDigits(t));
    while src + 4 <= |t|
      invariant 0 <= src <= |t| && src % 4 == 0 && dst == src / 4 * 3
      invariant After(out[..dst], DecodeDigits(t[src..])) == DecodeDigits(t)
      invariant ReadsOutside(t) <==> ReadsOutside(t[src..])
    {
      OutsideStep(t, src);
      if High(t[src]) || High(t[src + 1]) || High(t[src + 2]) || High(t[src + 3]) {
        return false, true, src, dst;
      }
      var a, b, c, d := DigitIndex(t[src]), DigitIndex(t[src + 1]), DigitIndex(t[src + 2]), DigitIndex(t[src + 3]);
      DecodeStep(t, src);
      if a == INVALID || b == INVALID || c == INVALID || d == INVALID {
        AfterInvalid(out[..dst]);
        return false, false, src, dst;
      }
      ghost var done := out[..dst];
      var x: Byte, y: Byte, z: Byte := a * 4 + b / 16, b % 16 * 16 + c / 4, c % 4 * 64 + d;
      out[dst], out[dst + 1], out[dst + 2] := x, y, z;
      assert out[..dst + 3] == done + [x, y, z];
      AfterTwice(done, [x, y, z], DecodeDigits(t[src + 4..]));
      src, dst := src + 4, dst + 3;
    }
    ok, fault := true, false;
  }

  lemma AfterInvalid(done: seq<Byte>)
    ensures After(done, Invalid) == Invalid
  {
  }

  lemma AfterNothing(rest: Decoded)
    ensures After([], rest) == rest
  {
    if rest.Data? {
      assert [] + rest.bytes == rest.bytes;
    }
  }

  /** The last one to three digits. */
  method DecodeTail(t: string, src: nat, out: array<Byte>, dst: nat) returns (written: int, fault: bool)
    requires src <= |t| < src + 4 && dst + (if |t| == src then 0 else 3) <= out.Length
    modifies out
    ensures fault <==> ReadsOutside(t[src..])
    ensures !fault ==> Written(After(old(out[..dst]), DecodeDigits(t[src..])), written, out[..])
  {
    hide DigitIndex, DecodeDigits, High;
    DecodeLast(t[src..]);
    ghost var done := out[..dst];
    var left := |t| - src;
    if left == 0 {
      assert done + [] == done;
      return dst, false;
    }
    if left == 1 {
      return -1, false;
    }
    if High(t[src]) || High(t[src + 1]) {
      return -1, true;
    }
    var a, b := DigitIndex(t[src]), DigitIndex(t[src + 1]);
    if a == INVALID || b == INVALID {
      return -1, false;
    }
    var x: Byte := a * 4 + b / 16;
    out[dst] := x;
    if left == 2 {
      assert out[..dst + 1] == done + [x];
      return dst + 1, false;
    }
    if High(t[src + 2]) {
      return -1, true;
    }
    var c := DigitIndex(t[src + 2]);
    if c == INVALID {
      return -1, false;
    }
    var y: Byte := b % 16 * 16 + c / 4;
    out[dst + 1] := y;
    assert out[..dst + 2] == done + [x, y];
    return dst + 2, false;
  }

  /** The buffer and the return value for a decoding. */
  predicate Written(d: Decoded, written: int, out: seq<Byte>) {
    match d
    case Invalid => written == -1
    case Data(bytes) => written == |bytes| && bytes <= out
  }

  function After(done: seq<Byte>, rest: Decoded): Decoded {
    match rest case Invalid => Invalid case Data(bytes) => Data(done + bytes)
  }

  lemma AfterTwice(done: seq<Byte>, block: seq<Byte>, rest: Decoded)
    ensures After(done, After(block, rest)) == After(done + block, rest)
  {
    if rest.Data? {
      assert done + (block + rest.bytes) == (done + block) + rest.bytes;
    }
  }

  lemma DecodeStep(t: string, src: nat)
    requires src + 4 <= |t|
    ensures var a, b := DigitIndex(t[src]), DigitIndex(t[src + 1]);
      var c, d := DigitIndex(t[src + 2]), DigitIndex(t[src + 3]);
            DecodeDigits(t[src..]) ==
              if a == INVALID || b == INVALID || c == INVALID || d == INVALID then Invalid
              else After([a * 4 + b / 16, b % 16 * 16 + c / 4, c % 4 * 64 + d], DecodeDigits(t[src + 4..]))
  {
    hide DigitIndex;
    assert t[src..][4..] == t[src + 4..];
  }

  lemma DecodeLast(t: string)
    requires |t| < 4
    ensures DecodeDigits(t) ==
      if |t| == 0 then Data([])
      else if |t| == 1 || DigitIndex(t[0]) == INVALID || DigitIndex(t[1]) == INVALID then Invalid
      else
        var a, b := DigitIndex(t[0]), DigitIndex(t[1]);
        if |t| == 2 then Data([a * 4 + b / 16])
        else
          var c := DigitIndex(t[2]);
          if c == INVALID then Invalid else Data([a * 4 + b / 16, b % 16 * 16 + c / 4])
  {
    hide DigitIndex;
  }
}
