/** The multipart stream that motion_jpeg_client_thread (motion-jpeg/motion-jpeg-client.c) pushes for one
    viewer, and a reader that takes the parts off it again by their Content-Length. */
module Multipart {
  import opened Text
  import opened Decimal
  import opened FrameRefs

  const CRLF: string := [CR, LF]
  const BOUNDARY: string := "1e4fabf93abf8eebc8e01d2e9433e5d5"
  const DELIMITER: string := "--" + BOUNDARY + CRLF

  /** C division truncates toward zero, and the remainder has the sign of the dividend. */
  function Quotient(t: int): int { if t < 0 then -(-t / 1000) else t / 1000 }

  function Remainder(t: int): int { t - 1000 * Quotient(t) }

  /** Truncated toward zero: seconds and milliseconds never have different signs. */
  lemma CDivision(t: int)
    ensures t == Quotient(t) * 1000 + Remainder(t)
    ensures if t >= 0 then 0 <= Remainder(t) < 1000 else -1000 < Remainder(t) <= 0
  {
  }

  function Stamp(ticks: int): string { ShowInt(Quotient(ticks)) + "." + ShowIntWide(Remainder(ticks), 3) }

  const TYPE: string := "Content-Type"
  const ENCODING: string := "Content-Transfer-Encoding"
  const LENGTH: string := "Content-Length"
  const NUMBER: string := "X-Framenumber"
  const TIMESTAMP: string := "X-Timestamp"

  type Fields = seq<(string, string)>

  function Field(name: string, value: string): string { name + ": " + value + CRLF }

  function WriteFields(fields: Fields): string
    decreases |fields|
  {
    if fields == [] then "" else Field(fields[0].0, fields[0].1) + WriteFields(fields[1..])
  }

  /** The fields snprintf writes into hdrs for a frame of `length` bytes. */
  function HeaderFields(number: int, ticks: int, length: nat): Fields {
    [(TYPE, "image/jpeg"), (ENCODING, "8bit"),
     (LENGTH, Show(length)), (NUMBER, ShowInt(number)), (TIMESTAMP, Stamp(ticks))]
  }

  function Header(number: int, ticks: int, length: nat): string {
    WriteFields(HeaderFields(number, ticks, length)) + CRLF
  }

  const STATUS: string := "HTTP/1.1 200 OK"
  const MULTIPART: string := "multipart/x-mixed-replace; boundary="

  const NO_CACHE: string := "no-store, no-cache, must-revalidate, "
  const CACHE_CHECKS: string := "pre-check=0, post-check=0, max-age=0"

  /** The fields of MOTION_JPEG_RESPONSE_HEADER. */
  const RESPONSE_FIELDS: Fields := [
    ("Connection", "close"),
    ("Server", "motion-jpeg-server/0.1.0-alpha"),
    ("Cache-Control", NO_CACHE + CACHE_CHECKS),
    ("Pragma", "no-cache"),
    ("Expires", "Mon, 3 Jan 2000 12:34:56 GMT"),
    ("Access-Control-Allow-Origin", "*"),
    (TYPE, MULTIPART + BOUNDARY)]

  /** What the server pushes before the viewer's thread starts. */
  const RESPONSE_HEADER: string := STATUS + CRLF + (WriteFields(RESPONSE_FIELDS) + CRLF + DELIMITER)

  /** One frame on the wire. */
  function Part(image: Image): string
    requires image.data.Some?
  {
    Header(image.number, image.ticks, |image.data.value|) + image.data.value + DELIMITER
  }

  function Parts(images: seq<Image>): string
    requires forall i :: 0 <= i < |images| ==> images[i].data.Some?
  {
    if images == [] then "" else Part(images[0]) + Parts(images[1..])
  }

  // The reader.

  /** The text before the first CR LF, and what follows it. */
  function ReadLine(s: string): (r: Option<(string, string)>)
    ensures r.Some? ==> |r.value.1| < |s|
  {
    if |s| < 2 then None
    else if s[0] == CR && s[1] == LF then Some(("", s[2..]))
    else
      match ReadLine(s[1..])
      case None => None
      case Some(r) => Some(([s[0]] + r.0, r.1))
  }

  /** Header fields up to the blank line. */
  function ReadFields(s: string): (r: Option<(Fields, string)>)
    ensures r.Some? ==> |r.value.1| < |s|
    decreases |s|
  {
    match ReadLine(s)
    case None => None
    case Some(r) =>
      if r.0 == "" then Some(([], r.1))
      else
        var i := Span(r.0, {':'});
        if i + 1 >= |r.0| || r.0[i + 1] != ' ' then None
        else
          match ReadFields(r.1)
          case None => None
          case Some(rest) => Some(([(r.0[..i], r.0[i + 2..])] + rest.0, rest.1))
  }

  function Lookup(fields: Fields, name: string): Option<string> {
    if fields == [] then None
    else if fields[0].0 == name then Some(fields[0].1)
    else Lookup(fields[1..], name)
  }

  function ReadStamp(s: string): Option<int> {
    var i := Span(s, {'.'});
    if i == |s| then None
    else
      var seconds, millis := ParseInt(s[..i]), ParseInt(s[i + 1..]);
      if seconds.None? || millis.None? then None else Some(seconds.value * 1000 + millis.value)
  }

  /** The frame the fields describe, all but its data. */
  function Describe(fields: Fields): Option<(nat, int, int)> {
    var length, number, stamp := Lookup(fields, LENGTH), Lookup(fields, NUMBER), Lookup(fields, TIMESTAMP);
    if length.None? || number.None? || stamp.None? then None
    else
      var l, n, t := ParseNat(length.value), ParseInt(number.value), ReadStamp(stamp.value);
      if l.None? || n.None? || t.None? then None else Some((l.value, n.value, t.value))
  }

  /** A part: its fields, as many bytes as Content-Length says, and the delimiter. */
  function ReadPart(s: string, delimiter: string): (r: Option<(Image, string)>)
    ensures r.Some? ==> |r.value.1| < |s|
  {
    match ReadFields(s)
    case None => None
    case Some(header) =>
      match Describe(header.0)
      case None => None
      case Some(about) =>
        var length, body := about.0, header.1;
        if |body| < length || !(delimiter <= body[length..]) then None
        else Some((Image(about.1, about.2, Some(body[..length])), body[length + |delimiter|..]))
  }

  function ReadParts(s: string, delimiter: string): Option<seq<Image>>
    decreases |s|
  {
    if s == "" then Some([])
    else
      match ReadPart(s, delimiter)
      case None => None
      case Some(r) =>
        match ReadParts(r.1, delimiter)
        case None => None
        case Some(rest) => Some([r.0] + rest)
  }

  /** A viewer: the status line, the fields, the boundary they name, and the parts it delimits. */
  function ReadResponse(s: string): Option<seq<Image>> {
    var status := ReadLine(s);
    if status.None? then None
    else
      var header := ReadFields(status.value.1);
      if header.None? then None
      else
        var kind := Lookup(header.value.0, TYPE);
        if kind.None? || !(MULTIPART <= kind.value) then None
        else
          var delimiter := "--" + kind.value[|MULTIPART|..] + CRLF;
          var body := header.value.1;
          if !(delimiter <= body) then None else ReadParts(body[|delimiter|..], delimiter)
  }

  /** Any response: the number of its status line, its fields, and what is behind the blank line. */
  function ReadAnswer(s: string): Option<(nat, Fields, string)> {
    var status := ReadLine(s);
    if status.None? || |status.value.0| < 12 || status.value.0[..9] != "HTTP/1.1 " then None
    else
      var code, header := ParseNat(status.value.0[9..12]), ReadFields(status.value.1);
      if code.None? || header.None? then None else Some((code.value, header.value.0, header.value.1))
  }

  lemma {:induction false} ReadLineIs(line: string, rest: string)
    requires CR !in line
    ensures ReadLine(line + CRLF + rest) == Some((line, rest))
    decreases |line|
  {
    var s := line + CRLF + rest;
    if line == "" {
      assert s[2..] == rest;
    } else {
      ReadLineIs(line[1..], rest);
      assert s[1..] == line[1..] + CRLF + rest;
      assert [line[0]] + line[1..] == line;
    }
  }

  lemma ReadFieldIs(name: string, value: string, rest: string)
    requires name != "" && CR !in name && ':' !in name && CR !in value
    requires ReadFields(rest).Some?
    ensures ReadFields(Field(name, value) + rest)
      == Some(([(name, value)] + ReadFields(rest).value.0, ReadFields(rest).value.1))
  {
    hide ReadLine, Span;
    var line := name + ": " + value;
    assert CR !in ": ";
    assert Field(name, value) + rest == line + CRLF + rest;
    ReadLineIs(line, rest);
    SpanUnique(line, {':'}, |name|);
    assert line[..|name|] == name && line[|name| + 2..] == value;
  }

  lemma ReadBlankLine(rest: string)
    ensures ReadFields(CRLF + rest) == Some(([], rest))
  {
    ReadLineIs("", rest);
    assert "" + CRLF + rest == CRLF + rest;
  }

  lemma NamesArePlain()
    ensures CR !in TYPE && CR !in ENCODING && CR !in LENGTH && CR !in NUMBER && CR !in TIMESTAMP
    ensures CR !in "image/jpeg" && CR !in "8bit"
  {
  }

  lemma NamesHaveNoColon()
    ensures ':' !in TYPE && ':' !in ENCODING && ':' !in LENGTH && ':' !in NUMBER && ':' !in TIMESTAMP
  {
  }

  lemma NamesDiffer()
    ensures TYPE != LENGTH && ENCODING != LENGTH && LENGTH != NUMBER && LENGTH != TIMESTAMP && NUMBER != TIMESTAMP
    ensures TYPE != NUMBER && ENCODING != NUMBER && TYPE != TIMESTAMP && ENCODING != TIMESTAMP
  {
    NamesHaveLengths();
    assert TYPE[0] == 'C' && NUMBER[0] == 'X' && NUMBER[2] == 'F' && TIMESTAMP[2] == 'T';
  }

  lemma NamesHaveLengths()
    ensures |TYPE| == 12 && |ENCODING| == 25 && |LENGTH| == 14 && |NUMBER| == 13 && |TIMESTAMP| == 11
  {
  }

  lemma StampRoundTrip(ticks: int)
    ensures CR !in Stamp(ticks) && ReadStamp(Stamp(ticks)) == Some(ticks)
  {
    hide Span, ParseInt, ShowInt, ShowIntWide;
    var seconds, millis := ShowInt(Quotient(ticks)), ShowIntWide(Remainder(ticks), 3);
    ParseShowInt(Quotient(ticks));
    ParseShowIntWide(Remainder(ticks), 3);
    var s := Stamp(ticks);
    assert forall i :: 0 <= i < |seconds| ==> s[i] == seconds[i];
    SpanUnique(s, {'.'}, |seconds|);
    assert s[..|seconds|] == seconds && s[|seconds| + 1..] == millis;
  }

  predicate PlainField(f: (string, string)) {
    f.0 != "" && CR !in f.0 && ':' !in f.0 && CR !in f.1
  }

  predicate PlainFields(fields: Fields) { forall i :: 0 <= i < |fields| ==> PlainField(fields[i]) }

  /** Written fields and a blank line are read back as they are. */
  lemma {:induction false} ReadFieldsIs(fields: Fields, rest: string)
    requires PlainFields(fields)
    ensures ReadFields(WriteFields(fields) + CRLF + rest) == Some((fields, rest))
    decreases |fields|
  {
    hide ReadFields, Field;
    if fields == [] {
      assert WriteFields(fields) + CRLF + rest == CRLF + rest;
      ReadBlankLine(rest);
    } else {
      var f, more := fields[0], WriteFields(fields[1..]);
      ReadFieldsIs(fields[1..], rest);
      ReadFieldIs(f.0, f.1, more + CRLF + rest);
      assert WriteFields(fields) + CRLF + rest == Field(f.0, f.1) + (more + CRLF + rest);
      assert [f] + fields[1..] == fields;
    }
  }

  lemma HeaderReads(number: int, ticks: int, length: nat, rest: string)
    ensures ReadFields(Header(number, ticks, length) + rest) == Some((HeaderFields(number, ticks, length), rest))
  {
    hide ReadFields, WriteFields, Show, ShowInt, Stamp;
    NamesArePlain();
    NamesHaveNoColon();
    NamesHaveLengths();
    StampRoundTrip(ticks);
    ReadFieldsIs(HeaderFields(number, ticks, length), rest);
  }

  /** Looking for a later field passes over the first. */
  lemma LookupFrom(fields: Fields, k: nat, name: string)
    requires k < |fields| && fields[k].0 == name && forall i :: 0 <= i < k ==> fields[i].0 != name
    ensures Lookup(fields, name) == Some(fields[k].1)
    decreases k
  {
    if k > 0 {
      LookupFrom(fields[1..], k - 1, name);
    }
  }

  lemma HeaderDescribes(number: int, ticks: int, length: nat)
    ensures Describe(HeaderFields(number, ticks, length)) == Some((length, number, ticks))
  {
    hide Show, ShowInt, Stamp, ReadStamp, ParseNat, ParseInt, Lookup;
    NamesDiffer();
    StampRoundTrip(ticks);
    ParseShow(length);
    ParseShowInt(number);
    var fields := HeaderFields(number, ticks, length);
    LookupFrom(fields, 2, LENGTH);
    LookupFrom(fields, 3, NUMBER);
    LookupFrom(fields, 4, TIMESTAMP);
  }

  /** A part is read back whole, whatever bytes its data holds. */
  lemma PartReads(image: Image, rest: string)
    requires image.data.Some?
    ensures ReadPart(Part(image) + rest, DELIMITER) == Some((image, rest))
  {
    hide Header, HeaderFields, ReadFields, Describe;
    var data := image.data.value;
    var body := data + DELIMITER + rest;
    assert Part(image) + rest == Header(image.number, image.ticks, |data|) + body;
    HeaderReads(image.number, image.ticks, |data|, body);
    HeaderDescribes(image.number, image.ticks, |data|);
    assert body[..|data|] == data && body[|data|..] == DELIMITER + rest;
    assert body[|data| + |DELIMITER|..] == rest;
  }

  /** The stream parses back to exactly the frames that were written. */
  lemma {:induction false} PartsRead(images: seq<Image>)
    requires forall i :: 0 <= i < |images| ==> images[i].data.Some?
    ensures ReadParts(Parts(images), DELIMITER) == Some(images)
    decreases |images|
  {
    hide Part, ReadPart;
    if images != [] {
      PartReads(images[0], Parts(images[1..]));
      PartsRead(images[1..]);
      PartIsNotEmpty(images[0]);
      assert ReadPart(Parts(images), DELIMITER).value == (images[0], Parts(images[1..]));
      assert [images[0]] + images[1..] == images;
    }
  }

  lemma PartIsNotEmpty(image: Image)
    requires image.data.Some?
    ensures Part(image) != ""
  {
    assert |DELIMITER| > 0;
  }

  /** A value of a C long. */
  predicate IsLong(n: int) { -0x8000_0000_0000_0000 <= n <= 0x7fff_ffff_ffff_ffff }

  lemma LongShows(n: int)
    requires IsLong(n)
    ensures |ShowInt(n)| <= 20
  {
    assert PowerOfTen(10) == 10_000_000_000;
    assert PowerOfTen(19) == 10_000_000_000_000_000_000;
    ShowLength(if n < 0 then -n else n, 19);
  }

  lemma MillisShow(n: int)
    requires -1000 < n < 1000
    ensures |ShowIntWide(n, 3)| <= 4
  {
    assert PowerOfTen(3) == 1000;
    ShowLength(if n < 0 then -n else n, 3);
  }

  /** snprintf never cuts the header short. */
  lemma HeaderFits(number: int, ticks: int, length: nat)
    requires IsLong(number) && IsLong(ticks) && IsLong(length)
    ensures |Header(number, ticks, length)| < 1024
  {
    hide Show, ShowInt, ShowIntWide, WriteFields;
    NamesHaveLengths();
    LongShows(number);
    LongShows(Quotient(ticks));
    MillisShow(Remainder(ticks));
    assert ShowInt(length) == Show(length) by { Plain(length); }
    LongShows(length);
    FieldsFit(HeaderFields(number, ticks, length));
  }

  lemma {:induction false} FieldsFit(fields: Fields)
    requires forall i :: 0 <= i < |fields| ==> |fields[i].0| + |fields[i].1| <= 50
    ensures |WriteFields(fields)| <= 54 * |fields|
    decreases |fields|
  {
    if fields != [] {
      assert forall i :: 0 <= i < |fields| - 1 ==> fields[1..][i] == fields[i + 1];
      FieldsFit(fields[1..]);
    }
  }

  lemma Plain(n: nat)
    ensures ShowInt(n) == Show(n)
  {
  }

  lemma ShortFieldsArePlain()
    ensures PlainField(("Connection", "close")) && PlainField(("Pragma", "no-cache"))
    ensures CR !in STATUS
  {
  }

  lemma OriginFieldIsPlain()
    ensures PlainField(("Access-Control-Allow-Origin", "*"))
  {
  }

  lemma LongFieldsArePlain()
    ensures PlainField(("Server", "motion-jpeg-server/0.1.0-alpha"))
    ensures PlainField(("Expires", "Mon, 3 Jan 2000 12:34:56 GMT"))
  {
  }

  lemma TypeFieldIsPlain()
    ensures PlainField((TYPE, MULTIPART + BOUNDARY))
  {
    assert CR !in MULTIPART;
    assert CR !in BOUNDARY;
    NamesArePlain();
    NamesHaveNoColon();
    NamesHaveLengths();
  }

  lemma CacheFieldIsPlain()
    ensures PlainField(("Cache-Control", NO_CACHE + CACHE_CHECKS))
  {
    hide PlainField;
    NoCacheIsPlain();
    CacheChecksArePlain();
    PlainFrom("Cache-Control", NO_CACHE, CACHE_CHECKS);
  }

  lemma NoCacheIsPlain()
    ensures CR !in NO_CACHE
  {
  }

  lemma CacheChecksArePlain()
    ensures CR !in CACHE_CHECKS
  {
  }

  lemma PlainFrom(name: string, a: string, b: string)
    requires name != "" && CR !in name && ':' !in name && CR !in a && CR !in b
    ensures PlainField((name, a + b))
  {
  }

  lemma ResponseFieldsArePlain()
    ensures PlainFields(RESPONSE_FIELDS)
  {
    hide PlainField;
    ShortFieldsArePlain();
    OriginFieldIsPlain();
    LongFieldsArePlain();
    TypeFieldIsPlain();
    CacheFieldIsPlain();
  }

  lemma ResponseNamesBoundary()
    ensures Lookup(RESPONSE_FIELDS, TYPE) == Some(MULTIPART + BOUNDARY)
  {
    hide Lookup;
    NamesHaveLengths();
    assert TYPE[1] == 'o' && TYPE[2] == 'n' && TYPE[3] == 't';
    LookupFrom(RESPONSE_FIELDS, 6, TYPE);
  }

  lemma AnyResponseReads(status: string, fields: Fields, boundary: string, parts: string)
    requires CR !in status && PlainFields(fields) && Lookup(fields, TYPE) == Some(MULTIPART + boundary)
    ensures var delimiter := "--" + boundary + CRLF;
      ReadResponse(status + CRLF + (WriteFields(fields) + CRLF + delimiter) + parts) == ReadParts(parts, delimiter)
  {
    hide ReadLine, ReadFields, ReadParts, WriteFields, Lookup, PlainFields;
    var delimiter := "--" + boundary + CRLF;
    var body := delimiter + parts;
    var rest := WriteFields(fields) + CRLF + body;
    assert status + CRLF + (WriteFields(fields) + CRLF + delimiter) + parts == status + CRLF + rest;
    ReadLineIs(status, rest);
    ReadFieldsIs(fields, body);
    assert (MULTIPART + boundary)[|MULTIPART|..] == boundary;
    assert body[|delimiter|..] == parts;
  }

  /** A viewer that takes the boundary from the response header reads exactly the frames that were sent. */
  lemma ResponseReads(images: seq<Image>)
    requires forall i :: 0 <= i < |images| ==> images[i].data.Some?
    ensures ReadResponse(RESPONSE_HEADER + Parts(images)) == Some(images)
  {
    hide ReadResponse, ReadParts, Parts, WriteFields, Lookup, PlainField, PlainFields;
    ResponseFieldsArePlain();
    ResponseNamesBoundary();
    ShortFieldsArePlain();
    AnyResponseReads(STATUS, RESPONSE_FIELDS, BOUNDARY, Parts(images));
    PartsRead(images);
  }

  predicate Delivered(images: seq<Image>) { forall i :: 0 <= i < |images| ==> images[i].data.Some? }

  /** A viewer that has been sent `header` reads exactly the frames sent behind it. */
  ghost predicate Heads(header: string) {
    forall images: seq<Image> :: Delivered(images) ==> ReadResponse(header + Parts(images)) == Some(images)
  }

  lemma ResponseHeads()
    ensures Heads(RESPONSE_HEADER)
  {
    hide ReadResponse, Parts;
    forall images: seq<Image> | Delivered(images)
      ensures ReadResponse(RESPONSE_HEADER + Parts(images)) == Some(images)
    {
      ResponseReads(images);
    }
  }

  // The same bytes, letter by letter.

  lemma WrittenFields(fields: Fields)
    requires fields != []
    ensures WriteFields(fields) ==
      fields[0].0 + ": " + fields[0].1 + "\r\n" + (if |fields| == 1 then "" else WriteFields(fields[1..]))
  {
    assert CRLF == "\r\n";
  }

  /** The header of a part, with the names and the order the server uses. */
  lemma HeaderText(number: int, ticks: int, length: nat)
    ensures Header(number, ticks, length) ==
      "Content-Type" + ": " + "image/jpeg" + "\r\n" +
      ("Content-Transfer-Encoding" + ": " + "8bit" + "\r\n" +
      ("Content-Length" + ": " + Show(length) + "\r\n" +
      ("X-Framenumber" + ": " + ShowInt(number) + "\r\n" +
      ("X-Timestamp" + ": " + Stamp(ticks) + "\r\n" + "")))) + "\r\n"
  {
    hide WriteFields, Show, ShowInt, Stamp;
    var fields := HeaderFields(number, ticks, length);
    assert CRLF == "\r\n";
    WrittenFields(fields);
    WrittenFields(fields[1..]);
    WrittenFields(fields[2..]);
    WrittenFields(fields[3..]);
    WrittenFields(fields[4..]);
    assert fields[1..][1..] == fields[2..] && fields[2..][1..] == fields[3..] && fields[3..][1..] == fields[4..];
  }

  /** The response header: status line, fields, blank line and the first delimiter. */
  lemma ResponseText()
    ensures RESPONSE_HEADER ==
      "HTTP/1.1 200 OK" + "\r\n" +
      (("Connection" + ": " + "close" + "\r\n" +
       ("Server" + ": " + "motion-jpeg-server/0.1.0-alpha" + "\r\n" +
       ("Cache-Control" + ": " +
         ("no-store, no-cache, must-revalidate, " + "pre-check=0, post-check=0, max-age=0") + "\r\n" +
       ("Pragma" + ": " + "no-cache" + "\r\n" +
       ("Expires" + ": " + "Mon, 3 Jan 2000 12:34:56 GMT" + "\r\n" +
       ("Access-Control-Allow-Origin" + ": " + "*" + "\r\n" +
       ("Content-Type" + ": " +
         ("multipart/x-mixed-replace; boundary=" + "1e4fabf93abf8eebc8e01d2e9433e5d5") + "\r\n" + "")))))))
       + "\r\n" + ("--" + "1e4fabf93abf8eebc8e01d2e9433e5d5" + "\r\n"))
  {
    hide WriteFields;
    var fields := RESPONSE_FIELDS;
    assert CRLF == "\r\n";
    WrittenFields(fields);
    WrittenFields(fields[1..]);
    WrittenFields(fields[2..]);
    WrittenFields(fields[3..]);
    WrittenFields(fields[4..]);
    WrittenFields(fields[5..]);
    WrittenFields(fields[6..]);
    assert fields[1..][1..] == fields[2..] && fields[2..][1..] == fields[3..] && fields[3..][1..] == fields[4..];
    assert fields[4..][1..] == fields[5..] && fields[5..][1..] == fields[6..];
  }

  lemma AnswerReads(code: string, reason: string, fields: Fields, body: string)
    requires |code| == 3 && CR !in code && CR !in reason && PlainFields(fields) && ParseNat(code).Some?
    ensures ReadAnswer("HTTP/1.1 " + code + reason + CRLF + (WriteFields(fields) + CRLF + body)) ==
      Some((ParseNat(code).value, fields, body))
  {
    hide ReadLine, ReadFields, WriteFields, PlainFields, ParseNat;
    var line := "HTTP/1.1 " + code + reason;
    ReadLineIs(line, WriteFields(fields) + CRLF + body);
    ReadFieldsIs(fields, body);
    assert line[..9] == "HTTP/1.1 " && line[9..12] == code;
  }

  // Which frames are sent.

  /** Of the frames polled, those numbered above every frame sent before. */
  function Sent(polls: seq<Option<Image>>, last: int): seq<Image>
    decreases |polls|
  {
    if polls == [] then []
    else if polls[0].None? || polls[0].value.number <= last then Sent(polls[1..], last)
    else [polls[0].value] + Sent(polls[1..], polls[0].value.number)
  }

  predicate Increasing(images: seq<Image>) {
    forall i, j :: 0 <= i < j < |images| ==> images[i].number < images[j].number
  }

  lemma {:induction false} SentIncreasing(polls: seq<Option<Image>>, last: int)
    ensures Increasing(Sent(polls, last))
    ensures forall i :: 0 <= i < |Sent(polls, last)| ==> last < Sent(polls, last)[i].number
    decreases |polls|
  {
    if polls != [] {
      SentIncreasing(polls[1..], last);
      if polls[0].Some? && polls[0].value.number > last {
        SentIncreasing(polls[1..], polls[0].value.number);
      }
    }
  }

  /** The highest number among `last` and the polled frames. */
  function Highest(polls: seq<Option<Image>>, last: int): (h: int)
    ensures last <= h
    decreases |polls|
  {
    if polls == [] then last
    else Highest(polls[1..], if polls[0].Some? && polls[0].value.number > last then polls[0].value.number else last)
  }

  lemma {:induction false} SentSplit(a: seq<Option<Image>>, b: seq<Option<Image>>, last: int)
    ensures Sent(a + b, last) == Sent(a, last) + Sent(b, Highest(a, last))
    ensures Highest(a + b, last) == Highest(b, Highest(a, last))
    decreases |a|
  {
    if a == [] {
      assert a + b == b;
    } else {
      assert (a + b)[1..] == a[1..] + b && (a + b)[0] == a[0];
      var next := if a[0].Some? && a[0].value.number > last then a[0].value.number else last;
      SentSplit(a[1..], b, next);
      if next > last {
        var first, second := Sent(a[1..], next), Sent(b, Highest(a[1..], next));
        assert [a[0].value] + (first + second) == [a[0].value] + first + second;
      }
    }
  }

  lemma {:induction false} HighestIsBound(polls: seq<Option<Image>>, last: int)
    ensures forall i :: 0 <= i < |polls| && polls[i].Some? ==> polls[i].value.number <= Highest(polls, last)
    ensures Highest(polls, last) == last
      || exists i :: 0 <= i < |polls| && polls[i].Some? && polls[i].value.number == Highest(polls, last)
    decreases |polls|
  {
    if polls != [] {
      var first := polls[0];
      HighestIsBound(polls[1..], if first.Some? && first.value.number > last then first.value.number else last);
      assert forall i :: 0 < i < |polls| ==> polls[i] == polls[1..][i - 1];
    }
  }

  /** A polled frame is sent exactly when its number exceeds all polled before it, so nothing newer is skipped. */
  lemma SentExactlyWhenNewest(before: seq<Option<Image>>, image: Image, last: int)
    ensures Sent(before + [Some(image)], last) == Sent(before, last) + [image]
      <==> last < image.number
           && forall i :: 0 <= i < |before| && before[i].Some? ==> before[i].value.number < image.number
  {
    SentSplit(before, [Some(image)], last);
    HighestIsBound(before, last);
    SentOne(image, Highest(before, last));
  }

  lemma SentOne(image: Image, last: int)
    ensures Sent([Some(image)], last) == if image.number <= last then [] else [image]
  {
    assert [Some(image)][1..] == [];
  }

  lemma {:induction false} PartsSnoc(images: seq<Image>, image: Image)
    requires image.data.Some? && forall i :: 0 <= i < |images| ==> images[i].data.Some?
    ensures Parts(images + [image]) == Parts(images) + Part(image)
    decreases |images|
  {
    hide Part;
    if images == [] {
      assert Parts([image]) == Part(image) + Parts([]) == Part(image);
    } else {
      PartsSnoc(images[1..], image);
      assert (images + [image])[1..] == images[1..] + [image];
    }
  }

  /** The thread's own state, and the bytes pushed into the viewer's output buffer, which starts with the
      response header. */
  class Viewer {
    var frameNumber: int
    var pushed: string
    var held: VideoFrame?   // the frame it has got and not yet given back

    constructor (header: string)
      ensures frameNumber == 0 && pushed == header && held == null
    {
      frameNumber, pushed, held := 0, header, null;
    }

    method PushData(bytes: string)
      modifies this`pushed
      ensures pushed == old(pushed) + bytes
    {
      pushed := pushed + bytes;
    }

    /** The first half of a round of the thread's loop, on a channel it has found: it gets the frame in the slot.
        Publishers and other viewers may act before the second half. */
    method Take(channel: Channel)
      requires channel.Valid() && held == null
      modifies this`held, channel`gets, channel.all
      ensures channel.Valid() && channel.DeadStayDead() && held == channel.frame
      ensures channel.gets == if held == null then old(channel.gets) else old(channel.gets) + multiset{held}
      ensures held != null ==> held.image.data.Some? && !held.freed
    {
      held := channel.GetFrame();
    }

    /** The second half: a newer frame is pushed, and the frame is given back either way. */
    method Send(channel: Channel)
      requires channel.Valid() && held != null && held in channel.gets
      modifies this, channel`gets, channel.all
      ensures channel.Valid() && channel.DeadStayDead() && held == null
      ensures channel.gets == old(channel.gets) - multiset{old(held)}
      ensures old(held).image.number <= old(frameNumber) ==> frameNumber == old(frameNumber) && pushed == old(pushed)
      ensures old(held).image.number > old(frameNumber) ==>
        frameNumber == old(held).image.number && pushed == old(pushed) + Part(old(held).image)
    {
      hide Header;
      var frame := held;
      if frame.image.number > frameNumber {
        frameNumber := frame.image.number;
        PushPart(frame.image);
      }
      channel.UnrefFrame(frame);
      held := null;
    }

    /** The three pushes for one frame. */
    method PushPart(image: Image)
      requires image.data.Some?
      modifies this`pushed
      ensures pushed == old(pushed) + Part(image)
    {
      hide Header;
      var data := image.data.value;
      var header := Header(image.number, image.ticks, |data|);
      PushData(header);
      PushData(data);
      PushData(DELIMITER);
      assert Part(image) == header + data + DELIMITER;
    }
  }

  lemma PollOne(polled: Option<Image>, last: int)
    requires polled.Some? ==> polled.value.data.Some?
    ensures polled.None? || polled.value.number <= last ==>
      Sent([polled], last) == [] && Highest([polled], last) == last
    ensures polled.Some? && polled.value.number > last ==>
      Sent([polled], last) == [polled.value] && Highest([polled], last) == polled.value.number
      && Parts(Sent([polled], last)) == Part(polled.value)
  {
    hide Part;
    if polled.Some? {
      assert Parts([polled.value]) == Part(polled.value) + Parts([]) == Part(polled.value);
    }
  }

  /** A producer publishes a frame, or the viewer's thread takes its next step. */
  datatype Event = Publish(image: Image) | Step

  function Shown(image: Image, shown: Option<Image>): Option<Image> {
    if image.data.Some? then Some(image) else shown
  }

  /** The frames the finished rounds of the thread have looked at, when the slot shows `shown` and the thread is
      holding `held`. */
  function Looks(events: seq<Event>, shown: Option<Image>, held: Option<Image>): seq<Option<Image>>
    decreases |events|
  {
    if events == [] then []
    else
      match events[0]
      case Publish(image) => Looks(events[1..], Shown(image, shown), held)
      case Step =>
        if held.Some? then [held] + Looks(events[1..], shown, None)
        else if shown.None? then [None] + Looks(events[1..], shown, None)
        else Looks(events[1..], shown, shown)
  }

  predicate Complete(polls: seq<Option<Image>>) {
    forall i :: 0 <= i < |polls| && polls[i].Some? ==> polls[i].value.data.Some?
  }

  lemma {:induction false} SentComplete(polls: seq<Option<Image>>, last: int)
    requires Complete(polls)
    ensures forall i :: 0 <= i < |Sent(polls, last)| ==> Sent(polls, last)[i].data.Some?
    decreases |polls|
  {
    if polls != [] {
      assert forall i :: 0 <= i < |polls[1..]| ==> polls[1..][i] == polls[i + 1];
      SentComplete(polls[1..], last);
      if polls[0].Some? {
        SentComplete(polls[1..], polls[0].value.number);
      }
    }
  }

  /** The stream and the last number after one more look at the channel. */
  ghost predicate Streamed(header: string, polls: seq<Option<Image>>, frameNumber: int, pushed: string) {
    Complete(polls) && frameNumber == Highest(polls, 0) &&
    (SentComplete(polls, 0); pushed == header + Parts(Sent(polls, 0)))
  }

  lemma StreamedOneMore(header: string, polls: seq<Option<Image>>, polled: Option<Image>, last: int, pushed: string)
    requires Streamed(header, polls, last, pushed) && (polled.Some? ==> polled.value.data.Some?)
    ensures polled.None? || polled.value.number <= last ==> Streamed(header, polls + [polled], last, pushed)
    ensures polled.Some? && polled.value.number > last ==>
      Streamed(header, polls + [polled], polled.value.number, pushed + Part(polled.value))
  {
    hide Part, Parts, Sent, Highest;
    SentComplete(polls, 0);
    SentComplete(polls + [polled], 0);
    SentSplit(polls, [polled], 0);
    PollOne(polled, last);
    assert Sent(polls, 0) + [] == Sent(polls, 0);
    if polled.Some? && polled.value.number > last {
      PartsSnoc(Sent(polls, 0), polled.value);
      assert header + (Parts(Sent(polls, 0)) + Part(polled.value)) == pushed + Part(polled.value);
    }
  }

  lemma NothingStreamed(header: string)
    ensures Streamed(header, [], 0, header)
  {
    assert header + "" == header;
  }

  function Seen(frame: VideoFrame?): Option<Image> { if frame == null then None else Some(frame.image) }

  /** The viewer's frame is the only one handed out. */
  ghost predicate Alone(viewer: Viewer, channel: Channel)
    reads viewer, channel, channel.all
  {
    channel.Valid() && channel.gets == if viewer.held == null then multiset{} else multiset{viewer.held}
  }

  /** One step of the viewer's thread. `after`: the finished rounds. */
  method Advance(viewer: Viewer, channel: Channel, ghost header: string, ghost polls: seq<Option<Image>>)
    returns (ghost after: seq<Option<Image>>)
    requires Alone(viewer, channel) && Streamed(header, polls, viewer.frameNumber, viewer.pushed)
    modifies viewer, channel`gets, channel.all
    ensures Alone(viewer, channel) && Streamed(header, after, viewer.frameNumber, viewer.pushed)
    ensures viewer.held == if old(viewer.held) == null then channel.frame else null
    ensures after ==
      if old(viewer.held) != null then polls + [Seen(old(viewer.held))]
      else if channel.frame == null then polls + [None]
      else polls
  {
    hide Streamed;
    if viewer.held == null {
      StreamedOneMore(header, polls, None, viewer.frameNumber, viewer.pushed);
      viewer.Take(channel);
      after := if viewer.held == null then polls + [None] else polls;
    } else {
      assert viewer.held in channel.gets;
      StreamedOneMore(header, polls, Seen(viewer.held), viewer.frameNumber, viewer.pushed);
      viewer.Send(channel);
      after := polls + [Seen(old(viewer.held))];
    }
  }

  /** A producer makes a frame, hands it to the channel and lets go of it. */
  method PublishFrame(viewer: Viewer, channel: Channel, image: Image)
    requires Alone(viewer, channel) && channel.published == {}
    modifies channel, channel.all
    ensures Alone(viewer, channel) && channel.published == {}
    ensures fresh(channel.all - old(channel.all))
    ensures Seen(channel.frame) == Shown(image, old(Seen(channel.frame)))
  {
    hide channel.Holders;
    var f := channel.NewFrame(image);
    var _ := channel.UpdateFrame(f);
    channel.Release(f);
  }

  lemma AliveExactlyWhenHeld(viewer: Viewer, channel: Channel)
    requires Alone(viewer, channel) && channel.published == {}
    ensures forall f :: f in channel.all ==> (f.freed <==> f != channel.frame && f != viewer.held)
  {
    forall f | f in channel.all && (f == channel.frame || f == viewer.held) ensures !f.freed {
      channel.HeldIsAlive(f);
    }
  }

  /** The viewer's thread finishes its round and the channel is freed. */
  method Shutdown(viewer: Viewer, channel: Channel, ghost header: string, ghost polls: seq<Option<Image>>)
    returns (ghost after: seq<Option<Image>>)
    requires Alone(viewer, channel) && channel.published == {}
    requires Streamed(header, polls, viewer.frameNumber, viewer.pushed)
    modifies viewer, channel, channel.all
    ensures channel.frame == null && viewer.held == null && channel.all == old(channel.all)
    ensures forall f :: f in channel.all ==> f.freed
    ensures after == if old(viewer.held) == null then polls else polls + [Seen(old(viewer.held))]
    ensures Streamed(header, after, viewer.frameNumber, viewer.pushed)
  {
    hide Streamed, channel.Holders;
    after := polls;
    if viewer.held != null {
      after := Advance(viewer, channel, header, polls);
    }
    channel.Close();
    channel.NothingLeaks();
  }

  method Connect(header: string) returns (viewer: Viewer, channel: Channel)
    ensures fresh(viewer) && fresh(channel) && channel.all == {} && channel.published == {}
    ensures channel.frame == null && viewer.held == null
    ensures Alone(viewer, channel) && Streamed(header, [], viewer.frameNumber, viewer.pushed)
  {
    channel := new Channel();
    viewer := new Viewer(header);
    NothingStreamed(header);
  }

  /** Publishing interleaved with the steps of a viewer's thread in any way: the bytes pushed read back as the
      frames that were newest when got, in strictly increasing order, and exactly the frames in the slot and in the
      viewer's hands are alive. */
  method Broadcast(header: string, events: seq<Event>) returns (viewer: Viewer, channel: Channel)
    requires Heads(header)
    ensures fresh(viewer) && fresh(channel) && fresh(channel.all) && header <= viewer.pushed
    ensures ReadResponse(viewer.pushed) == Some(Sent(Looks(events, None, None), 0))
    ensures Increasing(Sent(Looks(events, None, None), 0))
    ensures Alone(viewer, channel) && channel.published == {}
    ensures Streamed(header, Looks(events, None, None), viewer.frameNumber, viewer.pushed)
    ensures forall f :: f in channel.all ==> (f.freed <==> f != channel.frame && f != viewer.held)
  {
    hide Looks, Sent, Streamed, Parts, Alone, Heads;
    viewer, channel := Connect(header);
    ghost var polls: seq<Option<Image>> := [];
    assert events[0..] == events && [] + Looks(events, None, None) == Looks(events, None, None);
    for i := 0 to |events|
      invariant Alone(viewer, channel) && channel.published == {}
      invariant fresh(viewer) && fresh(channel) && fresh(channel.all)
      invariant Looks(events, None, None) == polls + Looks(events[i..], Seen(channel.frame), Seen(viewer.held))
      invariant Streamed(header, polls, viewer.frameNumber, viewer.pushed)
    {
      ghost var rest := Looks(events[i + 1..], Seen(channel.frame), None);
      LooksStep(events, i, Seen(channel.frame), Seen(viewer.held));
      match events[i]
      case Publish(image) =>
        PublishFrame(viewer, channel, image);
      case Step =>
        assert polls + ([Seen(viewer.held)] + rest) == polls + [Seen(viewer.held)] + rest;
        polls := Advance(viewer, channel, header, polls);
    }
    LooksNothing(Seen(channel.frame), Seen(viewer.held));
    assert events[|events|..] == [] && polls + [] == polls;
    StreamedBehind(header, polls, viewer.frameNumber, viewer.pushed);
    StreamedReads(header, polls, viewer.frameNumber, viewer.pushed);
    SentIncreasing(polls, 0);
    AliveExactlyWhenHeld(viewer, channel);
  }

  /** And when the viewer's thread has ended its round and the channel is freed, no frame is left alive. */
  method BroadcastAndClose(header: string, events: seq<Event>)
    returns (viewer: Viewer, channel: Channel, ghost looks: seq<Option<Image>>)
    requires Heads(header)
    ensures forall f :: f in channel.all ==> f.freed
    ensures Looks(events, None, None) <= looks && |looks| <= |Looks(events, None, None)| + 1
    ensures ReadResponse(viewer.pushed) == Some(Sent(looks, 0)) && Increasing(Sent(looks, 0))
  {
    hide Looks, Sent, Streamed, Alone, Heads;
    viewer, channel := Broadcast(header, events);
    looks := Shutdown(viewer, channel, header, Looks(events, None, None));
    StreamedReads(header, looks, viewer.frameNumber, viewer.pushed);
    SentIncreasing(looks, 0);
  }

  lemma StreamedBehind(header: string, polls: seq<Option<Image>>, last: int, pushed: string)
    requires Streamed(header, polls, last, pushed)
    ensures header <= pushed
  {
    SentComplete(polls, 0);
  }

  lemma StreamedReads(header: string, polls: seq<Option<Image>>, last: int, pushed: string)
    requires Heads(header) && Streamed(header, polls, last, pushed)
    ensures ReadResponse(pushed) == Some(Sent(polls, 0))
  {
    hide ReadResponse;
    SentComplete(polls, 0);
    var sent := Sent(polls, 0);
    assert Delivered(sent);
  }

  lemma LooksNothing(shown: Option<Image>, held: Option<Image>)
    ensures Looks([], shown, held) == []
  {
  }

  lemma LooksStep(events: seq<Event>, i: nat, shown: Option<Image>, held: Option<Image>)
    requires i < |events|
    ensures var later := events[i + 1..];
      Looks(events[i..], shown, held) ==
        match events[i]
        case Publish(image) => Looks(later, Shown(image, shown), held)
        case Step =>
          if held.Some? then [held] + Looks(later, shown, None)
          else if shown.None? then [None] + Looks(later, shown, None)
          else Looks(later, shown, shown)
  {
    assert events[i..][1..] == events[i + 1..];
  }
}
