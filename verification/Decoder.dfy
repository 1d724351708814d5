/** A client's reading of the response stream, after RFC 9112 section 6.3, and what the
    server's stream looks like to it. */
module Decoder {
  import opened Bytes
  import opened HeadParser
  import opened ContentLength
  import opened Responses

  datatype Seen = Seen(status: nat, headers: seq<Header>, body: bytes)

  datatype Decoded = Got(message: Seen, rest: bytes) | Garbled

  /* ---- The client ---- */

  /** The text up to the first CRLF, and what follows it. */
  function SplitLine(s: bytes): (r: Option<(bytes, bytes)>)
    ensures r.Some? ==> |r.value.0| + |r.value.1| + 2 == |s|
    decreases |s|
  {
    if |s| < 2 then None
    else if s[0] == '\r' && s[1] == '\n' then Some(([], s[2..]))
    else
      match SplitLine(s[1..])
      case None => None
      case Some((line, rest)) => Some(([s[0]] + line, rest))
  }

  function ReadStatus(line: bytes): Option<nat> {
    if |line| >= 13 && line[..5] == "HTTP/" && IsDigit(line[5]) && line[6] == '.' && IsDigit(line[7]) && line[8] == ' '
       && IsDigit(line[9]) && IsDigit(line[10]) && IsDigit(line[11]) && line[12] == ' '
    then Some(100 * DigitValue(line[9]) + 10 * DigitValue(line[10]) + DigitValue(line[11]))
    else None
  }

  /** Where c first occurs in s, or |s|. */
  function Find(s: bytes, c: byte): (k: nat)
    ensures k <= |s| && (k < |s| ==> s[k] == c)
  {
    if s == [] || s[0] == c then 0 else 1 + Find(s[1..], c)
  }

  function StripBlanks(s: bytes): bytes
    decreases |s|
  {
    if s != [] && IsBlank(s[0]) then StripBlanks(s[1..]) else DropBlanksEnd(s)
  }

  function ReadHeader(line: bytes): Option<Header> {
    var k := Find(line, ':');
    if 0 < k < |line| && forall i :: 0 <= i < k ==> IsToken(line[i])
    then Some(Header(line[..k], StripBlanks(line[k + 1..])))
    else None
  }

  function ReadHeaders(s: bytes): (r: Option<(seq<Header>, bytes)>)
    ensures r.Some? ==> |r.value.1| < |s|
    decreases |s|
  {
    match SplitLine(s)
    case None => None
    case Some((line, rest)) =>
      if line == [] then Some(([], rest))
      else
        match (ReadHeader(line), ReadHeaders(rest))
        case (Some(h), Some((headers, rest'))) => Some(([h] + headers, rest'))
        case _ => None
  }

  /** One length: 1*DIGIT, of any size (RFC 9110 section 8.6). */
  function ReadDigits(s: bytes): Option<nat> {
    if s == [] || exists i :: 0 <= i < |s| && !IsDigit(s[i]) then None else Some(DigitsValue(s))
  }

  /** A Content-Length value: one length, or a list that repeats the same one. */
  function ReadLength(s: bytes): Option<nat>
    decreases |s|
  {
    var k := Find(s, ',');
    var n := ReadDigits(StripBlanks(s[..k]));
    if k == |s| || n == ReadLength(s[k + 1..]) then n else None
  }

  /** What the Content-Length fields of a message say, one after the other. */
  function Lengths(headers: seq<Header>): (ls: seq<Option<nat>>)
    ensures forall l :: l in ls <==> exists h :: h in headers && IsLength(h) && l == ReadLength(h.value)
  {
    if headers == [] then []
    else
      assert forall h :: h in headers <==> h == headers[0] || h in headers[1..];
      (if IsLength(headers[0]) then [ReadLength(headers[0].value)] else []) + Lengths(headers[1..])
  }

  /** There is a Content-Length field, and all there are say n. */
  predicate Agreed(headers: seq<Header>, n: nat) {
    && (exists h :: h in headers && IsLength(h))
    && forall h :: h in headers && IsLength(h) ==> ReadLength(h.value) == Some(n)
  }

  /** The length a message gives, when it is valid. */
  function LengthGiven(headers: seq<Header>): (n: Option<nat>)
    ensures forall m: nat :: n == Some(m) <==> Agreed(headers, m)
  {
    var ls := Lengths(headers);
    assert forall h :: h in headers && IsLength(h) ==> ReadLength(h.value) in ls;
    assert ls != [] ==> ls[0] in ls;
    if ls != [] && forall l :: l in ls ==> l == ls[0] then ls[0] else None
  }

  datatype Extent = Exactly(n: nat) | UntilClose | Unknown

  predicate IsTransfer(h: Header) {
    EqIgnoreCase(h.name, "transfer-encoding")
  }

  /** The client's own test of whether it asked for the head alone. */
  predicate AsksHead(method_: bytes) {
    && |method_| == 4
    && (method_[0] == 'H' || method_[0] == 'h')
    && (method_[1] == 'E' || method_[1] == 'e')
    && (method_[2] == 'A' || method_[2] == 'a')
    && (method_[3] == 'D' || method_[3] == 'd')
  }

  predicate Bodyless(status: nat, isHead: bool) {
    isHead || 100 <= status < 200 || status == 204 || status == 304
  }

  /** RFC 9112 section 6.3, for a client that knows its request's method and speaks no transfer coding. */
  function ExtentOf(status: nat, headers: seq<Header>, isHead: bool): Extent {
    if Bodyless(status, isHead) then Exactly(0)
    else if exists h :: h in headers && IsTransfer(h) then Unknown
    else if exists h :: h in headers && IsLength(h) then
      match LengthGiven(headers)
      case Some(n) => Exactly(n)
      case None => Unknown
    else UntilClose
  }

  function ReadBody(status: nat, headers: seq<Header>, isHead: bool, s: bytes): Decoded {
    match ExtentOf(status, headers, isHead)
    case Unknown => Garbled
    case UntilClose => Got(Seen(status, headers, s), [])
    case Exactly(n) => if |s| < n then Garbled else Got(Seen(status, headers, s[..n]), s[n..])
  }

  /** Reads one response off the stream. */
  function Decode(s: bytes, isHead: bool): (d: Decoded)
    ensures d.Got? ==> |d.rest| < |s|
  {
    match SplitLine(s)
    case None => Garbled
    case Some((line, rest)) =>
      match (ReadStatus(line), ReadHeaders(rest))
      case (Some(status), Some((headers, rest'))) => ReadBody(status, headers, isHead, rest')
      case _ => Garbled
  }

  /** Reads the whole stream; heads says which requests were HEAD. */
  function DecodeAll(s: bytes, heads: seq<bool>): Option<seq<Seen>>
    decreases |s|
  {
    if s == [] then Some([])
    else
      match Decode(s, heads != [] && heads[0])
      case Garbled => None
      case Got(m, rest) =>
        match DecodeAll(rest, if heads == [] then [] else heads[1..])
        case None => None
        case Some(ms) => Some([m] + ms)
  }

  /* ---- Heads round trip ---- */

  lemma {:induction false} LineFound(line: bytes, rest: bytes)
    requires CR !in line
    ensures SplitLine(line + CRLF + rest) == Some((line, rest))
  {
    var s := line + CRLF + rest;
    if line == [] {
      assert s[2..] == rest;
    } else {
      assert s[1..] == line[1..] + CRLF + rest;
      LineFound(line[1..], rest);
      assert s[0] == line[0] && line[0] in line;
      assert [line[0]] + line[1..] == line;
    }
  }

  predicate GoodName(name: bytes) {
    name != [] && forall i :: 0 <= i < |name| ==> IsToken(name[i])
  }

  /** No line break. */
  predicate GoodValue(value: bytes) {
    CR !in value && LF !in value
  }

  predicate GoodHeader(h: Header) {
    GoodName(h.name) && GoodValue(h.value)
  }

  predicate GoodHeaders(headers: seq<Header>) {
    forall h :: h in headers ==> GoodHeader(h)
  }

  /** A header as its reader sees it: blanks around the value are not part of it. */
  function ReadAs(h: Header): Header {
    Header(h.name, StripBlanks(h.value))
  }

  function AsRead(headers: seq<Header>): (r: seq<Header>)
    ensures |r| == |headers| && forall i :: 0 <= i < |headers| ==> r[i] == ReadAs(headers[i])
  {
    if headers == [] then [] else [ReadAs(headers[0])] + AsRead(headers[1..])
  }

  lemma {:induction false} Found(before: bytes, c: byte, after: bytes)
    requires c !in before
    ensures Find(before + [c] + after, c) == |before|
  {
    var s := before + [c] + after;
    if before != [] {
      assert s[0] == before[0];
      assert s[1..] == before[1..] + [c] + after;
      Found(before[1..], c, after);
    }
  }

  lemma HeaderRoundTrip(h: Header)
    requires GoodHeader(h)
    ensures ReadHeader(h.name + SEPARATOR + h.value) == Some(ReadAs(h))
  {
    var line := h.name + SEPARATOR + h.value;
    var after := " " + h.value;
    assert line == h.name + [':'] + after;
    Found(h.name, ':', after);
    var k := |h.name|;
    assert line[..k] == h.name && line[k + 1..] == after;
    assert after[1..] == h.value;
  }

  lemma {:induction false} HeadersRoundTrip(headers: seq<Header>, rest: bytes)
    requires GoodHeaders(headers)
    ensures ReadHeaders(HeaderLines(headers) + CRLF + rest) == Some((AsRead(headers), rest))
  {
    hide ReadHeader, ReadAs;
    if headers == [] {
      LineFound([], rest);
      assert HeaderLines(headers) + CRLF + rest == [] + CRLF + rest;
    } else {
      var h := headers[0];
      var line := h.name + SEPARATOR + h.value;
      var more := HeaderLines(headers[1..]) + CRLF + rest;
      assert HeaderLines(headers) + CRLF + rest == line + CRLF + more;
      assert h in headers && GoodHeader(h) && GoodHeaders(headers[1..]);
      assert forall i :: 0 <= i < |h.name| ==> IsToken(h.name[i]) && h.name[i] != CR;
      LineFound(line, more);
      assert line[0] == h.name[0];
      HeaderRoundTrip(h);
      HeadersRoundTrip(headers[1..], rest);
    }
  }

  lemma StatusRoundTrip(status: Status)
    requires 200 <= status <= 999
    ensures var line := VERSION + Decimal(status) + SPACE + ReasonPhrase(status);
            CR !in line && ReadStatus(line) == Some(status)
  {
    hide ReasonPhrase;
    var a, b, d := status / 100, status / 10 % 10, status % 10;
    assert Decimal(status / 10) == Decimal(a) + [Digit(b)] == [Digit(a)] + [Digit(b)];
    assert Decimal(status) == Decimal(status / 10) + [Digit(d)];
    var line := VERSION + Decimal(status) + SPACE + ReasonPhrase(status);
    assert line[..9] == VERSION && VERSION[..5] == "HTTP/";
    assert line[..5] == VERSION[..5] && line[5] == VERSION[5] && line[6] == VERSION[6] && line[7] == VERSION[7] && line[8] == VERSION[8];
    assert line[9] == Digit(a) && line[10] == Digit(b) && line[11] == Digit(d) && line[12] == ' ';
    NoBreakInReason(status);
  }

  lemma NoBreakInError(status: Status)
    ensures CR !in ErrorPhrase(status)
  {
    var phrase := ErrorPhrase(status);
    if status in {404, 405, 413, 414, 431, 500, 501, 502, 503} {
      assert CR !in phrase;
    }
  }

  lemma NoBreakInReason(status: Status)
    ensures CR !in ReasonPhrase(status)
  {
    hide ErrorPhrase;
    NoBreakInError(status);
  }

  /** After a serialized head the client is left with the body's octets and the headers it was sent, as read. */
  lemma HeadRoundTrip(status: Status, headers: seq<Header>, rest: bytes, isHead: bool)
    requires 200 <= status <= 999 && GoodHeaders(headers)
    ensures Decode(HeadOf(status, headers) + rest, isHead) == ReadBody(status, AsRead(headers), isHead, rest)
  {
    hide ReasonPhrase, Decimal, ReadBody, ReadStatus;
    var line := VERSION + Decimal(status) + SPACE + ReasonPhrase(status);
    var more := HeaderLines(headers) + CRLF + rest;
    assert HeadOf(status, headers) + rest == line + CRLF + more;
    StatusRoundTrip(status);
    LineFound(line, more);
    HeadersRoundTrip(headers, rest);
  }

  /* ---- Lengths ---- */

  lemma NoBlanks(s: bytes)
    requires s != [] ==> !IsBlank(s[0]) && !IsBlank(s[|s| - 1])
    ensures StripBlanks(s) == s
  {
  }

  lemma {:induction false} EndStripped(s: bytes) returns (n: nat)
    ensures n <= |s| && DropBlanksEnd(s) == s[..n] && forall i :: n <= i < |s| ==> IsBlank(s[i])
    ensures n > 0 ==> !IsBlank(s[n - 1])
    decreases |s|
  {
    if s != [] && IsBlank(s[|s| - 1]) {
      n := EndStripped(s[..|s| - 1]);
      assert s[..|s| - 1][..n] == s[..n];
    } else {
      n := |s|;
    }
  }

  /** A value as it is read is the value sent, less all blanks at its ends and nothing else. */
  lemma {:induction false} Stripped(s: bytes) returns (m: nat, n: nat)
    ensures m <= n <= |s| && StripBlanks(s) == s[m..n]
    ensures forall i :: 0 <= i < m || n <= i < |s| ==> IsBlank(s[i])
    ensures m < n ==> !IsBlank(s[m]) && !IsBlank(s[n - 1])
    decreases |s|
  {
    if s != [] && IsBlank(s[0]) {
      m, n := Stripped(s[1..]);
      m, n := m + 1, n + 1;
    } else {
      m := 0;
      n := EndStripped(s);
    }
  }

  lemma {:induction false} NotFound(s: bytes, c: byte)
    requires c !in s
    ensures Find(s, c) == |s|
  {
    if s != [] {
      NotFound(s[1..], c);
    }
  }

  /** A length as the engine prints it, the client reads as that number. */
  lemma PrintedLength(n: nat)
    ensures StripBlanks(Decimal(n)) == Decimal(n) && ReadLength(Decimal(n)) == Some(n)
  {
    var s := Decimal(n);
    NotFound(s, ',');
    assert s[..|s|] == s;
    NoBlanks(s);
    DecimalValue(n);
  }

  /** A list of two lengths is read exactly when they agree. */
  lemma LengthsMustAgree(m: nat, n: nat)
    ensures ReadLength(Decimal(m) + "," + Decimal(n)) == if m == n then Some(m) else None
  {
    var s := Decimal(m) + [','] + Decimal(n);
    Found(Decimal(m), ',', Decimal(n));
    assert s[..|Decimal(m)|] == Decimal(m) && s[|Decimal(m)| + 1..] == Decimal(n);
    PrintedLength(m);
    PrintedLength(n);
    DecimalValue(m);
    assert s == Decimal(m) + "," + Decimal(n);
  }

  /** A single length a client accepts, the server would accept as a request's, in range. */
  lemma ClientLengthIsServerLength(h: Header, n: nat)
    requires IsLength(h) && ',' !in h.value && ReadAs(h) == h
    requires ReadLength(h.value) == Some(n) && n < USIZE_LIMIT
    ensures DeclaredBy(h) == Some(n)
  {
    var s := h.value;
    NotFound(s, ',');
    assert s[..|s|] == s;
    DigitsAreUtf8(s);
    TrimKeeps(s);
  }

  lemma {:induction false} DigitsAreUtf8(s: bytes)
    requires forall i :: 0 <= i < |s| ==> IsDigit(s[i])
    ensures ValidUtf8(s)
  {
    if s != [] {
      DigitsAreUtf8(s[1..]);
    }
  }

  /** The server reads a sign that no client may read. */
  lemma SignedLength()
    ensures ParseUsize(Trim("+5")) == Some(5) && ReadLength("+5") == None
  {
    var s: bytes := "+5";
    TrimKeeps(s);
    var five: bytes := "5";
    assert s[1..] == five && five[..0] == [] && DigitsValue(five) == 5;
    NotFound(s, ',');
    NoBlanks(s);
    assert s[..2] == s && !IsDigit(s[0]);
  }
}
