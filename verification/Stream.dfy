/** The response stream of a connection, as its client decodes it. */
module Stream {
  import opened Bytes
  import opened HeadParser
  import opened ContentLength
  import opened Responses
  import opened Connection
  import opened Decoder

  /* ---- What the engine does to headers ---- */

  /** A handler response whose head can be put on the wire unambiguously. Its Connection
      fields may be anything: they never get there. */
  predicate WellFormed(r: Response) {
    && 200 <= r.status <= 999
    && GoodHeaders(WithoutConnection(r.headers))
    && (forall h :: h in r.headers ==> !IsTransfer(h))
    && Intact(r.body)
    && (r.body.Spooled? ==> r.body.file.sized)
  }

  /** The handler's framing, where it gave any, is right for what will be sent. */
  predicate FramingTrue(r: Response, isHead: bool) {
    if isHead then true
    else if Bodyless(r.status, false) then BodySize(r.body) == 0
    else (exists h :: h in r.headers && IsLength(h)) ==> LengthGiven(AsRead(r.headers)) == Some(BodySize(r.body))
  }

  lemma TokenTrim(h: Header)
    requires GoodHeader(h)
    ensures Trim(h.name) == h.name
  {
    assert IsToken(h.name[0]) && IsToken(h.name[|h.name| - 1]);
    TrimKeeps(h.name);
  }

  lemma VisibleLower(c: byte, d: byte)
    requires Lower(c) == Lower(d) && IsVisible(d)
    ensures IsVisible(c)
  {
  }

  lemma LengthIsNotConnection(h: Header)
    requires IsLength(h)
    ensures !IsConnection(h)
  {
    var n := |h.name|;
    assert n == |CONTENT_LENGTH| == 14 && CONTENT_LENGTH[0] == 'c' && CONTENT_LENGTH[13] == 'h';
    VisibleLower(h.name[0], 'c');
    VisibleLower(h.name[13], 'h');
    TrimKeeps(h.name);
  }

  lemma EngineNames()
    ensures GoodName("Content-Length") && EqIgnoreCase("Content-Length", CONTENT_LENGTH) && GoodHeader(CLOSE)
  {
    var name: bytes := "Content-Length";
    assert |name| == 14 && |CONTENT_LENGTH| == 14;
    assert forall i :: 0 <= i < 14 ==> Lower(name[i]) == CONTENT_LENGTH[i];
  }

  lemma LengthHeader(n: nat)
    ensures var h := LengthField(n);
            && GoodHeader(h) && !IsConnection(h) && IsLength(h) && !IsTransfer(h)
            && ReadAs(h) == h && ReadLength(h.value) == Some(n)
  {
    hide Decimal, IsToken, ReadLength, StripBlanks;
    EngineNames();
    PrintedLength(n);
    TrimKeeps("Content-Length");
    assert GoodValue(Decimal(n));
  }

  lemma CloseHeader()
    ensures GoodHeader(CLOSE) && IsConnection(CLOSE) && !IsLength(CLOSE) && !IsTransfer(CLOSE) && ReadAs(CLOSE) == CLOSE
  {
    hide GoodHeader, StripBlanks;
    EngineNames();
    NoBlanks(CLOSE.value);
    assert CLOSE.name[0] == 'C' && CLOSE.name[9] == 'n';
    TrimKeeps(CLOSE.name);
    assert |CLOSE.name| == 10 && |CONTENT_LENGTH| == 14;
  }

  lemma EngineHeaders(n: nat)
    ensures GoodHeader(CLOSE) && IsConnection(CLOSE) && !IsLength(CLOSE) && !IsTransfer(CLOSE)
    ensures var h := LengthField(n);
            && GoodHeader(h) && !IsConnection(h) && IsLength(h) && !IsTransfer(h)
            && ReadAs(h) == h && ReadLength(h.value) == Some(n)
  {
    hide GoodHeader, IsConnection, IsLength, IsTransfer, ReadAs, ReadLength;
    LengthHeader(n);
    CloseHeader();
  }

  lemma LengthStays(r: Response)
    ensures forall h :: h in r.headers && IsLength(h) ==> !IsConnection(h)
  {
    forall h | h in r.headers && IsLength(h) ensures !IsConnection(h) {
      LengthIsNotConnection(h);
    }
  }

  lemma OnlyLengthsFrame(headers: seq<Header>)
    requires GoodHeaders(headers) && forall h :: h in headers ==> !IsTransfer(h)
    ensures forall h :: h in headers ==> (IsFraming(h) <==> IsLength(h))
  {
    hide GoodHeader, Trim, EqIgnoreCase;
    forall h | h in headers ensures IsFraming(h) <==> IsLength(h) {
      TokenTrim(h);
    }
  }

  /** What Wire does, read as membership: Connection fields are gone but for the engine's own
      on the last response, and a length has been added exactly when there was none. */
  lemma WireHeaders(r: Response, last: bool)
    requires WellFormed(r)
    ensures Wire(r, last).Some?
    ensures var w := Wire(r, last).value;
            var added := LengthField(BodySize(r.body));
            && w.status == r.status && w.body == r.body && GoodHeaders(w.headers)
            && (forall h :: h in w.headers <==>
                  || (h in r.headers && !IsConnection(h))
                  || (h == added && !exists g :: g in r.headers && IsLength(g))
                  || (h == CLOSE && last))
  {
    hide LengthField, GoodHeader, IsFraming, IsLength, IsConnection, IsTransfer, Intact, ReadAs, ReadLength;
    EngineHeaders(BodySize(r.body));
    LengthStays(r);
    var kept := WithoutConnection(r.headers);
    OnlyLengthsFrame(kept);
    assert HasFraming(kept) <==> exists g :: g in r.headers && IsLength(g);
  }

  function Wired(r: Response, last: bool): (w: Response)
    requires WellFormed(r)
    ensures Wire(r, last) == Some(w)
  {
    WireHeaders(r, last);
    Wire(r, last).value
  }

  /** Of whatever can be sent at all, exactly the last response carries a Connection field: the
      engine's own, at the end. */
  lemma OnlyLastCloses(r: Response, last: bool)
    requires Wire(r, last).Some?
    ensures var headers := Wire(r, last).value.headers;
            && ((exists h :: h in headers && IsConnection(h)) <==> last)
            && (last ==> headers != [] && headers[|headers| - 1] == CLOSE
                         && forall i :: 0 <= i < |headers| - 1 ==> !IsConnection(headers[i]))
  {
    hide LengthField, HasFraming, IsConnection, ReadAs, ReadLength, GoodHeader, IsLength, IsTransfer;
    EngineHeaders(BodySize(r.body));
    var kept := WithoutConnection(r.headers);
    var framed := Framed(kept, r.body).value;
    assert forall h :: h in framed ==> h in kept || h == LengthField(BodySize(r.body));
    assert forall i :: 0 <= i < |framed| ==> framed[i] in framed && !IsConnection(framed[i]);
    if last {
      assert Wire(r, last).value.headers == framed + [CLOSE];
      assert (framed + [CLOSE])[|framed|] == CLOSE;
    }
  }

  lemma TransferIsFraming(h: Header)
    requires IsTransfer(h)
    ensures IsFraming(h) && !IsConnection(h)
  {
    var name: bytes := "transfer-encoding";
    assert |h.name| == |name| == 17 && name[0] == 't' && name[16] == 'g';
    VisibleLower(h.name[0], 't');
    VisibleLower(h.name[16], 'g');
    TrimKeeps(h.name);
  }

  /** A response that the handler has framed by a transfer coding gets no length beside it. */
  lemma TransferLeftAlone(r: Response, last: bool)
    requires exists h :: h in r.headers && IsTransfer(h)
    ensures Wire(r, last) == Some(r.(headers := WithoutConnection(r.headers) + if last then [CLOSE] else []))
  {
    hide IsTransfer, IsFraming, IsConnection, LengthField;
    var h :| h in r.headers && IsTransfer(h);
    TransferIsFraming(h);
    var kept := WithoutConnection(r.headers);
    assert h in kept && HasFraming(kept);
    assert kept + [] == kept;
  }

  /* ---- One response ---- */

  function Shown(r: Response, isHead: bool): bytes {
    if isHead then [] else BodyBytes(r.body)
  }

  /** All the octets of a body. */
  function Whole(body: Body): bytes {
    match body
    case InMemory(data) => data
    case Spooled(file) => file.content
  }

  lemma ShownWhole(r: Response, isHead: bool)
    requires WellFormed(r)
    ensures Shown(r, isHead) == if isHead then [] else Whole(r.body)
    ensures BodySize(r.body) == |Whole(r.body)|
  {
  }

  /** The octets of a response with headers as given. */
  function Image(w: Response, isHead: bool): bytes {
    HeadOf(w.status, w.headers) + Shown(w, isHead)
  }

  lemma {:induction false} ReadMembers(headers: seq<Header>)
    ensures forall h :: h in AsRead(headers) <==> exists g :: g in headers && h == ReadAs(g)
  {
    hide ReadAs;
    forall g | g in headers ensures ReadAs(g) in AsRead(headers) {
      var i :| 0 <= i < |headers| && headers[i] == g;
      assert AsRead(headers)[i] == ReadAs(g);
    }
  }

  lemma GivenLength(r: Response, last: bool)
    requires WellFormed(r)
    requires exists h :: h in r.headers && IsLength(h)
    ensures var headers := Wired(r, last).headers;
            (exists h :: h in headers && IsLength(h)) && LengthGiven(AsRead(headers)) == LengthGiven(AsRead(r.headers))
  {
    hide Wire, IsLength, IsConnection, GoodHeader, LengthField, ReadAs, ReadLength, WellFormed;
    WireHeaders(r, last);
    EngineHeaders(BodySize(r.body));
    LengthStays(r);
    var headers := Wired(r, last).headers;
    var g :| g in r.headers && IsLength(g);
    assert g in headers;
    SameLength(r.headers, headers);
  }

  lemma AddedLength(r: Response, last: bool)
    requires WellFormed(r)
    requires !exists h :: h in r.headers && IsLength(h)
    ensures var headers := Wired(r, last).headers;
            (exists h :: h in headers && IsLength(h)) && LengthGiven(AsRead(headers)) == Some(BodySize(r.body))
  {
    hide Wire, IsLength, IsConnection, GoodHeader, LengthField, ReadLength, WellFormed, StripBlanks;
    WireHeaders(r, last);
    EngineHeaders(BodySize(r.body));
    var headers := Wired(r, last).headers;
    var added := LengthField(BodySize(r.body));
    assert added in headers;
    assert forall h :: h in headers && IsLength(h) ==> h == added;
    AgreedRead(headers, BodySize(r.body));
  }

  /** What the fields sent must say for the client to read n. */
  lemma AgreedRead(headers: seq<Header>, n: nat)
    ensures Agreed(AsRead(headers), n)
            <==> && (exists h :: h in headers && IsLength(h))
                 && forall h :: h in headers && IsLength(h) ==> ReadLength(ReadAs(h).value) == Some(n)
  {
    hide ReadLength, StripBlanks, EqIgnoreCase;
    ReadMembers(headers);
    assert forall h: Header :: IsLength(ReadAs(h)) <==> IsLength(h);
    forall h | h in headers ensures ReadAs(h) in AsRead(headers) {
    }
  }

  lemma NoTransfer(r: Response, last: bool)
    requires WellFormed(r)
    ensures forall h :: h in AsRead(Wired(r, last).headers) ==> !IsTransfer(h)
  {
    hide Wire, EqIgnoreCase, IsLength, IsConnection, GoodHeader, LengthField, StripBlanks, ReadLength;
    WireHeaders(r, last);
    EngineHeaders(BodySize(r.body));
    ReadMembers(Wired(r, last).headers);
  }

  lemma LengthSeen(headers: seq<Header>)
    ensures (exists h :: h in AsRead(headers) && IsLength(h)) <==> (exists h :: h in headers && IsLength(h))
  {
    hide EqIgnoreCase, StripBlanks;
    ReadMembers(headers);
    forall h | h in headers && IsLength(h) ensures ReadAs(h) in AsRead(headers) && IsLength(ReadAs(h)) {
    }
  }

  lemma ExtentByLength(status: nat, headers: seq<Header>, isHead: bool)
    requires !Bodyless(status, isHead)
    requires (exists h :: h in headers && IsLength(h)) && forall h :: h in headers ==> !IsTransfer(h)
    ensures ExtentOf(status, headers, isHead) == match LengthGiven(headers) case Some(n) => Exactly(n) case None => Unknown
  {
    hide LengthGiven, IsLength, IsTransfer;
  }

  /** The extent a client assigns to a wired response. */
  lemma WireExtent(r: Response, last: bool, isHead: bool)
    requires WellFormed(r)
    ensures var extent := ExtentOf(r.status, AsRead(Wired(r, last).headers), isHead);
            if Bodyless(r.status, isHead) then extent == Exactly(0)
            else if exists h :: h in r.headers && IsLength(h) then
              extent == match LengthGiven(AsRead(r.headers)) case Some(n) => Exactly(n) case None => Unknown
            else extent == Exactly(BodySize(r.body))
  {
    hide Wired, LengthGiven, Agreed, IsTransfer, IsLength, WellFormed, AsRead, Bodyless;
    var headers := Wired(r, last).headers;
    if Bodyless(r.status, isHead) {
      return;
    }
    hide ExtentOf;
    NoTransfer(r, last);
    LengthSeen(headers);
    if exists h :: h in r.headers && IsLength(h) {
      GivenLength(r, last);
    } else {
      AddedLength(r, last);
    }
    ExtentByLength(r.status, AsRead(headers), isHead);
  }

  lemma SameLength(a: seq<Header>, b: seq<Header>)
    requires forall h :: IsLength(h) ==> (h in a <==> h in b)
    ensures LengthGiven(AsRead(a)) == LengthGiven(AsRead(b))
  {
    hide ReadLength, ReadAs, IsLength, Agreed;
    forall n: nat ensures Agreed(AsRead(a), n) <==> Agreed(AsRead(b), n) {
      AgreedRead(a, n);
      AgreedRead(b, n);
    }
    var x, y := LengthGiven(AsRead(a)), LengthGiven(AsRead(b));
    assert x.Some? ==> y == Some(x.value);
    assert y.Some? ==> x == Some(y.value);
  }

  lemma {:induction false} ReadJoin(a: seq<Header>, b: seq<Header>)
    ensures AsRead(a + b) == AsRead(a) + AsRead(b)
  {
  }

  /** The header fields the client sees, all of them and in order. */
  lemma WiredSeen(r: Response, last: bool)
    requires WellFormed(r)
    ensures AsRead(Wired(r, last).headers)
            == AsRead(WithoutConnection(r.headers))
               + (if exists h :: h in r.headers && IsLength(h) then [] else [LengthField(|Whole(r.body)|)])
               + (if last then [CLOSE] else [])
  {
    hide IsLength, IsConnection, IsTransfer, IsFraming, GoodHeader, ReadAs, ReadLength, Decimal;
    EngineHeaders(BodySize(r.body));
    CloseAsRead();
    ShownWhole(r, false);
    LengthStays(r);
    var kept := WithoutConnection(r.headers);
    OnlyLengthsFrame(kept);
    assert HasFraming(kept) <==> exists g :: g in r.headers && IsLength(g);
    var framed := Framed(kept, r.body).value;
    var field := LengthField(BodySize(r.body));
    assert AsRead([field]) == [field];
    ReadJoin(kept, [field]);
    ReadJoin(framed, [CLOSE]);
    assert AsRead(kept) + [] == AsRead(kept) && AsRead(framed) + [] == AsRead(framed);
  }

  /** A client reads a response back as it was sent, and finds the next one where it begins,
      exactly when the handler's framing is true. */
  lemma ResponseInSync(r: Response, last: bool, isHead: bool, rest: bytes)
    requires WellFormed(r)
    ensures var w := Wired(r, last);
            Decode(Image(w, isHead) + rest, isHead) == Got(Seen(r.status, AsRead(w.headers), Shown(r, isHead)), rest)
            <==> FramingTrue(r, isHead)
  {
    hide HeadOf, Wire, ExtentOf, LengthGiven;
    WireHeaders(r, last);
    WireExtent(r, last, isHead);
    var w := Wired(r, last);
    var shown := Shown(r, isHead);
    assert Image(w, isHead) + rest == HeadOf(w.status, w.headers) + (shown + rest);
    HeadRoundTrip(w.status, w.headers, shown + rest, isHead);
    assert (shown + rest)[..|shown|] == shown && (shown + rest)[|shown|..] == rest;
    match ExtentOf(r.status, AsRead(w.headers), isHead)
    case Unknown =>
    case UntilClose =>
    case Exactly(n) =>
      if n <= |shown| + |rest| && n != |shown| {
        assert |(shown + rest)[..n]| != |shown|;
      }
  }

  /** A 204 or 304 with a body is sent with its body, which no client reads: sync is lost. */
  lemma NoContentWithBody(status: Status, rest: bytes)
    requires status in {204, 304}
    ensures var r := Response(status, [], InMemory("x"));
            && WellFormed(r)
            && Decode(Image(Wired(r, false), false) + rest, false)
               != Got(Seen(status, AsRead(Wired(r, false).headers), "x"), rest)
  {
    hide Decode, Image, Wire;
    var r := Response(status, [], InMemory("x"));
    WireHeaders(r, false);
    assert Shown(r, false) == "x";
    ResponseInSync(r, false, false, rest);
  }

  /** A handler's own length, in a response whose body is five octets. */
  function Hello(value: bytes): Response {
    Response(200, [Header("Content-Length", value)], InMemory("hello"))
  }

  lemma HelloFraming(value: bytes)
    requires GoodValue(value) && StripBlanks(value) == value
    ensures WellFormed(Hello(value)) && (FramingTrue(Hello(value), false) <==> ReadLength(value) == Some(5))
  {
    hide ReadLength, EqIgnoreCase, StripBlanks;
    var h := Hello(value).headers[0];
    EngineNames();
    LengthIsNotConnection(h);
    assert Hello(value).headers[..0] == [];
    assert |h.name| == 14;
    NotTransfer(h);
    AgreedRead(Hello(value).headers, 5);
    assert h in Hello(value).headers;
  }

  lemma NotTransfer(h: Header)
    requires |h.name| != 17
    ensures !IsTransfer(h)
  {
  }

  /** A handler's length that the server's own reader would take costs its client the sync. */
  lemma SignedLengthLosesSync(rest: bytes)
    ensures LengthOf(Hello("+5").headers) == Some(5) && WellFormed(Hello("+5"))
    ensures var w := Wired(Hello("+5"), false);
            Decode(Image(w, false) + rest, false) != Got(Seen(200, AsRead(w.headers), Shown(Hello("+5"), false)), rest)
  {
    hide Decode, Image, Wire, ParseUsize, ReadLength, StripBlanks, WellFormed, FramingTrue, Shown, EqIgnoreCase;
    var value: bytes := "+5";
    SignedLength();
    NoBlanks(value);
    HelloFraming(value);
    EngineNames();
    assert ValidUtf8(value[1..]) && ValidUtf8(value[1..][1..]);
    LengthOfMeaning(Hello(value).headers, 5);
    WireHeaders(Hello(value), false);
    ResponseInSync(Hello(value), false, false, rest);
  }

  /* ---- The whole stream ---- */

  predicate Decent(r: Response, isHead: bool) {
    WellFormed(r) && FramingTrue(r, isHead)
  }

  /** The handler behaved on the i-th call. */
  predicate DecentAt(p: Policy, calls: seq<Request>, i: nat)
    requires i < |calls|
  {
    Decent(p.respond(calls[..i + 1]), AsksHead(calls[i].method_))
  }

  /** The handler behaved on every call from the from-th on. */
  predicate AllDecent(p: Policy, calls: seq<Request>, from: nat) {
    forall i: nat :: from <= i < |calls| ==> DecentAt(p, calls, i)
  }

  /** The client's own knowledge of which requests were HEAD. */
  predicate Knows(heads: seq<bool>, calls: seq<Request>, from: nat) {
    |calls| <= from + |heads| && forall i :: from <= i < |calls| ==> heads[i - from] == AsksHead(calls[i].method_)
  }

  /** What the client should see for the calls from the from-th on, `served` having been answered before. */
  function Replies(p: Policy, calls: seq<Request>, from: nat, served: nat): seq<Seen>
    requires AllDecent(p, calls, from)
    decreases |calls| - from
  {
    if from >= |calls| then []
    else
      assert DecentAt(p, calls, from);
      var r := p.respond(calls[..from + 1]);
      var w := Wired(r, served + 1 >= p.maxKeepalive);
      [Seen(w.status, AsRead(w.headers), Shown(w, AsksHead(calls[from].method_)))] + Replies(p, calls, from + 1, served + 1)
  }

  /** The server's own last words. */
  function Farewell(exit: Exit): seq<Seen> {
    match exit
    case HeadTooLarge => [Seen(431, [CLOSE], [])]
    case BodyTooLarge => [Seen(413, [CLOSE], [])]
    case BadHeaderValue => [Seen(400, [CLOSE], [])]
    case _ => []
  }

  function FarewellText(exit: Exit): bytes {
    match exit
    case HeadTooLarge => REQUEST_HEADER_FIELDS_TOO_LARGE
    case BodyTooLarge => PAYLOAD_TOO_LARGE_RESPONSE
    case BadHeaderValue => BAD_REQUEST_RESPONSE
    case _ => []
  }

  lemma CannedIsHead(status: Status, code: bytes, phrase: bytes)
    requires Decimal(status) == code && ReasonPhrase(status) == phrase
    ensures Canned(code, phrase) == HeadOf(status, [CLOSE])
  {
    hide Decimal, ReasonPhrase;
    assert HeaderLines([CLOSE]) == HeaderLine(CLOSE) + [];
    assert HeaderLine(CLOSE) + CRLF == CLOSE_LINES;
    assert HeadOf(status, [CLOSE]) == StatusLine(status) + (HeaderLine(CLOSE) + CRLF);
  }

  /** The rejections are the serialized responses they look like. */
  lemma FarewellIsHead(exit: Exit, status: Status)
    requires (exit, status) in {(HeadTooLarge, 431), (BodyTooLarge, 413), (BadHeaderValue, 400)}
    ensures FarewellText(exit) == HeadOf(status, [CLOSE])
  {
    hide HeadOf, Canned;
    assert Decimal(4) == "4";
    match exit
    case HeadTooLarge =>
      assert Decimal(43) == Decimal(4) + "3" && Decimal(431) == Decimal(43) + "1";
      CannedIsHead(431, "431", "Request Header Fields Too Large");
    case BodyTooLarge =>
      assert Decimal(41) == Decimal(4) + "1" && Decimal(413) == Decimal(41) + "3";
      CannedIsHead(413, "413", "Payload Too Large");
    case BadHeaderValue =>
      assert Decimal(40) == Decimal(4) + "0" && Decimal(400) == Decimal(40) + "0";
      CannedIsHead(400, "400", "Bad Request");
  }

  lemma CloseAsRead()
    ensures AsRead([CLOSE]) == [CLOSE]
  {
    hide ReadAs;
    CloseHeader();
  }

  lemma LastMessage(s: bytes, heads: seq<bool>, m: Seen)
    requires Decode(s, heads != [] && heads[0]) == Got(m, [])
    ensures DecodeAll(s, heads) == Some([m])
  {
    hide Decode;
    assert [m] + [] == [m];
  }

  lemma FarewellInSync(exit: Exit, heads: seq<bool>)
    ensures DecodeAll(FarewellText(exit), heads) == Some(Farewell(exit))
  {
    hide HeadOf, Canned, LengthOf, Decode, ReadBody, GoodHeader, DecodeAll, ReasonPhrase;
    if exit in {HeadTooLarge, BodyTooLarge, BadHeaderValue} {
      var status: Status := if exit == HeadTooLarge then 431 else if exit == BodyTooLarge then 413 else 400;
      FarewellIsHead(exit, status);
      CloseHeader();
      var isHead := heads != [] && heads[0];
      assert HeadOf(status, [CLOSE]) + [] == HeadOf(status, [CLOSE]);
      CloseAsRead();
      HeadRoundTrip(status, [CLOSE], [], isHead);
      NothingMore(status, isHead);
      LastMessage(FarewellText(exit), heads, Seen(status, [CLOSE], []));
    } else {
      EndOfStream(heads);
    }
  }

  lemma NothingMore(status: Status, isHead: bool)
    requires status in {400, 413, 431}
    ensures ReadBody(status, [CLOSE], isHead, []) == Got(Seen(status, [CLOSE], []), [])
  {
    hide GoodHeader;
    CloseHeader();
  }

  /* ---- From the loop to the stream ---- */

  function Last(p: Policy, log: Log): bool {
    log.served + 1 >= p.maxKeepalive
  }

  /** The call that extended log to log' was answered with the wired image of the handler's response. */
  predicate Replied(p: Policy, log: Log, log': Log) {
    && log.calls < log'.calls && |log'.calls| == |log.calls| + 1 && log'.served == log.served + 1
    && DecentAt(p, log'.calls, |log.calls|)
    && var isHead := AsksHead(log'.calls[|log.calls|].method_);
       log'.sent == log.sent + Image(Wired(p.respond(log'.calls[..|log.calls| + 1]), Last(p, log)), isHead)
  }

  lemma HeadTest(method_: bytes)
    ensures IsHead(method_) <==> AsksHead(method_)
  {
    var name: bytes := "HEAD";
    assert |name| == 4 && name[0] == 'H' && name[1] == 'E' && name[2] == 'A' && name[3] == 'D';
    if AsksHead(method_) {
      assert forall i :: 0 <= i < 4 ==> Lower(method_[i]) == Lower(name[i]);
    }
    if IsHead(method_) {
      assert forall i :: 0 <= i < 4 ==> Lower(method_[i]) == Lower(name[i]);
    }
  }

  /** Answering either sends the wired response or rejects the request. */
  lemma AnswerShape(p: Policy, log: Log, head: Head, body: bytes)
    requires p.limit.None?
    requires var calls := Answer(p, log, head, body).log.calls;
             |calls| == |log.calls| + 1 ==> DecentAt(p, calls, |log.calls|)
    ensures var v := Answer(p, log, head, body);
            if AllUtf8(head.headers) then
              Replied(p, log, v.log) && v.stop == if Last(p, log) then Some(LimitReached) else None
            else v == Verdict(log.(sent := log.sent + BAD_REQUEST_RESPONSE), Some(BadHeaderValue))
  {
    hide Wire, HeadOf, FramingTrue, RequestOf, AllUtf8, IsHead, AsksHead;
    if AllUtf8(head.headers) {
      HeadTest(head.method_);
      var calls := log.calls + [RequestOf(head, body)];
      assert RequestOf(head, body).method_ == head.method_ by {
        MethodKept(head, body);
      }
      assert Answer(p, log, head, body).log.calls == calls;
      assert calls[..|log.calls| + 1] == calls;
      var w := Wired(p.respond(calls), Last(p, log));
      WiredBody(p.respond(calls), Last(p, log));
      assert HeadOf(w.status, w.headers) + [] == HeadOf(w.status, w.headers);
    }
  }

  lemma MethodKept(head: Head, body: bytes)
    ensures RequestOf(head, body).method_ == head.method_
  {
  }

  lemma WiredBody(r: Response, last: bool)
    requires WellFormed(r)
    ensures Wired(r, last).body == r.body && Wired(r, last).status == r.status
  {
  }

  /** A turn sends at most one reply, and the server's last words when it is the end. */
  predicate Speaks(p: Policy, log: Log, t: Turn) {
    match t
    case Wait(next) => next.log == log
    case Onward(next) => Replied(p, log, next.log)
    case Halt(final, exit) =>
      || (final.log.calls == log.calls && final.log.sent == log.sent + FarewellText(exit))
      || (Replied(p, log, final.log) && exit == LimitReached)
  }

  lemma BodySpeaks(p: Policy, c: Client, s: Conn, n: nat, head: Head, len: nat)
    requires p.limit.None? && Sound(p, c, s) && n <= s.filled
    requires AllDecent(p, LogAfter(TakeBody(p, c, s, n, head, len)).calls, |s.log.calls|)
    ensures Speaks(p, s.log, TakeBody(p, c, s, n, head, len))
  {
    hide Answer, DecentAt, Canned, Replied;
    assert s.log.sent + [] == s.log.sent;
    var t := TakeBody(p, c, s, n, head, len);
    if Fill(c, s.base, s.filled, n + len, s.readsDone).Full? {
      var body := c.input[s.base + n..s.base + n + len];
      var calls := Answer(p, s.log, head, body).log.calls;
      assert LogAfter(t).calls == calls;
      AnswerShape(p, s.log, head, body);
    }
  }

  /** What is said does not depend on how many guards there have been. */
  lemma GuardIsSilent(p: Policy, log: Log, begun: nat, t: Turn)
    requires !t.Wait? && Speaks(p, log.(begun := begun), t)
    ensures Speaks(p, log, t)
  {
    hide DecentAt, Image, FarewellText;
  }

  lemma StepSpeaks(p: Policy, c: Client, s: Conn)
    requires p.limit.None? && Sound(p, c, s)
    requires AllDecent(p, LogAfter(Step(p, c, s)).calls, |s.log.calls|)
    ensures Speaks(p, s.log, Step(p, c, s))
  {
    hide Parse, LengthOf, TakeBody, DecentAt, Canned, Replied;
    assert s.log.sent + [] == s.log.sent;
    var parsed := Parse(Window(c, s));
    if parsed.Complete? {
      var a := Admit(p, s.log, parsed.head);
      if a.Accept? {
        BodySpeaks(p, c, s.(log := a.log), parsed.len, parsed.head, a.bodyLen);
        GuardIsSilent(p, s.log, a.log.begun, Step(p, c, s));
      }
    }
  }

  lemma DecodeOne(image: bytes, tail: bytes, heads: seq<bool>, m: Seen, ms: seq<Seen>)
    requires Decode(image + tail, heads != [] && heads[0]) == Got(m, tail)
    requires DecodeAll(tail, if heads == [] then [] else heads[1..]) == Some(ms)
    ensures DecodeAll(image + tail, heads) == Some([m] + ms)
  {
    hide Decode;
  }

  /** A reply, then a tail that decodes, decodes. */
  lemma ReplyInSync(p: Policy, log: Log, log': Log, calls: seq<Request>, tail: bytes, heads: seq<bool>, ms: seq<Seen>)
    requires p.limit.None?
    requires Replied(p, log, log') && log'.calls <= calls
    requires AllDecent(p, calls, |log.calls|) && Knows(heads, calls, |log.calls|)
    requires DecodeAll(tail, heads[1..]) == Some(ms)
    ensures DecodeAll(log'.sent[|log.sent|..] + tail, heads)
            == Some([Replies(p, calls, |log.calls|, log.served)[0]] + ms)
  {
    hide Decode, DecodeAll, Image, Shown, Wire;
    var from := |log.calls|;
    assert calls[..from + 1] == log'.calls[..from + 1];
    assert DecentAt(p, log'.calls, from);
    var r := p.respond(calls[..from + 1]);
    var isHead := AsksHead(calls[from].method_);
    var w := Wired(r, Last(p, log));
    WiredBody(r, Last(p, log));
    assert log'.sent[|log.sent|..] == Image(w, isHead);
    ResponseInSync(r, Last(p, log), isHead, tail);
    ShownSame(r, Last(p, log), isHead);
    DecodeOne(Image(w, isHead), tail, heads, Seen(r.status, AsRead(w.headers), Shown(r, isHead)), ms);
  }

  lemma ShownSame(r: Response, last: bool, isHead: bool)
    requires WellFormed(r)
    ensures Shown(Wired(r, last), isHead) == Shown(r, isHead)
  {
    WiredBody(r, last);
  }

  /** A reply with nothing after it. */
  lemma LastReply(p: Policy, log: Log, log': Log, heads: seq<bool>)
    requires p.limit.None? && Replied(p, log, log')
    requires AllDecent(p, log'.calls, |log.calls|) && Knows(heads, log'.calls, |log.calls|)
    ensures DecodeAll(log'.sent[|log.sent|..], heads) == Some(Replies(p, log'.calls, |log.calls|, log.served))
  {
    hide DecodeAll, DecentAt, Replied;
    RepliedFacts(p, log, log');
    EndOfStream(heads[1..]);
    ReplyInSync(p, log, log', log'.calls, [], heads, []);
    assert log'.sent[|log.sent|..] + [] == log'.sent[|log.sent|..];
    var all := Replies(p, log'.calls, |log.calls|, log.served);
    assert Replies(p, log'.calls, |log.calls| + 1, log.served + 1) == [];
    assert all == [all[0]] + [];
  }

  /** A reply with a stream that decodes after it. */
  lemma FirstReply(p: Policy, log: Log, log': Log, r: Log, heads: seq<bool>, farewell: seq<Seen>)
    requires p.limit.None? && Replied(p, log, log') && Extends(log', r)
    requires AllDecent(p, r.calls, |log.calls|) && Knows(heads, r.calls, |log.calls|)
    requires AllDecent(p, r.calls, |log'.calls|)
    requires DecodeAll(r.sent[|log'.sent|..], heads[1..]) == Some(Replies(p, r.calls, |log'.calls|, log'.served) + farewell)
    ensures DecodeAll(r.sent[|log.sent|..], heads) == Some(Replies(p, r.calls, |log.calls|, log.served) + farewell)
  {
    hide DecodeAll, DecentAt, Replied, Replies;
    RepliedFacts(p, log, log');
    var tail := r.sent[|log'.sent|..];
    var later := Replies(p, r.calls, |log'.calls|, log'.served);
    ReplyInSync(p, log, log', r.calls, tail, heads, later + farewell);
    assert r.sent[|log.sent|..] == log'.sent[|log.sent|..] + tail;
    var all := Replies(p, r.calls, |log.calls|, log.served);
    RepliesSplit(p, r.calls, |log.calls|, log.served);
    assert [all[0]] + (later + farewell) == ([all[0]] + later) + farewell;
  }

  lemma RepliesSplit(p: Policy, calls: seq<Request>, from: nat, served: nat)
    requires from < |calls| && AllDecent(p, calls, from) && AllDecent(p, calls, from + 1)
    ensures Replies(p, calls, from, served) == [Replies(p, calls, from, served)[0]] + Replies(p, calls, from + 1, served + 1)
  {
    hide DecentAt;
  }

  /** The stream never loses sync, however the input arrives and whenever the run ends: its
      client decodes exactly the handler's replies, one per call and in order, and then the
      server's last words. */
  lemma {:induction false} StreamInSync(p: Policy, c: Client, s: Conn, heads: seq<bool>)
    requires p.limit.None? && Sound(p, c, s)
    requires AllDecent(p, Run(p, c, s).final.log.calls, |s.log.calls|)
    requires Knows(heads, Run(p, c, s).final.log.calls, |s.log.calls|)
    ensures var e := Run(p, c, s);
            DecodeAll(e.final.log.sent[|s.log.sent|..], heads)
            == Some(Replies(p, e.final.log.calls, |s.log.calls|, s.log.served) + Farewell(e.exit))
    decreases |c.input| - s.base, |c.input| - s.base - s.filled
  {
    hide Step, DecodeAll, DecentAt, Farewell, FarewellText, Replied, Replies;
    var e := Run(p, c, s);
    var r := e.final.log;
    EarlierDecent(p, LogAfter(Step(p, c, s)).calls, r.calls, |s.log.calls|);
    StepSpeaks(p, c, s);
    match Step(p, c, s)
    case Wait(t) =>
      StreamInSync(p, c, t, heads);
    case Onward(t) =>
      RepliedFacts(p, s.log, t.log);
      ForgetFirst(p, heads, r.calls, |s.log.calls|);
      StreamInSync(p, c, t, heads[1..]);
      FirstReply(p, s.log, t.log, r, heads, Farewell(e.exit));
    case Halt(_, _) =>
      if r.calls == s.log.calls && r.sent == s.log.sent + FarewellText(e.exit) {
        FarewellInSync(e.exit, heads);
        assert r.sent[|s.log.sent|..] == FarewellText(e.exit);
        NoReplies(p, r.calls, s.log.served);
        assert [] + Farewell(e.exit) == Farewell(e.exit);
      } else {
        LastReply(p, s.log, r, heads);
        NoFarewell();
        var all := Replies(p, r.calls, |s.log.calls|, s.log.served);
        assert all + [] == all;
      }
  }

  lemma NoReplies(p: Policy, calls: seq<Request>, served: nat)
    ensures Replies(p, calls, |calls|, served) == []
  {
  }

  lemma NoFarewell()
    ensures Farewell(LimitReached) == []
  {
  }

  lemma EndOfStream(heads: seq<bool>)
    ensures DecodeAll([], heads) == Some([])
  {
  }

  lemma RepliedFacts(p: Policy, log: Log, log': Log)
    requires p.limit.None? && Replied(p, log, log')
    ensures |log'.calls| == |log.calls| + 1 && log.calls <= log'.calls
    ensures log'.served == log.served + 1 && log.sent <= log'.sent
  {
  }

  /** What is decent in the whole history was decent in any beginning of it. */
  lemma EarlierDecent(p: Policy, some: seq<Request>, calls: seq<Request>, from: nat)
    requires some <= calls && AllDecent(p, calls, from)
    ensures AllDecent(p, some, from)
  {
    hide Decent;
    forall i: nat | from <= i < |some| ensures DecentAt(p, some, i) {
      assert DecentAt(p, calls, i);
      assert some[..i + 1] == calls[..i + 1];
    }
  }

  lemma ForgetFirst(p: Policy, heads: seq<bool>, calls: seq<Request>, from: nat)
    requires from < |calls|
    requires AllDecent(p, calls, from) && Knows(heads, calls, from)
    ensures AllDecent(p, calls, from + 1) && Knows(heads[1..], calls, from + 1)
  {
    hide DecentAt;
    forall i: nat | from + 1 <= i < |calls| ensures heads[1..][i - (from + 1)] == AsksHead(calls[i].method_) {
      assert heads[1..][i - (from + 1)] == heads[i - from];
    }
  }
}
