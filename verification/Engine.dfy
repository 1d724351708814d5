/** The connection loop itself: a growable buffer, reads into it, and answers out of it. */
module Engine {
  import opened Bytes
  import opened HeadParser
  import opened ContentLength
  import opened Io
  import opened Responses
  import opened Connection

  datatype Mark = Began | Finished

  type usize = n: nat | n < USIZE_LIMIT

  class ConnectionCounter {
    var inFlight: usize
    ghost var marks: seq<Mark>   // every start and finish, in order

    constructor ()
      ensures inFlight == 0 && marks == []
    {
      inFlight, marks := 0, [];
    }

    /** fetch_add and fetch_sub wrap around at the ends of usize. */
    method RecordRequestStart()
      modifies this
      ensures inFlight == if old(inFlight) + 1 == USIZE_LIMIT then 0 else old(inFlight) + 1
      ensures marks == old(marks) + [Began]
    {
      inFlight := if inFlight + 1 == USIZE_LIMIT then 0 else inFlight + 1;
      marks := marks + [Began];
    }

    method RecordRequestFinish()
      modifies this
      ensures inFlight == if old(inFlight) == 0 then USIZE_LIMIT - 1 else old(inFlight) - 1
      ensures marks == old(marks) + [Finished]
    {
      inFlight := if inFlight == 0 then USIZE_LIMIT - 1 else inFlight - 1;
      marks := marks + [Finished];
    }
  }

  /** n requests, each begun and finished before the next. */
  function Brackets(n: nat): seq<Mark> {
    if n == 0 then [] else Brackets(n - 1) + [Began, Finished]
  }

  /** The application: it remembers what it was asked. */
  class Handler {
    const respond: seq<Request> -> Response
    var calls: seq<Request>

    constructor (respond: seq<Request> -> Response)
      ensures this.respond == respond && calls == []
    {
      this.respond, calls := respond, [];
    }

    /** Any file position may be handed over with a spooled body. */
    method Call(request: Request, pos: nat) returns (response: HandlerResponse)
      modifies this`calls
      ensures calls == old(calls) + [request]
      ensures fresh(response) && (response.file != null ==> fresh(response.file))
      ensures response.Value() == respond(calls)
    {
      calls := calls + [request];
      response := new HandlerResponse(respond(calls), pos);
    }
  }

  /** The loop's variables stand for the state s of Run. */
  ghost predicate Coupled(socket: Socket, handler: Handler, buf: array<byte>, filled: nat, served: nat, p: Policy, c: Client, s: Conn)
    reads socket, handler, buf
  {
    && p.limit == socket.limit && p.respond == handler.respond
    && c == Client(socket.input, socket.arrivals)
    && Holds(socket, buf, filled, s.base) && socket.readsDone == s.readsDone
    && socket.sent == s.log.sent && handler.calls == s.log.calls
    && served == s.log.served && filled == s.filled
    && buf.Length == s.cap > 0
  }

  lemma CoupledFacts(socket: Socket, handler: Handler, buf: array<byte>, filled: nat, served: nat, p: Policy, c: Client, s: Conn)
    requires Coupled(socket, handler, buf, filled, served, p, c, s)
    ensures Sound(p, c, s) && filled <= buf.Length && buf[..filled] == Window(c, s)
  {
  }

  /** buf.resize(size, 0) */
  method Resize(buf: array<byte>, size: nat) returns (grown: array<byte>)
    requires buf.Length <= size
    ensures fresh(grown) && grown.Length == size
    ensures grown[..buf.Length] == buf[..]
  {
    grown := new byte[size](_ => '\0');
    forall i | 0 <= i < buf.Length {
      grown[i] := buf[i];
    }
  }

  /** The buffer holds the input from base on, as far as it has been taken. */
  ghost predicate Holds(socket: Socket, buf: array<byte>, filled: nat, base: nat)
    reads socket, buf
  {
    && socket.Valid() && filled <= buf.Length && socket.taken == base + filled
    && buf[..filled] == socket.input[base..base + filled]
  }

  /** socket.read(&mut buf[filled..end]) */
  method ReadMore(socket: Socket, buf: array<byte>, filled: nat, end: nat, timed: bool, ghost base: nat)
    returns (read: ReadResult)
    requires Holds(socket, buf, filled, base) && filled < end <= buf.Length
    modifies socket`taken, socket`readsDone, buf
    ensures read == ReadOutcome(socket.arrivals(old(socket.readsDone)), end - filled, |socket.input| - base - filled, timed)
    ensures socket.readsDone == old(socket.readsDone) + 1
    ensures Holds(socket, buf, filled + if read.Data? then read.n else 0, base)
  {
    hide ReadOutcome;
    ghost var from := socket.taken;
    read := socket.Read(buf, filled, end, timed);
    if read.Data? {
      var n := read.n;
      assert buf[..filled] == socket.input[base..from];
      assert buf[filled..filled + n] == socket.input[from..from + n];
      assert buf[..filled + n] == buf[..filled] + buf[filled..filled + n];
      assert socket.input[base..from + n] == socket.input[base..from] + socket.input[from..from + n];
    }
  }

  /** Reads the rest of a declared body. */
  method FillBody(socket: Socket, buf: array<byte>, filled: nat, end: nat, ghost c: Client, ghost base: nat)
    returns (filled': nat, stop: Option<Exit>)
    requires Holds(socket, buf, filled, base) && end <= buf.Length
    requires c == Client(socket.input, socket.arrivals)
    modifies socket`taken, socket`readsDone, buf
    ensures Holds(socket, buf, filled', base)
    ensures var f := Fill(c, base, filled, end, old(socket.readsDone));
            && filled' == f.filled && socket.readsDone == f.readsDone
            && stop == if f.Cut? then Some(f.exit) else None
  {
    hide ReadOutcome;
    filled' := filled;
    while filled' < end
      invariant Holds(socket, buf, filled', base)
      invariant Fill(c, base, filled, end, old(socket.readsDone)) == Fill(c, base, filled', end, socket.readsDone)
    {
      var read := ReadMore(socket, buf, filled', end, false, base);
      if !read.Data? {
        return filled', Some(ReadFailed);
      }
      if read.n == 0 {
        return filled', Some(EndMidBody);
      }
      filled' := filled' + read.n;
    }
    stop := None;
  }

  /** A response to HEAD is its head alone; any other is head and body in one of the two ways. */
  method SendResponse(socket: Socket, response: HandlerResponse, front: bytes, isHead: bool, combine: bool)
    returns (outcome: Outcome)
    requires socket.Valid()
    modifies socket`sent, response.file
    ensures socket.Valid()
    ensures Transmission(socket.sent, outcome)
            == Transmit(socket.limit, old(socket.sent), front, if isHead then InMemory([]) else response.BodyValue())
  {
    if isHead {
      assert front + [] == front;
      var ok := socket.WriteAll(front);
      outcome := if ok then Wrote else SocketBroke;
    } else if combine {
      outcome := response.WriteCombined(socket, front);
    } else {
      outcome := response.WriteSplit(socket, front);
    }
  }

  /** From the second parse to the response written. */
  method AnswerRequest(socket: Socket, handler: Handler, p: Policy, buf: array<byte>, filled: nat, consumed: nat, end: nat,
                       served: nat, combine: bool, pos: nat, ghost log: Log)
    returns (served': nat, stop: Option<Exit>)
    requires socket.Valid() && p.limit == socket.limit && p.respond == handler.respond
    requires socket.sent == log.sent && handler.calls == log.calls && served == log.served
    requires consumed <= end <= filled <= buf.Length
    requires Parse(buf[..filled]).Complete? && Parse(buf[..filled]).len == consumed
    modifies socket`sent, handler`calls
    ensures socket.Valid()
    ensures var v := Answer(p, log, Parse(buf[..filled]).head, buf[consumed..end]);
            && stop == v.stop && served' == v.log.served
            && socket.sent == v.log.sent && handler.calls == v.log.calls
  {
    hide Parse, LengthOf, ReasonPhrase, Transmit;
    var head := Parse(buf[..filled]).head;
    for i := 0 to |head.headers|
      invariant forall j :: 0 <= j < i ==> ValidUtf8(head.headers[j].value)
    {
      if !ValidUtf8(head.headers[i].value) {
        var ok := socket.WriteAll(BAD_REQUEST_RESPONSE);
        return served, Some(if ok then BadHeaderValue else WriteFailed);
      }
    }
    var request := RequestOf(head, buf[consumed..end]);
    var isHead := IsHead(request.method_);
    var response := handler.Call(request, pos);
    response.StripConnection();
    var framed := response.EnsureFraming();
    if !framed {
      return served, Some(FileFailed);
    }
    served' := served + 1;
    var last := served' >= p.maxKeepalive;
    if last {
      response.AddClose();
    }
    assert Wire(p.respond(handler.calls), last) == Some(response.Value());
    var front := response.SerializeHead();
    var outcome := SendResponse(socket, response, front, isHead, combine);
    stop := match outcome
      case SocketBroke => Some(WriteFailed)
      case FileBroke => Some(FileFailed)
      case Wrote => if last then Some(LimitReached) else None;
  }

  /** The state reached by turn t, before the bytes that follow the request are moved to the front. */
  function Unshifted(s: Conn, t: Turn): Conn {
    match t
    case Halt(final, _) => final
    case Wait(next) => next
    case Onward(next) => if next.base >= s.base then next.(base := s.base, filled := next.filled + (next.base - s.base)) else next
  }

  /** Makes room for a request of `end` octets and reads until all of it is buffered. */
  method BufferBody(socket: Socket, buf: array<byte>, filled: nat, end: nat, ghost c: Client, ghost base: nat)
    returns (buf': array<byte>, filled': nat, stop: Option<Exit>)
    requires Holds(socket, buf, filled, base)
    requires c == Client(socket.input, socket.arrivals)
    modifies socket`taken, socket`readsDone, buf
    ensures (buf' == buf || fresh(buf')) && buf'.Length == Max(buf.Length, end)
    ensures Holds(socket, buf', filled', base)
    ensures var f := Fill(c, base, filled, end, old(socket.readsDone));
            && filled' == f.filled && socket.readsDone == f.readsDone
            && stop == if f.Cut? then Some(f.exit) else None
  {
    hide ReadOutcome;
    buf' := buf;
    if buf.Length < end {
      buf' := Resize(buf, end);
      assert buf'[..filled] == buf'[..buf.Length][..filled] == buf[..filled];
    }
    filled', stop := FillBody(socket, buf', filled, end, c, base);
  }

  lemma SliceOfPrefix(s: bytes, k: nat, a: nat, b: nat)
    requires a <= b <= k <= |s|
    ensures s[..k][a..b] == s[a..b]
  {
    assert forall i :: 0 <= i < b - a ==> s[..k][a..b][i] == s[a..b][i];
  }

  /** The second parse, of at least as many octets, finds the request of the first: the same
      head, of the same length, followed by the declared body. */
  lemma ReparseAgreement(c: Client, s: Conn, buf: bytes, filled: nat, end: nat)
    requires s.filled <= filled <= |buf| && s.base + filled <= |c.input|
    requires buf[..filled] == c.input[s.base..s.base + filled]
    requires Parse(Window(c, s)).Complete? && Parse(Window(c, s)).len <= end <= filled
    ensures Parse(buf[..filled]) == Parse(Window(c, s))
    ensures var n := Parse(Window(c, s)).len; buf[n..end] == c.input[s.base + n..s.base + end]
  {
    hide Parse;
    assert Window(c, s) <= buf[..filled];
    ParseStable(Window(c, s), buf[..filled]);
    var n := Parse(Window(c, s)).len;
    SliceOfPrefix(buf, filled, n, end);
    assert c.input[s.base..s.base + filled][n..end] == c.input[s.base + n..s.base + end];
  }

  /** The same of the loop's own buffer, when the body has been read into it. */
  lemma ReparseBuffer(socket: Socket, buf: array<byte>, filled: nat, end: nat, c: Client, s: Conn)
    requires c == Client(socket.input, socket.arrivals)
    requires Holds(socket, buf, filled, s.base) && s.filled <= filled
    requires s.base + s.filled <= |c.input|
    requires Parse(Window(c, s)).Complete? && Parse(Window(c, s)).len <= end <= filled
    ensures Parse(buf[..filled]) == Parse(Window(c, s))
    ensures var n := Parse(Window(c, s)).len; buf[n..end] == c.input[s.base + n..s.base + end]
  {
    hide Parse;
    assert buf[..][..filled] == buf[..filled];
    ReparseAgreement(c, s, buf[..], filled, end);
  }

  /** The state after TakeBody, part by part. */
  lemma BodyTaken(p: Policy, c: Client, s: Conn, n: nat, head: Head, len: nat)
    requires Sound(p, c, s) && n <= s.filled
    ensures var end := n + len;
            var f := Fill(c, s.base, s.filled, end, s.readsDone);
            var t := TakeBody(p, c, s, n, head, len);
            var u := s.(cap := Max(s.cap, end), filled := f.filled, readsDone := f.readsDone);
            if f.Cut? then t.Halt? && t.exit == f.exit && Unshifted(s, t) == u
            else
              var v := Answer(p, s.log, head, c.input[s.base + n..s.base + end]);
              && v.stop == (if t.Halt? then Some(t.exit) else None)
              && Unshifted(s, t) == u.(log := v.log)
  {
    hide Answer;
  }

  /** The body, the second parse, the answer. */
  method TakeWithBody(socket: Socket, handler: Handler, p: Policy, buf: array<byte>, filled: nat, consumed: nat, bodyLen: nat,
                      served: nat, combine: bool, pos: nat, ghost c: Client, ghost s: Conn)
    returns (buf': array<byte>, filled': nat, served': nat, stop: Option<Exit>)
    requires Coupled(socket, handler, buf, filled, served, p, c, s)
    requires Parse(Window(c, s)).Complete? && Parse(Window(c, s)).len == consumed
    modifies socket, handler, buf
    ensures buf' == buf || fresh(buf')
    ensures var t := TakeBody(p, c, s, consumed, Parse(Window(c, s)).head, bodyLen);
            && stop == (if t.Halt? then Some(t.exit) else None)
            && Coupled(socket, handler, buf', filled', served', p, c, Unshifted(s, t))
  {
    hide Parse, Answer, ReadOutcome, Fill, TakeBody, Unshifted;
    served' := served;
    var end := consumed + bodyLen;
    BodyTaken(p, c, s, consumed, Parse(Window(c, s)).head, bodyLen);
    buf', filled', stop := BufferBody(socket, buf, filled, end, c, s.base);
    if stop.Some? {
      return;
    }
    ReparseBuffer(socket, buf', filled', end, c, s);
    served', stop := AnswerRequest(socket, handler, p, buf', filled', consumed, end, served, combine, pos, s.log);
  }

  /** The life of one in-flight guard: from the 413 check to the response written. */
  method UnderGuard(socket: Socket, handler: Handler, p: Policy, buf: array<byte>, filled: nat, consumed: nat, bodyLen: nat,
                    served: nat, combine: bool, pos: nat, ghost c: Client, ghost s: Conn)
    returns (buf': array<byte>, filled': nat, served': nat, stop: Option<Exit>)
    requires Coupled(socket, handler, buf, filled, served, p, c, s)
    requires Parse(Window(c, s)).Complete? && Parse(Window(c, s)).len == consumed
    requires LengthOf(Parse(Window(c, s)).head.headers) == Some(bodyLen)
    modifies socket, handler, buf
    ensures buf' == buf || fresh(buf')
    ensures var t := TakeRequest(p, c, s, consumed, Parse(Window(c, s)).head);
            && stop == (if t.Halt? then Some(t.exit) else None)
            && (t.Onward? ==> t.next.base == s.base + consumed + bodyLen)
            && Coupled(socket, handler, buf', filled', served', p, c, Unshifted(s, t))
            && Unshifted(s, t).log.begun == s.log.begun + 1
  {
    hide Parse, LengthOf, TakeBody;
    if bodyLen > MAX_BODY_CAPACITY {
      buf', filled', served' := buf, filled, served;
      var ok := socket.WriteAll(PAYLOAD_TOO_LARGE_RESPONSE);
      stop := Some(if ok then BodyTooLarge else WriteFailed);
      return;
    }
    ghost var begun := s.(log := s.log.(begun := s.log.begun + 1));
    assert Window(c, begun) == Window(c, s);
    buf', filled', served', stop := TakeWithBody(socket, handler, p, buf, filled, consumed, bodyLen, served, combine, pos, c, begun);
  }

  /** buf.copy_within(end..filled, 0): what follows the request moves to the front. */
  method Shift(socket: Socket, handler: Handler, p: Policy, buf: array<byte>, filled: nat, end: nat, served: nat,
               ghost c: Client, ghost s: Conn)
    returns (filled': nat)
    requires Coupled(socket, handler, buf, filled, served, p, c, s) && end <= filled
    modifies buf
    ensures Coupled(socket, handler, buf, filled', served, p, c, s.(base := s.base + end, filled := s.filled - end))
  {
    filled' := filled - end;
    SliceOfPrefix(buf[..], filled, end, filled);
    assert c.input[s.base..s.base + filled][end..] == c.input[s.base + end..s.base + filled];
    forall i | 0 <= i < filled' {
      buf[i] := buf[end + i];
    }
    assert buf[..filled'] == old(buf[end..filled]);
  }

  /** One buffered request from its guard to the shift of whatever follows it. */
  method ServeOne(socket: Socket, handler: Handler, counter: ConnectionCounter, p: Policy, buf: array<byte>, filled: nat,
                  consumed: nat, bodyLen: nat, served: nat, combine: bool, pos: nat, ghost c: Client, ghost s: Conn)
    returns (buf': array<byte>, filled': nat, served': nat, stop: Option<Exit>)
    requires Coupled(socket, handler, buf, filled, served, p, c, s)
    requires Parse(Window(c, s)).Complete? && Parse(Window(c, s)).len == consumed
    requires LengthOf(Parse(Window(c, s)).head.headers) == Some(bodyLen)
    modifies socket, handler, counter, buf
    ensures buf' == buf || fresh(buf')
    ensures counter.inFlight == old(counter.inFlight) && counter.marks == old(counter.marks) + [Began, Finished]
    ensures var t := TakeRequest(p, c, s, consumed, Parse(Window(c, s)).head);
            var after := if t.Halt? then t.final else t.next;
            && stop == (if t.Halt? then Some(t.exit) else None)
            && Coupled(socket, handler, buf', filled', served', p, c, after)
            && after.log.begun == s.log.begun + 1
  {
    hide Parse, LengthOf, TakeRequest;
    counter.RecordRequestStart();
    buf', filled', served', stop := UnderGuard(socket, handler, p, buf, filled, consumed, bodyLen, served, combine, pos, c, s);
    counter.RecordRequestFinish();
    if stop.None? {
      ghost var t := TakeRequest(p, c, s, consumed, Parse(Window(c, s)).head);
      filled' := Shift(socket, handler, p, buf', filled', consumed + bodyLen, served', c, Unshifted(s, t));
    }
  }

  /** The read at the bottom of the loop, after growing a full buffer. */
  method ReadHead(socket: Socket, handler: Handler, p: Policy, buf: array<byte>, filled: nat, served: nat, ghost c: Client, ghost s: Conn)
    returns (buf': array<byte>, filled': nat, stop: Option<Exit>)
    requires Coupled(socket, handler, buf, filled, served, p, c, s)
    modifies socket, buf
    ensures buf' == buf || fresh(buf')
    ensures var t := ReadOn(p, c, s);
            && stop == (if t.Halt? then Some(t.exit) else None)
            && Coupled(socket, handler, buf', filled', served, p, c, Unshifted(s, t))
            && Unshifted(s, t).log.begun == s.log.begun
  {
    hide ReadOutcome, Put;
    buf', filled', stop := buf, filled, None;
    if filled >= MAX_BUF_CAPACITY {
      var ok := socket.WriteAll(REQUEST_HEADER_FIELDS_TOO_LARGE);
      return buf, filled, Some(if ok then HeadTooLarge else WriteFailed);
    }
    if filled == buf.Length {
      buf' := Resize(buf, Min(2 * buf.Length, MAX_BUF_CAPACITY));
      assert buf'[..filled] == buf'[..buf.Length] == buf[..filled];
    }
    var read := ReadMore(socket, buf', filled, buf'.Length, filled == 0, s.base);
    match read
    case Failed => stop := Some(ReadFailed);
    case Elapsed => stop := Some(IdleTimeout);
    case Data(n) =>
      filled' := filled + n;
      stop := if n == 0 then Some(EndOfInput) else None;
  }

  /** The inner loop: answers as many complete requests as are buffered. Without a reason to
      stop, it leaves an incomplete head. */
  method ServeBuffered(socket: Socket, handler: Handler, counter: ConnectionCounter, p: Policy, buf: array<byte>, filled: nat,
                       served: nat, combine: bool, pos: nat, ghost c: Client, ghost s: Conn)
    returns (buf': array<byte>, filled': nat, served': nat, stop: Option<Exit>, ghost s': Conn)
    requires Coupled(socket, handler, buf, filled, served, p, c, s)
    modifies socket, handler, counter, buf
    ensures buf' == buf || fresh(buf')
    ensures counter.inFlight == old(counter.inFlight) && s'.log.begun >= s.log.begun
    ensures counter.marks == old(counter.marks) + Brackets(s'.log.begun - s.log.begun)
    ensures Coupled(socket, handler, buf', filled', served', p, c, s')
    ensures Run(p, c, s) == if stop.Some? then Ended(s', stop.value) else Run(p, c, s')
    ensures stop.None? ==> Parse(Window(c, s')).Partial? && (s' == s || s'.base > s.base)
  {
    hide Parse, Run, TakeRequest, ReadOn, LengthOf, Brackets, AllDeclare, Coupled, Holds;
    buf', filled', served', s' := buf, filled, served, s;
    CoupledFacts(socket, handler, buf, filled, served, p, c, s);
    BracketsNone(counter.marks);
    while true
      invariant buf' == buf || fresh(buf')
      invariant Coupled(socket, handler, buf', filled', served', p, c, s') && Sound(p, c, s')
      invariant Run(p, c, s') == Run(p, c, s) && (s' == s || s'.base > s.base)
      invariant counter.inFlight == old(counter.inFlight) && s'.log.begun >= s.log.begun
      invariant counter.marks == old(counter.marks) + Brackets(s'.log.begun - s.log.begun)
      decreases |c.input| - s'.base
    {
      RunTurn(p, c, s');
      CoupledFacts(socket, handler, buf', filled', served', p, c, s');
      var parsed := Parse(buf'[..filled']);
      if parsed.Error? {
        stop := Some(BadHead);
        return;
      }
      if parsed.Partial? {
        stop := None;
        return;
      }
      var bodyLen := ReadContentLength(parsed.head.headers);
      if bodyLen.None? {
        NoLength(p, c, s', parsed.len, parsed.head);
        stop := Some(BadLength);
        return;
      }
      ghost var t := TakeRequest(p, c, s', parsed.len, parsed.head);
      buf', filled', served', stop :=
        ServeOne(socket, handler, counter, p, buf', filled', parsed.len, bodyLen.value, served', combine, pos, c, s');
      if stop.Some? {
        BracketsMore(old(counter.marks), s'.log.begun - s.log.begun);
        s' := t.final;
        return;
      }
      BracketsMore(old(counter.marks), s'.log.begun - s.log.begun);
      s' := t.next;
    }
  }

  /** One accepted connection, from its first read to its end. */
  method Handle(socket: Socket, handler: Handler, maxKeepalive: nat, counter: ConnectionCounter, combine: bool, pos: nat)
    returns (exit: Exit)
    requires socket.Valid() && socket.taken == 0 && socket.readsDone == 0 && socket.sent == []
    modifies socket, handler, counter
    ensures var p := Policy(socket.limit, maxKeepalive, handler.respond);
            var e := Run(p, Client(socket.input, socket.arrivals), Opened(Log(old(handler.calls), [], 0, 0)));
            && exit == e.exit
            && socket.sent == e.final.log.sent && handler.calls == e.final.log.calls
            && counter.marks == old(counter.marks) + Brackets(e.final.log.begun)
    ensures counter.inFlight == old(counter.inFlight)
  {
    hide Parse, Run, TakeRequest, ReadOn, Brackets;
    var p := Policy(socket.limit, maxKeepalive, handler.respond);
    ghost var c := Client(socket.input, socket.arrivals);
    ghost var s := Opened(Log(handler.calls, [], 0, 0));
    ghost var whole := Run(p, c, s);
    var buf := new byte[INITIAL_BUF_CAPACITY](_ => '\0');
    var filled: nat, served: nat := 0, 0;
    BracketsNone(counter.marks);
    while true
      invariant fresh(buf) && Coupled(socket, handler, buf, filled, served, p, c, s)
      invariant Run(p, c, s) == whole
      invariant counter.inFlight == old(counter.inFlight)
      invariant counter.marks == old(counter.marks) + Brackets(s.log.begun)
      decreases |c.input| - s.base, |c.input| - s.base - s.filled
    {
      var stop;
      ghost var begun := s.log.begun;
      buf, filled, served, stop, s := ServeBuffered(socket, handler, counter, p, buf, filled, served, combine, pos, c, s);
      BracketsJoin(old(counter.marks), begun, s.log.begun - begun);
      if stop.Some? {
        return stop.value;
      }
      RunTurn(p, c, s);
      ghost var t := ReadOn(p, c, s);
      buf, filled, stop := ReadHead(socket, handler, p, buf, filled, served, c, s);
      if stop.Some? {
        return stop.value;
      }
      s := t.next;
    }
  }

  lemma BracketsNone(marks: seq<Mark>)
    ensures marks + Brackets(0) == marks
  {
  }

  lemma BracketsMore(marks: seq<Mark>, n: nat)
    ensures marks + Brackets(n) + [Began, Finished] == marks + Brackets(n + 1)
  {
  }

  lemma {:induction false} BracketsJoin(marks: seq<Mark>, m: nat, n: nat)
    ensures marks + Brackets(m) + Brackets(n) == marks + Brackets(m + n)
  {
    if n == 0 {
      BracketsNone(marks + Brackets(m));
    } else {
      BracketsJoin(marks, m, n - 1);
      BracketsMore(marks + Brackets(m), n - 1);
      BracketsMore(marks, m + n - 1);
    }
  }

  /** The loop is its first turn and then the rest. */
  lemma RunTurn(p: Policy, c: Client, s: Conn)
    requires Sound(p, c, s)
    ensures var t := Step(p, c, s); Run(p, c, s) == if t.Halt? then Ended(t.final, t.exit) else Run(p, c, t.next)
  {
  }

  lemma NoLength(p: Policy, c: Client, s: Conn, n: nat, head: Head)
    requires Sound(p, c, s) && n <= s.filled
    requires LengthOf(head.headers).None?
    ensures TakeRequest(p, c, s, n, head) == Halt(s, BadLength)
  {
  }
}
