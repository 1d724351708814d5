/** One connection, twice: `Serve` is what the server owes to a whole input, `Run` is
    what the buffered loop does when that input arrives in arbitrary pieces. */
module Connection {
  import opened Bytes
  import opened HeadParser
  import opened ContentLength
  import opened Io
  import opened Responses

  const INITIAL_BUF_CAPACITY: nat := 8 * 1024
  const MAX_BUF_CAPACITY: nat := 64 * 1024
  const MAX_BODY_CAPACITY: nat := 10 * 1024 * 1024

  const CLOSE_LINES: bytes := "Connection: close\r\n\r\n"

  /** A rejection that announces the close of the connection. */
  function Canned(code: bytes, phrase: bytes): bytes {
    VERSION + code + SPACE + phrase + CRLF + CLOSE_LINES
  }

  const REQUEST_HEADER_FIELDS_TOO_LARGE: bytes := Canned("431", "Request Header Fields Too Large")
  const PAYLOAD_TOO_LARGE_RESPONSE: bytes := Canned("413", "Payload Too Large")
  const BAD_REQUEST_RESPONSE: bytes := Canned("400", "Bad Request")

  datatype Request = Request(method_: bytes, path: bytes, query: bytes, headers: seq<Header>, body: bytes)

  /** Why a connection ended. */
  datatype Exit =
    | EndOfInput | EndMidBody | IdleTimeout
    | HeadTooLarge | BodyTooLarge | BadHeaderValue | LimitReached
    | BadHead | BadLength                       // InvalidData errors
    | ReadFailed | WriteFailed | FileFailed     // I/O errors

  /** What the server brings: its peer's write limit, max_keepalive, and a handler whose
      answer may depend on every request it has ever been given, this one last. */
  datatype Policy = Policy(limit: Option<nat>, maxKeepalive: nat, respond: seq<Request> -> Response)

  /** What has happened so far: handler calls, octets sent, responses counted by the loop,
      and in-flight guards constructed. */
  datatype Log = Log(calls: seq<Request>, sent: bytes, served: nat, begun: nat)

  datatype Verdict = Verdict(log: Log, stop: Option<Exit>)

  predicate Extends(a: Log, b: Log) {
    a.calls <= b.calls && a.sent <= b.sent && a.served <= b.served && a.begun <= b.begun
  }

  /* ---- One request ---- */

  predicate IsHead(method_: bytes) {
    EqIgnoreCase(method_, "HEAD")
  }

  /** The part of target before its first question mark, and the part after it. */
  function SplitTarget(target: bytes): (parts: (bytes, bytes))
    ensures '?' !in parts.0
    ensures target == if '?' in target then parts.0 + "?" + parts.1 else parts.0
    ensures '?' !in target ==> parts.1 == []
  {
    if target == [] then ([], [])
    else if target[0] == '?' then ([], target[1..])
    else
      var (path, query) := SplitTarget(target[1..]);
      ([target[0]] + path, query)
  }

  /** The call says what the client sent: method, headers and body as they came, and the
      target cut at its first question mark, if it has one. */
  predicate Conveys(call: Request, head: Head, body: bytes) {
    && call.method_ == head.method_ && call.headers == head.headers && call.body == body
    && '?' !in call.path
    && if '?' in head.target then head.target == call.path + "?" + call.query
       else head.target == call.path && call.query == []
  }

  function RequestOf(head: Head, body: bytes): (r: Request)
    ensures Conveys(r, head, body)
  {
    var (path, query) := SplitTarget(head.target);
    Request(head.method_, path, query, head.headers, body)
  }

  predicate AllUtf8(headers: seq<Header>) {
    forall h :: h in headers ==> ValidUtf8(h.value)
  }

  /** Sends a canned rejection and stops. */
  function Reject(p: Policy, log: Log, text: bytes, exit: Exit): (v: Verdict)
    requires Fits(p.limit, log.sent)
    ensures Extends(log, v.log) && Fits(p.limit, v.log.sent) && v.stop.Some?
  {
    var d := Put(p.limit, log.sent, text);
    Verdict(log.(sent := d.sent), Some(if d.ok then exit else WriteFailed))
  }

  datatype Admission = Refuse(log: Log, exit: Exit) | Accept(log: Log, bodyLen: nat)

  /** From a complete head to the decision to read its body. */
  function Admit(p: Policy, log: Log, head: Head): (a: Admission)
    requires Fits(p.limit, log.sent)
    ensures Extends(log, a.log) && Fits(p.limit, a.log.sent)
    ensures a.Accept? ==> a.log == log.(begun := log.begun + 1) && a.bodyLen <= MAX_BODY_CAPACITY
    ensures a.Refuse? ==> a.exit in {BadLength, BodyTooLarge, WriteFailed}
  {
    match LengthOf(head.headers)
    case None => Refuse(log, BadLength)
    case Some(n) =>
      var begun := log.(begun := log.begun + 1);
      if n > MAX_BODY_CAPACITY then
        var v := Reject(p, begun, PAYLOAD_TOO_LARGE_RESPONSE, BodyTooLarge);
        Refuse(v.log, v.stop.value)
      else Accept(begun, n)
  }

  /** Answers one fully buffered request. */
  function Answer(p: Policy, log: Log, head: Head, body: bytes): (v: Verdict)
    requires Fits(p.limit, log.sent)
    ensures Extends(log, v.log) && Fits(p.limit, v.log.sent)
    ensures v.log.begun == log.begun && v.log.served <= log.served + 1
    ensures v.stop.None? ==> v.log.served == log.served + 1 < p.maxKeepalive
    ensures v.log.calls != log.calls ==> log.calls < v.log.calls && |v.log.calls| == |log.calls| + 1
    ensures v.log.calls != log.calls ==> Conveys(v.log.calls[|log.calls|], head, body)
    ensures v.stop.None? ==> v.log.calls != log.calls
    ensures v.stop == Some(LimitReached) ==> v.log.served == log.served + 1 >= p.maxKeepalive
    ensures v.stop.Some? ==> v.stop.value in {BadHeaderValue, LimitReached, WriteFailed, FileFailed}
  {
    if !AllUtf8(head.headers) then
      Reject(p, log, BAD_REQUEST_RESPONSE, BadHeaderValue)
    else
      var request := RequestOf(head, body);
      var calls := log.calls + [request];
      var last := log.served + 1 >= p.maxKeepalive;
      match Wire(p.respond(calls), last)
      case None => Verdict(log.(calls := calls), Some(FileFailed))
      case Some(w) =>
        var front := HeadOf(w.status, w.headers);
        var t := Transmit(p.limit, log.sent, front, if IsHead(head.method_) then InMemory([]) else w.body);
        Verdict(log.(calls := calls, sent := t.sent, served := log.served + 1),
                match t.outcome
                case SocketBroke => Some(WriteFailed)
                case FileBroke => Some(FileFailed)
                case Wrote => if last then Some(LimitReached) else None)
  }

  /* ---- The whole input at once ---- */

  datatype Result = Result(log: Log, exit: Exit)

  /** The part of the input in which a head has to be decided. */
  function View(rest: bytes): bytes {
    rest[..Min(|rest|, MAX_BUF_CAPACITY)]
  }

  datatype Debt = Settled(result: Result) | Owes(eaten: nat, log: Log)

  /** What is owed to the first request in rest: the end of the story, or an answer and the rest. */
  function Due(p: Policy, rest: bytes, log: Log): (d: Debt)
    requires Fits(p.limit, log.sent)
    ensures d.Owes? ==> Parse(View(rest)).Complete? && Parse(View(rest)).len <= d.eaten <= |rest|
    ensures d.Owes? ==> Extends(log, d.log) && Fits(p.limit, d.log.sent) && |log.calls| < |d.log.calls|
    ensures d.Settled? ==> Extends(log, d.result.log) && Fits(p.limit, d.result.log.sent)
    ensures d.Settled? ==> d.result.exit !in {IdleTimeout, ReadFailed}
  {
    match Parse(View(rest))
    case Error => Settled(Result(log, BadHead))
    case Partial =>
      if |rest| < MAX_BUF_CAPACITY then Settled(Result(log, EndOfInput))
      else
        var v := Reject(p, log, REQUEST_HEADER_FIELDS_TOO_LARGE, HeadTooLarge);
        Settled(Result(v.log, v.stop.value))
    case Complete(n, head) =>
      match Admit(p, log, head)
      case Refuse(refused, exit) => Settled(Result(refused, exit))
      case Accept(begun, len) =>
        if |rest| < n + len then Settled(Result(begun, EndMidBody))
        else
          var v := Answer(p, begun, head, rest[n..n + len]);
          match v.stop
          case Some(exit) => Settled(Result(v.log, exit))
          case None => Owes(n + len, v.log)
  }

  /** What a server owes to a client that sends exactly `rest` and then closes. */
  function Serve(p: Policy, rest: bytes, log: Log): (r: Result)
    requires Fits(p.limit, log.sent)
    ensures Extends(log, r.log) && Fits(p.limit, r.log.sent)
    ensures r.exit !in {IdleTimeout, ReadFailed}
    decreases |rest|
  {
    match Due(p, rest, log)
    case Settled(r) => r
    case Owes(eaten, log') => Serve(p, rest[eaten..], log')
  }

  /* ---- The buffered loop ---- */

  datatype Client = Client(input: bytes, arrivals: nat -> Arrival)

  /** The loop's state: where the unanswered input begins, how much of it is buffered,
      the buffer's capacity, and how many reads have been made. */
  datatype Conn = Conn(base: nat, filled: nat, cap: nat, readsDone: nat, log: Log)

  datatype Ended = Ended(final: Conn, exit: Exit)

  predicate Sound(p: Policy, c: Client, s: Conn) {
    && s.base + s.filled <= |c.input|
    && s.filled <= s.cap && s.cap > 0
    && Fits(p.limit, s.log.sent)
  }

  /** buf[..filled] */
  function Window(c: Client, s: Conn): bytes
    requires s.base + s.filled <= |c.input|
  {
    c.input[s.base..s.base + s.filled]
  }

  function Rest(c: Client, s: Conn): bytes
    requires s.base <= |c.input|
  {
    c.input[s.base..]
  }

  datatype Filling = Full(filled: nat, readsDone: nat) | Cut(filled: nat, readsDone: nat, exit: Exit)

  /** Reads until `end` octets are buffered. */
  function Fill(c: Client, base: nat, filled: nat, end: nat, readsDone: nat): (f: Filling)
    requires base + filled <= |c.input|
    ensures base + f.filled <= |c.input| && filled <= f.filled <= Max(filled, end)
    ensures f.Full? ==> f.filled == Max(filled, end)
    ensures f.Cut? ==> f.filled < end && f.exit in {EndMidBody, ReadFailed}
    ensures f.Cut? && f.exit == EndMidBody ==> base + f.filled == |c.input|
    decreases end - filled
  {
    if filled >= end then Full(filled, readsDone)
    else
      match ReadOutcome(c.arrivals(readsDone), end - filled, |c.input| - base - filled, false)
      case Data(n) =>
        if n == 0 then Cut(filled, readsDone + 1, EndMidBody)
        else Fill(c, base, filled + n, end, readsDone + 1)
      case _ => Cut(filled, readsDone + 1, ReadFailed)
  }

  /** The capacity before the read at the bottom of the loop. */
  function Grown(s: Conn): nat {
    if s.filled == s.cap then Min(2 * s.cap, MAX_BUF_CAPACITY) else s.cap
  }

  datatype Turn = Halt(final: Conn, exit: Exit) | Wait(next: Conn) | Onward(next: Conn)

  /** The history by the end of a turn. */
  function LogAfter(t: Turn): Log {
    if t.Halt? then t.final.log else t.next.log
  }

  /** An incomplete head: refuse it, or read on. */
  function ReadOn(p: Policy, c: Client, s: Conn): (t: Turn)
    requires Sound(p, c, s)
    ensures t.Wait? ==> Sound(p, c, t.next) && t.next.base == s.base && t.next.filled > s.filled
    ensures t.Wait? ==> t.next.log == s.log && s.filled < MAX_BUF_CAPACITY && t.next.cap == Grown(s)
    ensures t.Halt? ==> Sound(p, c, t.final) && t.final.base == s.base && Extends(s.log, t.final.log)
    ensures !t.Onward?
  {
    if s.filled >= MAX_BUF_CAPACITY then
      var v := Reject(p, s.log, REQUEST_HEADER_FIELDS_TOO_LARGE, HeadTooLarge);
      Halt(s.(log := v.log), v.stop.value)
    else
      var t := s.(cap := Grown(s), readsDone := s.readsDone + 1);
      match ReadOutcome(c.arrivals(s.readsDone), t.cap - s.filled, |c.input| - s.base - s.filled, s.filled == 0)
      case Failed => Halt(t, ReadFailed)
      case Elapsed => Halt(t, IdleTimeout)
      case Data(n) => if n == 0 then Halt(t, EndOfInput) else Wait(t.(filled := s.filled + n))
  }

  /** An admitted head of n octets: read its body, answer it, and move what follows to the front. */
  function TakeBody(p: Policy, c: Client, s: Conn, n: nat, head: Head, len: nat): (t: Turn)
    requires Sound(p, c, s) && n <= s.filled
    ensures t.Onward? ==> Sound(p, c, t.next) && t.next.base == s.base + n + len && |s.log.calls| < |t.next.log.calls|
    ensures t.Onward? ==> Extends(s.log, t.next.log)
    ensures t.Halt? ==> Sound(p, c, t.final) && t.final.base == s.base && Extends(s.log, t.final.log)
    ensures !t.Wait? && s.log.begun == if t.Halt? then t.final.log.begun else t.next.log.begun
  {
    var end := n + len;
    var t := s.(cap := Max(s.cap, end));
    match Fill(c, s.base, s.filled, end, s.readsDone)
    case Cut(filled, readsDone, exit) =>
      Halt(t.(filled := filled, readsDone := readsDone), exit)
    case Full(filled, readsDone) =>
      var v := Answer(p, s.log, head, c.input[s.base + n..s.base + end]);
      match v.stop
      case Some(exit) => Halt(t.(filled := filled, readsDone := readsDone, log := v.log), exit)
      case None => Onward(Conn(s.base + end, filled - end, t.cap, readsDone, v.log))
  }

  /** A complete head of n octets: refuse it or take it with its body. */
  function TakeRequest(p: Policy, c: Client, s: Conn, n: nat, head: Head): (t: Turn)
    requires Sound(p, c, s) && n <= s.filled
    ensures t.Onward? ==> Sound(p, c, t.next) && t.next.base >= s.base + n && |s.log.calls| < |t.next.log.calls|
    ensures t.Onward? ==> Extends(s.log, t.next.log)
    ensures t.Halt? ==> Sound(p, c, t.final) && t.final.base == s.base && Extends(s.log, t.final.log)
    ensures !t.Wait?
  {
    match Admit(p, s.log, head)
    case Refuse(refused, exit) => Halt(s.(log := refused), exit)
    case Accept(begun, len) => TakeBody(p, c, s.(log := begun), n, head, len)
  }

  function Step(p: Policy, c: Client, s: Conn): (t: Turn)
    requires Sound(p, c, s)
    ensures t.Wait? ==> Sound(p, c, t.next) && t.next.base == s.base && t.next.filled > s.filled && t.next.log == s.log
    ensures t.Onward? ==> Sound(p, c, t.next) && t.next.base > s.base
    ensures t.Halt? ==> Sound(p, c, t.final) && t.final.base == s.base && Extends(s.log, t.final.log)
    ensures !t.Halt? ==> Extends(s.log, t.next.log)
  {
    match Parse(Window(c, s))
    case Error => Halt(s, BadHead)
    case Partial => ReadOn(p, c, s)
    case Complete(n, head) => TakeRequest(p, c, s, n, head)
  }

  /** The whole loop. Every step answers some input or, failing that, reads some. */
  function Run(p: Policy, c: Client, s: Conn): (e: Ended)
    requires Sound(p, c, s)
    ensures Sound(p, c, e.final) && e.final.base >= s.base && Extends(s.log, e.final.log)
    decreases |c.input| - s.base, |c.input| - s.base - s.filled
  {
    match Step(p, c, s)
    case Halt(final, exit) => Ended(final, exit)
    case Wait(next) => Run(p, c, next)
    case Onward(next) => Run(p, c, next)
  }

  /** A connection just accepted. */
  function Opened(log: Log): Conn {
    Conn(0, 0, INITIAL_BUF_CAPACITY, 0, log)
  }
}
