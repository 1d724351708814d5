/** Responses: Connection stripping, framing, serialization and body writing. */
module Responses {
  import opened Bytes
  import opened HeadParser
  import opened Io

  type Status = n: nat | n < 0x1_0000

  datatype Body = InMemory(data: bytes) | Spooled(file: FileImage)

  datatype Response = Response(status: Status, headers: seq<Header>, body: Body)

  const SPOOLED_BODY_CHUNK_SIZE: nat := 128 * 1024

  const CLOSE: Header := Header("Connection", "close")

  /* ---- Headers ---- */

  predicate Named(h: Header, name: bytes) {
    EqIgnoreCase(Trim(h.name), name)
  }

  predicate IsConnection(h: Header) {
    Named(h, "connection")
  }

  predicate IsFraming(h: Header) {
    Named(h, "content-length") || Named(h, "transfer-encoding")
  }

  predicate HasFraming(headers: seq<Header>) {
    exists h :: h in headers && IsFraming(h)
  }

  function WithoutConnection(headers: seq<Header>): (kept: seq<Header>)
    ensures forall h :: h in kept <==> h in headers && !IsConnection(h)
  {
    if headers == [] then []
    else
      var rest := WithoutConnection(headers[..|headers| - 1]);
      var last := headers[|headers| - 1];
      if IsConnection(last) then rest else rest + [last]
  }

  lemma StripsOne(h: Header)
    ensures WithoutConnection([h]) == if IsConnection(h) then [] else [h]
  {
    hide IsConnection;
    assert [h][..0] == [];
  }

  /** Stripping is headerwise (with StripsOne): what is kept keeps its order and its repetitions. */
  lemma {:induction false} StripsHeaderwise(a: seq<Header>, b: seq<Header>)
    ensures WithoutConnection(a + b) == WithoutConnection(a) + WithoutConnection(b)
    decreases |b|
  {
    hide IsConnection;
    if b == [] {
      assert a + b == a;
    } else {
      var front, last := b[..|b| - 1], b[|b| - 1];
      assert (a + b)[..|a + b| - 1] == a + front && (a + b)[|a + b| - 1] == last;
      StripsHeaderwise(a, front);
      assert WithoutConnection(a) + WithoutConnection(front) + [last] == WithoutConnection(a) + (WithoutConnection(front) + [last]);
    }
  }

  function BodySize(body: Body): nat {
    match body
    case InMemory(data) => |data|
    case Spooled(file) => |file.content|
  }

  function LengthField(n: nat): Header {
    Header("Content-Length", Decimal(n))
  }

  /** The headers with framing ensured; None when a spool file's length cannot be had. */
  function Framed(headers: seq<Header>, body: Body): Option<seq<Header>> {
    if HasFraming(headers) then Some(headers)
    else if body.Spooled? && !body.file.sized then None
    else Some(headers + [LengthField(BodySize(body))])
  }

  /** The response as the engine puts it on the wire; `last` is the final one it will answer. */
  function Wire(r: Response, last: bool): Option<Response> {
    match Framed(WithoutConnection(r.headers), r.body)
    case None => None
    case Some(headers) => Some(r.(headers := if last then headers + [CLOSE] else headers))
  }

  /* ---- The head ---- */

  function ErrorPhrase(status: Status): bytes {
    match status
    case 404 => "Not Found"
    case 405 => "Method Not Allowed"
    case 413 => "Payload Too Large"
    case 414 => "URI Too Long"
    case 431 => "Request Header Fields Too Large"
    case 500 => "Internal Server Error"
    case 501 => "Not Implemented"
    case 502 => "Bad Gateway"
    case 503 => "Service Unavailable"
    case _ => "Unknown Status"
  }

  function ReasonPhrase(status: Status): bytes {
    match status
    case 200 => "OK"
    case 201 => "Created"
    case 202 => "Accepted"
    case 204 => "No Content"
    case 301 => "Moved Permanently"
    case 302 => "Found"
    case 304 => "Not Modified"
    case 400 => "Bad Request"
    case 401 => "Unauthorized"
    case 403 => "Forbidden"
    case _ => ErrorPhrase(status)
  }

  const VERSION: bytes := "HTTP/1.1 "
  const SPACE: bytes := " "
  const SEPARATOR: bytes := ": "

  function StatusLine(status: Status): bytes {
    VERSION + Decimal(status) + SPACE + ReasonPhrase(status) + CRLF
  }

  function HeaderLine(h: Header): bytes {
    h.name + SEPARATOR + h.value + CRLF
  }

  function HeaderLines(headers: seq<Header>): bytes {
    if headers == [] then [] else HeaderLine(headers[0]) + HeaderLines(headers[1..])
  }

  function HeadOf(status: Status, headers: seq<Header>): bytes {
    StatusLine(status) + HeaderLines(headers) + CRLF
  }

  lemma {:induction false} HeaderLinesSnoc(headers: seq<Header>, h: Header)
    ensures HeaderLines(headers + [h]) == HeaderLines(headers) + HeaderLine(h)
  {
    if headers == [] {
      assert [h][1..] == [];
    } else {
      HeaderLinesSnoc(headers[1..], h);
      assert (headers + [h])[1..] == headers[1..] + [h];
    }
  }

  /* ---- Sending ---- */

  datatype Outcome = Wrote | SocketBroke | FileBroke

  datatype Transmission = Transmission(sent: bytes, outcome: Outcome)

  /** The body octets that can be had at all, and whether that is the whole body. */
  function BodyBytes(body: Body): bytes {
    match body
    case InMemory(data) => data
    case Spooled(file) => Readable(file)
  }

  predicate Intact(body: Body) {
    body.InMemory? || Healthy(body.file)
  }

  /** Sends front followed by the body as one image. */
  function Transmit(limit: Option<nat>, sent: bytes, front: bytes, body: Body): (t: Transmission)
    requires Fits(limit, sent)
    ensures Fits(limit, t.sent) && sent <= t.sent
  {
    var d := Put(limit, sent, front + BodyBytes(body));
    Transmission(d.sent, if !d.ok then SocketBroke else if Intact(body) then Wrote else FileBroke)
  }

  /** A response as the handler hands it over: its headers are edited in place. */
  class HandlerResponse {
    const status: Status
    var headers: seq<Header>
    const data: bytes
    const file: SpoolFile?   // the spool file, if the body is not in memory

    constructor (value: Response, pos: nat)
      ensures Value() == value
      ensures file != null ==> fresh(file)
    {
      status, headers := value.status, value.headers;
      data := if value.body.InMemory? then value.body.data else [];
      if value.body.Spooled? {
        var spool := new SpoolFile(value.body.file, pos);
        file := spool;
      } else {
        file := null;
      }
    }

    function BodyValue(): Body {
      if file == null then InMemory(data) else Spooled(file.image)
    }

    function Value(): Response
      reads this
    {
      Response(status, headers, BodyValue())
    }

    /** headers.retain(..): drops every Connection field the handler set. */
    method StripConnection()
      modifies this`headers
      ensures headers == WithoutConnection(old(headers))
    {
      var kept: seq<Header> := [];
      for i := 0 to |headers|
        invariant headers == old(headers)
        invariant kept == WithoutConnection(headers[..i])
      {
        assert headers[..i + 1][..i] == headers[..i];
        if !IsConnection(headers[i]) {
          kept := kept + [headers[i]];
        }
      }
      assert headers[..|headers|] == headers;
      headers := kept;
    }

    method EnsureFraming() returns (ok: bool)
      modifies this`headers
      ensures ok <==> Framed(old(headers), BodyValue()).Some?
      ensures headers == if ok then Framed(old(headers), BodyValue()).value else old(headers)
    {
      for i := 0 to |headers|
        invariant headers == old(headers)
        invariant forall j :: 0 <= j < i ==> !IsFraming(headers[j])
      {
        if IsFraming(headers[i]) {
          return true;
        }
      }
      assert !HasFraming(headers);
      if file != null && !file.image.sized {
        return false;
      }
      var size := if file == null then |data| else |file.image.content|;
      headers := headers + [LengthField(size)];
      return true;
    }

    method AddClose()
      modifies this`headers
      ensures headers == old(headers) + [CLOSE]
    {
      headers := headers + [CLOSE];
    }

    method SerializeHead() returns (head: bytes)
      ensures head == HeadOf(status, headers)
    {
      var lines: bytes := [];
      for i := 0 to |headers|
        invariant lines == HeaderLines(headers[..i])
      {
        HeaderLinesSnoc(headers[..i], headers[i]);
        assert headers[..i] + [headers[i]] == headers[..i + 1];
        lines := lines + HeaderLine(headers[i]);
      }
      assert headers[..|headers|] == headers;
      head := StatusLine(status) + lines + CRLF;
    }

    /** The body, in one write or streamed back from its file in chunks: any short
        reads and any file position on entry give the same octets. */
    method WriteBody(socket: Socket) returns (outcome: Outcome)
      requires socket.Valid()
      modifies socket`sent, file
      ensures socket.Valid()
      ensures Transmission(socket.sent, outcome) == Transmit(socket.limit, old(socket.sent), [], BodyValue())
    {
      assert [] + BodyBytes(BodyValue()) == BodyBytes(BodyValue());
      if file == null {
        var ok := socket.WriteAll(data);
        return if ok then Wrote else SocketBroke;
      }
      var all := Readable(file.image);
      file.Rewind();
      var chunk := new byte[SPOOLED_BODY_CHUNK_SIZE];
      while true
        invariant socket.Valid() && file.pos <= |all| && fresh(chunk)
        invariant socket.sent == old(socket.sent) + all[..file.pos]
        decreases |all| - file.pos
      {
        var from := file.pos;
        var r := file.Read(chunk);
        if r.Failed? {
          assert all[..file.pos] == all;
          return FileBroke;
        }
        if r.n == 0 {
          assert all[..file.pos] == all;
          return Wrote;
        }
        assert all[..file.pos] == all[..from] + all[from..file.pos];
        PutPrefix(socket.limit, old(socket.sent), all, from, file.pos);
        var ok := socket.WriteAll(chunk[..r.n]);
        if !ok {
          return SocketBroke;
        }
      }
    }

    /** write_response without the combine-write feature: head, then body. */
    method WriteSplit(socket: Socket, head: bytes) returns (outcome: Outcome)
      requires socket.Valid()
      modifies socket`sent, file
      ensures socket.Valid()
      ensures Transmission(socket.sent, outcome) == Transmit(socket.limit, old(socket.sent), head, BodyValue())
    {
      PutTwice(socket.limit, socket.sent, head, [] + BodyBytes(BodyValue()));
      var ok := socket.WriteAll(head);
      if !ok {
        return SocketBroke;
      }
      outcome := WriteBody(socket);
    }

    /** write_response with the combine-write feature: one write for an in-memory body. */
    method WriteCombined(socket: Socket, head: bytes) returns (outcome: Outcome)
      requires socket.Valid()
      modifies socket`sent, file
      ensures socket.Valid()
      ensures Transmission(socket.sent, outcome) == Transmit(socket.limit, old(socket.sent), head, BodyValue())
    {
      if file == null {
        var ok := socket.WriteAll(head + data);
        return if ok then Wrote else SocketBroke;
      }
      outcome := WriteSplit(socket, head);
    }
  }

  /** Writing a in one go or as a part and then the rest comes to the same. */
  lemma PutTwice(limit: Option<nat>, sent: bytes, a: bytes, b: bytes)
    requires Fits(limit, sent)
    ensures var d := Put(limit, sent, a);
            Put(limit, sent, a + b) == if d.ok then Put(limit, d.sent, b) else d
  {
    assert sent + (a + b) == (sent + a) + b;
  }

  /** A write that breaks while a prefix is being sent breaks at the same octet. */
  lemma PutPrefix(limit: Option<nat>, sent: bytes, all: bytes, from: nat, to: nat)
    requires from <= to <= |all|
    requires Fits(limit, sent) && Fits(limit, sent + all[..from])
    ensures var d := Put(limit, sent + all[..from], all[from..to]);
            if d.ok then d.sent == sent + all[..to] else d == Put(limit, sent, all)
  {
    assert all[..from] + all[from..to] == all[..to];
    assert sent + all[..from] + all[from..to] == sent + all[..to];
    assert all == all[..to] + all[to..];
    assert sent + all == (sent + all[..to]) + all[to..];
  }
}
