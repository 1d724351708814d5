/** How a turn of the loop ends a connection, told by what is in the buffer and what meets the read. */
module Refusals {
  import opened Bytes
  import opened HeadParser
  import opened ContentLength
  import opened Io
  import opened Responses
  import opened Connection

  const TEXT_431: bytes := "HTTP/1.1 " + "431" + " " + "Request Header Fields Too Large" + "\r\n" + "Connection: close\r\n\r\n"
  const TEXT_413: bytes := "HTTP/1.1 " + "413" + " " + "Payload Too Large" + "\r\n" + "Connection: close\r\n\r\n"
  const TEXT_400: bytes := "HTTP/1.1 " + "400" + " " + "Bad Request" + "\r\n" + "Connection: close\r\n\r\n"

  /** The turn ended the connection like this, with this log. */
  predicate Ends(t: Turn, exit: Exit, log: Log) {
    t.Halt? && t.exit == exit && t.final.log == log
  }

  lemma Texts()
    ensures REQUEST_HEADER_FIELDS_TOO_LARGE == TEXT_431 && PAYLOAD_TOO_LARGE_RESPONSE == TEXT_413
    ensures BAD_REQUEST_RESPONSE == TEXT_400
  {
  }

  /** With an undecided head the 64 KiB cap comes first, then what meets the read: a failure, a
      client idle for too long between requests (and only there), the end of the input, or more. */
  lemma UndecidedTurn(p: Policy, c: Client, s: Conn)
    requires p.limit.None? && Sound(p, c, s) && Parse(Window(c, s)).Partial?
    ensures var t, a := Step(p, c, s), c.arrivals(s.readsDone);
            if s.filled >= 0x1_0000 then Ends(t, HeadTooLarge, s.log.(sent := s.log.sent + TEXT_431))
            else if a.Broken? then Ends(t, ReadFailed, s.log)
            else if a.Late? && s.filled == 0 then Ends(t, IdleTimeout, s.log)
            else if s.base + s.filled == |c.input| then Ends(t, EndOfInput, s.log)
            else t.Wait? && t.next.log == s.log && t.next.base == s.base && s.filled < t.next.filled <= t.next.cap
                 && t.next.cap == if s.filled < s.cap then s.cap else Min(s.cap + s.cap, 0x1_0000)
  {
    hide Parse, REQUEST_HEADER_FIELDS_TOO_LARGE, TEXT_431;
    Texts();
  }

  /** A head that cannot be one ends the connection without a word. */
  lemma MalformedTurn(p: Policy, c: Client, s: Conn)
    requires Sound(p, c, s) && Parse(Window(c, s)).Error?
    ensures Ends(Step(p, c, s), BadHead, s.log)
  {
  }

  /** A complete head is refused exactly for a bad declared length, without a word, or for one of
      more than 10 MiB, with the 413 and before any octet of the body is read or made room for. */
  lemma RefusedTurn(p: Policy, c: Client, s: Conn)
    requires p.limit.None? && Sound(p, c, s) && Parse(Window(c, s)).Complete?
    ensures var t, n := Step(p, c, s), LengthOf(Parse(Window(c, s)).head.headers);
            if n.None? then Ends(t, BadLength, s.log)
            else if n.value > 10_485_760 then
              && Ends(t, BodyTooLarge, s.log.(begun := s.log.begun + 1, sent := s.log.sent + TEXT_413))
              && t.final.readsDone == s.readsDone && t.final.cap == s.cap
            else !t.Halt? || (t.exit !in {BadLength, BodyTooLarge} && t.final.log.begun == s.log.begun + 1)
  {
    hide Parse, LengthOf, Answer, PAYLOAD_TOO_LARGE_RESPONSE, TEXT_413, Fill;
    Texts();
  }

  /** A body that the input has not got in full ends the connection without a word, and without a call. */
  lemma CutBodyTurn(p: Policy, c: Client, s: Conn)
    requires Sound(p, c, s) && Parse(Window(c, s)).Complete?
    requires var parsed := Parse(Window(c, s));
             var n := LengthOf(parsed.head.headers);
             n.Some? && n.value <= 10_485_760 && s.base + parsed.len + n.value > |c.input|
    ensures var t := Step(p, c, s);
            t.Halt? && t.exit in {EndMidBody, ReadFailed} && t.final.log == s.log.(begun := s.log.begun + 1)
  {
    hide Parse, LengthOf, Answer;
  }

  /** A header value that is no text is answered with the 400, and the handler is not called;
      with text in all of them it always is. */
  lemma UntextualTurn(p: Policy, log: Log, head: Head, body: bytes)
    requires p.limit.None?
    ensures var v := Answer(p, log, head, body);
            if exists h :: h in head.headers && !ValidUtf8(h.value) then
              v == Verdict(log.(sent := log.sent + TEXT_400), Some(BadHeaderValue))
            else |v.log.calls| == |log.calls| + 1 && v.stop != Some(BadHeaderValue)
  {
    hide BAD_REQUEST_RESPONSE, TEXT_400, ValidUtf8, Wire, HeadOf, RequestOf;
    Texts();
  }

  /** A response without framing of its own whose spooled body has no length that can be had. */
  predicate Unframeable(r: Response) {
    && r.body.Spooled? && !r.body.file.sized
    && forall h :: h in r.headers ==>
         !EqIgnoreCase(Trim(h.name), "content-length") && !EqIgnoreCase(Trim(h.name), "transfer-encoding")
  }

  lemma UnframeableHasNoWire(r: Response, last: bool)
    requires Unframeable(r)
    ensures Wire(r, last).None?
  {
    hide EqIgnoreCase, Trim;
    assert forall h :: h in WithoutConnection(r.headers) ==> !IsFraming(h);
  }

  /** Such a response is not sent at all. */
  lemma UnframeableTurn(p: Policy, log: Log, head: Head, body: bytes)
    requires p.limit.None? && AllUtf8(head.headers)
    requires Unframeable(p.respond(log.calls + [RequestOf(head, body)]))
    ensures var v := Answer(p, log, head, body);
            v.stop == Some(FileFailed) && v.log.sent == log.sent && |v.log.calls| == |log.calls| + 1
  {
    hide Wire, HeadOf, IsHead, AllUtf8, RequestOf, Unframeable;
    UnframeableHasNoWire(p.respond(log.calls + [RequestOf(head, body)]), log.served + 1 >= p.maxKeepalive);
  }

  /** A response without a length that can be had is not sent at all; one whose file fails on the
      way is sent up to there. Either way nothing follows. */
  lemma BrokenFileTurn(p: Policy, log: Log, head: Head, body: bytes)
    requires p.limit.None? && AllUtf8(head.headers)
    requires var r := p.respond(log.calls + [RequestOf(head, body)]);
             r.body.Spooled? && (Wire(r, log.served + 1 >= p.maxKeepalive).None? || (!Healthy(r.body.file) && !IsHead(head.method_)))
    ensures var r := p.respond(log.calls + [RequestOf(head, body)]);
            var w := Wire(r, log.served + 1 >= p.maxKeepalive);
            var v := Answer(p, log, head, body);
            && v.stop == Some(FileFailed) && |v.log.calls| == |log.calls| + 1
            && v.log.sent == if w.None? then log.sent else log.sent + (HeadOf(w.value.status, w.value.headers) + Readable(r.body.file))
  {
    hide HeadOf, IsHead, AllUtf8, RequestOf, Framed;
  }
}
