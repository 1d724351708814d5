/** A peer that breaks the connection after some number of octets. */
module BrokenPeer {
  import opened Bytes
  import opened HeadParser
  import opened ContentLength
  import opened Io
  import opened Responses
  import opened Connection

  function Patient(p: Policy): Policy {
    p.(limit := Option.None)
  }

  /** Of what a patient peer would have been sent, the peer has taken its limit and no more. */
  predicate CutOff(p: Policy, log: Log, whole: Log) {
    && p.limit.Some? && p.limit.value < |whole.sent| && log.sent == whole.sent[..p.limit.value]
    && log.calls <= whole.calls
  }

  lemma RejectCut(p: Policy, log: Log, text: bytes, exit: Exit)
    requires Fits(p.limit, log.sent) && exit != WriteFailed
    ensures var v, whole := Reject(p, log, text, exit), Reject(Patient(p), log, text, exit);
            && whole.stop != Some(WriteFailed)
            && if v.stop == Some(WriteFailed) then CutOff(p, v.log, whole.log) else v == whole
  {
  }

  lemma AnswerCut(p: Policy, log: Log, head: Head, body: bytes)
    requires Fits(p.limit, log.sent)
    ensures var v, whole := Answer(p, log, head, body), Answer(Patient(p), log, head, body);
            && whole.stop != Some(WriteFailed)
            && if v.stop == Some(WriteFailed) then CutOff(p, v.log, whole.log) else v == whole
  {
    hide Wire, HeadOf, IsHead, AllUtf8, RequestOf, Reject, Readable;
    RejectCut(p, log, BAD_REQUEST_RESPONSE, BadHeaderValue);
  }

  lemma TakeBodyCut(p: Policy, c: Client, s: Conn, n: nat, head: Head, len: nat)
    requires Sound(p, c, s) && n <= s.filled
    ensures var t, whole := TakeBody(p, c, s, n, head, len), TakeBody(Patient(p), c, s, n, head, len);
            TurnCut(p, t, whole)
  {
    hide Answer, Fill;
    AnswerCut(p, s.log, head, c.input[s.base + n..Min(s.base + n + len, |c.input|)]);
  }

  /** The turn is the patient peer's, or is cut off in the middle of it. */
  predicate TurnCut(p: Policy, t: Turn, whole: Turn) {
    && (whole.Halt? ==> whole.exit != WriteFailed)
    && if t.Halt? && t.exit == WriteFailed then CutOff(p, t.final.log, LogAfter(whole)) else t == whole
  }

  lemma StepCut(p: Policy, c: Client, s: Conn)
    requires Sound(p, c, s)
    ensures TurnCut(p, Step(p, c, s), Step(Patient(p), c, s))
  {
    hide Parse, Answer, Fill, TakeBody, Reject, LengthOf;
    match Parse(Window(c, s))
    case Error =>
    case Partial =>
      RejectCut(p, s.log, REQUEST_HEADER_FIELDS_TOO_LARGE, HeadTooLarge);
    case Complete(n, head) =>
      var begun := s.log.(begun := s.log.begun + 1);
      RejectCut(p, begun, PAYLOAD_TOO_LARGE_RESPONSE, BodyTooLarge);
      var a := Admit(Patient(p), s.log, head);
      if a.Accept? {
        TakeBodyCut(p, c, s.(log := begun), n, head, a.bodyLen);
      }
  }

  lemma {:induction false} NeverFails(p: Policy, c: Client, s: Conn)
    requires Sound(p, c, s) && p.limit.None?
    ensures Run(p, c, s).exit != WriteFailed
    decreases |c.input| - s.base, |c.input| - s.base - s.filled
  {
    hide Step;
    StepCut(p, c, s);
    assert Patient(p) == p;
    if !Step(p, c, s).Halt? {
      NeverFails(p, c, Step(p, c, s).next);
    }
  }

  /** A peer that breaks off has been sent exactly the first octets of what a patient one would
      have been, its write fails exactly when there were more, and until then nothing differs. */
  lemma {:induction false} SentIsPrefix(p: Policy, c: Client, s: Conn)
    requires Sound(p, c, s)
    ensures var e, whole := Run(p, c, s), Run(Patient(p), c, s);
            && whole.exit != WriteFailed
            && (e.exit == WriteFailed <==> p.limit.Some? && p.limit.value < |whole.final.log.sent|)
            && if e.exit == WriteFailed then CutOff(p, e.final.log, whole.final.log) else e == whole
    decreases |c.input| - s.base, |c.input| - s.base - s.filled
  {
    hide Step;
    StepCut(p, c, s);
    var t, whole := Step(p, c, s), Step(Patient(p), c, s);
    if t == whole && !t.Halt? {
      SentIsPrefix(p, c, t.next);
    } else if !whole.Halt? {
      var log, end := whole.next.log, Run(Patient(p), c, whole.next).final.log;
      NeverFails(Patient(p), c, whole.next);
      assert end.sent[..p.limit.value] == log.sent[..p.limit.value];
    }
  }
}
