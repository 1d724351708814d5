/** What holds of every run of the loop, however its input arrives and whatever fails. */
module Lifecycle {
  import opened Bytes
  import opened HeadParser
  import opened Io
  import opened Responses
  import opened Connection
  import opened Segmentation

  /** How many requests a connection may be answered (max_keepalive 0 still answers one). */
  function Quota(p: Policy): nat {
    Max(1, p.maxKeepalive)
  }

  /** Every guard but possibly the last belongs to an answered request; a connection that ends
      between requests has answered all it began. */
  predicate Accounted(before: Log, after: Log, exit: Exit) {
    && 0 <= (after.begun - before.begun) - (after.served - before.served) <= 1
    && (exit in {EndOfInput, IdleTimeout, HeadTooLarge, BadHead, BadLength, LimitReached} ==>
          after.begun - before.begun == after.served - before.served)
    && (exit in {EndMidBody, BodyTooLarge, BadHeaderValue} ==>
          after.begun - before.begun == after.served - before.served + 1)
  }

  /** How one turn that began with `log` moves the counts, once a head has been admitted or refused. */
  predicate Counted(p: Policy, log: Log, t: Turn) {
    match t
    case Wait(next) => next.log == log
    case Onward(next) =>
      && next.log.served == log.served + 1 < Quota(p)
      && next.log.begun == log.begun + 1
      && |next.log.calls| == |log.calls| + 1
    case Halt(final, exit) =>
      && final.log.served <= log.served + 1
      && |final.log.calls| <= |log.calls| + 1
      && Accounted(log, final.log, exit)
      && (exit == LimitReached ==> final.log.served == Quota(p))
      && (final.log.served == Quota(p) ==> exit in {LimitReached, WriteFailed, FileFailed})
  }

  lemma BodyCounts(p: Policy, c: Client, s: Conn, n: nat, head: Head, len: nat, log: Log)
    requires Sound(p, c, s) && s.log.served < Quota(p) && n <= s.filled
    requires s.log == log.(begun := log.begun + 1)
    ensures Counted(p, log, TakeBody(p, c, s, n, head, len))
  {
    hide Wire, Transmit, Extends, Fill, Put, AllUtf8, RequestOf;
  }

  lemma StepCounts(p: Policy, c: Client, s: Conn)
    requires Sound(p, c, s) && s.log.served < Quota(p)
    ensures Counted(p, s.log, Step(p, c, s))
  {
    hide Parse, TakeBody, Extends, Put;
    var parsed := Parse(Window(c, s));
    if parsed.Complete? {
      var a := Admit(p, s.log, parsed.head);
      if a.Accept? {
        BodyCounts(p, c, s.(log := a.log), parsed.len, parsed.head, a.bodyLen, s.log);
      }
    }
  }

  /** At most max_keepalive requests are answered, the loop stops at that one, and guards and answers match up. */
  lemma {:induction false} KeepAliveLimit(p: Policy, c: Client, s: Conn)
    requires Sound(p, c, s) && s.log.served < Quota(p)
    ensures var e := Run(p, c, s);
            && e.final.log.served <= Quota(p)
            && |e.final.log.calls| - |s.log.calls| <= Quota(p) - s.log.served
            && (e.exit == LimitReached ==> e.final.log.served == Quota(p))
            && (e.final.log.served == Quota(p) ==> e.exit in {LimitReached, WriteFailed, FileFailed})
            && Accounted(s.log, e.final.log, e.exit)
    decreases |c.input| - s.base, |c.input| - s.base - s.filled
  {
    hide Step;
    StepCounts(p, c, s);
    if !Step(p, c, s).Halt? {
      KeepAliveLimit(p, c, Step(p, c, s).next);
    }
  }

  /* ---- The buffer ---- */

  /** The head this turn takes, if it takes one. */
  predicate Accepts(p: Policy, c: Client, s: Conn)
    requires Sound(p, c, s)
  {
    var parsed := Parse(Window(c, s));
    parsed.Complete? && Admit(p, s.log, parsed.head).Accept?
  }

  lemma StepGrowth(p: Policy, c: Client, s: Conn)
    requires Sound(p, c, s)
    ensures var t := Step(p, c, s);
            var after := if t.Halt? then t.final else t.next;
            && s.cap <= after.cap
            && (after.cap <= Max(s.cap, MAX_BUF_CAPACITY)
                || (after.log.begun == s.log.begun + 1 && Accepts(p, c, s)
                    && after.cap <= Parse(Window(c, s)).len + MAX_BODY_CAPACITY))
  {
    hide Parse, Answer;
  }

  /** The buffer never shrinks and stays within the head cap plus one body cap per accepted request. */
  lemma {:induction false} BufferBound(p: Policy, c: Client, s: Conn)
    requires Sound(p, c, s)
    requires s.cap <= MAX_BUF_CAPACITY + s.log.begun * MAX_BODY_CAPACITY
    ensures var e := Run(p, c, s);
            s.cap <= e.final.cap <= MAX_BUF_CAPACITY + e.final.log.begun * MAX_BODY_CAPACITY
    decreases |c.input| - s.base, |c.input| - s.base - s.filled
  {
    hide Step;
    StepGrowth(p, c, s);
    if !Step(p, c, s).Halt? {
      BufferBound(p, c, Step(p, c, s).next);
    }
  }

  /** Every head this run accepts is within the head cap. */
  predicate HeadsWithin(p: Policy, c: Client, s: Conn)
    requires Sound(p, c, s)
    decreases |c.input| - s.base, |c.input| - s.base - s.filled
  {
    && (Accepts(p, c, s) ==> Parse(Window(c, s)).len <= MAX_BUF_CAPACITY)
    && (!Step(p, c, s).Halt? ==> HeadsWithin(p, c, Step(p, c, s).next))
  }

  /** Then one head and one body is the most the buffer ever holds. */
  lemma {:induction false} HeadsBufferBound(p: Policy, c: Client, s: Conn)
    requires Sound(p, c, s) && HeadsWithin(p, c, s)
    requires s.cap <= MAX_BUF_CAPACITY + MAX_BODY_CAPACITY
    ensures s.cap <= Run(p, c, s).final.cap <= MAX_BUF_CAPACITY + MAX_BODY_CAPACITY
    decreases |c.input| - s.base, |c.input| - s.base - s.filled
  {
    hide Step, Parse, Accepts;
    StepGrowth(p, c, s);
    if !Step(p, c, s).Halt? {
      HeadsBufferBound(p, c, Step(p, c, s).next);
    }
  }

  /** Heads are within the cap on clear input, however it arrives. */
  lemma {:induction false} ClearHeadsWithin(p: Policy, c: Client, s: Conn, peak: nat)
    requires Sound(p, c, s) && Fitting(s, peak)
    requires Clear(p, Rest(c, s), s.log, peak)
    ensures HeadsWithin(p, c, s)
    decreases |c.input| - s.base, |c.input| - s.base - s.filled
  {
    hide Step, Due, Parse;
    StepMeetsDue(p, c, s, peak);
    if Parse(Window(c, s)).Complete? {
      WindowVerdict(p, c, s, peak);
    }
    var t := Step(p, c, s);
    match t
    case Halt(_, _) =>
    case Wait(next) =>
      ClearHeadsWithin(p, c, next, peak);
    case Onward(next) =>
      assert Rest(c, next) == Rest(c, s)[next.base - s.base..];
      ClearHeadsWithin(p, c, next, Max(peak, next.base - s.base));
  }

  lemma ClearBufferBound(p: Policy, c: Client, s: Conn, peak: nat)
    requires Sound(p, c, s) && Fitting(s, peak)
    requires Clear(p, Rest(c, s), s.log, peak)
    requires s.cap <= MAX_BUF_CAPACITY + MAX_BODY_CAPACITY
    ensures Run(p, c, s).final.cap <= MAX_BUF_CAPACITY + MAX_BODY_CAPACITY
  {
    hide Run, HeadsWithin, Clear;
    ClearHeadsWithin(p, c, s, peak);
    HeadsBufferBound(p, c, s);
  }

  /** Heads are within the cap on every input that comes octet by octet. */
  lemma {:induction false} SlowHeadsWithin(p: Policy, c: Client, s: Conn, peak: nat)
    requires Sound(p, c, s) && Fitting(s, peak) && Stepwise(c, s)
    requires c == Trickle(c.input, |c.input| + 1)
    ensures HeadsWithin(p, c, s)
    decreases |c.input| - s.base, |c.input| - s.base - s.filled
  {
    hide Step, Due, Parse;
    StepMeetsDue(p, c, s, peak);
    TrickleStep(p, c, s, |c.input| + 1);
    match Step(p, c, s)
    case Halt(_, _) =>
    case Wait(next) =>
      SlowHeadsWithin(p, c, next, peak);
    case Onward(next) =>
      SlowHeadsWithin(p, c, next, Max(peak, next.base - s.base));
  }

  /* ---- Idle timeout ---- */

  lemma IdleStep(p: Policy, c: Client, s: Conn)
    requires Sound(p, c, s)
    ensures var t := Step(p, c, s);
            t.Halt? && t.exit == IdleTimeout ==>
              && s.filled == 0 && t.final == s.(readsDone := s.readsDone + 1)
              && c.arrivals(s.readsDone).Late?
  {
    hide Parse, Answer;
  }

  /** The same client, had it closed after `end` octets, arriving as before in its first
      `count` reads. */
  function Closing(c: Client, end: nat, count: nat): Client
    requires end <= |c.input|
  {
    Client(c.input[..end], (k: nat) => if k < count then c.arrivals(k) else Prompt(1))
  }

  lemma {:induction false} FillOnward(c: Client, base: nat, filled: nat, end: nat, readsDone: nat)
    requires base + filled <= |c.input|
    ensures Fill(c, base, filled, end, readsDone).readsDone >= readsDone
    decreases end - filled
  {
    if filled < end {
      var r := ReadOutcome(c.arrivals(readsDone), end - filled, |c.input| - base - filled, false);
      if r.Data? && r.n > 0 {
        FillOnward(c, base, filled + r.n, end, readsDone + 1);
      }
    }
  }

  /** A read that brings nothing beyond the close goes alike. */
  lemma ReadClosing(a: Arrival, window: nat, remaining: nat, left: nat, timed: bool)
    requires window > 0 && left <= remaining
    requires var r := ReadOutcome(a, window, remaining, timed); r.Data? && r.n <= left
    ensures ReadOutcome(a, window, left, timed) == ReadOutcome(a, window, remaining, timed)
  {
  }

  /** A body whose octets all come before the close is read alike. */
  lemma {:induction false} FillClosing(c: Client, close: nat, count: nat, base: nat, filled: nat, end: nat, readsDone: nat)
    requires base + filled <= close <= |c.input|
    requires var f := Fill(c, base, filled, end, readsDone);
             f.Full? && base + f.filled <= close && f.readsDone <= count
    ensures Fill(Closing(c, close, count), base, filled, end, readsDone) == Fill(c, base, filled, end, readsDone)
    decreases end - filled
  {
    hide ReadOutcome;
    if filled < end {
      var a, window, remaining := c.arrivals(readsDone), end - filled, |c.input| - base - filled;
      var r := ReadOutcome(a, window, remaining, false);
      FillOnward(c, base, filled + r.n, end, readsDone + 1);
      ReadClosing(a, window, remaining, close - base - filled, false);
      FillClosing(c, close, count, base, filled + r.n, end, readsDone + 1);
    }
  }

  /** A turn moves on through the input and through the reads. */
  lemma StepOnward(p: Policy, c: Client, s: Conn)
    requires Sound(p, c, s)
    ensures var t := Step(p, c, s);
            !t.Halt? ==> s.base + s.filled <= t.next.base + t.next.filled && s.readsDone <= t.next.readsDone
  {
    hide Parse, Answer;
    var parsed := Parse(Window(c, s));
    if parsed.Complete? && Admit(p, s.log, parsed.head).Accept? {
      FillOnward(c, s.base, s.filled, parsed.len + Admit(p, s.log, parsed.head).bodyLen, s.readsDone);
    }
  }

  /** Where a run that times out ends: all that was ever taken is answered, and the last read is the idle one. */
  lemma {:induction false} IdleEnd(p: Policy, c: Client, s: Conn)
    requires Sound(p, c, s)
    ensures var e := Run(p, c, s);
            e.exit == IdleTimeout ==>
              && e.final.filled == 0 && s.base + s.filled <= e.final.base
              && s.readsDone < e.final.readsDone && c.arrivals(e.final.readsDone - 1).Late?
    decreases |c.input| - s.base, |c.input| - s.base - s.filled
  {
    hide Step;
    StepOnward(p, c, s);
    IdleStep(p, c, s);
    if !Step(p, c, s).Halt? {
      IdleEnd(p, c, Step(p, c, s).next);
    }
  }

  lemma WindowClosing(c: Client, end: nat, count: nat, s: Conn)
    requires s.base + s.filled <= end <= |c.input|
    ensures Window(Closing(c, end, count), s) == Window(c, s)
  {
  }

  lemma TakeClosing(p: Policy, c: Client, s: Conn, n: nat, head: Head, len: nat, end: nat, count: nat)
    requires Sound(p, c, s) && n <= s.filled && s.base + s.filled <= end <= |c.input|
    requires var t := TakeBody(p, c, s, n, head, len);
             t.Onward? && t.next.base + t.next.filled <= end && t.next.readsDone <= count
    ensures TakeBody(p, Closing(c, end, count), s, n, head, len) == TakeBody(p, c, s, n, head, len)
  {
    hide Answer, Fill;
    var c' := Closing(c, end, count);
    FillClosing(c, end, count, s.base, s.filled, n + len, s.readsDone);
    assert c'.input[s.base + n..s.base + n + len] == c.input[s.base + n..s.base + n + len];
  }

  lemma ReadOnClosing(p: Policy, c: Client, s: Conn, end: nat, count: nat)
    requires Sound(p, c, s) && s.base + s.filled <= end <= |c.input|
    requires var t := ReadOn(p, c, s);
             t.Wait? && t.next.base + t.next.filled <= end && t.next.readsDone <= count
    ensures ReadOn(p, Closing(c, end, count), s) == ReadOn(p, c, s)
  {
    hide ReadOutcome;
    ReadClosing(c.arrivals(s.readsDone), Grown(s) - s.filled, |c.input| - s.base - s.filled, end - s.base - s.filled, s.filled == 0);
  }

  /** A turn that takes nothing beyond the close goes alike. */
  lemma StepClosing(p: Policy, c: Client, s: Conn, end: nat, count: nat)
    requires Sound(p, c, s) && s.base + s.filled <= end <= |c.input|
    requires var t := Step(p, c, s);
             !t.Halt? && t.next.base + t.next.filled <= end && t.next.readsDone <= count
    ensures Step(p, Closing(c, end, count), s) == Step(p, c, s)
  {
    hide Parse, TakeBody, ReadOn, Admit;
    WindowClosing(c, end, count, s);
    match Parse(Window(c, s))
    case Error =>
    case Partial =>
      ReadOnClosing(p, c, s, end, count);
    case Complete(n, head) =>
      var a := Admit(p, s.log, head);
      if a.Accept? {
        TakeClosing(p, c, s.(log := a.log), n, head, a.bodyLen, end, count);
      }
  }

  lemma LastStepClosing(p: Policy, c: Client, s: Conn)
    requires Sound(p, c, s)
    requires Step(p, c, s).Halt? && Step(p, c, s).exit == IdleTimeout
    ensures Step(p, Closing(c, s.base, s.readsDone), s) == Halt(Step(p, c, s).final, EndOfInput)
  {
    hide Answer;
    IdleStep(p, c, s);
    assert Window(c, s) == [];
  }

  /** On every input, an idle timeout strikes with nothing buffered, and everything the loop did
      is what it would have done had the client closed after the last answered request. */
  lemma {:induction false} IdleTimeoutLosesNothing(p: Policy, c: Client, s: Conn)
    requires Sound(p, c, s) && Run(p, c, s).exit == IdleTimeout
    ensures var final := Run(p, c, s).final;
            && final.filled == 0 && s.base + s.filled <= final.base && s.readsDone < final.readsDone
            && Run(p, Closing(c, final.base, final.readsDone - 1), s) == Ended(final, EndOfInput)
    decreases |c.input| - s.base, |c.input| - s.base - s.filled
  {
    hide Step;
    IdleEnd(p, c, s);
    var final := Run(p, c, s).final;
    IdleStep(p, c, s);
    if Step(p, c, s).Halt? {
      LastStepClosing(p, c, s);
    } else {
      IdleTimeoutLosesNothing(p, c, Step(p, c, s).next);
      StepClosing(p, c, s, final.base, final.readsDone - 1);
    }
  }

  lemma ViewOfPrefix(rest: bytes, k: nat, n: nat)
    requires n <= k <= |rest| && n <= MAX_BUF_CAPACITY
    ensures n <= |View(rest)| && n <= |View(rest[..k])| && View(rest[..k])[..n] == View(rest)[..n]
  {
    assert forall i :: 0 <= i < n ==> View(rest[..k])[..n][i] == rest[i] == View(rest)[..n][i];
  }

  /** A request that was taken is due to the shorter input that ends anywhere after it. */
  lemma DueOfPrefix(p: Policy, rest: bytes, k: nat, log: Log)
    requires Fits(p.limit, log.sent) && k <= |rest|
    requires Due(p, rest, log).Owes? && Due(p, rest, log).eaten <= k
    ensures Due(p, rest[..k], log) == Due(p, rest, log)
  {
    hide Parse, Answer, Admit;
    var view, view' := View(rest), View(rest[..k]);
    var n := Parse(view).len;
    ViewOfPrefix(rest, k, n);
    ParseExact(view, n);
    ParseStable(view[..n], view');
    var a := Admit(p, log, Parse(view).head);
    if a.Accept? && n + a.bodyLen <= k {
      assert rest[..k][n..n + a.bodyLen] == rest[n..n + a.bodyLen];
    }
  }

  /** On clear input what the client got is what the server owes to the requests answered. */
  lemma {:induction false} IdleTimeoutServed(p: Policy, c: Client, s: Conn, peak: nat)
    requires Sound(p, c, s) && Fitting(s, peak)
    requires Clear(p, Rest(c, s), s.log, peak)
    ensures var e := Run(p, c, s);
            e.exit == IdleTimeout ==>
              e.final.filled == 0 && Serve(p, c.input[s.base..e.final.base], s.log) == Result(e.final.log, EndOfInput)
    decreases |c.input| - s.base, |c.input| - s.base - s.filled
  {
    hide Step, Due, Parse;
    StepMeetsDue(p, c, s, peak);
    IdleStep(p, c, s);
    var e := Run(p, c, s);
    if e.exit != IdleTimeout {
      return;
    }
    var t := Step(p, c, s);
    match t
    case Halt(_, _) =>
      EmptyIsOver(p, s.log);
      assert c.input[s.base..s.base] == [];
    case Wait(next) =>
      IdleTimeoutServed(p, c, next, peak);
    case Onward(next) =>
      var eaten := next.base - s.base;
      assert Rest(c, next) == Rest(c, s)[eaten..];
      IdleTimeoutServed(p, c, next, Max(peak, eaten));
      var k := e.final.base - s.base;
      assert c.input[s.base..e.final.base] == Rest(c, s)[..k];
      DueOfPrefix(p, Rest(c, s), k, s.log);
      assert Rest(c, s)[..k][eaten..] == c.input[next.base..e.final.base];
  }

  lemma EmptyIsOver(p: Policy, log: Log)
    requires Fits(p.limit, log.sent)
    ensures Serve(p, [], log) == Result(log, EndOfInput)
  {
    assert View([]) == [];
  }
}
