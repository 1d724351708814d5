/** How far the outcome of a connection depends on the way its input is cut into reads. */
module Segmentation {
  import opened Bytes
  import opened HeadParser
  import opened Io
  import opened Connection

  /** Ties the buffer's capacity to `peak`, the longest request (head and body) accepted so far. */
  predicate Fitting(s: Conn, peak: nat) {
    s.cap <= Max(MAX_BUF_CAPACITY, peak) && (peak > MAX_BUF_CAPACITY ==> s.cap == peak)
  }

  /** No head that is still undecided after MAX_BUF_CAPACITY octets becomes decided
      within a buffer that an earlier request has stretched beyond that. */
  predicate Clear(p: Policy, rest: bytes, log: Log, peak: nat)
    requires Fits(p.limit, log.sent)
    decreases |rest|
  {
    && (Parse(View(rest)).Partial? ==> Parse(rest[..Min(|rest|, Max(peak, MAX_BUF_CAPACITY))]).Partial?)
    && match Due(p, rest, log)
       case Settled(_) => true
       case Owes(eaten, log') => Clear(p, rest[eaten..], log', Max(peak, eaten))
  }

  /** When the buffered octets decide the head, the first MAX_BUF_CAPACITY octets do, alike. */
  lemma WindowVerdict(p: Policy, c: Client, s: Conn, peak: nat)
    requires Sound(p, c, s) && Fitting(s, peak)
    requires s.filled <= MAX_BUF_CAPACITY || Clear(p, Rest(c, s), s.log, peak)
    requires !Parse(Window(c, s)).Partial?
    ensures Parse(View(Rest(c, s))) == Parse(Window(c, s))
  {
    var rest := Rest(c, s);
    var window := Window(c, s);
    assert window == rest[..s.filled];
    if s.filled <= MAX_BUF_CAPACITY {
      ParseStable(window, View(rest));
    } else if Parse(View(rest)).Partial? {
      ParseStable(window, rest[..Min(|rest|, peak)]);
    } else {
      ParseStable(View(rest), window);
    }
  }

  /** When a full window leaves the head undecided, so do the first MAX_BUF_CAPACITY octets. */
  lemma FullWindow(p: Policy, c: Client, s: Conn)
    requires Sound(p, c, s)
    requires Parse(Window(c, s)).Partial?
    requires s.filled >= MAX_BUF_CAPACITY || s.base + s.filled == |c.input|
    ensures Parse(View(Rest(c, s))).Partial?
  {
    var view := View(Rest(c, s));
    assert view <= Window(c, s);
    if !Parse(view).Partial? {
      ParseStable(view, Window(c, s));
    }
  }

  /** The turn t taken in state s pays the debt d; one cut short pays part of it. */
  predicate Pays(s: Conn, t: Turn, d: Debt) {
    match t
    case Wait(_) => true
    case Onward(next) => next.base >= s.base && d == Owes(next.base - s.base, next.log)
    case Halt(final, exit) =>
      if exit in {IdleTimeout, ReadFailed} then Extends(final.log, if d.Owes? then d.log else d.result.log)
      else d == Settled(Result(final.log, exit))
  }

  /** Taking a buffered request from the window is what is due to it. */
  lemma TakeMeetsDue(p: Policy, c: Client, s: Conn, n: nat, head: Head)
    requires Sound(p, c, s) && n <= s.filled
    requires Parse(View(Rest(c, s))) == Complete(n, head)
    ensures var t := TakeRequest(p, c, s, n, head);
            Pays(s, t, Due(p, Rest(c, s), s.log)) && (t.Onward? ==> t.next.cap == Max(s.cap, t.next.base - s.base))
  {
    hide Admit, Answer, Parse, Serve, Clear;
    var a := Admit(p, s.log, head);
    if a.Accept? {
      var end := n + a.bodyLen;
      if s.base + end <= |c.input| {
        assert Rest(c, s)[n..end] == c.input[s.base + n..s.base + end];
      }
    }
  }

  /** One step of the loop against what is due. */
  lemma StepMeetsDue(p: Policy, c: Client, s: Conn, peak: nat)
    requires Sound(p, c, s) && Fitting(s, peak)
    requires s.filled <= MAX_BUF_CAPACITY || Clear(p, Rest(c, s), s.log, peak)
    ensures Pays(s, Step(p, c, s), Due(p, Rest(c, s), s.log))
    ensures Step(p, c, s).Wait? ==> Fitting(Step(p, c, s).next, peak)
    ensures Step(p, c, s).Onward? ==> Fitting(Step(p, c, s).next, Max(peak, Step(p, c, s).next.base - s.base))
  {
    match Parse(Window(c, s))
    case Error =>
      WindowVerdict(p, c, s, peak);
    case Partial =>
      if s.filled >= MAX_BUF_CAPACITY || s.base + s.filled == |c.input| {
        FullWindow(p, c, s);
      }
    case Complete(n, head) =>
      WindowVerdict(p, c, s, peak);
      TakeMeetsDue(p, c, s, n, head);
  }

  /** Every run does what Serve says, unless a timeout or a failed read cuts it short;
      then it has done a beginning of it. */
  lemma {:induction false} RunMeetsServe(p: Policy, c: Client, s: Conn, peak: nat)
    requires Sound(p, c, s) && Fitting(s, peak)
    requires Clear(p, Rest(c, s), s.log, peak)
    ensures var e := Run(p, c, s);
            var r := Serve(p, Rest(c, s), s.log);
            if e.exit in {IdleTimeout, ReadFailed} then Extends(e.final.log, r.log)
            else e.final.log == r.log && e.exit == r.exit
    decreases |c.input| - s.base, |c.input| - s.base - s.filled
  {
    hide Step, Due, Parse;
    StepMeetsDue(p, c, s, peak);
    match Step(p, c, s)
    case Halt(_, _) =>
    case Wait(t) =>
      RunMeetsServe(p, c, t, peak);
    case Onward(t) =>
      var eaten := t.base - s.base;
      assert Rest(c, t) == Rest(c, s)[eaten..];
      RunMeetsServe(p, c, t, Max(peak, eaten));
  }

  /* ---- Prompt clients ---- */

  ghost predicate AllPrompt(arrivals: nat -> Arrival) {
    forall k :: arrivals(k).Prompt?
  }

  lemma {:induction false} PromptFill(c: Client, base: nat, filled: nat, end: nat, readsDone: nat)
    requires AllPrompt(c.arrivals)
    requires base + filled <= |c.input|
    ensures var f := Fill(c, base, filled, end, readsDone); f.Cut? ==> f.exit == EndMidBody
    decreases end - filled
  {
    if filled < end {
      assert c.arrivals(readsDone).Prompt?;
      var r := ReadOutcome(c.arrivals(readsDone), end - filled, |c.input| - base - filled, false);
      if r.n > 0 {
        PromptFill(c, base, filled + r.n, end, readsDone + 1);
      }
    }
  }

  lemma PromptStep(p: Policy, c: Client, s: Conn)
    requires AllPrompt(c.arrivals)
    requires Sound(p, c, s)
    ensures Step(p, c, s).Halt? ==> Step(p, c, s).exit !in {IdleTimeout, ReadFailed}
  {
    assert c.arrivals(s.readsDone).Prompt?;
    var parsed := Parse(Window(c, s));
    if parsed.Complete? {
      var a := Admit(p, s.log, parsed.head);
      if a.Accept? {
        PromptFill(c, s.base, s.filled, parsed.len + a.bodyLen, s.readsDone);
      }
    }
  }

  lemma {:induction false} PromptRun(p: Policy, c: Client, s: Conn)
    requires AllPrompt(c.arrivals)
    requires Sound(p, c, s)
    ensures Run(p, c, s).exit !in {IdleTimeout, ReadFailed}
    decreases |c.input| - s.base, |c.input| - s.base - s.filled
  {
    PromptStep(p, c, s);
    if !Step(p, c, s).Halt? {
      PromptRun(p, c, Step(p, c, s).next);
    }
  }

  /* ---- Octet by octet ---- */

  /** The head is still undecided one octet earlier: nothing was read ahead. */
  predicate Stepwise(c: Client, s: Conn)
    requires s.base + s.filled <= |c.input|
  {
    && s.filled <= MAX_BUF_CAPACITY
    && s.readsDone == s.base + s.filled
    && (s.filled > 0 ==> Parse(Window(c, s)[..s.filled - 1]).Partial?)
  }

  /** A client whose first `until` octets come one at a time, and the rest all at once. */
  function Trickle(input: bytes, until: nat): Client {
    Client(input, (k: nat) => Prompt(if k < until then 1 else |input|))
  }

  /** Octet by octet, a body is read exactly to its end. */
  lemma {:induction false} TrickleFill(c: Client, until: nat, base: nat, filled: nat, end: nat)
    requires c == Trickle(c.input, until)
    requires filled <= end && base + end <= |c.input| && base + end <= until
    ensures Fill(c, base, filled, end, base + filled) == Full(end, base + end)
    decreases end - filled
  {
    if filled < end {
      TrickleFill(c, until, base, filled + 1, end);
    }
  }

  /** Octet by octet, a request is taken without reading anything after it. */
  lemma TrickleTake(p: Policy, c: Client, s: Conn, until: nat, n: nat, head: Head)
    requires Sound(p, c, s) && s.filled == n && s.readsDone == s.base + s.filled
    requires c == Trickle(c.input, until)
    requires var t := TakeRequest(p, c, s, n, head); t.Onward? ==> t.next.base <= until
    ensures var t := TakeRequest(p, c, s, n, head); t.Onward? ==> t.next.filled == 0 && t.next.readsDone == t.next.base
  {
    hide Admit, Answer, Fill;
    var a := Admit(p, s.log, head);
    if TakeRequest(p, c, s, n, head).Onward? {
      TrickleFill(c, until, s.base, n, n + a.bodyLen);
    }
  }

  lemma TrickleRead(p: Policy, c: Client, s: Conn, until: nat)
    requires Sound(p, c, s) && s.readsDone == s.base + s.filled < until
    requires c == Trickle(c.input, until)
    ensures var t := ReadOn(p, c, s);
            t.Wait? ==> t.next.filled == s.filled + 1 <= MAX_BUF_CAPACITY && t.next.readsDone == t.next.base + t.next.filled
  {
  }

  /** Octet by octet, a complete head is noticed at its last octet and nothing is read ahead. */
  lemma TrickleStep(p: Policy, c: Client, s: Conn, until: nat)
    requires Sound(p, c, s) && Stepwise(c, s)
    requires c == Trickle(c.input, until)
    requires Parse(Window(c, s)).Partial? ==> s.base + s.filled < until
    requires Step(p, c, s).Onward? ==> Step(p, c, s).next.base <= until
    ensures !Step(p, c, s).Halt? ==> Stepwise(c, Step(p, c, s).next)
    ensures Step(p, c, s).Onward? ==> Step(p, c, s).next.filled == 0
  {
    hide TakeRequest, ReadOn, Parse, Trickle;
    match Parse(Window(c, s))
    case Error =>
    case Partial =>
      TrickleRead(p, c, s, until);
      if Step(p, c, s).Wait? {
        assert Window(c, Step(p, c, s).next)[..s.filled] == Window(c, s);
      }
    case Complete(n, head) =>
      ParseExact(Window(c, s), s.filled - 1);
      TrickleTake(p, c, s, until, n, head);
  }

  /** A client that sends octet by octet always gets exactly what Serve says. */
  lemma {:induction false} SlowMeetsServe(p: Policy, c: Client, s: Conn, peak: nat)
    requires Sound(p, c, s) && Fitting(s, peak) && Stepwise(c, s)
    requires c == Trickle(c.input, |c.input| + 1)
    ensures var e := Run(p, c, s);
            var r := Serve(p, Rest(c, s), s.log);
            e.final.log == r.log && e.exit == r.exit
    decreases |c.input| - s.base, |c.input| - s.base - s.filled
  {
    hide Step, Due, Parse;
    assert AllPrompt(c.arrivals);
    PromptStep(p, c, s);
    StepMeetsDue(p, c, s, peak);
    TrickleStep(p, c, s, |c.input| + 1);
    match Step(p, c, s)
    case Halt(_, _) =>
    case Wait(t) =>
      SlowMeetsServe(p, c, t, peak);
    case Onward(t) =>
      var eaten := t.base - s.base;
      assert Rest(c, t) == Rest(c, s)[eaten..];
      SlowMeetsServe(p, c, t, Max(peak, eaten));
  }

  /* ---- A client that rushes at the critical head ---- */

  /** Where in rest the head begins on which Clear fails. */
  function Trouble(p: Policy, rest: bytes, log: Log, peak: nat): (at: nat)
    requires Fits(p.limit, log.sent)
    requires !Clear(p, rest, log, peak)
    ensures at <= |rest|
    decreases |rest|
  {
    if Parse(View(rest)).Partial? then 0
    else
      var d := Due(p, rest, log);
      d.eaten + Trouble(p, rest[d.eaten..], d.log, Max(peak, d.eaten))
  }

  /** The two histories differ in a handler call or in what was sent. */
  predicate Differ(a: Log, b: Log) {
    a.calls != b.calls || a.sent != b.sent
  }

  /** A head decided beyond the cap is not answered with the 431 it would get octet by octet. */
  lemma RushedHead(p: Policy, c: Client, s: Conn)
    requires p.limit.None? && Sound(p, c, s)
    requires !Parse(Window(c, s)).Partial?
    ensures Differ(Run(p, c, s).final.log, s.log.(sent := s.log.sent + REQUEST_HEADER_FIELDS_TOO_LARGE))
  {
    assert |PAYLOAD_TOO_LARGE_RESPONSE| < |REQUEST_HEADER_FIELDS_TOO_LARGE|;
    assert |BAD_REQUEST_RESPONSE| < |REQUEST_HEADER_FIELDS_TOO_LARGE|;
    var parsed := Parse(Window(c, s));
    if parsed.Complete? && Step(p, c, s).Halt? {
      RushedRefusal(p, c, s, parsed.len, parsed.head);
    }
  }

  lemma RushedRefusal(p: Policy, c: Client, s: Conn, n: nat, head: Head)
    requires p.limit.None? && Sound(p, c, s) && n <= s.filled
    requires TakeRequest(p, c, s, n, head).Halt?
    ensures var log := TakeRequest(p, c, s, n, head).final.log;
            || |log.calls| > |s.log.calls|
            || log.sent in {s.log.sent, s.log.sent + PAYLOAD_TOO_LARGE_RESPONSE, s.log.sent + BAD_REQUEST_RESPONSE}
  {
  }

  lemma {:induction false} RushDiffers(p: Policy, c: Client, s: Conn, peak: nat)
    requires p.limit.None?
    requires Sound(p, c, s) && Fitting(s, peak) && Stepwise(c, s)
    requires !Clear(p, Rest(c, s), s.log, peak)
    requires c == Trickle(c.input, s.base + Trouble(p, Rest(c, s), s.log, peak))
    requires s.filled > 0 ==> !Parse(View(Rest(c, s))).Partial?
    ensures Differ(Run(p, c, s).final.log, Serve(p, Rest(c, s), s.log).log)
    decreases |c.input| - s.base, |c.input| - s.base - s.filled
  {
    hide Step, Due, Parse;
    var rest := Rest(c, s);
    if Parse(View(rest)).Partial? {
      // The critical head: everything that fits arrives at once.
      RushStep(p, c, s, peak);
      RushedHead(p, c, Step(p, c, s).next);
      return;
    }
    var until := s.base + Trouble(p, rest, s.log, peak);
    var d := Due(p, rest, s.log);
    UndecidedWindow(c, s);
    assert AllPrompt(c.arrivals);
    PromptStep(p, c, s);
    StepMeetsDue(p, c, s, peak);
    TrickleStep(p, c, s, until);
    match Step(p, c, s)
    case Halt(_, _) => assert false;
    case Wait(t) =>
      RushDiffers(p, c, t, peak);
    case Onward(t) =>
      assert Rest(c, t) == rest[d.eaten..];
      RushDiffers(p, c, t, Max(peak, d.eaten));
  }

  /** What is buffered is the beginning of the rest of the input. */
  lemma WindowInRest(c: Client, s: Conn, k: nat)
    requires s.base + s.filled <= |c.input| && s.filled <= k <= |Rest(c, s)|
    ensures Window(c, s) == Rest(c, s)[..k][..s.filled]
  {
    var window, view := Window(c, s), Rest(c, s)[..k][..s.filled];
    assert |window| == |view|;
    assert forall i :: 0 <= i < s.filled ==> window[i] == c.input[s.base + i] == view[i];
  }

  /** A window that has not yet reached the end of its (timely) head is undecided, and conversely. */
  lemma UndecidedWindow(c: Client, s: Conn)
    requires s.base + s.filled <= |c.input| && Stepwise(c, s)
    requires Parse(View(Rest(c, s))).Complete?
    ensures s.filled <= Parse(View(Rest(c, s))).len
    ensures Parse(Window(c, s)).Partial? <==> s.filled < Parse(View(Rest(c, s))).len
  {
    hide Parse;
    var view := View(Rest(c, s));
    WindowInRest(c, s, |view|);
    ParseExact(view, s.filled);
    if s.filled > 0 {
      assert view[..s.filled][..s.filled - 1] == view[..s.filled - 1];
      ParseExact(view, s.filled - 1);
    }
  }

  /** At the critical head the rush brings in more than the cap, and that decides it. */
  lemma RushStep(p: Policy, c: Client, s: Conn, peak: nat)
    requires p.limit.None?
    requires Sound(p, c, s) && Fitting(s, peak)
    requires s.filled == 0 && s.readsDone == s.base
    requires c == Trickle(c.input, s.base)
    requires Parse(View(Rest(c, s))).Partial?
    requires !Parse(Rest(c, s)[..Min(|Rest(c, s)|, Max(peak, MAX_BUF_CAPACITY))]).Partial?
    ensures Step(p, c, s).Wait? && !Parse(Window(c, Step(p, c, s).next)).Partial?
    ensures Due(p, Rest(c, s), s.log)
            == Settled(Result(s.log.(sent := s.log.sent + REQUEST_HEADER_FIELDS_TOO_LARGE), HeadTooLarge))
  {
    assert Parse(Window(c, s)).Partial?;
    var t := Step(p, c, s).next;
    assert Window(c, t) == Rest(c, s)[..Min(|Rest(c, s)|, peak)];
  }

  /* ---- The main result ---- */

  function Observed(p: Policy, input: bytes, arrivals: nat -> Arrival, log: Log): (seq<Request>, bytes)
    requires Fits(p.limit, log.sent)
  {
    var e := Run(p, Client(input, arrivals), Opened(log));
    (e.final.log.calls, e.final.log.sent)
  }

  /** Every way of cutting the input into prompt reads shows the same calls and octets. */
  ghost predicate Independent(p: Policy, input: bytes, log: Log)
    requires Fits(p.limit, log.sent)
  {
    forall a: nat -> Arrival, b: nat -> Arrival | AllPrompt(a) && AllPrompt(b) ::
      Observed(p, input, a, log) == Observed(p, input, b, log)
  }

  lemma ClearIsIndependent(p: Policy, input: bytes, log: Log)
    requires Fits(p.limit, log.sent)
    requires Clear(p, input, log, 0)
    ensures Independent(p, input, log)
  {
    var r := Serve(p, input, log);
    forall a: nat -> Arrival | AllPrompt(a)
      ensures Observed(p, input, a, log) == (r.log.calls, r.log.sent)
    {
      var c := Client(input, a);
      assert Rest(c, Opened(log)) == input;
      PromptRun(p, c, Opened(log));
      RunMeetsServe(p, c, Opened(log), 0);
    }
  }

  /** The outcome is independent of segmentation exactly when the input is clear. */
  lemma SegmentationIndependence(p: Policy, input: bytes, log: Log)
    requires p.limit.None?
    ensures Independent(p, input, log) <==> Clear(p, input, log, 0)
  {
    hide Run, Serve, Clear, Trouble;
    if Clear(p, input, log, 0) {
      ClearIsIndependent(p, input, log);
    } else {
      var s := Opened(log);
      var slow := Trickle(input, |input| + 1);
      var rush := Trickle(input, Trouble(p, input, log, 0));
      assert Rest(slow, s) == input && Rest(rush, s) == input;
      SlowMeetsServe(p, slow, s, 0);
      RushDiffers(p, rush, s, 0);
      assert AllPrompt(slow.arrivals) && AllPrompt(rush.arrivals);
      assert Observed(p, input, slow.arrivals, log) != Observed(p, input, rush.arrivals, log);
    }
  }
}
