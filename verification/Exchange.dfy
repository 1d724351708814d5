/** Both ends together: a client that writes well-formed requests, one after the other, and
    decodes what comes back. */
module Exchange {
  import opened Bytes
  import opened HeadParser
  import opened ContentLength
  import opened Io
  import opened Responses
  import opened Connection
  import opened Segmentation
  import opened Lifecycle
  import opened Requests
  import opened Decoder
  import opened Stream

  datatype Message = Message(head: Head, body: bytes)

  function Encode(m: Message): bytes {
    Render(m.head) + m.body
  }

  function EncodeAll(ms: seq<Message>): bytes {
    if ms == [] then [] else Encode(ms[0]) + EncodeAll(ms[1..])
  }

  /** A request within the server's caps that declares its body truly. */
  predicate Orderly(m: Message) {
    && Plain(m.head) && AllUtf8(m.head.headers)
    && |Render(m.head)| <= MAX_BUF_CAPACITY
    && LengthOf(m.head.headers) == Some(|m.body|) && |m.body| <= MAX_BODY_CAPACITY
  }

  predicate AllOrderly(ms: seq<Message>) {
    forall m :: m in ms ==> Orderly(m)
  }

  function RequestsOf(ms: seq<Message>): (r: seq<Request>)
    ensures |r| == |ms| && forall i :: 0 <= i < |ms| ==> Conveys(r[i], ms[i].head, ms[i].body)
    ensures forall i :: 0 <= i < |ms| ==> r[i] == RequestOf(ms[i].head, ms[i].body)
  {
    if ms == [] then [] else [RequestOf(ms[0].head, ms[0].body)] + RequestsOf(ms[1..])
  }

  /** What is due to an orderly request is its answer, whatever comes after it. */
  lemma FirstDue(p: Policy, m: Message, tail: bytes, log: Log)
    requires Orderly(m) && p.limit.None?
    ensures var v := Answer(p, log.(begun := log.begun + 1), m.head, m.body);
            && Parse(View(Encode(m) + tail)).Complete?
            && (Encode(m) + tail)[|Encode(m)|..] == tail
            && Due(p, Encode(m) + tail, log)
               == if v.stop.Some? then Settled(Result(v.log, v.stop.value)) else Owes(|Encode(m)|, v.log)
  {
    hide Parse, LengthOf, Plain, Render, AllUtf8, Answer;
    var rest := Encode(m) + tail;
    var n := |Render(m.head)|;
    ParseRender(m.head);
    assert View(rest)[..n] == Render(m.head);
    assert Render(m.head) <= View(rest);
    ParseStable(Render(m.head), View(rest));
    assert rest[n..n + |m.body|] == m.body;
  }

  lemma SilenceIsOver(p: Policy, log: Log)
    requires p.limit.None?
    ensures Due(p, [], log) == Settled(Result(log, EndOfInput)) && Parse(View([])).Partial? && View([]) == []
  {
  }

  /** A handler that behaves on all the calls behaves on the first of them. */
  lemma {:induction false} FirstDecent(p: Policy, calls: seq<Request>, first: Request, rest: seq<Request>)
    requires AllDecent(p, calls + [first] + rest, |calls|)
    ensures DecentAt(p, calls + [first], |calls|)
    ensures AllDecent(p, calls + [first] + rest, |calls| + 1)
  {
    hide Decent;
    var all := calls + [first] + rest;
    assert DecentAt(p, all, |calls|);
    assert (calls + [first])[..|calls| + 1] == all[..|calls| + 1];
  }

  /** How many of these requests the connection will still answer. */
  function Allowance(p: Policy, ms: seq<Message>, served: nat): nat
    requires served < Quota(p)
  {
    Min(|ms|, Quota(p) - served)
  }

  /** Orderly requests are clear, every one within the quota reaches the handler as it was
      meant, and then the connection ends in good order. */
  lemma {:induction false} OrderlyServed(p: Policy, ms: seq<Message>, log: Log, peak: nat)
    requires p.limit.None? && log.served < Quota(p) && AllOrderly(ms)
    requires AllDecent(p, log.calls + RequestsOf(ms)[..Allowance(p, ms, log.served)], |log.calls|)
    ensures Clear(p, EncodeAll(ms), log, peak)
    ensures var r := Serve(p, EncodeAll(ms), log);
            && r.log.calls == log.calls + RequestsOf(ms)[..Allowance(p, ms, log.served)]
            && r.exit == if |ms| < Quota(p) - log.served then EndOfInput else LimitReached
    decreases |ms|
  {
    hide Due, Answer, Parse, Orderly, Encode, RequestOf, Decent, DecentAt, AllUtf8, Extends, AllDecent;
    if ms == [] {
      SilenceIsOver(p, log);
      assert RequestsOf(ms)[..0] == [] && log.calls + [] == log.calls;
      return;
    }
    var m := ms[0];
    assert m in ms;
    FirstDue(p, m, EncodeAll(ms[1..]), log);
    var k := Allowance(p, ms, log.served);
    var first, later := RequestOf(m.head, m.body), RequestsOf(ms[1..])[..k - 1];
    FirstAndRest(log.calls, RequestsOf(ms), RequestsOf(ms[1..]), k);
    FirstDecent(p, log.calls, first, later);
    var begun := log.(begun := log.begun + 1);
    FirstAnswer(p, begun, m);
    var v := Answer(p, begun, m.head, m.body);
    if v.stop.None? {
      assert |v.log.calls| == |log.calls| + 1;
      OrderlyServed(p, ms[1..], v.log, Max(peak, |Encode(m)|));
    } else {
      assert later == [] && v.log.calls + later == v.log.calls;
    }
  }

  lemma FirstAndRest(calls: seq<Request>, all: seq<Request>, rest: seq<Request>, k: nat)
    requires 1 <= k <= |all| && rest == all[1..]
    ensures calls + [all[0]] + rest[..k - 1] == calls + all[..k]
  {
    assert all[..k] == [all[0]] + rest[..k - 1];
  }

  lemma FirstAnswer(p: Policy, log: Log, m: Message)
    requires Orderly(m) && p.limit.None?
    requires DecentAt(p, log.calls + [RequestOf(m.head, m.body)], |log.calls|)
    ensures var v := Answer(p, log, m.head, m.body);
            && v.log.calls == log.calls + [RequestOf(m.head, m.body)] && v.log.served == log.served + 1
            && v.stop == if Last(p, log) then Some(LimitReached) else None
  {
    hide Wired, Wire, Image, HeadOf, RequestOf, DecentAt, Plain, Render, LengthOf;
    AnswerShape(p, log, m.head, m.body);
  }

  /** One reply per call, in order, and the Connection field exactly on the one that fills the quota. */
  lemma {:induction false} ReplyAt(p: Policy, calls: seq<Request>, from: nat, served: nat, i: nat)
    requires AllDecent(p, calls, from) && from + i < |calls|
    ensures |Replies(p, calls, from, served)| == |calls| - from
    ensures var seen := Replies(p, calls, from, served)[i];
            var r := p.respond(calls[..from + i + 1]);
            && seen.status == r.status
            && seen.body == (if AsksHead(calls[from + i].method_) then [] else Whole(r.body))
            && seen.headers == AsRead(WithoutConnection(r.headers))
                 + (if exists h :: h in r.headers && IsLength(h) then [] else [LengthField(|Whole(r.body)|)])
                 + (if served + i + 1 >= p.maxKeepalive then [CLOSE] else [])
            && ((exists h :: h in seen.headers && IsConnection(h)) <==> served + i + 1 >= p.maxKeepalive)
    decreases i
  {
    hide Shown, Wire, IsConnection, FramingTrue, IsLength, Whole, AsksHead, AsRead, WithoutConnection;
    var r := p.respond(calls[..from + 1]);
    assert DecentAt(p, calls, from);
    ReplyCount(p, calls, from, served);
    if i == 0 {
      var last := served + 1 >= p.maxKeepalive;
      OnlyLastCloses(r, last);
      WiredBody(r, last);
      WiredSeen(r, last);
      ConnectionSeen(Wired(r, last).headers);
      ShownSame(r, last, AsksHead(calls[from].method_));
      ShownWhole(r, AsksHead(calls[from].method_));
    } else {
      ReplyAt(p, calls, from + 1, served + 1, i - 1);
    }
  }

  lemma ConnectionSeen(headers: seq<Header>)
    ensures (exists h :: h in AsRead(headers) && IsConnection(h)) <==> (exists h :: h in headers && IsConnection(h))
  {
    hide Trim, EqIgnoreCase, StripBlanks;
    ReadMembers(headers);
    forall h | h in headers && IsConnection(h) ensures ReadAs(h) in AsRead(headers) && IsConnection(ReadAs(h)) {
    }
  }

  lemma {:induction false} ReplyCount(p: Policy, calls: seq<Request>, from: nat, served: nat)
    requires AllDecent(p, calls, from) && from <= |calls|
    ensures |Replies(p, calls, from, served)| == |calls| - from
    decreases |calls| - from
  {
    hide DecentAt, Shown, Wired, AsRead, AsksHead;
    if from < |calls| {
      ReplyCount(p, calls, from + 1, served + 1);
    }
  }

  /** In every run whatever, each call made is answered to the client in full: the status, and
      the whole body unless it asked for the head alone. */
  lemma RepliesAreWhole(p: Policy, c: Client, s: Conn, heads: seq<bool>) returns (seen: seq<Seen>)
    requires p.limit.None? && Sound(p, c, s)
    requires AllDecent(p, Run(p, c, s).final.log.calls, |s.log.calls|)
    requires Knows(heads, Run(p, c, s).final.log.calls, |s.log.calls|)
    ensures var log, from := Run(p, c, s).final.log, |s.log.calls|;
            && DecodeAll(log.sent[|s.log.sent|..], heads) == Some(seen + Farewell(Run(p, c, s).exit))
            && |seen| == |log.calls| - from
            && forall i :: 0 <= i < |seen| ==>
                 && seen[i].status == p.respond(log.calls[..from + i + 1]).status
                 && seen[i].body == if AsksHead(log.calls[from + i].method_) then []
                                    else Whole(p.respond(log.calls[..from + i + 1]).body)
  {
    hide Run, DecodeAll, Replies, DecentAt, AsksHead, Whole, Knows;
    var e := Run(p, c, s);
    var calls, from := e.final.log.calls, |s.log.calls|;
    StreamInSync(p, c, s, heads);
    seen := Replies(p, calls, from, s.log.served);
    ReplyCount(p, calls, from, s.log.served);
    forall i: nat | i < |seen|
      ensures seen[i].status == p.respond(calls[..from + i + 1]).status
      ensures seen[i].body == if AsksHead(calls[from + i].method_) then [] else Whole(p.respond(calls[..from + i + 1]).body)
    {
      ReplyAt(p, calls, from, s.log.served, i);
    }
  }

  /* ---- The main result ---- */

  const UNTOUCHED: Log := Log([], [], 0, 0)

  /** Which of the client's requests were HEAD. */
  function Heads(ms: seq<Message>): seq<bool> {
    seq(|ms|, i requires 0 <= i < |ms| => AsksHead(ms[i].head.method_))
  }

  /** However its octets are cut up on the way, the handler is given the client's requests, up
      to the quota, just as they were meant, and the client decodes its replies to them, one
      each, in order, and nothing else. */
  lemma {:induction false} RoundTrip(p: Policy, ms: seq<Message>, arrivals: nat -> Arrival)
    requires p.limit.None? && AllPrompt(arrivals) && AllOrderly(ms)
    requires AllDecent(p, RequestsOf(ms)[..Min(|ms|, Quota(p))], 0)
    ensures var e := Run(p, Client(EncodeAll(ms), arrivals), Opened(UNTOUCHED));
            var answered := RequestsOf(ms)[..Min(|ms|, Quota(p))];
            && e.final.log.calls == answered
            && (forall i :: 0 <= i < |answered| ==> Conveys(e.final.log.calls[i], ms[i].head, ms[i].body))
            && DecodeAll(e.final.log.sent, Heads(ms)) == Some(Replies(p, answered, 0, 0))
  {
    hide Run, Serve, Clear, DecodeAll, DecentAt, Replies, AllOrderly;
    var c := Client(EncodeAll(ms), arrivals);
    var s := Opened(UNTOUCHED);
    assert Rest(c, s) == c.input;
    var answered := RequestsOf(ms)[..Min(|ms|, Quota(p))];
    assert UNTOUCHED.calls + answered == answered;
    OrderlyServed(p, ms, UNTOUCHED, 0);
    PromptRun(p, c, s);
    RunMeetsServe(p, c, s, 0);
    var e := Run(p, c, s);
    assert e.final.log.calls == answered;
    MethodsKept(ms, |answered|);
    StreamInSync(p, c, s, Heads(ms));
    assert e.final.log.sent[0..] == e.final.log.sent;
    Farewells(p, answered, e.exit);
  }

  lemma Farewells(p: Policy, calls: seq<Request>, exit: Exit)
    requires AllDecent(p, calls, 0) && exit in {EndOfInput, LimitReached}
    ensures Replies(p, calls, 0, 0) + Farewell(exit) == Replies(p, calls, 0, 0)
  {
    hide Replies;
  }

  lemma MethodsKept(ms: seq<Message>, k: nat)
    requires k <= |ms|
    ensures Knows(Heads(ms), RequestsOf(ms)[..k], 0)
  {
    hide AsksHead, RequestOf;
    forall i | 0 <= i < k ensures Heads(ms)[i] == AsksHead(RequestsOf(ms)[i].method_) {
      MethodKept(ms[i].head, ms[i].body);
    }
  }
}
