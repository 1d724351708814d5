/** One connection, octet for octet: a GET and a HEAD, pipelined, and what comes back. */
module Greeting {
  import opened Bytes
  import opened HeadParser
  import opened ContentLength
  import opened Io
  import opened Responses
  import opened Connection
  import opened Segmentation
  import opened Requests
  import opened Decoder
  import opened Stream
  import opened Exchange

  const HELLO: Response := Response(200, [], InMemory("hello"))

  /** Says hello to everything, and closes after two. */
  function Greeter(): Policy {
    Policy(Option.None, 2, (calls: seq<Request>) => HELLO)
  }

  const HOST: Header := Header("Host", "x")
  const GET: Message := Message(Head("GET", "/a?b=1", [HOST]), [])
  const HEAD: Message := Message(Head("hEAD", "/", [HOST]), [])

  const GET_TEXT: bytes := "GET" + " " + "/a?b=1" + " " + "HTTP/1.1" + "\r\n" + ("Host" + ": " + "x" + "\r\n") + "\r\n"
  const HEAD_TEXT: bytes := "hEAD" + " " + "/" + " " + "HTTP/1.1" + "\r\n" + ("Host" + ": " + "x" + "\r\n") + "\r\n"

  const GET_CALL: Request := Request("GET", "/a", "b=1", [HOST], [])
  const HEAD_CALL: Request := Request("hEAD", "/", "", [HOST], [])

  const STATUS_LINE: bytes := "HTTP/1.1 " + "200" + " " + "OK" + "\r\n"
  const LENGTH_LINE: bytes := "Content-Length" + ": " + "5" + "\r\n"
  const CLOSE_LINE: bytes := "Connection" + ": " + "close" + "\r\n"

  const FIRST_REPLY: bytes := STATUS_LINE + LENGTH_LINE + "\r\n" + "hello"
  const SECOND_REPLY: bytes := STATUS_LINE + (LENGTH_LINE + CLOSE_LINE) + "\r\n"

  lemma HostLine()
    ensures RenderHeaders([HOST]) == "Host" + ": " + "x" + "\r\n"
  {
    assert [HOST][1..] == [];
    assert RenderHeaders([HOST]) == HOST.name + ": " + HOST.value + CRLF + [];
  }

  lemma Texts()
    ensures Encode(GET) == GET_TEXT && Encode(HEAD) == HEAD_TEXT
    ensures EncodeAll([GET, HEAD]) == GET_TEXT + HEAD_TEXT
  {
    hide RenderHeaders;
    HostLine();
    assert Render(GET.head) == GET_TEXT && Render(HEAD.head) == HEAD_TEXT;
    assert GET_TEXT + [] == GET_TEXT && HEAD_TEXT + [] == HEAD_TEXT;
    assert [GET, HEAD][1..] == [HEAD] && [HEAD][1..] == [];
    assert EncodeAll([HEAD]) == Encode(HEAD) + [] == HEAD_TEXT;
    assert EncodeAll([GET, HEAD]) == Encode(GET) + EncodeAll([HEAD]);
  }

  lemma HostIsPlain()
    ensures Tokens(HOST.name) && PlainValue(HOST.value) && ValidUtf8(HOST.value) && !IsLength(HOST)
  {
    assert |HOST.name| == 4 && |CONTENT_LENGTH| == 14;
    assert HOST.value[1..] == [];
  }

  lemma BothOrderly()
    ensures Orderly(GET) && Orderly(HEAD)
  {
    hide Tokens, PlainValue, ValidUtf8, IsLength, LengthOf;
    HostIsPlain();
    Texts();
    LengthOfMeaning([HOST], 0);
    LinesArePlain();
    assert |Render(GET.head)| <= 100 && |Render(HEAD.head)| <= 100 by {
      assert RenderHeaders([HOST][1..]) == [];
    }
  }

  lemma LinesArePlain()
    ensures Tokens("GET") && Tokens("hEAD")
    ensures forall i :: 0 <= i < |GET.head.target| ==> IsTargetByte(GET.head.target[i])
    ensures forall i :: 0 <= i < |HEAD.head.target| ==> IsTargetByte(HEAD.head.target[i])
  {
  }

  lemma Numerals()
    ensures Decimal(5) == "5" && Decimal(200) == "200"
  {
    assert Decimal(2) == "2" && Decimal(20) == Decimal(2) + "0" && Decimal(200) == Decimal(20) + "0";
  }

  lemma Lines()
    ensures StatusLine(200) == STATUS_LINE
    ensures HeaderLines([LengthField(5)]) == LENGTH_LINE && HeaderLines([LengthField(5), CLOSE]) == LENGTH_LINE + CLOSE_LINE
  {
    hide Decimal;
    Numerals();
    var length := LengthField(5);
    assert HeaderLine(length) == LENGTH_LINE && HeaderLine(CLOSE) == CLOSE_LINE;
    assert [length][1..] == [] && [length, CLOSE][1..] == [CLOSE] && [CLOSE][1..] == [];
    assert LENGTH_LINE + [] == LENGTH_LINE && CLOSE_LINE + [] == CLOSE_LINE;
  }

  lemma HeadOctets()
    ensures Wire(HELLO, false) == Some(Response(200, [LengthField(5)], HELLO.body))
    ensures Wire(HELLO, true) == Some(Response(200, [LengthField(5), CLOSE], HELLO.body))
    ensures HeadOf(200, [LengthField(5)]) == STATUS_LINE + LENGTH_LINE + "\r\n"
    ensures HeadOf(200, [LengthField(5), CLOSE]) == STATUS_LINE + (LENGTH_LINE + CLOSE_LINE) + "\r\n"
  {
    hide LengthField, STATUS_LINE, LENGTH_LINE, CLOSE_LINE, StatusLine;
    Lines();
    assert [LengthField(5)] + [CLOSE] == [LengthField(5), CLOSE];
    assert [] + [LengthField(5)] == [LengthField(5)];
  }

  /** An answer from memory, to a peer that keeps reading. */
  lemma AnsweredFromMemory(p: Policy, log: Log, head: Head, body: bytes, w: Response)
    requires p.limit.None? && AllUtf8(head.headers) && w.body.InMemory?
    requires Wire(p.respond(log.calls + [RequestOf(head, body)]), Last(p, log)) == Some(w)
    ensures var v := Answer(p, log, head, body);
            && v.log.calls == log.calls + [RequestOf(head, body)] && v.log.begun == log.begun
            && v.log.served == log.served + 1 && v.stop == (if Last(p, log) then Some(LimitReached) else None)
            && v.log.sent == log.sent + (HeadOf(w.status, w.headers) + if AsksHead(head.method_) then [] else w.body.data)
  {
    hide Wire, HeadOf, AllUtf8, RequestOf, IsHead, AsksHead;
    HeadTest(head.method_);
  }

  lemma FirstAnswered(log: Log)
    requires log.served == 0
    ensures var v := Answer(Greeter(), log, GET.head, []);
            && v.stop.None? && v.log.sent == log.sent + FIRST_REPLY && v.log.served == 1 && v.log.begun == log.begun
            && v.log.calls == log.calls + [GET_CALL]
  {
    hide HeadOf, Wire, ValidUtf8, STATUS_LINE, LENGTH_LINE, Answer, RequestOf;
    HostIsPlain();
    HeadOctets();
    GetSplits();
    AnsweredFromMemory(Greeter(), log, GET.head, [], Response(200, [LengthField(5)], HELLO.body));
  }

  lemma GetSplits()
    ensures RequestOf(GET.head, []) == GET_CALL && RequestOf(HEAD.head, []) == HEAD_CALL
  {
    hide RequestOf, SplitTarget;
    var path, query: bytes := "/a", "b=1";
    assert GET.head.target == path + "?" + query;
    SplitIsUnique(GET.head, RequestOf(GET.head, []), path, query);
    NoQuery();
  }

  lemma NoQuery()
    ensures '?' !in HEAD.head.target
  {
  }

  /** There is one way to cut a target at its first question mark. */
  lemma SplitIsUnique(head: Head, call: Request, path: bytes, query: bytes)
    requires Conveys(call, head, []) && '?' !in path && head.target == path + "?" + query
    ensures call.path == path && call.query == query
  {
    var t := head.target;
    assert t[|path|] == '?' && t[|call.path|] == '?';
    assert forall i :: 0 <= i < |path| ==> t[i] == path[i] && path[i] in path;
    assert forall i :: 0 <= i < |call.path| ==> t[i] == call.path[i] && call.path[i] in call.path;
    assert |path| == |call.path|;
    assert path == t[..|path|] == call.path;
    assert query == t[|path| + 1..] == call.query;
  }

  lemma SecondAnswered(log: Log)
    requires log.served == 1
    ensures var v := Answer(Greeter(), log, HEAD.head, []);
            && v.stop == Some(LimitReached) && v.log.sent == log.sent + SECOND_REPLY
            && v.log.calls == log.calls + [HEAD_CALL]
  {
    hide HeadOf, Wire, ValidUtf8, STATUS_LINE, LENGTH_LINE, CLOSE_LINE, Answer, RequestOf;
    HostIsPlain();
    HeadOctets();
    GetSplits();
    AnsweredFromMemory(Greeter(), log, HEAD.head, [], Response(200, [LengthField(5), CLOSE], HELLO.body));
    assert SECOND_REPLY + [] == SECOND_REPLY;
  }

  lemma Served()
    ensures var r := Serve(Greeter(), GET_TEXT + HEAD_TEXT, UNTOUCHED);
            && Clear(Greeter(), GET_TEXT + HEAD_TEXT, UNTOUCHED, 0) && r.exit == LimitReached
            && r.log.calls == [GET_CALL, HEAD_CALL]
            && r.log.sent == FIRST_REPLY + SECOND_REPLY
  {
    hide Due, Answer, Parse, Orderly, Encode, FIRST_REPLY, SECOND_REPLY, GET_TEXT, HEAD_TEXT, HOST;
    BothOrderly();
    Texts();
    FirstDue(Greeter(), GET, HEAD_TEXT, UNTOUCHED);
    var one := UNTOUCHED.(begun := 1);
    FirstAnswered(one);
    var log := Answer(Greeter(), one, GET.head, []).log;
    assert HEAD_TEXT + [] == HEAD_TEXT;
    FirstDue(Greeter(), HEAD, [], log);
    SecondAnswered(log.(begun := log.begun + 1));
    assert (GET_TEXT + HEAD_TEXT)[|GET_TEXT|..] == HEAD_TEXT;
    assert [] + [GET_CALL] + [HEAD_CALL]
           == [GET_CALL, HEAD_CALL];
    assert [] + FIRST_REPLY == FIRST_REPLY;
  }

  /** However the octets are cut up on the way. */
  lemma Greeted(arrivals: nat -> Arrival)
    requires AllPrompt(arrivals)
    ensures var e := Run(Greeter(), Client(GET_TEXT + HEAD_TEXT, arrivals), Opened(UNTOUCHED));
            && e.exit == LimitReached
            && e.final.log.calls == [GET_CALL, HEAD_CALL]
            && e.final.log.sent == FIRST_REPLY + SECOND_REPLY
  {
    hide Run, Serve, Clear, FIRST_REPLY, SECOND_REPLY, GET_TEXT, HEAD_TEXT;
    var c := Client(GET_TEXT + HEAD_TEXT, arrivals);
    Served();
    assert Rest(c, Opened(UNTOUCHED)) == c.input;
    PromptRun(Greeter(), c, Opened(UNTOUCHED));
    RunMeetsServe(Greeter(), c, Opened(UNTOUCHED), 0);
  }
}
