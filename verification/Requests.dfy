/** Request heads written out, and read back by the parser. */
module Requests {
  import opened Bytes
  import opened HeadParser

  const HTTP11: bytes := "HTTP/1.1"

  function RenderHeaders(headers: seq<Header>): bytes {
    if headers == [] then [] else headers[0].name + ": " + headers[0].value + CRLF + RenderHeaders(headers[1..])
  }

  function Render(head: Head): bytes {
    head.method_ + " " + head.target + " " + HTTP11 + CRLF + RenderHeaders(head.headers) + CRLF
  }

  predicate Tokens(s: bytes) {
    s != [] && forall i :: 0 <= i < |s| ==> IsToken(s[i])
  }

  /** Value octets, neither beginning nor ending with a blank. */
  predicate PlainValue(s: bytes) {
    && (forall i :: 0 <= i < |s| ==> IsValueByte(s[i]))
    && (s != [] ==> !IsBlank(s[0]) && !IsBlank(s[|s| - 1]))
  }

  predicate Plain(head: Head) {
    && Tokens(head.method_)
    && head.target != [] && (forall i :: 0 <= i < |head.target| ==> IsTargetByte(head.target[i]))
    && |head.headers| <= 64
    && forall i :: 0 <= i < |head.headers| ==> Tokens(head.headers[i].name) && PlainValue(head.headers[i].value)
  }

  /* ---- Feeding a known text ---- */

  /** Consuming a leads from s to t without a verdict. */
  predicate Leads(s: Scan, a: bytes, t: Scan)
    decreases |a|
  {
    if a == [] then s == t
    else Consume(s, a[0]).Next? && Leads(Consume(s, a[0]).scan, a[1..], t)
  }

  lemma {:induction false} LeadsJoin(s: Scan, a: bytes, t: Scan, b: bytes, u: Scan)
    requires Leads(s, a, t) && Leads(t, b, u)
    ensures Leads(s, a + b, u)
    decreases |a|
  {
    if a == [] {
      assert a + b == b;
    } else {
      assert (a + b)[1..] == a[1..] + b && (a + b)[0] == a[0];
      LeadsJoin(Consume(s, a[0]).scan, a[1..], t, b, u);
    }
  }

  lemma {:induction false} FeedAfter(s: Scan, a: bytes, t: Scan, b: bytes)
    requires Leads(s, a, t) && Feed(t, b).Complete?
    ensures Feed(s, a + b) == Complete(|a| + Feed(t, b).len, Feed(t, b).head)
    decreases |a|
  {
    if a == [] {
      assert a + b == b;
    } else {
      assert (a + b)[1..] == a[1..] + b && (a + b)[0] == a[0];
      FeedAfter(Consume(s, a[0]).scan, a[1..], t, b);
    }
  }

  lemma LeadsOne(s: Scan, c: byte)
    requires Consume(s, c).Next?
    ensures Leads(s, [c], Consume(s, c).scan)
  {
    assert [c][1..] == [];
  }

  lemma {:induction false} LeadsMethod(s: Scan, m: bytes)
    requires s.phase == InMethod && forall i :: 0 <= i < |m| ==> IsToken(m[i])
    ensures Leads(s, m, s.(head := s.head.(method_ := s.head.method_ + m)))
    decreases |m|
  {
    if m == [] {
      assert s.head.method_ + m == s.head.method_;
    } else {
      var t := Consume(s, m[0]).scan;
      LeadsMethod(t, m[1..]);
      assert s.head.method_ + [m[0]] + m[1..] == s.head.method_ + m;
    }
  }

  lemma {:induction false} LeadsTarget(s: Scan, g: bytes)
    requires s.phase == InTarget && forall i :: 0 <= i < |g| ==> IsTargetByte(g[i])
    ensures Leads(s, g, s.(head := s.head.(target := s.head.target + g)))
    decreases |g|
  {
    if g == [] {
      assert s.head.target + g == s.head.target;
    } else {
      LeadsTarget(Consume(s, g[0]).scan, g[1..]);
      assert s.head.target + [g[0]] + g[1..] == s.head.target + g;
    }
  }

  lemma {:induction false} LeadsVersion(s: Scan, k: nat)
    requires s.phase == InVersion && k <= 8 && s.version == HTTP11[..k]
    ensures Leads(s, HTTP11[k..], s.(version := HTTP11))
    decreases 8 - k
  {
    var v: bytes := HTTP11;
    if k < 8 {
      assert v[k..][0] == v[k] && v[k..][1..] == v[k + 1..] && v[..k] + [v[k]] == v[..k + 1];
      assert k < 7 ==> v[k] == "HTTP/1."[k];
      LeadsVersion(Consume(s, v[k]).scan, k + 1);
    } else {
      assert v[..8] == v && v[8..] == [];
    }
  }

  lemma {:induction false} LeadsName(s: Scan, name: bytes)
    requires s.phase == InName && forall i :: 0 <= i < |name| ==> IsToken(name[i])
    ensures Leads(s, name, s.(name := s.name + name))
    decreases |name|
  {
    if name == [] {
      assert s.name + name == s.name;
    } else {
      LeadsName(Consume(s, name[0]).scan, name[1..]);
      assert s.name + [name[0]] + name[1..] == s.name + name;
    }
  }

  lemma {:induction false} LeadsValue(s: Scan, value: bytes)
    requires s.phase == InValue && forall i :: 0 <= i < |value| ==> IsValueByte(value[i])
    ensures Leads(s, value, s.(value := s.value + value))
    decreases |value|
  {
    if value == [] {
      assert s.value + value == s.value;
    } else {
      LeadsValue(Consume(s, value[0]).scan, value[1..]);
      assert s.value + [value[0]] + value[1..] == s.value + value;
    }
  }

  /* ---- Headers ---- */

  /** Between two header lines of a head. */
  predicate AtLine(s: Scan) {
    s.phase == LineStart && s.name == [] && s.value == []
  }

  lemma LeadsHeaderName(s: Scan, h: Header)
    requires AtLine(s) && |s.head.headers| < MAX_HEADERS && Tokens(h.name)
    ensures Leads(s, h.name + ": ", s.(phase := AfterColon, name := h.name))
  {
    var a := s.(phase := InName, name := [h.name[0]]);
    var b := s.(phase := InName, name := h.name);
    var c := s.(phase := AfterColon, name := h.name);
    LeadsOne(s, h.name[0]);
    LeadsName(a, h.name[1..]);
    assert [h.name[0]] + h.name[1..] == h.name;
    LeadsJoin(s, [h.name[0]], a, h.name[1..], b);
    LeadsOne(b, ':');
    LeadsOne(c, ' ');
    LeadsJoin(b, ":", c, " ", c);
    var colon: bytes := ":";
    assert colon + " " == ": ";
    LeadsJoin(s, h.name, b, ": ", c);
  }

  lemma LeadsHeaderValue(s: Scan, value: bytes)
    requires s.phase == AfterColon && s.value == [] && PlainValue(value)
    ensures Leads(s, value + CRLF, EndHeader(s.(value := value)))
  {
    var d := s.(phase := ValueCr, value := value);
    assert Leads(s, value + [CR], d) by {
      if value == [] {
        assert value + [CR] == [CR];
        LeadsOne(s, CR);
      } else {
        var a := s.(phase := InValue, value := [value[0]]);
        var b := s.(phase := InValue, value := value);
        LeadsOne(s, value[0]);
        LeadsValue(a, value[1..]);
        assert [value[0]] + value[1..] == value;
        LeadsJoin(s, [value[0]], a, value[1..], b);
        LeadsOne(b, CR);
        LeadsJoin(s, value, b, [CR], d);
      }
    }
    LeadsOne(d, LF);
    LeadsJoin(s, value + [CR], d, [LF], EndHeader(d));
    assert value + [CR] + [LF] == value + CRLF;
  }

  lemma LeadsHeader(s: Scan, h: Header)
    requires AtLine(s) && |s.head.headers| < MAX_HEADERS && Tokens(h.name) && PlainValue(h.value)
    ensures Leads(s, h.name + ": " + h.value + CRLF, s.(head := s.head.(headers := s.head.headers + [h])))
  {
    hide Leads;
    var c := s.(phase := AfterColon, name := h.name);
    LeadsHeaderName(s, h);
    LeadsHeaderValue(c, h.value);
    assert DropBlanksEnd(h.value) == h.value;
    LeadsJoin(s, h.name + ": ", c, h.value + CRLF, EndHeader(c.(value := h.value)));
    assert h.name + ": " + (h.value + CRLF) == h.name + ": " + h.value + CRLF;
  }

  lemma {:induction false} LeadsHeaders(s: Scan, headers: seq<Header>)
    requires AtLine(s) && |s.head.headers| + |headers| <= MAX_HEADERS
    requires forall i :: 0 <= i < |headers| ==> Tokens(headers[i].name) && PlainValue(headers[i].value)
    ensures Leads(s, RenderHeaders(headers), s.(head := s.head.(headers := s.head.headers + headers)))
    decreases |headers|
  {
    if headers == [] {
      assert s.head.headers + headers == s.head.headers;
    } else {
      hide Leads;
      var h := headers[0];
      var t := s.(head := s.head.(headers := s.head.headers + [h]));
      LeadsHeader(s, h);
      LeadsHeaders(t, headers[1..]);
      assert s.head.headers + [h] + headers[1..] == s.head.headers + headers;
      LeadsJoin(s, h.name + ": " + h.value + CRLF, t, RenderHeaders(headers[1..]),
                s.(head := s.head.(headers := s.head.headers + headers)));
    }
  }

  /* ---- The request line ---- */

  lemma LeadsSpace(s: Scan)
    requires s.phase == InMethod || (s.phase == InTarget && s.head.target != [])
    ensures Leads(s, " ", s.(phase := if s.phase == InMethod then InTarget else InVersion))
  {
    hide Leads;
    LeadsOne(s, ' ');
  }

  lemma LeadsLineEnd(s: Scan)
    requires s.phase == InVersion && |s.version| == 8
    ensures Leads(s, CRLF, s.(phase := LineStart))
  {
    hide Leads;
    var t := s.(phase := VersionCr);
    LeadsOne(s, CR);
    LeadsOne(t, LF);
    LeadsJoin(s, [CR], t, [LF], s.(phase := LineStart));
    assert [CR] + [LF] == CRLF;
  }

  lemma LeadsWholeMethod(m: bytes)
    requires Tokens(m)
    ensures Leads(FRESH, m, Scan(InMethod, Head(m, [], []), [], [], []))
  {
    hide Leads;
    var t := Scan(InMethod, Head([m[0]], [], []), [], [], []);
    LeadsOne(FRESH, m[0]);
    LeadsMethod(t, m[1..]);
    assert [m[0]] + m[1..] == m;
    LeadsJoin(FRESH, [m[0]], t, m[1..], t.(head := Head(m, [], [])));
  }

  lemma LeadsWholeVersion(s: Scan)
    requires s.phase == InVersion && s.version == []
    ensures Leads(s, HTTP11 + CRLF, s.(phase := LineStart, version := HTTP11))
  {
    hide Leads, Consume;
    assert HTTP11[..0] == [] && HTTP11[0..] == HTTP11;
    LeadsVersion(s, 0);
    var t := s.(version := HTTP11);
    LeadsLineEnd(t);
    LeadsJoin(s, HTTP11, t, CRLF, t.(phase := LineStart));
  }

  lemma LeadsToVersion(m: bytes, g: bytes)
    requires Tokens(m) && g != [] && forall i :: 0 <= i < |g| ==> IsTargetByte(g[i])
    ensures Leads(FRESH, m + " " + g + " ", Scan(InVersion, Head(m, g, []), [], [], []))
  {
    hide Leads, Consume;
    var b := Scan(InMethod, Head(m, [], []), [], [], []);
    var c := b.(phase := InTarget);
    var d := c.(head := Head(m, g, []));
    LeadsWholeMethod(m);
    LeadsSpace(b);
    LeadsJoin(FRESH, m, b, " ", c);
    LeadsTarget(c, g);
    assert [] + g == g;
    LeadsJoin(FRESH, m + " ", c, g, d);
    LeadsSpace(d);
    LeadsJoin(FRESH, m + " " + g, d, " ", d.(phase := InVersion));
  }

  lemma LeadsRequestLine(m: bytes, g: bytes)
    requires Tokens(m) && g != [] && forall i :: 0 <= i < |g| ==> IsTargetByte(g[i])
    ensures Leads(FRESH, m + " " + g + " " + HTTP11 + CRLF, Scan(LineStart, Head(m, g, []), HTTP11, [], []))
  {
    hide Leads, Consume;
    var e := Scan(InVersion, Head(m, g, []), [], [], []);
    LeadsToVersion(m, g);
    LeadsWholeVersion(e);
    LeadsJoin(FRESH, m + " " + g + " ", e, HTTP11 + CRLF, e.(phase := LineStart, version := HTTP11));
    assert m + " " + g + " " + (HTTP11 + CRLF) == m + " " + g + " " + HTTP11 + CRLF;
  }

  /** A plain head, written out, is recognised whole: every octet of it and nothing more. */
  lemma ParseRender(head: Head)
    requires Plain(head)
    ensures Parse(Render(head)) == Complete(|Render(head)|, head)
  {
    hide Leads, Consume;
    var a := Scan(LineStart, Head(head.method_, head.target, []), HTTP11, [], []);
    var b := a.(head := head);
    var line := head.method_ + " " + head.target + " " + HTTP11 + CRLF;
    LeadsRequestLine(head.method_, head.target);
    LeadsHeaders(a, head.headers);
    assert [] + head.headers == head.headers;
    LeadsJoin(FRESH, line, a, RenderHeaders(head.headers), b);
    BlankLine(b);
    FeedAfter(FRESH, line + RenderHeaders(head.headers), b, CRLF);
  }

  lemma BlankLine(s: Scan)
    requires s.phase == LineStart
    ensures Feed(s, CRLF) == Complete(2, s.head)
  {
    assert CRLF[1..] == [LF];
  }

  /** Empty lines before a request are skipped. */
  lemma EmptyLineSkipped(input: bytes)
    requires Parse(input).Complete?
    ensures Parse(CRLF + input) == Complete(2 + Parse(input).len, Parse(input).head)
  {
    hide Leads;
    var t := FRESH.(phase := StartCr);
    LeadsOne(FRESH, CR);
    LeadsOne(t, LF);
    LeadsJoin(FRESH, [CR], t, [LF], FRESH);
    assert [CR] + [LF] == CRLF;
    FeedAfter(FRESH, CRLF, FRESH, input);
  }

  /* ---- What is refused ---- */

  lemma {:induction false} FeedAfterError(s: Scan, a: bytes, t: Scan, b: bytes)
    requires Leads(s, a, t) && Feed(t, b).Error?
    ensures Feed(s, a + b).Error?
    decreases |a|
  {
    if a == [] {
      assert a + b == b;
    } else {
      assert (a + b)[1..] == a[1..] + b && (a + b)[0] == a[0];
      FeedAfterError(Consume(s, a[0]).scan, a[1..], t, b);
    }
  }

  /** The octets of an HTTP/1 version, up to its last. */
  lemma {:induction false} LeadsVersionStart(s: Scan, k: nat)
    requires s.phase == InVersion && k <= 7 && s.version == "HTTP/1."[..k]
    ensures Leads(s, "HTTP/1."[k..], s.(version := "HTTP/1."))
    decreases 7 - k
  {
    var v: bytes := "HTTP/1.";
    if k < 7 {
      assert v[k..][0] == v[k] && v[k..][1..] == v[k + 1..] && v[..k] + [v[k]] == v[..k + 1];
      LeadsVersionStart(Consume(s, v[k]).scan, k + 1);
    } else {
      assert v[..7] == v && v[7..] == [];
    }
  }

  /** No version but HTTP/1.0 and HTTP/1.1 is let through. */
  lemma OtherVersionRefused(m: bytes, g: bytes, minor: byte, rest: bytes)
    requires Tokens(m) && g != [] && forall i :: 0 <= i < |g| ==> IsTargetByte(g[i])
    requires minor != '0' && minor != '1'
    ensures Parse(m + " " + g + " " + "HTTP/1." + [minor] + rest).Error?
  {
    hide Leads;
    var e := Scan(InVersion, Head(m, g, []), [], [], []);
    var v: bytes := "HTTP/1.";
    LeadsToVersion(m, g);
    assert v[..0] == [] && v[0..] == v;
    LeadsVersionStart(e, 0);
    LeadsJoin(FRESH, m + " " + g + " ", e, v, e.(version := v));
    var tail := [minor] + rest;
    assert Feed(e.(version := v), tail).Error?;
    FeedAfterError(FRESH, m + " " + g + " " + v, e.(version := v), tail);
    assert m + " " + g + " " + v + tail == m + " " + g + " " + "HTTP/1." + [minor] + rest;
  }

  /** After 64 header lines no more are let through. */
  lemma MoreHeadersRefused(head: Head, more: bytes)
    requires Plain(head) && |head.headers| == 64
    requires more != [] && IsToken(more[0])
    ensures Parse(head.method_ + " " + head.target + " " + HTTP11 + CRLF + RenderHeaders(head.headers) + more).Error?
  {
    hide Leads;
    var a := Scan(LineStart, Head(head.method_, head.target, []), HTTP11, [], []);
    var b := a.(head := head);
    var line := head.method_ + " " + head.target + " " + HTTP11 + CRLF;
    LeadsRequestLine(head.method_, head.target);
    LeadsHeaders(a, head.headers);
    assert [] + head.headers == head.headers;
    LeadsJoin(FRESH, line, a, RenderHeaders(head.headers), b);
    assert Feed(b, more).Error?;
    FeedAfterError(FRESH, line + RenderHeaders(head.headers), b, more);
  }

  /* ---- What is recognised ---- */

  predicate PlainHeaders(headers: seq<Header>) {
    |headers| <= MAX_HEADERS && forall i :: 0 <= i < |headers| ==> Tokens(headers[i].name) && PlainValue(headers[i].value)
  }

  /** Value octets that do not begin with a blank. */
  predicate LeftPlain(s: bytes) {
    (forall i :: 0 <= i < |s| ==> IsValueByte(s[i])) && (s != [] ==> !IsBlank(s[0]))
  }

  predicate AtStart(phase: Phase) {
    phase.Start? || phase.StartCr?
  }

  /** The request line collected so far. */
  predicate LinePlain(s: Scan) {
    && (forall i :: 0 <= i < |s.head.target| ==> IsTargetByte(s.head.target[i]))
    && (!AtStart(s.phase) ==> Tokens(s.head.method_))
    && (AtStart(s.phase) || s.phase.InMethod? || s.phase.InTarget? || s.head.target != [])
  }

  predicate InHeader(phase: Phase) {
    phase.InName? || phase.AfterColon? || phase.InValue? || phase.ValueCr?
  }

  /** The header lines collected so far, and the one being read. */
  predicate LinesPlain(s: Scan) {
    && PlainHeaders(s.head.headers) && LeftPlain(s.value)
    && (if InHeader(s.phase) then Tokens(s.name) && |s.head.headers| < MAX_HEADERS else s.name == [])
    && (if s.phase.InValue? then s.value != [] else s.phase.ValueCr? || s.value == [])
  }

  lemma {:induction false} DroppedIsPlain(s: bytes)
    requires LeftPlain(s)
    ensures PlainValue(DropBlanksEnd(s))
    decreases |s|
  {
    if s != [] && IsBlank(s[|s| - 1]) {
      DroppedIsPlain(s[..|s| - 1]);
    }
  }

  lemma ConsumeKeepsLine(s: Scan, c: byte)
    requires LinePlain(s) && Consume(s, c).Next?
    ensures LinePlain(Consume(s, c).scan)
  {
    hide DropBlanksEnd;
  }

  lemma FiledIsPlain(s: Scan)
    requires LinesPlain(s) && InHeader(s.phase)
    ensures LinesPlain(EndHeader(s))
  {
    DroppedIsPlain(s.value);
  }

  lemma ConsumeKeepsLines(s: Scan, c: byte)
    requires LinesPlain(s) && Consume(s, c).Next?
    ensures LinesPlain(Consume(s, c).scan)
  {
    hide EndHeader;
    if InHeader(s.phase) {
      FiledIsPlain(s);
    }
  }

  lemma {:induction false} FeedIsPlain(s: Scan, input: bytes)
    requires LinePlain(s) && LinesPlain(s) && Feed(s, input).Complete?
    ensures Plain(Feed(s, input).head)
    decreases |input|
  {
    hide Consume;
    var move := Consume(s, input[0]);
    if move.Next? {
      ConsumeKeepsLine(s, input[0]);
      ConsumeKeepsLines(s, input[0]);
      FeedIsPlain(move.scan, input[1..]);
    } else {
      DoneIsPlain(s, input[0]);
    }
  }

  lemma DoneIsPlain(s: Scan, c: byte)
    requires LinePlain(s) && LinesPlain(s) && Consume(s, c).Done?
    ensures Plain(s.head)
  {
  }

  /** Whatever is recognised is a plain head, and written out it is recognised as itself. */
  lemma ParsedIsPlain(input: bytes)
    requires Parse(input).Complete?
    ensures Plain(Parse(input).head)
    ensures Parse(Render(Parse(input).head)) == Complete(|Render(Parse(input).head)|, Parse(input).head)
  {
    hide Render;
    FeedIsPlain(FRESH, input);
    ParseRender(Parse(input).head);
  }
}
