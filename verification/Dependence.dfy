/** A client whose outcome does depend on how its octets are cut into reads. */
module Dependence {
  import opened Bytes
  import opened HeadParser
  import opened ContentLength
  import opened Io
  import opened Responses
  import opened Connection
  import opened Segmentation
  import opened Requests
  import opened Decoder
  import opened Stream

  /** A request whose length stretches the buffer, then one whose head fits only in that buffer. */
  function Pair(first: Head, body: bytes, second: Head): bytes {
    Render(first) + body + Render(second)
  }

  predicate Stretching(first: Head, body: bytes, second: Head) {
    && Plain(first) && Plain(second) && AllUtf8(first.headers)
    && |Render(first)| <= MAX_BUF_CAPACITY
    && LengthOf(first.headers) == Some(|body|) && |body| <= MAX_BODY_CAPACITY
    && MAX_BUF_CAPACITY < |Render(second)| <= |Render(first)| + |body|
  }

  /** The first request is answered, and what is left is the second. */
  lemma FirstAnswered(p: Policy, first: Head, body: bytes, second: Head, log: Log)
    requires Stretching(first, body, second) && p.limit.None?
    requires log.served + 1 < p.maxKeepalive
    requires forall calls :: p.respond(calls).body.InMemory?
    ensures var d := Due(p, Pair(first, body, second), log);
            && d.Owes? && d.eaten == |Render(first)| + |body|
            && Pair(first, body, second)[d.eaten..] == Render(second)
            && Parse(View(Pair(first, body, second))).Complete?
  {
    hide Parse, LengthOf, Plain, Render, AllUtf8, HeadOf;
    var rest := Pair(first, body, second);
    var n := |Render(first)|;
    ParseRender(first);
    assert View(rest)[..n] == Render(first);
    assert Render(first) <= View(rest);
    ParseStable(Render(first), View(rest));
    assert rest[n..n + |body|] == body;
    assert rest[n + |body|..] == Render(second);
  }

  lemma StretchedIsUnclear(p: Policy, first: Head, body: bytes, second: Head, log: Log)
    requires Stretching(first, body, second) && p.limit.None?
    requires log.served + 1 < p.maxKeepalive
    requires forall calls :: p.respond(calls).body.InMemory?
    ensures !Independent(p, Pair(first, body, second), log)
  {
    hide Parse, Due, Plain, Render, LengthOf, AllUtf8;
    var rest := Pair(first, body, second);
    FirstAnswered(p, first, body, second, log);
    var d := Due(p, rest, log);
    var whole := Render(second);
    ParseRender(second);
    ParseExact(whole, MAX_BUF_CAPACITY);
    assert View(whole) == whole[..MAX_BUF_CAPACITY];
    assert whole[..Min(|whole|, Max(Max(0, d.eaten), MAX_BUF_CAPACITY))] == whole;
    assert !Clear(p, whole, d.log, Max(0, d.eaten));
    assert !Clear(p, rest, log, 0);
    SegmentationIndependence(p, rest, log);
  }

  const POST: Head := Head("POST", "/", [LengthField(70000)])

  function Filler(n: nat): bytes {
    seq(n, _ => 'a')
  }

  function Wide(n: nat): Head {
    Head("GET", "/", [Header("X", Filler(n))])
  }

  /** Whatever the handler answers (from memory), this client's outcome depends on segmentation. */
  lemma SegmentationMatters(p: Policy)
    requires p.limit.None? && p.maxKeepalive >= 2
    requires forall calls :: p.respond(calls).body.InMemory?
    ensures !Independent(p, Pair(POST, Filler(70000), Wide(66000)), Log([], [], 0, 0))
  {
    PostStretches();
    StretchedIsUnclear(p, POST, Filler(70000), Wide(66000), Log([], [], 0, 0));
  }

  lemma {:induction false} DigitsTake(n: nat, k: nat)
    requires k >= 1 && n < Pow10(k)
    ensures |Decimal(n)| <= k
  {
    if k > 1 && n >= 10 {
      DigitsTake(n / 10, k - 1);
    }
  }

  function Pow10(k: nat): nat {
    if k == 0 then 1 else 10 * Pow10(k - 1)
  }

  lemma OneHeader(h: Header)
    ensures RenderHeaders([h]) == h.name + ": " + h.value + CRLF
  {
    assert [h][1..] == [];
  }

  lemma PostIsPlain()
    ensures Plain(POST) && |Render(POST)| <= 100
  {
    hide Decimal;
    var length := POST.headers[0];
    OneHeader(length);
    EngineNames();
    assert Pow10(5) == 10 * Pow10(4) == 100 * Pow10(3) == 1000 * Pow10(2) == 100000;
    DigitsTake(70000, 5);
  }

  lemma PostLength()
    ensures LengthOf(POST.headers) == Some(70000) && AllUtf8(POST.headers)
  {
    hide Decimal, ValidUtf8, LengthOf, IsLength, DeclaredBy, ReadLength, ReadAs;
    var length := LengthField(70000);
    LengthHeader(70000);
    assert ',' !in length.value;
    ClientLengthIsServerLength(length, 70000);
    DigitsAreUtf8(length.value);
    LengthOfMeaning(POST.headers, 70000);
  }

  lemma WideIsPlain(n: nat)
    ensures Plain(Wide(n)) && n <= |Render(Wide(n))| <= n + 100
  {
    OneHeader(Wide(n).headers[0]);
  }

  lemma PostStretches()
    ensures Stretching(POST, Filler(70000), Wide(66000))
  {
    hide Plain, Render, LengthOf, AllUtf8;
    PostIsPlain();
    PostLength();
    WideIsPlain(66000);
  }
}
