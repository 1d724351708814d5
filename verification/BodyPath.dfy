/** A Rack body all the way: from the chunks its #each yields to what the client reads. */
module BodyPath {
  import opened Bytes
  import opened HeadParser
  import opened ContentLength
  import opened Io
  import opened Responses
  import opened Decoder
  import opened Stream
  import opened Spool

  /** The response body made of what was collected. */
  function ToBody(acc: Accumulator): Body {
    match acc
    case Memory(data) => InMemory(data)
    case OnFile(content) => Spooled(FileImage(content, true, Option.None))
  }

  function Assembled(status: Status, headers: seq<Header>, items: seq<Item>): Response {
    Response(status, headers, ToBody(Kept(Landed(items, 0))))
  }

  /** Headers with which an application leaves framing to the engine. */
  predicate Unframed(headers: seq<Header>) {
    GoodHeaders(headers) && forall h :: h in headers ==> !IsTransfer(h) && !IsLength(h)
  }

  lemma AssembledIsDecent(status: Status, headers: seq<Header>, items: seq<Item>)
    requires 200 <= status <= 999 && Unframed(headers)
    ensures var r := Assembled(status, headers, items);
            && WellFormed(r) && BodyBytes(r.body) == Landed(items, 0) && BodySize(r.body) == |Landed(items, 0)|
            && (r.body.Spooled? <==> |Landed(items, 0)| > SPOOL_THRESHOLD_BYTES)
  {
    hide Landed, Yielded;
    LandedShorter(items, 0);
  }

  /** A collection that succeeded reaches the client as the concatenation of its chunks, framed
      with that length and leaving the stream in sync, exactly when none of its writes failed. */
  lemma {:induction false} ChunksReachClient(status: Status, headers: seq<Header>, items: seq<Item>, last: bool, rest: bytes)
    requires 200 <= status <= 999 && !Bodyless(status, false) && Unframed(headers)
    requires Succeeds(items, 0)
    ensures var r := Assembled(status, headers, items);
            && WellFormed(r)
            && var w := Wired(r, last);
               && LengthGiven(AsRead(w.headers)) == Some(|Landed(items, 0)|)
               && (Decode(Image(w, false) + rest, false) == Got(Seen(status, AsRead(w.headers), Yielded(items)), rest)
                   <==> NoWriteFails(items, 0))
  {
    hide Decode, Image, Wire, Landed, Yielded, NoWriteFails, Succeeds, LengthGiven, WellFormed;
    var r := Assembled(status, headers, items);
    AssembledIsDecent(status, headers, items);
    var w := Wired(r, last);
    AddedLength(r, last);
    ResponseInSync(r, last, false, rest);
    ConcatenationExactly(items);
  }
}
