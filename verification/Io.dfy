/** The socket and the spool file, as far as the connection loop uses them. */
module Io {
  import opened Bytes

  /** What meets one read of the socket: up to n octets at once, the same but only
      after the keep-alive timeout has passed, or a failure. */
  datatype Arrival = Prompt(n: nat) | Late(n: nat) | Broken

  datatype ReadResult = Data(n: nat) | Elapsed | Failed

  function Min(a: nat, b: nat): nat {
    if a < b then a else b
  }

  function Max(a: nat, b: nat): nat {
    if a < b then b else a
  }

  /** A read of `window` octets when `remaining` are still to come. It yields at
      least one octet, except 0 at the end of the input. `timed` reads give up on late data. */
  function ReadOutcome(a: Arrival, window: nat, remaining: nat, timed: bool): (r: ReadResult)
    requires window > 0
    ensures r.Data? ==> r.n <= window && r.n <= remaining && (r.n == 0 <==> remaining == 0)
  {
    match a
    case Broken => Failed
    case Late(n) => if timed then Elapsed else Data(Min(Min(window, remaining), Max(1, n)))
    case Prompt(n) => Data(Min(Min(window, remaining), Max(1, n)))
  }

  /** The peer takes `limit` octets in all and then breaks the connection (None: never). */
  predicate Fits(limit: Option<nat>, sent: bytes) {
    limit.None? || |sent| <= limit.value
  }

  datatype Delivery = Delivery(sent: bytes, ok: bool)

  /** What has been sent after writing data, and whether the write succeeded. */
  function Put(limit: Option<nat>, sent: bytes, data: bytes): (d: Delivery)
    requires Fits(limit, sent)
    ensures Fits(limit, d.sent) && sent <= d.sent <= sent + data
    ensures d.ok <==> d.sent == sent + data
    ensures !d.ok ==> limit == Some(|d.sent|)
  {
    if Fits(limit, sent + data) then Delivery(sent + data, true)
    else Delivery((sent + data)[..limit.value], false)
  }

  class Socket {
    const input: bytes               // every octet the client will ever send
    const arrivals: nat -> Arrival   // what meets the k-th read
    const limit: Option<nat>
    var taken: nat                   // octets of input delivered so far
    var readsDone: nat
    var sent: bytes

    constructor (input: bytes, arrivals: nat -> Arrival, limit: Option<nat>)
      ensures this.input == input && this.arrivals == arrivals && this.limit == limit
      ensures taken == 0 && readsDone == 0 && sent == []
    {
      this.input, this.arrivals, this.limit := input, arrivals, limit;
      taken, readsDone, sent := 0, 0, [];
    }

    ghost predicate Valid()
      reads this
    {
      taken <= |input| && Fits(limit, sent)
    }

    /** socket.read(&mut buf[lo..hi]); the window is never empty, so 0 means end of input. */
    method Read(buf: array<byte>, lo: nat, hi: nat, timed: bool) returns (r: ReadResult)
      requires Valid() && lo < hi <= buf.Length
      modifies this`taken, this`readsDone, buf
      ensures Valid() && readsDone == old(readsDone) + 1
      ensures r == ReadOutcome(arrivals(old(readsDone)), hi - lo, |input| - old(taken), timed)
      ensures taken == old(taken) + if r.Data? then r.n else 0
      ensures buf[..lo] == old(buf[..lo])
      ensures r.Data? ==> buf[lo..lo + r.n] == input[old(taken)..taken]
    {
      r := ReadOutcome(arrivals(readsDone), hi - lo, |input| - taken, timed);
      readsDone := readsDone + 1;
      if r.Data? {
        forall i | 0 <= i < r.n {
          buf[lo + i] := input[taken + i];
        }
        taken := taken + r.n;
      }
    }

    /** socket.write_all(data) */
    method WriteAll(data: bytes) returns (ok: bool)
      requires Valid()
      modifies this`sent
      ensures Valid()
      ensures Delivery(sent, ok) == Put(limit, old(sent), data)
    {
      var delivery := Put(limit, sent, data);
      sent := delivery.sent;
      ok := delivery.ok;
    }
  }

  /** A spool file's octets and how it may fail: `sized` is false when its length
      cannot be asked for; `broken` is the offset at which reading it fails. */
  datatype FileImage = FileImage(content: bytes, sized: bool, broken: Option<nat>)

  /** Reading the whole file meets no failure. */
  predicate Healthy(f: FileImage) {
    f.broken.None? || f.broken.value > |f.content|
  }

  /** What can be read before the end or the failure. */
  function Readable(f: FileImage): (s: bytes)
    ensures s <= f.content
  {
    if Healthy(f) then f.content else f.content[..f.broken.value]
  }

  /** A file fails where it is said to, if that is before its end or at it, and else it does not. */
  lemma FailsWhereSaid(f: FileImage)
    ensures Healthy(f) ==> Readable(f) == f.content
    ensures Healthy(f) <==> forall k: nat :: f.broken == Some(k) ==> |f.content| < k
    ensures forall k: nat :: f.broken == Some(k) && k <= |f.content| ==> Readable(f) == f.content[..k]
  {
    assert f.broken.Some? ==> f.broken == Some(f.broken.value);
  }

  class SpoolFile {
    const image: FileImage
    var pos: nat

    constructor (image: FileImage, pos: nat)
      ensures this.image == image && this.pos == pos
    {
      this.image, this.pos := image, pos;
    }

    method Rewind()
      modifies this
      ensures pos == 0
    {
      pos := 0;
    }

    /** file.read(&mut chunk): any short count, 0 at the end of the file. */
    method Read(chunk: array<byte>) returns (r: ReadResult)
      requires chunk.Length > 0 && pos <= |Readable(image)|
      modifies this, chunk
      ensures r.Data? || r.Failed?
      ensures r.Failed? ==> pos == old(pos) == |Readable(image)| && !Healthy(image)
      ensures r.Data? ==> r.n <= chunk.Length && pos == old(pos) + r.n <= |Readable(image)|
      ensures r.Data? ==> chunk[..r.n] == Readable(image)[old(pos)..pos]
      ensures r.Data? && r.n == 0 ==> pos == |Readable(image)| && Healthy(image)
    {
      var remaining := |Readable(image)| - pos;
      if remaining == 0 {
        return if Healthy(image) then Data(0) else Failed;
      }
      var n: nat :| 1 <= n <= chunk.Length && n <= remaining;
      forall i | 0 <= i < n {
        chunk[i] := Readable(image)[pos + i];
      }
      pos := pos + n;
      r := Data(n);
    }
  }
}
