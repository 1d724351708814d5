/** Collecting a Rack body: in memory up to a threshold, in a file beyond it, and never
    two collections at once. */
module Spool {
  import opened Bytes

  const SPOOL_THRESHOLD_BYTES: nat := 1024 * 1024

  datatype Accumulator = Memory(data: bytes) | OnFile(content: bytes)

  /** How file I/O would go now: it works, or it breaks with `landed` octets of the write on
      the file. The error surfaces in the application's #each, which may rescue it. */
  datatype Disk = Works | Breaks(landed: nat, rescued: bool)

  /** What one step of a body's #each may do. */
  datatype Item =
    | Chunk(data: bytes, disk: Disk)
    | Fault(rescued: bool)                         // raises, or yields no String
    | ReadAgain(inner: seq<Item>, rescued: bool)   // has another body read, meanwhile

  /* ---- What is promised ---- */

  predicate Small(total: nat) {
    total <= SPOOL_THRESHOLD_BYTES
  }

  /** The octets, and where they are: in memory exactly while they fit. */
  function Kept(content: bytes): Accumulator {
    if Small(|content|) then Memory(content) else OnFile(content)
  }

  function Content(acc: Accumulator): bytes {
    if acc.Memory? then acc.data else acc.content
  }

  /** Writing this item to a file, after `before` octets, fails. */
  predicate WriteFails(item: Item, before: nat) {
    item.Chunk? && item.data != [] && !Small(before + |item.data|) && item.disk.Breaks?
  }

  /** The octets of the item that are kept. */
  function Landing(item: Item, before: nat): bytes {
    if !item.Chunk? then []
    else if !WriteFails(item, before) then item.data
    else if Small(before) || item.disk.landed >= |item.data| then []
    else item.data[..item.disk.landed]
  }

  /** The item ends the collection with an error. */
  predicate Stops(item: Item, before: nat) {
    match item
    case Chunk(_, disk) => WriteFails(item, before) && !disk.rescued
    case Fault(rescued) => !rescued
    case ReadAgain(_, rescued) => !rescued
  }

  predicate Succeeds(items: seq<Item>, before: nat) {
    items == [] ||
    (!Stops(items[0], before) && Succeeds(items[1..], before + |Landing(items[0], before)|))
  }

  function Landed(items: seq<Item>, before: nat): bytes {
    if items == [] then []
    else Landing(items[0], before) + Landed(items[1..], before + |Landing(items[0], before)|)
  }

  /** The concatenation of the chunks. */
  function Yielded(items: seq<Item>): bytes {
    if items == [] then [] else (if items[0].Chunk? then items[0].data else []) + Yielded(items[1..])
  }

  /** No write fails on the way (with Succeeds: none failed and was rescued). */
  predicate NoWriteFails(items: seq<Item>, before: nat) {
    items == [] ||
    (!WriteFails(items[0], before) && NoWriteFails(items[1..], before + |Landing(items[0], before)|))
  }

  lemma {:induction false} AppendLanded(items: seq<Item>, item: Item, before: nat)
    ensures Landed(items + [item], before) == Landed(items, before) + Landing(item, before + |Landed(items, before)|)
  {
    hide Landing;
    if items == [] {
      assert [] + [item] == [item] && [item][1..] == [];
      assert Landed([item], before) == Landing(item, before) + [];
    } else {
      var first := Landing(items[0], before);
      var rest := Landed(items[1..], before + |first|);
      var next := Landing(item, before + |first + rest|);
      assert (items + [item])[1..] == items[1..] + [item] && (items + [item])[0] == items[0];
      AppendLanded(items[1..], item, before + |first|);
      assert first + (rest + next) == first + rest + next;
    }
  }

  lemma {:induction false} AppendOne(items: seq<Item>, item: Item, before: nat)
    ensures var after := before + |Landed(items, before)|;
            && Landed(items + [item], before) == Landed(items, before) + Landing(item, after)
            && (Succeeds(items + [item], before) <==> Succeeds(items, before) && !Stops(item, after))
  {
    hide Landing, Stops;
    AppendLanded(items, item, before);
    if items == [] {
      assert [] + [item] == [item] && [item][1..] == [];
    } else {
      assert (items + [item])[1..] == items[1..] + [item] && (items + [item])[0] == items[0];
      AppendOne(items[1..], item, before + |Landing(items[0], before)|);
    }
  }

  lemma {:induction false} SucceedsPrefix(items: seq<Item>, k: nat, before: nat)
    requires k <= |items| && Succeeds(items, before)
    ensures Succeeds(items[..k], before)
  {
    if k > 0 {
      assert items[..k][1..] == items[1..][..k - 1];
      SucceedsPrefix(items[1..], k - 1, before + |Landing(items[0], before)|);
    }
  }

  lemma {:induction false} LandedShorter(items: seq<Item>, before: nat)
    ensures |Landed(items, before)| <= |Yielded(items)|
    ensures |Landed(items, before)| == |Yielded(items)| ==> NoWriteFails(items, before)
    ensures NoWriteFails(items, before) ==> Landed(items, before) == Yielded(items)
  {
    if items != [] {
      LandedShorter(items[1..], before + |Landing(items[0], before)|);
    }
  }

  /** A collection is the concatenation of the chunks exactly when no write failed in it. */
  lemma ConcatenationExactly(items: seq<Item>)
    ensures Landed(items, 0) == Yielded(items) <==> NoWriteFails(items, 0)
  {
    LandedShorter(items, 0);
  }

  /** Every error the application's own code meets on the way, it rescues. */
  predicate AllRescued(items: seq<Item>) {
    forall i :: 0 <= i < |items| && !items[i].Chunk? ==> items[i].rescued
  }

  predicate AllDisksWork(items: seq<Item>) {
    forall i :: 0 <= i < |items| && items[i].Chunk? ==> items[i].disk.Works?
  }

  /** Success takes every raised error and every nested attempt to be rescued, and with working
      disks it takes no more: then it is the concatenation that is kept. */
  lemma {:induction false} SuccessMeaning(items: seq<Item>, before: nat)
    ensures Succeeds(items, before) ==> AllRescued(items)
    ensures AllDisksWork(items) ==> (Succeeds(items, before) <==> AllRescued(items)) && Landed(items, before) == Yielded(items)
  {
    if items != [] {
      var after := before + |Landing(items[0], before)|;
      SuccessMeaning(items[1..], after);
      assert AllRescued(items) <==> (items[0].Chunk? || items[0].rescued) && AllRescued(items[1..]) by {
        assert forall i :: 0 <= i < |items| - 1 ==> items[1..][i] == items[i + 1];
        assert forall i :: 1 <= i < |items| ==> items[i] == items[1..][i - 1];
      }
      assert AllDisksWork(items) ==> AllDisksWork(items[1..]);
    }
  }

  /** A chunk whose write breaks, when it does not fit in memory with what has landed before it,
      ends the collection unless the application rescues the error. */
  lemma BrokenDiskFails(items: seq<Item>, k: nat)
    requires k < |items| && items[k].Chunk? && items[k].data != []
    requires items[k].disk.Breaks? && !items[k].disk.rescued
    requires |Landed(items[..k], 0)| + |items[k].data| > SPOOL_THRESHOLD_BYTES
    ensures !Succeeds(items, 0)
  {
    AppendOne(items[..k], items[k], 0);
    assert items[..k] + [items[k]] == items[..k + 1];
    if Succeeds(items, 0) {
      SucceedsPrefix(items, k + 1, 0);
    }
  }

  /** A rescued failure of a write to the file leaves there what had landed of it. */
  lemma PartialWriteStays(first: bytes, second: bytes, disk: Disk)
    requires |first| > SPOOL_THRESHOLD_BYTES && disk.Breaks? && disk.rescued && disk.landed < |second|
    ensures var items := [Chunk(first, Works), Chunk(second, disk)];
            Succeeds(items, 0) && Kept(Landed(items, 0)) == OnFile(first + second[..disk.landed])
  {
    var one, two := Chunk(first, Works), Chunk(second, disk);
    AppendOne([], one, 0);
    AppendOne([one], two, 0);
    assert [] + [one] == [one] && [one] + [two] == [one, two];
    assert [] + first == first;
    assert Landed([one], 0) == first && Landing(two, |first|) == second[..disk.landed];
  }

  /** A rescued write failure goes unnoticed: the collection succeeds with octets missing. */
  lemma RescueLosesOctets(big: bytes, disk: Disk)
    requires |big| > SPOOL_THRESHOLD_BYTES && disk.Breaks? && disk.rescued
    ensures var items := [Chunk(big, disk), Chunk("x", Works)];
            Succeeds(items, 0) && Kept(Landed(items, 0)) == Memory("x") && Yielded(items) == big + "x"
  {
    var items := [Chunk(big, disk), Chunk("x", Works)];
    assert items[1..] == [Chunk("x", Works)] && items[1..][1..] == [];
    assert Landing(items[0], 0) == [];
    assert Landed(items, 0) == [] + Landed(items[1..], 0) == "x" + [] == "x";
    assert Yielded(items[1..]) == "x" + [] == "x";
    assert Succeeds(items[1..], 0);
  }

  /** Where the chunk boundaries fall makes no difference to what is kept, nor to where. */
  lemma BoundariesDoNotMatter(a: seq<Item>, b: seq<Item>)
    requires NoWriteFails(a, 0) && NoWriteFails(b, 0) && Yielded(a) == Yielded(b)
    ensures Kept(Landed(a, 0)) == Kept(Landed(b, 0))
  {
    LandedShorter(a, 0);
    LandedShorter(b, 0);
  }

  /* ---- The reader ---- */

  /** The thread's accumulator and reentrancy flag. */
  class BodyReader {
    var acc: Accumulator
    var reading: bool

    constructor ()
      ensures Idle()
    {
      acc, reading := Memory([]), false;
    }

    /** Between collections the flag is down and nothing is held. */
    predicate Idle()
      reads this
    {
      !reading && acc == Memory([])
    }

    /** spool_chunk: memory holds at most the threshold, before and after. */
    method SpoolChunk(data: bytes, disk: Disk) returns (ok: bool)
      requires acc == Kept(Content(acc))
      modifies this`acc
      ensures ok <==> !WriteFails(Chunk(data, disk), |old(Content(acc))|)
      ensures acc == Kept(old(Content(acc)) + Landing(Chunk(data, disk), |old(Content(acc))|))
      ensures acc.Memory? ==> |acc.data| <= SPOOL_THRESHOLD_BYTES
    {
      match acc {
      case Memory(buf) =>
        if |buf| + |data| > SPOOL_THRESHOLD_BYTES {
          if disk.Breaks? {
            assert buf + [] == buf;
            return false;   // the new file is dropped with whatever landed on it
          }
          acc := OnFile(buf + data);
        } else {
          acc := Memory(buf + data);
        }
      case OnFile(content) =>
        if data != [] && disk.Breaks? {
          acc := OnFile(content + if disk.landed < |data| then data[..disk.landed] else []);
          return false;
        }
        acc := OnFile(content + data);
      }
      ok := true;
    }

    /** body.each with collect_chunk as its block: stops at the first failure that is not rescued. */
    method Each(items: seq<Item>) returns (ok: bool)
      requires reading && acc == Memory([])
      modifies this
      ensures reading
      ensures ok <==> Succeeds(items, 0)
      ensures ok ==> acc == Kept(Landed(items, 0))
      ensures ok ==> AllRescued(items)
      ensures AllDisksWork(items) ==> (ok <==> AllRescued(items))
      decreases items, 0
    {
      SuccessMeaning(items, 0);
      for i := 0 to |items|
        invariant reading
        invariant Succeeds(items[..i], 0) && acc == Kept(Landed(items[..i], 0))
      {
        var item := items[i];
        assert items[..i + 1] == items[..i] + [item];
        AppendOne(items[..i], item, 0);
        var failed, rescued := true, false;
        match item {
        case Chunk(data, disk) =>
          var kept := SpoolChunk(data, disk);
          failed, rescued := !kept, disk.Breaks? && disk.rescued;
        case Fault(r) =>
          rescued := r;
        case ReadAgain(inner, r) =>
          var nested := ReadBody(inner);
          failed, rescued := nested.None?, r;
        }
        if failed && !rescued {
          if Succeeds(items, 0) {
            SucceedsPrefix(items, i + 1, 0);
          }
          return false;
        }
        assert Landed(items[..i], 0) + [] == Landed(items[..i], 0);
      }
      assert items[..|items|] == items;
      ok := true;
    }

    /** read_body: refuses while another is in progress, and leaves nothing behind on any exit. */
    method ReadBody(items: seq<Item>) returns (r: Option<Accumulator>)
      requires reading || Idle()
      modifies this
      ensures old(reading) ==> r.None? && acc == old(acc) && reading
      ensures !old(reading) ==> Idle()
      ensures !old(reading) ==> r == if Succeeds(items, 0) then Some(Kept(Landed(items, 0))) else None
      ensures r.Some? ==> AllRescued(items)
      ensures !old(reading) && AllDisksWork(items) ==> r == if AllRescued(items) then Some(Kept(Yielded(items))) else None
      decreases items, 1
    {
      SuccessMeaning(items, 0);
      var entered := reading;
      reading := true;
      if entered {
        return None;
      }
      acc := Memory([]);
      var ok := Each(items);
      r := if ok then Some(acc) else None;
      reading, acc := false, Memory([]);
    }
  }
}
