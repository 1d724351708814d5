/** Content-Length: how long a message says its body is. */
module ContentLength {
  import opened Bytes
  import opened HeadParser

  const CONTENT_LENGTH: bytes := "content-length"

  predicate IsLength(h: Header) {
    EqIgnoreCase(h.name, CONTENT_LENGTH)
  }

  /** The length one Content-Length field declares, if it is well formed. */
  function DeclaredBy(h: Header): Option<nat> {
    if ValidUtf8(h.value) then ParseUsize(Trim(h.value)) else None
  }

  /** Every Content-Length field among headers is well formed and declares n,
      and n is 0 when there is none. */
  predicate AllDeclare(headers: seq<Header>, n: nat) {
    && (forall h :: h in headers && IsLength(h) ==> DeclaredBy(h) == Some(n))
    && ((forall h :: h in headers ==> !IsLength(h)) ==> n == 0)
  }

  /** One field folded into what the fields before it declared. `outcome.None?` is an error. */
  function Fold(found: Option<nat>, h: Header): (outcome: Option<Option<nat>>) {
    if !IsLength(h) then Some(found)
    else
      match DeclaredBy(h)
      case None => None
      case Some(n) => if found.None? || found == Some(n) then Some(Some(n)) else None
  }

  function FoldAll(headers: seq<Header>): Option<Option<nat>> {
    if headers == [] then Some(None)
    else
      match FoldAll(headers[..|headers| - 1])
      case None => None
      case Some(found) => Fold(found, headers[|headers| - 1])
  }

  /** The declared body length; None stands for the InvalidData error. */
  function LengthOf(headers: seq<Header>): Option<nat> {
    match FoldAll(headers)
    case None => None
    case Some(None) => Some(0)
    case Some(Some(n)) => Some(n)
  }

  method ReadContentLength(headers: seq<Header>) returns (length: Option<nat>)
    ensures length == LengthOf(headers)
    ensures forall n: nat :: length == Some(n) <==> AllDeclare(headers, n)
  {
    forall n: nat ensures LengthOf(headers) == Some(n) <==> AllDeclare(headers, n) {
      LengthOfMeaning(headers, n);
    }
    var found: Option<nat> := None;
    for i := 0 to |headers|
      invariant FoldAll(headers[..i]) == Some(found)
    {
      assert headers[..i + 1][..i] == headers[..i];
      if !IsLength(headers[i]) {
        continue;
      }
      var parsed := DeclaredBy(headers[i]);
      if parsed.None? {
        FoldStaysFailed(headers, i + 1);
        return None;
      }
      if found.None? {
        found := parsed;
      } else if found != parsed {
        FoldStaysFailed(headers, i + 1);
        return None;
      }
    }
    assert headers[..|headers|] == headers;
    return Some(if found.None? then 0 else found.value);
  }

  lemma {:induction false} FoldStaysFailed(headers: seq<Header>, k: nat)
    requires k <= |headers|
    requires FoldAll(headers[..k]).None?
    ensures FoldAll(headers).None?
  {
    if k < |headers| {
      assert headers[..|headers| - 1][..k] == headers[..k];
      FoldStaysFailed(headers[..|headers| - 1], k);
    } else {
      assert headers[..k] == headers;
    }
  }

  lemma {:induction false} FoldMeaning(headers: seq<Header>)
    ensures FoldAll(headers) == Some(None) <==> forall h :: h in headers ==> !IsLength(h)
    ensures forall n: nat :: FoldAll(headers) == Some(Some(n)) <==>
      (exists h :: h in headers && IsLength(h)) && (forall h :: h in headers && IsLength(h) ==> DeclaredBy(h) == Some(n))
  {
    if headers != [] {
      var last := headers[|headers| - 1];
      FoldMeaning(headers[..|headers| - 1]);
      assert headers == headers[..|headers| - 1] + [last];
      assert forall h :: h in headers <==> h in headers[..|headers| - 1] || h == last;
    }
  }

  lemma LengthOfMeaning(headers: seq<Header>, n: nat)
    ensures LengthOf(headers) == Some(n) <==> AllDeclare(headers, n)
  {
    FoldMeaning(headers);
  }

  /** The order in which header fields arrive does not matter. */
  lemma LengthIgnoresOrder(a: seq<Header>, b: seq<Header>)
    requires multiset(a) == multiset(b)
    ensures LengthOf(a) == LengthOf(b)
  {
    assert forall h :: h in a <==> h in multiset(a);
    assert forall h :: h in b <==> h in multiset(b);
    forall n: nat ensures LengthOf(a) == Some(n) <==> LengthOf(b) == Some(n) {
      LengthOfMeaning(a, n);
      LengthOfMeaning(b, n);
    }
    if LengthOf(a).Some? {
      assert LengthOf(b) == Some(LengthOf(a).value);
    } else if LengthOf(b).Some? {
      assert LengthOf(a) == Some(LengthOf(b).value);
    }
  }
}
