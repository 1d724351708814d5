/** A byte-at-a-time parser for HTTP/1.1 request heads: the stand-in for the
    head parser the connection loop calls. It reports Complete, Partial or Error
    as that parser does, and its verdicts are shown to be prefix-stable. */
module HeadParser {
  import opened Bytes

  const MAX_HEADERS: nat := 64

  datatype Header = Header(name: bytes, value: bytes)

  datatype Head = Head(method_: bytes, target: bytes, headers: seq<Header>)

  datatype Parsed = Complete(len: nat, head: Head) | Partial | Error

  datatype Phase =
    | Start | StartCr
    | InMethod | InTarget | InVersion | VersionCr
    | LineStart | InName | AfterColon | InValue | ValueCr
    | FinalCr

  /** What has been recognised so far. */
  datatype Scan = Scan(phase: Phase, head: Head, version: bytes, name: bytes, value: bytes)

  datatype Move = Next(scan: Scan) | Done | Bad

  const FRESH: Scan := Scan(Start, Head([], [], []), [], [], [])

  /** The tchar of RFC 9110 section 5.6.2. */
  predicate IsToken(c: byte) {
    || IsDigit(c) || 'A' <= c <= 'Z' || '^' <= c <= 'z'
    || '#' <= c <= '\'' || c == '!' || c == '*' || c == '+' || c == '-' || c == '.' || c == '|' || c == '~'
  }

  predicate IsTargetByte(c: byte) {
    Within(c, 0x21, 0x7E)
  }

  predicate IsValueByte(c: byte) {
    c == '\t' || Within(c, 0x20, 0x7E) || Within(c, 0x80, 0xFF)
  }

  predicate IsVersionByte(i: nat, c: byte) {
    if i < 7 then c == "HTTP/1."[i] else i == 7 && (c == '0' || c == '1')
  }

  function DropBlanksEnd(s: bytes): bytes {
    if s != [] && IsBlank(s[|s| - 1]) then DropBlanksEnd(s[..|s| - 1]) else s
  }

  /** The header line just ended: file it and expect another. */
  function EndHeader(s: Scan): Scan {
    s.(phase := LineStart, name := [], value := [],
       head := s.head.(headers := s.head.headers + [Header(s.name, DropBlanksEnd(s.value))]))
  }

  function Consume(s: Scan, c: byte): Move {
    match s.phase
    case Start =>
      if c == CR then Next(s.(phase := StartCr))
      else if c == LF then Next(s)
      else if IsToken(c) then Next(s.(phase := InMethod, head := s.head.(method_ := [c])))
      else Bad
    case StartCr =>
      if c == LF then Next(s.(phase := Start)) else Bad
    case InMethod =>
      if c == ' ' then Next(s.(phase := InTarget))
      else if IsToken(c) then Next(s.(head := s.head.(method_ := s.head.method_ + [c])))
      else Bad
    case InTarget =>
      if c == ' ' then (if s.head.target == [] then Bad else Next(s.(phase := InVersion)))
      else if IsTargetByte(c) then Next(s.(head := s.head.(target := s.head.target + [c])))
      else Bad
    case InVersion =>
      if |s.version| < 8 then
        (if IsVersionByte(|s.version|, c) then Next(s.(version := s.version + [c])) else Bad)
      else if c == CR then Next(s.(phase := VersionCr))
      else if c == LF then Next(s.(phase := LineStart))
      else Bad
    case VersionCr =>
      if c == LF then Next(s.(phase := LineStart)) else Bad
    case LineStart =>
      if c == CR then Next(s.(phase := FinalCr))
      else if c == LF then Done
      else if IsToken(c) && |s.head.headers| < MAX_HEADERS then Next(s.(phase := InName, name := [c]))
      else Bad
    case InName =>
      if c == ':' then Next(s.(phase := AfterColon))
      else if IsToken(c) then Next(s.(name := s.name + [c]))
      else Bad
    case AfterColon =>
      if IsBlank(c) then Next(s)
      else if c == CR then Next(s.(phase := ValueCr))
      else if c == LF then Next(EndHeader(s))
      else if IsValueByte(c) then Next(s.(phase := InValue, value := [c]))
      else Bad
    case InValue =>
      if c == CR then Next(s.(phase := ValueCr))
      else if c == LF then Next(EndHeader(s))
      else if IsValueByte(c) then Next(s.(value := s.value + [c]))
      else Bad
    case ValueCr =>
      if c == LF then Next(EndHeader(s)) else Bad
    case FinalCr =>
      if c == LF then Done else Bad
  }

  /** Runs the scanner over all of input, from state s. */
  function Feed(s: Scan, input: bytes): (r: Parsed)
    ensures r.Complete? ==> 1 <= r.len <= |input|
    decreases |input|
  {
    if input == [] then Partial
    else
      match Consume(s, input[0])
      case Bad => Error
      case Done => Complete(1, s.head)
      case Next(s') =>
        match Feed(s', input[1..])
        case Complete(n, head) => Complete(n + 1, head)
        case Partial => Partial
        case Error => Error
  }

  function Parse(input: bytes): (r: Parsed)
    ensures r.Complete? ==> 1 <= r.len <= |input|
  {
    Feed(FRESH, input)
  }

  lemma {:induction false} FeedStable(s: Scan, a: bytes, b: bytes)
    requires a <= b
    requires !Feed(s, a).Partial?
    ensures Feed(s, b) == Feed(s, a)
    decreases |a|
  {
    var move := Consume(s, a[0]);
    if move.Next? {
      FeedStable(move.scan, a[1..], b[1..]);
    }
  }

  /** A decided verdict stays the same however many more octets follow. */
  lemma ParseStable(a: bytes, b: bytes)
    requires a <= b
    requires !Parse(a).Partial?
    ensures Parse(b) == Parse(a)
  {
    FeedStable(FRESH, a, b);
  }

  lemma {:induction false} FeedExact(s: Scan, a: bytes, k: nat)
    requires Feed(s, a).Complete?
    requires k <= |a|
    ensures k >= Feed(s, a).len ==> Feed(s, a[..k]) == Feed(s, a)
    ensures k < Feed(s, a).len ==> Feed(s, a[..k]) == Partial
    decreases |a|
  {
    if k > 0 {
      var move := Consume(s, a[0]);
      if move.Next? {
        FeedExact(move.scan, a[1..], k - 1);
        assert a[..k][1..] == a[1..][..k - 1];
      }
    }
  }

  /** A head is recognised exactly when its last octet is in, not one earlier. */
  lemma ParseExact(a: bytes, k: nat)
    requires Parse(a).Complete?
    requires k <= |a|
    ensures k >= Parse(a).len ==> Parse(a[..k]) == Parse(a)
    ensures k < Parse(a).len ==> Parse(a[..k]) == Partial
  {
    FeedExact(FRESH, a, k);
  }
}
