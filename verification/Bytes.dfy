/** Octet strings and the few text operations the server applies to them. */
module Bytes {

  /** One octet. Characters stand for octets so that literals stay readable. */
  type byte = c: char | c as int < 256 witness 'a'
  type bytes = seq<byte>

  datatype Option<+T> = None | Some(value: T)

  const CR: byte := '\r'
  const LF: byte := '\n'
  const CRLF: bytes := "\r\n"

  /** usize on the 64-bit targets the server runs on. */
  const USIZE_LIMIT: nat := 0x1_0000_0000_0000_0000

  predicate Within(c: byte, lo: nat, hi: nat) {
    lo <= c as int <= hi
  }

  predicate IsDigit(c: byte) {
    '0' <= c <= '9'
  }

  predicate IsBlank(c: byte) {
    c == ' ' || c == '\t'
  }

  function Lower(c: byte): byte {
    if 'A' <= c <= 'Z' then (c as int + 32) as char else c
  }

  predicate EqIgnoreCase(a: bytes, b: bytes) {
    |a| == |b| && forall i :: 0 <= i < |a| ==> Lower(a[i]) == Lower(b[i])
  }

  /* ---- UTF-8 ---- */

  /** Length of the well-formed UTF-8 sequence at the front of s, 0 if there is none. */
  function Utf8Front(s: bytes): (n: nat)
    ensures n <= |s|
  {
    if |s| >= 1 && Within(s[0], 0x00, 0x7F) then 1
    else if |s| >= 2 && Within(s[0], 0xC2, 0xDF) && Within(s[1], 0x80, 0xBF) then 2
    else if |s| >= 3 && Within(s[2], 0x80, 0xBF)
            && ((s[0] as int == 0xE0 && Within(s[1], 0xA0, 0xBF))
                || (Within(s[0], 0xE1, 0xEC) && Within(s[1], 0x80, 0xBF))
                || (s[0] as int == 0xED && Within(s[1], 0x80, 0x9F))
                || (Within(s[0], 0xEE, 0xEF) && Within(s[1], 0x80, 0xBF))) then 3
    else if |s| >= 4 && Within(s[2], 0x80, 0xBF) && Within(s[3], 0x80, 0xBF)
            && ((s[0] as int == 0xF0 && Within(s[1], 0x90, 0xBF))
                || (Within(s[0], 0xF1, 0xF3) && Within(s[1], 0x80, 0xBF))
                || (s[0] as int == 0xF4 && Within(s[1], 0x80, 0x8F))) then 4
    else 0
  }

  predicate ValidUtf8(s: bytes) {
    s == [] || (Utf8Front(s) > 0 && ValidUtf8(s[Utf8Front(s)..]))
  }

  /* ---- Trimming (the Unicode White_Space characters, in UTF-8) ---- */

  predicate IsSpace1(c: byte) {
    Within(c, 9, 13) || c == ' '
  }

  predicate IsSpace2(a: byte, b: byte) {
    a as int == 0xC2 && (b as int == 0x85 || b as int == 0xA0)
  }

  predicate IsSpace3(a: byte, b: byte, c: byte) {
    || (a as int == 0xE1 && b as int == 0x9A && c as int == 0x80)
    || (a as int == 0xE2 && b as int == 0x80 && (Within(c, 0x80, 0x8A) || Within(c, 0xA8, 0xA9) || c as int == 0xAF))
    || (a as int == 0xE2 && b as int == 0x81 && c as int == 0x9F)
    || (a as int == 0xE3 && b as int == 0x80 && c as int == 0x80)
  }

  /** Length of the white-space character at the front of s, 0 if there is none. */
  function SpaceFront(s: bytes): (n: nat)
    ensures n <= |s|
  {
    if |s| >= 1 && IsSpace1(s[0]) then 1
    else if |s| >= 2 && IsSpace2(s[0], s[1]) then 2
    else if |s| >= 3 && IsSpace3(s[0], s[1], s[2]) then 3
    else 0
  }

  /** Length of the white-space character at the end of s, 0 if there is none. */
  function SpaceBack(s: bytes): (n: nat)
    ensures n <= |s|
  {
    var k := |s|;
    if k >= 1 && IsSpace1(s[k - 1]) then 1
    else if k >= 2 && IsSpace2(s[k - 2], s[k - 1]) then 2
    else if k >= 3 && IsSpace3(s[k - 3], s[k - 2], s[k - 1]) then 3
    else 0
  }

  function TrimStart(s: bytes): bytes
    decreases |s|
  {
    if SpaceFront(s) == 0 then s else TrimStart(s[SpaceFront(s)..])
  }

  function TrimEnd(s: bytes): bytes
    decreases |s|
  {
    if SpaceBack(s) == 0 then s else TrimEnd(s[..|s| - SpaceBack(s)])
  }

  function Trim(s: bytes): bytes {
    TrimEnd(TrimStart(s))
  }

  /** A visible ASCII character. */
  predicate IsVisible(c: byte) {
    Within(c, 0x21, 0x7E)
  }

  lemma TrimKeeps(s: bytes)
    requires s != [] ==> IsVisible(s[0]) && IsVisible(s[|s| - 1])
    ensures Trim(s) == s
  {
    assert TrimStart(s) == s;
  }

  /* ---- Decimal numbers ---- */

  function Digit(d: nat): byte
    requires d < 10
  {
    ('0' as int + d) as char
  }

  function Decimal(n: nat): (s: bytes)
    ensures |s| > 0 && forall i :: 0 <= i < |s| ==> IsDigit(s[i])
  {
    if n < 10 then [Digit(n)] else Decimal(n / 10) + [Digit(n % 10)]
  }

  function DigitValue(c: byte): nat
    requires IsDigit(c)
  {
    c as int - '0' as int
  }

  function DigitsValue(s: bytes): nat
    requires forall i :: 0 <= i < |s| ==> IsDigit(s[i])
  {
    if s == [] then 0 else 10 * DigitsValue(s[..|s| - 1]) + DigitValue(s[|s| - 1])
  }

  predicate AllDigits(s: bytes) {
    forall i :: 0 <= i < |s| ==> IsDigit(s[i])
  }

  function WithoutPlus(s: bytes): bytes {
    if |s| > 0 && s[0] == '+' then s[1..] else s
  }

  /** usize::from_str: an optional plus sign, then digits, in range. */
  function ParseUsize(s: bytes): Option<nat> {
    var digits := WithoutPlus(s);
    if digits == [] || !AllDigits(digits) then None
    else if DigitsValue(digits) >= USIZE_LIMIT then None
    else Some(DigitsValue(digits))
  }

  lemma {:induction false} DecimalValue(n: nat)
    ensures DigitsValue(Decimal(n)) == n
  {
    if n >= 10 {
      DecimalValue(n / 10);
      assert Decimal(n)[..|Decimal(n)| - 1] == Decimal(n / 10);
    }
  }

  /** What the server prints as a length, it (or any peer) reads back as that length. */
  lemma DecimalRoundTrip(n: nat)
    requires n < USIZE_LIMIT
    ensures ParseUsize(Trim(Decimal(n))) == Some(n)
  {
    DecimalValue(n);
    TrimKeeps(Decimal(n));
  }
}
