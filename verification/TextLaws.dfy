/** What the text operations mean: characters, white space, trimming, letter case, numerals. */
module TextLaws {
  import opened Bytes
  import opened HeadParser
  import opened ContentLength
  import opened Responses

  /* ---- Characters ---- */

  /** A Unicode scalar value. */
  predicate IsScalar(cp: nat) {
    cp < 0xD800 || 0xE000 <= cp < 0x11_0000
  }

  /** The octet with the given value, when it is one. */
  function Octet(n: nat): byte {
    if n < 256 then n as char else 'a'
  }

  /** A character's octets, by the arithmetic of RFC 3629 section 3. */
  function Encode(cp: nat): bytes {
    if cp < 0x80 then [Octet(cp)]
    else if cp < 0x800 then [Octet(0xC0 + cp / 64), Octet(0x80 + cp % 64)]
    else if cp < 0x1_0000 then [Octet(0xE0 + cp / 64 / 64), Octet(0x80 + cp / 64 % 64), Octet(0x80 + cp % 64)]
    else [Octet(0xF0 + cp / 64 / 64 / 64), Octet(0x80 + cp / 64 / 64 % 64), Octet(0x80 + cp / 64 % 64), Octet(0x80 + cp % 64)]
  }

  function EncodeAll(cps: seq<nat>): bytes {
    if cps == [] then [] else Encode(cps[0]) + EncodeAll(cps[1..])
  }

  predicate AllScalars(cps: seq<nat>) {
    forall cp :: cp in cps ==> IsScalar(cp)
  }

  lemma CharacterFront(cp: nat, rest: bytes)
    requires IsScalar(cp)
    ensures Utf8Front(Encode(cp) + rest) == |Encode(cp)|
  {
    var s := Encode(cp) + rest;
    assert forall i :: 0 <= i < |Encode(cp)| ==> s[i] == Encode(cp)[i];
  }

  /** The number whose last six bits are those of the continuation octet c. */
  function Continue(high: nat, c: byte): nat {
    64 * high + c as int % 64
  }

  /** The character at the front of s. */
  function FrontCharacter(s: bytes): nat
    requires Utf8Front(s) > 0
  {
    match Utf8Front(s)
    case 1 => s[0] as int
    case 2 => Continue(s[0] as int - 0xC0, s[1])
    case 3 => Continue(Continue(s[0] as int - 0xE0, s[1]), s[2])
    case _ => Continue(Continue(Continue(s[0] as int - 0xF0, s[1]), s[2]), s[3])
  }

  lemma Continued(high: nat, c: byte)
    requires Within(c, 0x80, 0xBF)
    ensures Continue(high, c) / 64 == high && Octet(0x80 + Continue(high, c) % 64) == c
    ensures c as int % 64 == c as int - 0x80
  {
  }

  lemma FrontIsCharacter(s: bytes)
    requires Utf8Front(s) > 0
    ensures IsScalar(FrontCharacter(s)) && Encode(FrontCharacter(s)) == s[..Utf8Front(s)]
  {
    match Utf8Front(s)
    case 1 =>
    case 2 => FrontOfTwo(s);
    case 3 => FrontOfThree(s);
    case _ => FrontOfFour(s);
  }

  lemma FrontOfTwo(s: bytes)
    requires Utf8Front(s) == 2
    ensures IsScalar(FrontCharacter(s)) && Encode(FrontCharacter(s)) == s[..2]
  {
    hide Continue;
    var a := s[0] as int - 0xC0;
    Continued(a, s[1]);
    TwoRange(a, s[1]);
  }

  lemma TwoRange(a: nat, b: byte)
    requires Within(b, 0x80, 0xBF)
    ensures Continue(a, b) == 64 * a + (b as int - 0x80)
  {
    Continued(a, b);
  }

  lemma FrontOfThree(s: bytes)
    requires Utf8Front(s) == 3
    ensures IsScalar(FrontCharacter(s)) && Encode(FrontCharacter(s)) == s[..3]
  {
    hide Continue;
    var a := s[0] as int - 0xE0;
    Continued(a, s[1]);
    TwoRange(a, s[1]);
    Continued(Continue(a, s[1]), s[2]);
    TwoRange(Continue(a, s[1]), s[2]);
  }

  lemma FrontOfFour(s: bytes)
    requires Utf8Front(s) == 4
    ensures IsScalar(FrontCharacter(s)) && Encode(FrontCharacter(s)) == s[..4]
  {
    hide Continue;
    var a := s[0] as int - 0xF0;
    var ab := Continue(a, s[1]);
    Continued(a, s[1]);
    TwoRange(a, s[1]);
    Continued(ab, s[2]);
    TwoRange(ab, s[2]);
    Continued(Continue(ab, s[2]), s[3]);
    TwoRange(Continue(ab, s[2]), s[3]);
  }

  /** An octet string is valid exactly when it encodes some characters. */
  lemma ValidMeaning(s: bytes)
    ensures ValidUtf8(s) <==> exists cps :: AllScalars(cps) && s == EncodeAll(cps)
  {
    if ValidUtf8(s) {
      var cps := ValidDecodes(s);
    }
    forall cps | AllScalars(cps) && s == EncodeAll(cps) ensures ValidUtf8(s) {
      EncodedIsValid(cps);
    }
  }

  lemma {:induction false} ValidDecodes(s: bytes) returns (cps: seq<nat>)
    requires ValidUtf8(s)
    ensures AllScalars(cps) && s == EncodeAll(cps)
    decreases |s|
  {
    if s == [] {
      cps := [];
    } else {
      hide Encode, Utf8Front, FrontCharacter;
      var rest := ValidDecodes(s[Utf8Front(s)..]);
      FrontIsCharacter(s);
      cps := [FrontCharacter(s)] + rest;
      assert cps[1..] == rest && s == s[..Utf8Front(s)] + s[Utf8Front(s)..];
    }
  }

  lemma {:induction false} EncodedIsValid(cps: seq<nat>)
    requires AllScalars(cps)
    ensures ValidUtf8(EncodeAll(cps))
  {
    if cps != [] {
      hide Utf8Front;
      assert cps[0] in cps && |Encode(cps[0])| > 0;
      EncodedIsValid(cps[1..]);
      CharacterFront(cps[0], EncodeAll(cps[1..]));
      assert EncodeAll(cps)[|Encode(cps[0])|..] == EncodeAll(cps[1..]);
    }
  }

  /* ---- White space ---- */

  /** The Unicode White_Space property. */
  predicate IsWhite(cp: nat) {
    || 9 <= cp <= 13 || cp == 0x20 || cp == 0x85 || cp == 0xA0 || cp == 0x1680 || 0x2000 <= cp <= 0x200A
    || cp == 0x2028 || cp == 0x2029 || cp == 0x202F || cp == 0x205F || cp == 0x3000
  }

  predicate AllWhite(cps: seq<nat>) {
    forall cp :: cp in cps ==> IsWhite(cp)
  }

  /** Begins or ends with a white-space character. */
  ghost predicate WhiteFront(s: bytes) {
    exists cp :: IsWhite(cp) && Encode(cp) <= s
  }

  predicate EndsWith(s: bytes, t: bytes) {
    |t| <= |s| && s[|s| - |t|..] == t
  }

  ghost predicate WhiteBack(s: bytes) {
    exists cp :: IsWhite(cp) && EndsWith(s, Encode(cp))
  }

  lemma WhiteShape(cp: nat)
    requires IsWhite(cp)
    ensures var e := Encode(cp);
            || (|e| == 1 && IsSpace1(e[0]))
            || (|e| == 2 && IsSpace2(e[0], e[1]))
            || (|e| == 3 && IsSpace3(e[0], e[1], e[2]))
  {
  }

  lemma WhiteAtFront(cp: nat, rest: bytes)
    requires IsWhite(cp)
    ensures SpaceFront(Encode(cp) + rest) == |Encode(cp)| > 0
  {
    hide Encode, IsWhite;
    WhiteShape(cp);
    var s := Encode(cp) + rest;
    assert forall i :: 0 <= i < |Encode(cp)| ==> s[i] == Encode(cp)[i];
  }

  lemma WhiteAtBack(cp: nat, before: bytes)
    requires IsWhite(cp)
    ensures SpaceBack(before + Encode(cp)) == |Encode(cp)| > 0
  {
    hide Encode, IsWhite;
    WhiteShape(cp);
    var s, n := before + Encode(cp), |Encode(cp)|;
    assert forall i :: 0 <= i < n ==> s[|s| - n + i] == Encode(cp)[i];
  }

  /** The white-space character three octets or fewer stand for. */
  function WhiteOf(s: bytes): nat {
    if |s| == 1 then s[0] as int
    else if |s| == 2 then s[1] as int
    else if |s| == 3 then
      (if s[0] as int == 0xE1 then 0x1680
       else if s[0] as int == 0xE3 then 0x3000
       else if s[1] as int == 0x81 then 0x205F
       else 0x2000 + (if s[2] as int < 0x80 then 0 else s[2] as int - 0x80))
    else 0
  }

  lemma ShapeIsWhite(e: bytes)
    requires || (|e| == 1 && IsSpace1(e[0]))
             || (|e| == 2 && IsSpace2(e[0], e[1]))
             || (|e| == 3 && IsSpace3(e[0], e[1], e[2]))
    ensures IsWhite(WhiteOf(e)) && Encode(WhiteOf(e)) == e
  {
  }

  lemma FrontIsWhite(s: bytes)
    requires SpaceFront(s) > 0
    ensures var cp := WhiteOf(s[..SpaceFront(s)]); IsWhite(cp) && Encode(cp) == s[..SpaceFront(s)]
  {
    hide Encode, IsWhite, WhiteOf;
    ShapeIsWhite(s[..SpaceFront(s)]);
  }

  lemma BackIsWhite(s: bytes)
    requires SpaceBack(s) > 0
    ensures var cp := WhiteOf(s[|s| - SpaceBack(s)..]); IsWhite(cp) && Encode(cp) == s[|s| - SpaceBack(s)..]
  {
    hide Encode, IsWhite, WhiteOf;
    ShapeIsWhite(s[|s| - SpaceBack(s)..]);
  }

  lemma FrontMeaning(s: bytes)
    ensures SpaceFront(s) > 0 <==> WhiteFront(s)
  {
    hide IsWhite, Encode, SpaceFront, WhiteOf;
    if SpaceFront(s) > 0 {
      FrontIsWhite(s);
      assert Encode(WhiteOf(s[..SpaceFront(s)])) <= s;
    }
    if WhiteFront(s) {
      var cp :| IsWhite(cp) && Encode(cp) <= s;
      WhiteAtFront(cp, s[|Encode(cp)|..]);
      assert Encode(cp) + s[|Encode(cp)|..] == s;
    }
  }

  lemma BackMeaning(s: bytes)
    ensures SpaceBack(s) > 0 <==> WhiteBack(s)
  {
    hide IsWhite, Encode, SpaceBack, WhiteOf;
    if SpaceBack(s) > 0 {
      BackIsWhite(s);
      assert EndsWith(s, Encode(WhiteOf(s[|s| - SpaceBack(s)..])));
    }
    if WhiteBack(s) {
      var cp :| IsWhite(cp) && EndsWith(s, Encode(cp));
      var n := |Encode(cp)|;
      WhiteAtBack(cp, s[..|s| - n]);
      assert s[..|s| - n] + Encode(cp) == s;
    }
  }

  lemma {:induction false} EncodeSnoc(cps: seq<nat>, cp: nat)
    ensures EncodeAll(cps + [cp]) == EncodeAll(cps) + Encode(cp)
  {
    hide Encode;
    if cps == [] {
      assert [cp][1..] == [] && cps + [cp] == [cp];
    } else {
      assert (cps + [cp])[1..] == cps[1..] + [cp];
      EncodeSnoc(cps[1..], cp);
    }
  }

  /* ---- Trimming ---- */

  lemma {:induction false} DropsFront(cps: seq<nat>, s: bytes)
    requires AllWhite(cps)
    ensures TrimStart(EncodeAll(cps) + s) == TrimStart(s)
  {
    hide Encode, IsWhite, SpaceFront;
    if cps == [] {
      assert EncodeAll(cps) + s == s;
    } else {
      var rest := EncodeAll(cps[1..]) + s;
      assert cps[0] in cps && EncodeAll(cps) + s == Encode(cps[0]) + rest;
      WhiteAtFront(cps[0], rest);
      assert (Encode(cps[0]) + rest)[|Encode(cps[0])|..] == rest;
      DropsFront(cps[1..], s);
    }
  }

  lemma {:induction false} DropsBack(s: bytes, cps: seq<nat>)
    requires AllWhite(cps)
    ensures TrimEnd(s + EncodeAll(cps)) == TrimEnd(s)
  {
    hide Encode, IsWhite, SpaceBack;
    if cps == [] {
      assert s + EncodeAll(cps) == s;
    } else {
      var front, last := cps[..|cps| - 1], cps[|cps| - 1];
      assert cps == front + [last] && last in cps;
      EncodeSnoc(front, last);
      var x := s + EncodeAll(front);
      assert s + EncodeAll(cps) == x + Encode(last);
      WhiteAtBack(last, x);
      assert (x + Encode(last))[..|x|] == x;
      DropsBack(s, front);
    }
  }

  /** A white-space character does not begin inside another character. */
  lemma NoSeam(t: bytes, cps: seq<nat>)
    requires t != [] && SpaceFront(t) == 0 && AllWhite(cps)
    ensures SpaceFront(t + EncodeAll(cps)) == 0
  {
    hide Encode, IsWhite;
    var b := EncodeAll(cps);
    if cps != [] {
      assert cps[0] in cps;
      WhiteShape(cps[0]);
      assert b[0] == Encode(cps[0])[0] && !Within(b[0], 0x80, 0xBF);
    }
    var s := t + b;
    assert s[0] == t[0];
    assert |t| >= 2 ==> s[1] == t[1];
    assert |t| >= 3 ==> s[2] == t[2];
    assert |t| == 1 && |s| >= 2 ==> s[1] == b[0];
    assert |t| == 2 && |s| >= 3 ==> s[2] == b[0];
  }

  /** White space around a text that has none at its own ends is all that is trimmed off. */
  lemma TrimsPadding(before: seq<nat>, t: bytes, after: seq<nat>)
    requires AllWhite(before) && AllWhite(after) && !WhiteFront(t) && !WhiteBack(t)
    ensures Trim(EncodeAll(before) + t + EncodeAll(after)) == t
  {
    hide Encode, IsWhite, SpaceFront, SpaceBack, WhiteFront, WhiteBack;
    FrontMeaning(t);
    BackMeaning(t);
    var tail := t + EncodeAll(after);
    assert EncodeAll(before) + t + EncodeAll(after) == EncodeAll(before) + tail;
    DropsFront(before, tail);
    if t == [] {
      assert tail == EncodeAll(after) + [];
      DropsFront(after, []);
      NoSpace();
    } else {
      NoSeam(t, after);
      DropsBack(t, after);
    }
  }

  lemma NoSpace()
    ensures TrimStart([]) == [] && TrimEnd([]) == []
  {
  }

  /** And every text is such a text, padded. */
  lemma TrimSplits(s: bytes) returns (before: seq<nat>, after: seq<nat>)
    ensures AllWhite(before) && AllWhite(after) && !WhiteFront(Trim(s)) && !WhiteBack(Trim(s))
    ensures s == EncodeAll(before) + Trim(s) + EncodeAll(after)
  {
    hide Encode, IsWhite, SpaceFront, SpaceBack, WhiteFront, WhiteBack;
    before := StartSplits(s);
    after := EndSplits(TrimStart(s));
    FrontMeaning(Trim(s));
    BackMeaning(Trim(s));
    assert s == EncodeAll(before) + (Trim(s) + EncodeAll(after));
    PrefixKeepsFront(TrimStart(s), |Trim(s)|);
  }

  lemma PrefixKeepsFront(s: bytes, k: nat)
    requires k <= |s| && SpaceFront(s) == 0
    ensures SpaceFront(s[..k]) == 0
  {
  }

  lemma {:induction false} StartSplits(s: bytes) returns (cps: seq<nat>)
    ensures AllWhite(cps) && s == EncodeAll(cps) + TrimStart(s) && SpaceFront(TrimStart(s)) == 0
    decreases |s|
  {
    hide Encode, IsWhite, SpaceFront, WhiteOf;
    var n := SpaceFront(s);
    if n == 0 {
      cps := [];
    } else {
      FrontIsWhite(s);
      var rest := StartSplits(s[n..]);
      cps := [WhiteOf(s[..n])] + rest;
      assert cps[1..] == rest && s == s[..n] + s[n..];
    }
  }

  lemma {:induction false} EndSplits(s: bytes) returns (cps: seq<nat>)
    ensures AllWhite(cps) && s == TrimEnd(s) + EncodeAll(cps) && SpaceBack(TrimEnd(s)) == 0
    ensures TrimEnd(s) == s[..|TrimEnd(s)|]
    decreases |s|
  {
    hide Encode, IsWhite, SpaceBack, WhiteOf;
    var n := SpaceBack(s);
    if n == 0 {
      cps := [];
      assert s == s + [];
    } else {
      BackIsWhite(s);
      var rest := s[..|s| - n];
      var front := EndSplits(rest);
      var cp := WhiteOf(s[|s| - n..]);
      cps := front + [cp];
      EncodeSnoc(front, cp);
      assert TrimEnd(s) == TrimEnd(rest) && rest[..|TrimEnd(rest)|] == s[..|TrimEnd(rest)|];
      Regroup(TrimEnd(rest), EncodeAll(front), Encode(cp));
      assert s == rest + Encode(cp);
    }
  }

  lemma Regroup(a: bytes, b: bytes, c: bytes)
    ensures a + b + c == a + (b + c)
  {
  }

  /* ---- Letter case ---- */

  predicate IsUpper(c: byte) {
    Within(c, 0x41, 0x5A)
  }

  /** Two octets count as the same exactly when they are, or are the two cases of a letter. */
  lemma SameLetter(a: byte, b: byte)
    ensures Lower(a) == Lower(b) <==>
      a == b || (IsUpper(a) && b as int == a as int + 32) || (IsUpper(b) && a as int == b as int + 32)
  {
  }

  function Padded(before: seq<nat>, name: bytes, after: seq<nat>): bytes {
    EncodeAll(before) + name + EncodeAll(after)
  }

  /** The names the engine looks for are found whatever white space surrounds them. */
  lemma PaddedName(h: Header, before: seq<nat>, name: bytes, after: seq<nat>)
    requires AllWhite(before) && AllWhite(after) && !WhiteFront(name) && !WhiteBack(name)
    requires h.name == Padded(before, name, after)
    ensures IsConnection(h) <==> EqIgnoreCase(name, "connection")
    ensures IsFraming(h) <==> EqIgnoreCase(name, "content-length") || EqIgnoreCase(name, "transfer-encoding")
  {
    hide WhiteFront, WhiteBack, EqIgnoreCase, Trim, EncodeAll;
    TrimsPadding(before, name, after);
  }

  /* ---- Numerals ---- */

  function Zeros(n: nat): (s: bytes)
    ensures |s| == n && forall i :: 0 <= i < n ==> s[i] == '0'
  {
    seq(n, _ => '0')
  }

  /** Digits, however many zeros lead them, are the decimal form of their value. */
  lemma {:induction false} DigitsCanonical(s: bytes) returns (zeros: nat)
    requires s != [] && forall i :: 0 <= i < |s| ==> IsDigit(s[i])
    ensures s == Zeros(zeros) + Decimal(DigitsValue(s))
    decreases |s|
  {
    var front, d := s[..|s| - 1], s[|s| - 1];
    assert Digit(DigitValue(d)) == d && s == front + [d];
    if front == [] {
      zeros := 0;
      assert s == [d] && Decimal(DigitsValue(s)) == [d];
    } else {
      var z := DigitsCanonical(front);
      var v := DigitsValue(front);
      assert DigitsValue(s) == 10 * v + DigitValue(d);
      if v == 0 {
        zeros := z + 1;
        assert front == Zeros(z) + "0" == Zeros(zeros);
      } else {
        zeros := z;
        assert Decimal(DigitsValue(s)) == Decimal(v) + [d];
      }
    }
  }

  lemma {:induction false} ZerosCount(zeros: nat, n: nat)
    ensures var s := Zeros(zeros) + Decimal(n);
            (forall i :: 0 <= i < |s| ==> IsDigit(s[i])) && DigitsValue(s) == n
    decreases zeros, n
  {
    var s := Zeros(zeros) + Decimal(n);
    DecimalValue(n);
    if n >= 10 {
      ZerosCount(zeros, n / 10);
      assert s[..|s| - 1] == Zeros(zeros) + Decimal(n / 10);
    } else if zeros > 0 {
      ZerosCount(zeros - 1, 0);
      assert s[..|s| - 1] == Zeros(zeros) == Zeros(zeros - 1) + "0";
    } else {
      assert s == Decimal(n);
    }
  }

  /** A numeral the server takes for n: the decimal form of n, perhaps with zeros and a plus in front. */
  function Numeral(plus: bool, zeros: nat, n: nat): bytes {
    (if plus then "+" else "") + Zeros(zeros) + Decimal(n)
  }

  lemma NumeralParses(plus: bool, zeros: nat, n: nat)
    requires n < USIZE_LIMIT
    ensures ParseUsize(Numeral(plus, zeros, n)) == Some(n)
  {
    hide Decimal, DigitsValue;
    var t, s := Zeros(zeros) + Decimal(n), Numeral(plus, zeros, n);
    ZerosCount(zeros, n);
    assert !plus ==> s == t && s[0] == t[0];
    assert plus ==> s[0] == '+' && s[1..] == t;
  }

  lemma ParsedIsNumeral(s: bytes) returns (plus: bool, zeros: nat)
    requires ParseUsize(s).Some?
    ensures ParseUsize(s).value < USIZE_LIMIT && s == Numeral(plus, zeros, ParseUsize(s).value)
  {
    hide Decimal, DigitsValue;
    plus := |s| > 0 && s[0] == '+';
    var digits := WithoutPlus(s);
    zeros := DigitsCanonical(digits);
    assert s == (if plus then "+" else "") + digits;
  }

  /** Exactly the numerals in the range of usize are read, each as its number. */
  lemma ParseMeaning(s: bytes, n: nat)
    ensures ParseUsize(s) == Some(n)
            <==> n < USIZE_LIMIT && exists plus: bool, zeros: nat :: s == Numeral(plus, zeros, n)
  {
    hide Numeral, ParseUsize;
    if ParseUsize(s) == Some(n) {
      var plus, zeros := ParsedIsNumeral(s);
    }
    forall p: bool, zeros: nat | n < USIZE_LIMIT && s == Numeral(p, zeros, n) ensures ParseUsize(s) == Some(n) {
      NumeralParses(p, zeros, n);
    }
  }

  /** A Content-Length value declares n exactly when it is a numeral for n in the range of usize,
      with any white space around it. */
  lemma DeclaredMeaning(h: Header, n: nat)
    ensures DeclaredBy(h) == Some(n)
            <==> n < USIZE_LIMIT && exists before, plus: bool, zeros: nat, after :: Declares(h.value, before, plus, zeros, n, after)
  {
    hide Numeral, EncodeAll, Trim, ParseUsize, ValidUtf8, WhiteFront, WhiteBack, IsWhite;
    if DeclaredBy(h) == Some(n) {
      var before, after := TrimSplits(h.value);
      ParseMeaning(Trim(h.value), n);
      var plus: bool, zeros: nat :| Trim(h.value) == Numeral(plus, zeros, n);
      assert Declares(h.value, before, plus, zeros, n, after);
    }
    forall before, plus: bool, zeros: nat, after | n < USIZE_LIMIT && Declares(h.value, before, plus, zeros, n, after)
      ensures DeclaredBy(h) == Some(n)
    {
      NumeralIsPlain(plus, zeros, n);
      TrimsPadding(before, Numeral(plus, zeros, n), after);
      ParseMeaning(Numeral(plus, zeros, n), n);
      PaddedIsValid(before, Numeral(plus, zeros, n), after);
    }
  }

  predicate Declares(value: bytes, before: seq<nat>, plus: bool, zeros: nat, n: nat, after: seq<nat>) {
    AllWhite(before) && AllWhite(after) && value == EncodeAll(before) + Numeral(plus, zeros, n) + EncodeAll(after)
  }

  lemma NumeralIsPlain(plus: bool, zeros: nat, n: nat)
    ensures var s := Numeral(plus, zeros, n);
            && !WhiteFront(s) && !WhiteBack(s) && forall i :: 0 <= i < |s| ==> Within(s[i], 0, 0x7F)
  {
    hide WhiteFront, WhiteBack, Decimal;
    var s := Numeral(plus, zeros, n);
    assert forall i :: 0 <= i < |s| ==> s[i] == '+' || IsDigit(s[i]);
    FrontMeaning(s);
    BackMeaning(s);
  }

  lemma {:induction false} AsciiIsText(s: bytes) returns (cps: seq<nat>)
    requires forall i :: 0 <= i < |s| ==> Within(s[i], 0, 0x7F)
    ensures AllScalars(cps) && EncodeAll(cps) == s
    decreases |s|
  {
    if s == [] {
      cps := [];
    } else {
      var rest := AsciiIsText(s[1..]);
      cps := [s[0] as int] + rest;
      assert cps[1..] == rest && Encode(cps[0]) == [s[0]];
    }
  }

  lemma {:induction false} EncodeJoin(a: seq<nat>, b: seq<nat>)
    ensures EncodeAll(a + b) == EncodeAll(a) + EncodeAll(b)
  {
    hide Encode;
    if a == [] {
      assert a + b == b;
    } else {
      assert (a + b)[1..] == a[1..] + b;
      EncodeJoin(a[1..], b);
    }
  }

  lemma PaddedIsValid(before: seq<nat>, s: bytes, after: seq<nat>)
    requires AllWhite(before) && AllWhite(after)
    requires forall i :: 0 <= i < |s| ==> Within(s[i], 0, 0x7F)
    ensures ValidUtf8(EncodeAll(before) + s + EncodeAll(after))
  {
    hide Encode, EncodeAll, ValidUtf8;
    var cps := AsciiIsText(s);
    EncodeJoin(before, cps);
    EncodeJoin(before + cps, after);
    var all := before + cps + after;
    assert forall cp :: cp in all ==> cp in before || cp in cps || cp in after;
    assert AllScalars(all);
    EncodedIsValid(all);
  }
}
