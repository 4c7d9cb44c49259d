/**
 The text forms that a job handle goes through: base64url without padding (section 5 of RFC 4648),
 hexadecimal, dot-separated parts, and the JSON object of the handle.
 */
module JobTokens {
  import opened Wrappers
  import opened Sequences
  import opened Text
  import opened WireBytes

  // ---------- base64url ----------

  function Letter(v: nat): (c: byte)
    requires v < 64
  {
    if v < 26 then 0x41 + v else if v < 52 then 0x61 + (v - 26) else if v < 62 then 0x30 + (v - 52)
    else if v == 62 then 0x2D else 0x5F
  }

  function LetterValue(c: byte): (v: Option<nat>)
    ensures v.Some? ==> v.value < 64
  {
    if 0x41 <= c <= 0x5A then Some(c - 0x41)
    else if 0x61 <= c <= 0x7A then Some(c - 0x61 + 26)
    else if 0x30 <= c <= 0x39 then Some(c - 0x30 + 52)
    else if c == 0x2D then Some(62)
    else if c == 0x5F then Some(63)
    else None
  }

  lemma LetterExact(c: byte, v: nat)
    requires v < 64
    ensures LetterValue(c) == Some(v) <==> c == Letter(v)
  {
  }

  /** The letters of one, two or three bytes. */
  function Group(b: bytes): bytes
    requires 0 < |b| <= 3
  {
    if |b| == 1 then [Letter(b[0] / 4), Letter(b[0] % 4 * 16)]
    else if |b| == 2 then [Letter(b[0] / 4), Letter(b[0] % 4 * 16 + b[1] / 16), Letter(b[1] % 16 * 4)]
    else
      [Letter(b[0] / 4), Letter(b[0] % 4 * 16 + b[1] / 16), Letter(b[1] % 16 * 4 + b[2] / 64), Letter(b[2] % 64)]
  }

  /** `URL_SAFE_NO_PAD.encode`. */
  function Base64(b: bytes): bytes {
    if b == [] then [] else if |b| <= 3 then Group(b) else Group(b[..3]) + Base64(b[3..])
  }

  /** Two to four letters, the unused low bits of the last being zero. */
  function Ungroup(s: bytes): Option<bytes>
    requires 0 < |s| <= 4
  {
    if |s| == 1 then None
    else
      match (LetterValue(s[0]), LetterValue(s[1]))
      case (Some(a), Some(b)) =>
        var first := a * 4 + b / 16;
        if |s| == 2 then if b % 16 == 0 then Some([first]) else None
        else
          (match LetterValue(s[2])
           case Some(c) =>
             var second := b % 16 * 16 + c / 4;
             if |s| == 3 then if c % 4 == 0 then Some([first, second]) else None
             else
               (match LetterValue(s[3])
                case Some(d) => Some([first, second, c % 4 * 64 + d])
                case None => None)
           case None => None)
      case _ => None
  }

  /** `URL_SAFE_NO_PAD.decode`. */
  function FromBase64(s: bytes): Option<bytes> {
    if s == [] then Some([])
    else if |s| <= 4 then Ungroup(s)
    else
      var first, rest := Ungroup(s[..4]), FromBase64(s[4..]);
      if first.Some? && rest.Some? then Some(first.value + rest.value) else None
  }

  lemma UngroupGroup(b: bytes)
    requires 0 < |b| <= 3
    ensures |Group(b)| == |b| + 1 && Ungroup(Group(b)) == Some(b)
  {
    hide Letter, LetterValue;
    LetterExact(Letter(b[0] / 4), b[0] / 4);
    if |b| == 1 {
      LetterExact(Letter(b[0] % 4 * 16), b[0] % 4 * 16);
      assert b == [b[0]];
    } else {
      LetterExact(Letter(b[0] % 4 * 16 + b[1] / 16), b[0] % 4 * 16 + b[1] / 16);
      if |b| == 2 {
        LetterExact(Letter(b[1] % 16 * 4), b[1] % 16 * 4);
        assert b == [b[0], b[1]];
      } else {
        LetterExact(Letter(b[1] % 16 * 4 + b[2] / 64), b[1] % 16 * 4 + b[2] / 64);
        LetterExact(Letter(b[2] % 64), b[2] % 64);
        assert b == [b[0], b[1], b[2]];
      }
    }
  }

  lemma GroupUngroup(s: bytes)
    requires 0 < |s| <= 4 && Ungroup(s).Some?
    ensures 0 < |Ungroup(s).value| == |s| - 1 && Group(Ungroup(s).value) == s
  {
    hide Letter, LetterValue;
    LetterExact(s[0], LetterValue(s[0]).value);
    LetterExact(s[1], LetterValue(s[1]).value);
    if |s| > 2 {
      LetterExact(s[2], LetterValue(s[2]).value);
    }
    if |s| > 3 {
      LetterExact(s[3], LetterValue(s[3]).value);
    }
  }

  /** Decoding accepts the encoding of each byte string, and no other text for it. */
  lemma Base64Exact(s: bytes, b: bytes)
    ensures FromBase64(s) == Some(b) <==> s == Base64(b)
  {
    Base64Decodes(b);
    if FromBase64(s).Some? {
      Base64Canonical(s);
    }
  }

  lemma {:induction false} Base64Decodes(b: bytes)
    ensures FromBase64(Base64(b)) == Some(b) && (b != [] ==> Base64(b) != [])
    decreases |b|
  {
    hide Group, Ungroup;
    if b == [] {
    } else if |b| <= 3 {
      UngroupGroup(b);
    } else {
      UngroupGroup(b[..3]);
      Base64Decodes(b[3..]);
      assert Base64(b)[..4] == Group(b[..3]) && Base64(b)[4..] == Base64(b[3..]);
      assert b == b[..3] + b[3..];
    }
  }

  lemma {:induction false} Base64Canonical(s: bytes)
    requires FromBase64(s).Some?
    ensures Base64(FromBase64(s).value) == s && (s != [] ==> FromBase64(s).value != [])
    decreases |s|
  {
    hide Group, Ungroup;
    if s == [] {
    } else if |s| <= 4 {
      GroupUngroup(s);
    } else {
      GroupUngroup(s[..4]);
      Base64Canonical(s[4..]);
      var first, rest := Ungroup(s[..4]).value, FromBase64(s[4..]).value;
      assert (first + rest)[..3] == first && (first + rest)[3..] == rest;
      assert s == s[..4] + s[4..];
    }
  }

  lemma {:induction false} Base64Length(b: bytes)
    ensures |Base64(b)| == (4 * |b| + 2) / 3
    decreases |b|
  {
    if |b| > 3 {
      Base64Length(b[3..]);
    }
  }

  const DOT: byte := 0x2E

  lemma {:induction false} Base64HasNoDot(b: bytes)
    ensures DOT !in Base64(b)
    decreases |b|
  {
    if |b| > 3 {
      Base64HasNoDot(b[3..]);
    }
  }

  // ---------- Hexadecimal ----------

  function HexLetter(v: nat): byte
    requires v < 16
  {
    if v < 10 then 0x30 + v else 0x61 + (v - 10)
  }

  /** Either case is read. */
  function HexLetterValue(c: byte): (v: Option<nat>)
    ensures v.Some? ==> v.value < 16
  {
    if 0x30 <= c <= 0x39 then Some(c - 0x30)
    else if 0x61 <= c <= 0x66 then Some(c - 0x61 + 10)
    else if 0x41 <= c <= 0x46 then Some(c - 0x41 + 10)
    else None
  }

  /** `hex::encode`. */
  function Hex(b: bytes): bytes {
    if b == [] then [] else [HexLetter(b[0] / 16), HexLetter(b[0] % 16)] + Hex(b[1..])
  }

  /** `hex::decode`. */
  function FromHex(s: bytes): Option<bytes> {
    if s == [] then Some([])
    else if |s| == 1 then None
    else
      var high, low, rest := HexLetterValue(s[0]), HexLetterValue(s[1]), FromHex(s[2..]);
      if high.Some? && low.Some? && rest.Some? then Some([16 * high.value + low.value] + rest.value) else None
  }

  lemma {:induction false} HexDecodes(b: bytes)
    ensures FromHex(Hex(b)) == Some(b) && DOT !in Hex(b) && |Hex(b)| == 2 * |b|
    decreases |b|
  {
    if b != [] {
      HexDecodes(b[1..]);
      assert Hex(b)[2..] == Hex(b[1..]);
      HeadTail(b);
    }
  }

  // ---------- Parts ----------

  lemma JoinedThree(a: bytes, b: bytes, c: bytes, sep: byte)
    ensures Joined([a, b, c], sep) == a + ([sep] + (b + ([sep] + c)))
  {
    assert [a, b, c][1..] == [b, c] && [b, c][1..] == [c];
    assert Joined([b, c], sep) == b + ([sep] + c);
  }

  /** Three parts, as a text splits. */
  lemma SplitThree(s: bytes, a: bytes, b: bytes, c: bytes, sep: byte)
    requires sep !in a && sep !in b && sep !in c
    ensures Split(s, sep) == [a, b, c] <==> s == a + ([sep] + (b + ([sep] + c)))
  {
    SplitFirst(a, sep, b + ([sep] + c));
    SplitFirst(b, sep, c);
    SplitOne(c, sep);
    assert [a] + ([b] + [c]) == [a, b, c];
    if Split(s, sep) == [a, b, c] {
      SplitJoins(s, sep);
      JoinedThree(a, b, c, sep);
    }
  }

  // ---------- The JSON object ----------

  const QUOTE: byte := 0x22
  const BACKSLASH: byte := 0x5C
  const COMMA: byte := 0x2C

  function Ascii(s: string): (b: bytes)
    ensures |b| == |s|
  {
    seq(|s|, i requires 0 <= i < |s| => s[i] as int % 0x100)
  }

  /** `serde_json` escapes quotes, backslashes and control characters, some by a letter. */
  function EscapeByte(b: byte): bytes {
    if b == QUOTE || b == BACKSLASH then [BACKSLASH, b]
    else if b == 8 then [BACKSLASH, 0x62]
    else if b == 9 then [BACKSLASH, 0x74]
    else if b == 10 then [BACKSLASH, 0x6E]
    else if b == 12 then [BACKSLASH, 0x66]
    else if b == 13 then [BACKSLASH, 0x72]
    else if b < 32 then [BACKSLASH, 0x75, 0x30, 0x30, HexLetter(b / 16), HexLetter(b % 16)]
    else [b]
  }

  function Escape(s: bytes): bytes {
    if s == [] then [] else EscapeByte(s[0]) + Escape(s[1..])
  }

  /** What an escaped text starts with. */
  function Unescaped(u: bytes): (byte, nat) {
    if |u| >= 6 && u[0] == BACKSLASH && u[1] == 0x75 then
      (match (HexLetterValue(u[4]), HexLetterValue(u[5]))
       case (Some(high), Some(low)) => (16 * high + low, 6)
       case _ => (0, 6))
    else if |u| >= 2 && u[0] == BACKSLASH then
      ((match u[1] case 0x62 => 8 case 0x74 => 9 case 0x6E => 10 case 0x66 => 12 case 0x72 => 13 case other => other),
       2)
    else if |u| >= 1 then (u[0], 1)
    else (0, 0)
  }

  lemma EscapeByteReads(b: byte, rest: bytes)
    ensures Unescaped(EscapeByte(b) + rest) == (b, |EscapeByte(b)|)
    ensures EscapeByte(b) != [] && (EscapeByte(b) + rest)[0] != QUOTE
    ensures (EscapeByte(b) + rest)[|EscapeByte(b)|..] == rest
  {
  }

  /** An escaped text ends at the first bare quote. */
  lemma {:induction false} EscapeInjective(s: bytes, t: bytes, x: bytes, y: bytes)
    requires Escape(s) + ([QUOTE] + x) == Escape(t) + ([QUOTE] + y)
    ensures s == t && x == y
    decreases |s|
  {
    hide EscapeByte, Unescaped;
    if s == [] || t == [] {
      EscapeEnds(s, t, x, y);
    } else {
      Assoc(EscapeByte(s[0]), Escape(s[1..]), [QUOTE] + x);
      Assoc(EscapeByte(t[0]), Escape(t[1..]), [QUOTE] + y);
      EscapeByteReads(s[0], Escape(s[1..]) + ([QUOTE] + x));
      EscapeByteReads(t[0], Escape(t[1..]) + ([QUOTE] + y));
      EscapeInjective(s[1..], t[1..], x, y);
      HeadTail(s);
      HeadTail(t);
    }
  }

  lemma EscapeEnds(s: bytes, t: bytes, x: bytes, y: bytes)
    requires Escape(s) + ([QUOTE] + x) == Escape(t) + ([QUOTE] + y) && (s == [] || t == [])
    ensures s == t && x == y
  {
    hide Escape;
    EscapeStart(s, x);
    EscapeStart(t, y);
  }

  lemma EscapeStart(s: bytes, x: bytes)
    ensures s == [] ==> Escape(s) + ([QUOTE] + x) == [QUOTE] + x && ([QUOTE] + x)[1..] == x
    ensures (Escape(s) + ([QUOTE] + x))[0] == QUOTE <==> s == []
  {
    hide EscapeByte, Unescaped;
    if s == [] {
      assert [] + ([QUOTE] + x) == [QUOTE] + x;
    } else {
      Assoc(EscapeByte(s[0]), Escape(s[1..]), [QUOTE] + x);
      EscapeByteReads(s[0], Escape(s[1..]) + ([QUOTE] + x));
    }
  }

  const MINUS: byte := 0x2D

  predicate IsDigitByte(b: byte) { 0x30 <= b <= 0x39 }

  function DigitRun(s: bytes): (n: nat)
    ensures n <= |s| && forall i | 0 <= i < n :: IsDigitByte(s[i])
  {
    if s != [] && IsDigitByte(s[0]) then 1 + DigitRun(s[1..]) else 0
  }

  function DigitNumber(b: byte): nat { if IsDigitByte(b) then b - 0x30 else 0 }

  function DigitsNumber(s: bytes): nat {
    if s == [] then 0 else 10 * DigitsNumber(s[..|s| - 1]) + DigitNumber(s[|s| - 1])
  }

  function Unsigned(s: bytes): bytes { if s != [] && s[0] == MINUS then s[1..] else s }

  /** A JSON number (section 6 of RFC 8259) that is finite as a 64-bit float. */
  predicate IsNumber(s: bytes) {
    var body := Unsigned(s);
    var n := DigitRun(body);
    n > 0 && (body[0] == 0x30 ==> n == 1) && IsFraction(body[n..]) && IsFinite(body)
  }

  predicate IsFraction(s: bytes) {
    if s != [] && s[0] == DOT then DigitRun(s[1..]) > 0 && IsExponent(s[1 + DigitRun(s[1..])..]) else IsExponent(s)
  }

  predicate IsExponent(s: bytes) {
    || s == []
    || ((s[0] == 0x65 || s[0] == 0x45)
        && ExponentDigits(s) != [] && DigitRun(ExponentDigits(s)) == |ExponentDigits(s)|)
  }

  function ExponentDigits(s: bytes): bytes
    requires s != []
  {
    if |s| > 1 && (s[1] == MINUS || s[1] == 0x2B) then s[2..] else s[1..]
  }

  /** The digits behind the point, and what follows them. */
  function FractionDigits(s: bytes): (bytes, bytes) {
    if s != [] && s[0] == DOT then (s[1..][..DigitRun(s[1..])], s[1..][DigitRun(s[1..])..]) else ([], s)
  }

  function ExponentValue(s: bytes): int {
    if s == [] then 0
    else if |s| > 1 && s[1] == MINUS then -(DigitsNumber(ExponentDigits(s)) as int)
    else DigitsNumber(ExponentDigits(s))
  }

  /** At most 1.7976931348623157e308, the largest finite value as it is written. */
  predicate IsFinite(body: bytes) {
    var n := DigitRun(body);
    var (fraction, exponent) := FractionDigits(body[n..]);
    var mantissa, scale := DigitsNumber(body[..n] + fraction), ExponentValue(exponent) - |fraction|;
    if scale >= 292 then mantissa * Pow10(scale - 292) <= 17976931348623157
    else mantissa <= 17976931348623157 * Pow10(292 - scale)
  }

  lemma ZeroIsNumber()
    ensures IsNumber([0x30, DOT, 0x30])
  {
    var s: bytes := [0x30, DOT, 0x30];
    var zeros: bytes := [0x30, 0x30];
    assert s[1..] == [DOT, 0x30] && s[1..][1..] == [0x30] && [0x30][1..] == [];
    assert DigitRun([0x30]) == 1 && DigitRun(s) == 1;
    assert s[..1] + [0x30] == zeros && zeros[..1] == [0x30] && [0x30][..0] == [];
    assert DigitsNumber([0x30]) == 0 && DigitsNumber(zeros) == 0;
  }

  lemma DigitsHaveNoComma(s: bytes)
    ensures COMMA !in s[..DigitRun(s)]
  {
  }

  lemma ExponentHasNoComma(s: bytes)
    requires IsExponent(s)
    ensures COMMA !in s
  {
    if s != [] {
      var digits := ExponentDigits(s);
      DigitsHaveNoComma(digits);
      assert digits[..|digits|] == digits;
      assert s == s[..|s| - |digits|] + digits;
    }
  }

  lemma FractionHasNoComma(s: bytes)
    requires IsFraction(s)
    ensures COMMA !in s
  {
    if s != [] && s[0] == DOT {
      var n := DigitRun(s[1..]);
      DigitsHaveNoComma(s[1..]);
      ExponentHasNoComma(s[1 + n..]);
      assert s == [s[0]] + s[1..][..n] + s[1 + n..];
    } else {
      ExponentHasNoComma(s);
    }
  }

  lemma BodyHasNoComma(body: bytes, n: nat)
    requires n == DigitRun(body) && IsFraction(body[n..])
    ensures COMMA !in body
  {
    hide IsFraction, DigitRun;
    DigitsHaveNoComma(body);
    FractionHasNoComma(body[n..]);
    assert body == body[..n] + body[n..];
  }

  lemma NumberHasNoComma(s: bytes)
    requires IsNumber(s)
    ensures COMMA !in s
  {
    hide IsFraction, DigitRun, IsFinite;
    BodyHasNoComma(Unsigned(s), DigitRun(Unsigned(s)));
    if s[0] == MINUS {
      HeadTail(s);
    }
  }

  function NatText(n: nat): bytes { Ascii(Decimal(n)) }

  function IntText(n: int): bytes { if n < 0 then [MINUS] + NatText(-n) else NatText(n) }

  lemma DigitBytes(s: string)
    requires s != [] && AllDigits(s)
    ensures |Ascii(s)| == |s| && Ascii(s)[0] != MINUS && forall i | 0 <= i < |s| :: Ascii(s)[i] == s[i] as int
  {
  }

  lemma NatTextInjective(m: nat, n: nat)
    requires NatText(m) == NatText(n)
    ensures m == n
  {
    var s, t := Decimal(m), Decimal(n);
    DigitBytes(s);
    DigitBytes(t);
    assert |s| == |t|;
    forall i | 0 <= i < |s|
      ensures s[i] == t[i]
    {
      assert Ascii(s)[i] == Ascii(t)[i];
    }
    assert s == t;
    DecimalValue(m);
    DecimalValue(n);
  }

  lemma IntTextInjective(m: int, n: int)
    requires IntText(m) == IntText(n)
    ensures m == n
  {
    hide NatText;
    NatTextStart(if m < 0 then -m else m);
    NatTextStart(if n < 0 then -n else n);
    if m < 0 && n < 0 {
      ConsParts(MINUS, NatText(-m));
      ConsParts(MINUS, NatText(-n));
      NatTextInjective(-m, -n);
    } else if m >= 0 && n >= 0 {
      NatTextInjective(m, n);
    }
  }

  lemma NatTextStart(n: nat)
    ensures NatText(n) != [] && NatText(n)[0] != MINUS
  {
    DigitBytes(Decimal(n));
  }

  function Pow10(k: nat): nat { if k == 0 then 1 else 10 * Pow10(k - 1) }

  lemma {:induction false} NatTextLength(n: nat, k: nat)
    requires k > 0 && n < Pow10(k)
    ensures |NatText(n)| <= k
    decreases k
  {
    if n >= 10 {
      NatTextLength(n / 10, k - 1);
      assert |Decimal(n)| == |Decimal(n / 10)| + 1;
    }
  }
}
