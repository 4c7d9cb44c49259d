/** Character classes and decimal numbers of the source language's standard library. */
module Text {

  /** `char::is_whitespace`: the Unicode White_Space property. */
  predicate IsWhitespace(c: char) {
    || '\U{9}' <= c <= '\U{D}' || c == ' ' || c == '\U{85}' || c == '\U{A0}' || c == '\U{1680}'
    || '\U{2000}' <= c <= '\U{200A}' || c == '\U{2028}' || c == '\U{2029}' || c == '\U{202F}'
    || c == '\U{205F}' || c == '\U{3000}'
  }

  /** The characters of the Unicode White_Space property. */
  const WHITE_SPACE: string :=
    "\U{9}\U{A}\U{B}\U{C}\U{D} \U{85}\U{A0}\U{1680}\U{2000}\U{2001}\U{2002}\U{2003}\U{2004}\U{2005}"
    + "\U{2006}\U{2007}\U{2008}\U{2009}\U{200A}\U{2028}\U{2029}\U{202F}\U{205F}\U{3000}"

  lemma WhitespaceExact(c: char)
    ensures IsWhitespace(c) <==> c in WHITE_SPACE
  {
    var n := c as int;
    assert |WHITE_SPACE| == 25;
    if 0x9 <= n <= 0xD {
      assert WHITE_SPACE[n - 0x9] == c;
    } else if 0x2000 <= n <= 0x200A {
      assert WHITE_SPACE[n - 0x2000 + 9] == c;
    } else if IsWhitespace(c) {
      assert c in [WHITE_SPACE[5], WHITE_SPACE[6], WHITE_SPACE[7], WHITE_SPACE[8], WHITE_SPACE[20], WHITE_SPACE[21],
                   WHITE_SPACE[22], WHITE_SPACE[23], WHITE_SPACE[24]];
    }
  }

  function LowerChar(c: char): char {
    if 'A' <= c <= 'Z' then (c as int + 32) as char else c
  }

  /** `to_ascii_lowercase`. */
  function Lower(s: string): (t: string)
    ensures |t| == |s| && forall i | 0 <= i < |s| :: t[i] == LowerChar(s[i])
  {
    seq(|s|, i requires 0 <= i < |s| => LowerChar(s[i]))
  }

  /** `trim_start`. */
  function TrimStart(s: string): string {
    if s != [] && IsWhitespace(s[0]) then TrimStart(s[1..]) else s
  }

  /** ASCII letters and digits, dash and underscore. */
  const WORD_CHARS := LOWER_CASE + UPPER_CASE + "0123456789" + "-_"
  const LOWER_CASE := "abcdefghijklmnopqrstuvwxyz"
  const UPPER_CASE := "ABCDEFGHIJKLMNOPQRSTUVWXYZ"

  lemma LowerCaseExact(c: char)
    ensures 'a' <= c <= 'z' <==> c in LOWER_CASE
  {
    assert |LOWER_CASE| == 26;
    if 'a' <= c <= 'z' {
      assert LOWER_CASE[c as int - 'a' as int] == c;
    }
  }

  lemma UpperCaseExact(c: char)
    ensures 'A' <= c <= 'Z' <==> c in UPPER_CASE
  {
    assert |UPPER_CASE| == 26;
    if 'A' <= c <= 'Z' {
      assert UPPER_CASE[c as int - 'A' as int] == c;
    }
  }

  lemma DigitsExact(c: char)
    ensures '0' <= c <= '9' <==> c in "0123456789"
  {
    if '0' <= c <= '9' {
      assert "0123456789"[c as int - '0' as int] == c;
    }
  }

  lemma WordCharExact(c: char)
    ensures c in WORD_CHARS
            <==> 'a' <= c <= 'z' || 'A' <= c <= 'Z' || '0' <= c <= '9' || c == '-' || c == '_'
  {
    LowerCaseExact(c);
    UpperCaseExact(c);
    DigitsExact(c);
    OneOfFour(c, LOWER_CASE, UPPER_CASE, "0123456789", "-_");
    assert c in "-_" <==> c == "-_"[0] || c == "-_"[1];
  }

  lemma OneOfFour(x: char, a: string, b: string, c: string, d: string)
    ensures x in a + b + c + d <==> x in a || x in b || x in c || x in d
  {
  }

  // ---------- Decimal numbers ----------

  predicate IsDigit(c: char) { '0' <= c <= '9' }

  predicate AllDigits(s: string) { forall i | 0 <= i < |s| :: IsDigit(s[i]) }

  function Digit(n: nat): (c: char)
    requires n < 10
    ensures IsDigit(c)
  {
    ('0' as int + n) as char
  }

  /** `format!("{index}")`. */
  function Decimal(n: nat): (s: string)
    ensures s != [] && AllDigits(s) && (s[0] == '0' ==> |s| == 1)
  {
    if n < 10 then [Digit(n)] else Decimal(n / 10) + [Digit(n % 10)]
  }

  function DigitsValue(s: string): nat
    requires AllDigits(s)
  {
    if s == [] then 0 else 10 * DigitsValue(s[..|s| - 1]) + (s[|s| - 1] as int - '0' as int)
  }

  lemma {:induction false} DecimalValue(n: nat)
    ensures DigitsValue(Decimal(n)) == n
  {
    if n >= 10 {
      DecimalValue(n / 10);
      assert Decimal(n)[..|Decimal(n)| - 1] == Decimal(n / 10);
    }
  }
}
