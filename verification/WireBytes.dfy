/** Bytes, big-endian lengths, length-prefixed vectors, texts with separators and UTF-8 validity. */
module WireBytes {
  import opened Wrappers
  import opened Sequences

  type byte = n: int | 0 <= n < 0x100
  type bytes = seq<byte>

  function U16(hi: byte, lo: byte): nat { 0x100 * hi + lo }

  /** `u16::to_be_bytes`. */
  function Be16(n: nat): (bs: bytes)
    requires n < 0x1_0000
    ensures |bs| == 2 && U16(bs[0], bs[1]) == n
  {
    [n / 0x100, n % 0x100]
  }

  lemma Be16Inverse(hi: byte, lo: byte)
    ensures U16(hi, lo) < 0x1_0000 && Be16(U16(hi, lo)) == [hi, lo]
  {
  }

  /** The vectors of the TLS presentation language, with one- and two-byte lengths. */
  function Vec8(body: bytes): bytes
    requires |body| < 0x100
  {
    [|body|] + body
  }

  function Vec16(body: bytes): bytes
    requires |body| < 0x1_0000
  {
    Be16(|body|) + body
  }

  /** What a vector at the start of `s` holds, and what follows it. */
  datatype Taken = Taken(body: bytes, rest: bytes)

  function TakeVec8(s: bytes): Option<Taken> {
    if |s| >= 1 && 1 + s[0] <= |s| then Some(Taken(s[1..1 + s[0]], s[1 + s[0]..])) else None
  }

  function TakeVec16(s: bytes): Option<Taken> {
    if |s| >= 2 && 2 + U16(s[0], s[1]) <= |s|
    then Some(Taken(s[2..2 + U16(s[0], s[1])], s[2 + U16(s[0], s[1])..])) else None
  }

  /** Taking a vector is exactly undoing its encoding. */
  lemma TakeVec8Exact(s: bytes, body: bytes, rest: bytes)
    ensures TakeVec8(s) == Some(Taken(body, rest)) <==> |body| < 0x100 && s == Vec8(body) + rest
  {
    if |body| < 0x100 && s == Vec8(body) + rest {
      assert s[1..1 + |body|] == body && s[1 + |body|..] == rest;
    }
  }

  lemma TakeVec16Exact(s: bytes, body: bytes, rest: bytes)
    ensures TakeVec16(s) == Some(Taken(body, rest)) <==> |body| < 0x1_0000 && s == Vec16(body) + rest
  {
    if TakeVec16(s) == Some(Taken(body, rest)) {
      Be16Inverse(s[0], s[1]);
      assert s == [s[0], s[1]] + body + rest;
    }
    if |body| < 0x1_0000 && s == Vec16(body) + rest {
      assert s[0] == Be16(|body|)[0] && s[1] == Be16(|body|)[1];
      assert s[2..2 + |body|] == body && s[2 + |body|..] == rest;
    }
  }

  // ---------- Parts of a text ----------

  /** `split`: one part more than there are separators. */
  function Split(s: bytes, sep: byte): (parts: seq<bytes>)
    ensures parts != []
  {
    if s == [] then [[]]
    else
      var rest := Split(s[1..], sep);
      if s[0] == sep then [[]] + rest else [[s[0]] + rest[0]] + rest[1..]
  }

  function Joined(parts: seq<bytes>, sep: byte): bytes
    requires parts != []
  {
    if |parts| == 1 then parts[0] else parts[0] + ([sep] + Joined(parts[1..], sep))
  }

  lemma {:induction false} SplitJoins(s: bytes, sep: byte)
    ensures Joined(Split(s, sep), sep) == s && forall part <- Split(s, sep) :: sep !in part
    decreases |s|
  {
    if s != [] {
      var rest := Split(s[1..], sep);
      SplitJoins(s[1..], sep);
      HeadTail(s);
      if s[0] == sep {
        ConsParts([], rest);
        assert Joined([[]] + rest, sep) == [] + ([sep] + Joined(rest, sep));
      } else {
        ConsParts([s[0]] + rest[0], rest[1..]);
        if |rest| > 1 {
          Assoc([s[0]], rest[0], [sep] + Joined(rest[1..], sep));
        }
      }
    }
  }

  lemma {:induction false} SplitOne(s: bytes, sep: byte)
    requires sep !in s
    ensures Split(s, sep) == [s]
    decreases |s|
  {
    if s != [] {
      assert s[0] in s;
      SplitOne(s[1..], sep);
      HeadTail(s);
    }
  }

  lemma {:induction false} SplitFirst(part: bytes, sep: byte, rest: bytes)
    requires sep !in part
    ensures Split(part + ([sep] + rest), sep) == [part] + Split(rest, sep)
    decreases |part|
  {
    if part == [] {
      assert part + ([sep] + rest) == [sep] + rest;
      ConsParts(sep, rest);
    } else {
      assert part[0] in part;
      var tail := part[1..] + ([sep] + rest);
      assert part + ([sep] + rest) == [part[0]] + tail by {
        HeadTail(part);
        Assoc([part[0]], part[1..], [sep] + rest);
      }
      ConsParts(part[0], tail);
      SplitFirst(part[1..], sep, rest);
      ConsParts(part[1..], Split(rest, sep));
      HeadTail(part);
    }
  }

  // ---------- UTF-8 ----------

  predicate IsContinuation(b: byte) { 0x80 <= b <= 0xBF }

  /** `std::str::from_utf8(..).is_ok()`: the byte sequences of section 4 of RFC 3629. */
  predicate ValidUtf8(s: bytes) {
    if s == [] then true
    else if s[0] < 0x80 then ValidUtf8(s[1..])
    else if 0xC2 <= s[0] <= 0xDF then |s| >= 2 && IsContinuation(s[1]) && ValidUtf8(s[2..])
    else if 0xE0 <= s[0] <= 0xEF then
      && |s| >= 3 && IsContinuation(s[1]) && IsContinuation(s[2])
      && (s[0] == 0xE0 ==> s[1] >= 0xA0) && (s[0] == 0xED ==> s[1] <= 0x9F) && ValidUtf8(s[3..])
    else if 0xF0 <= s[0] <= 0xF4 then
      && |s| >= 4 && IsContinuation(s[1]) && IsContinuation(s[2]) && IsContinuation(s[3])
      && (s[0] == 0xF0 ==> s[1] >= 0x90) && (s[0] == 0xF4 ==> s[1] <= 0x8F) && ValidUtf8(s[4..])
    else false
  }
}
