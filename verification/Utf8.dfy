/** What the check for valid UTF-8 accepts: the encodings of sequences of Unicode scalar values (RFC 3629). */
module Utf8 {
  import opened Sequences
  import opened WireBytes

  /** A code point that is no surrogate. */
  predicate IsScalar(n: int) { 0 <= n < 0xD800 || 0xE000 <= n < 0x11_0000 }

  predicate AllScalars(ns: seq<int>) { forall n <- ns :: IsScalar(n) }

  /** The low six bits of `n`, as a continuation byte. */
  function Tail(n: nat): (b: byte)
    ensures IsContinuation(b)
  {
    0x80 + n % 0x40
  }

  /** The encoding of one scalar value, in the table of section 3 of RFC 3629. */
  function Encoded(n: int): bytes
    requires IsScalar(n)
  {
    if n < 0x80 then [n]
    else if n < 0x800 then [0xC0 + n / 0x40, Tail(n)]
    else if n < 0x1_0000 then [0xE0 + n / 0x1000, Tail(n / 0x40), Tail(n)]
    else [0xF0 + n / 0x4_0000, Tail(n / 0x1000), Tail(n / 0x40), Tail(n)]
  }

  function EncodedAll(ns: seq<int>): bytes
    requires AllScalars(ns)
  {
    if ns == [] then [] else assert ns[0] in ns; Encoded(ns[0]) + EncodedAll(ns[1..])
  }

  /** An encoding in front of other bytes neither helps nor hurts them. */
  lemma FirstIsValid(n: int, rest: bytes)
    requires IsScalar(n)
    ensures ValidUtf8(Encoded(n) + rest) == ValidUtf8(rest)
  {
    var s, e := Encoded(n) + rest, Encoded(n);
    assert s[|e|..] == rest;
    assert forall i | 0 <= i < |e| :: s[i] == e[i];
    if n >= 0x1_0000 {
      assert n / 0x4_0000 == 0 ==> n / 0x1000 >= 0x10;
      assert n / 0x4_0000 == 4 ==> n / 0x1000 - 0x100 < 0x10;
    } else if n >= 0x800 {
      assert n / 0x1000 == 0 ==> n / 0x40 >= 0x20;
      assert n / 0x1000 == 0xD ==> n / 0x40 - 0x340 < 0x20;
    }
  }

  lemma {:induction false} EncodedIsValid(ns: seq<int>)
    requires AllScalars(ns)
    ensures ValidUtf8(EncodedAll(ns))
    decreases |ns|
  {
    if ns != [] {
      assert ns[0] in ns;
      EncodedIsValid(ns[1..]);
      FirstIsValid(ns[0], EncodedAll(ns[1..]));
    }
  }

  lemma FirstTwo(s: bytes) returns (n: int)
    requires |s| >= 2 && 0xC2 <= s[0] <= 0xDF && IsContinuation(s[1])
    ensures IsScalar(n) && s == Encoded(n) + s[2..]
  {
    var lead: int, last: int := s[0] - 0xC0, s[1] - 0x80;
    n := lead * 0x40 + last;
  }

  lemma FirstThree(s: bytes) returns (n: int)
    requires |s| >= 3 && 0xE0 <= s[0] <= 0xEF && IsContinuation(s[1]) && IsContinuation(s[2])
    requires (s[0] == 0xE0 ==> s[1] >= 0xA0) && (s[0] == 0xED ==> s[1] <= 0x9F)
    ensures IsScalar(n) && s == Encoded(n) + s[3..]
  {
    var lead: int, next: int, last: int := s[0] - 0xE0, s[1] - 0x80, s[2] - 0x80;
    var middle := lead * 0x40 + next;
    n := middle * 0x40 + last;
    assert n / 0x40 == middle && n / 0x1000 == lead;
  }

  lemma FirstFour(s: bytes) returns (n: int)
    requires |s| >= 4 && 0xF0 <= s[0] <= 0xF4
    requires IsContinuation(s[1]) && IsContinuation(s[2]) && IsContinuation(s[3])
    requires (s[0] == 0xF0 ==> s[1] >= 0x90) && (s[0] == 0xF4 ==> s[1] <= 0x8F)
    ensures IsScalar(n) && s == Encoded(n) + s[4..]
  {
    var lead: int, next: int, third: int, last: int := s[0] - 0xF0, s[1] - 0x80, s[2] - 0x80, s[3] - 0x80;
    var top := lead * 0x40 + next;
    var middle := top * 0x40 + third;
    n := middle * 0x40 + last;
    assert n / 0x40 == middle && n / 0x1000 == top && n / 0x4_0000 == lead;
  }

  lemma {:induction false} ValidIsEncoded(s: bytes) returns (ns: seq<int>)
    requires ValidUtf8(s)
    ensures AllScalars(ns) && s == EncodedAll(ns)
    decreases |s|
  {
    hide Encoded;
    if s == [] {
      ns := [];
    } else {
      var n, k := FirstOf(s);
      var rest := ValidIsEncoded(s[k..]);
      ns := [n] + rest;
      ConsParts(n, rest);
    }
  }

  lemma FirstOf(s: bytes) returns (n: int, k: nat)
    requires s != [] && ValidUtf8(s)
    ensures IsScalar(n) && 0 < k <= |s| && ValidUtf8(s[k..]) && s == Encoded(n) + s[k..]
  {
    if s[0] < 0x80 {
      n, k := s[0], 1;
    } else if s[0] <= 0xDF {
      n := FirstTwo(s);
      k := 2;
    } else if s[0] <= 0xEF {
      n := FirstThree(s);
      k := 3;
    } else {
      n := FirstFour(s);
      k := 4;
    }
  }

  /** A byte string is valid exactly when it is the encoding of some sequence of scalar values. */
  lemma Utf8Exact(s: bytes)
    ensures ValidUtf8(s) <==> exists ns :: AllScalars(ns) && s == EncodedAll(ns)
  {
    if ValidUtf8(s) {
      var ns := ValidIsEncoded(s);
    }
    forall ns | AllScalars(ns) && s == EncodedAll(ns)
      ensures ValidUtf8(s)
    {
      EncodedIsValid(ns);
    }
  }
}
