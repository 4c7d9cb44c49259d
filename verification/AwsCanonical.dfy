/**
 The canonical query string of a signed AWS request: percent-encoded pairs, sorted and joined. It is
 a canonical form in the strict sense: two lists of query pairs give the same string exactly when
 they are equal as multisets.
 */
module AwsCanonical {
  import opened Sequences
  import opened WireBytes

  // ---------- Percent encoding ----------

  const PLUS: byte := 0x2B
  const PERCENT: byte := 0x25
  const EQUALS: byte := 0x3D
  const AMPERSAND: byte := 0x26

  predicate IsDigitByte(b: byte) { 0x30 <= b <= 0x39 }

  /** The bytes that form encoding leaves alone: letters, digits and `*-._`. */
  predicate IsPlainByte(b: byte) {
    IsDigitByte(b) || 0x41 <= b <= 0x5A || 0x61 <= b <= 0x7A || b == 0x2A || b == 0x2D || b == 0x2E || b == 0x5F
  }

  function HexDigit(n: nat): (d: byte)
    requires n < 16
    ensures IsDigitByte(d) || 0x41 <= d <= 0x46
  {
    if n < 10 then 0x30 + n else 0x37 + n
  }

  function HexValue(d: byte): nat {
    if IsDigitByte(d) then d - 0x30 else if 0x41 <= d <= 0x46 then d - 0x37 else 0
  }

  /** `url::form_urlencoded::byte_serialize`: a space becomes '+'. */
  function ByteSerialize(s: bytes): bytes {
    if s == [] then []
    else
      (if IsPlainByte(s[0]) then [s[0]]
       else if s[0] == 0x20 then [PLUS]
       else [PERCENT, HexDigit(s[0] / 16), HexDigit(s[0] % 16)])
      + ByteSerialize(s[1..])
  }

  /** `replace('+', "%20")`. */
  function ReplacePlus(s: bytes): bytes {
    if s == [] then [] else (if s[0] == PLUS then [PERCENT, 0x32, 0x30] else [s[0]]) + ReplacePlus(s[1..])
  }

  function AwsEncode(s: bytes): bytes { ReplacePlus(ByteSerialize(s)) }

  /** Plain percent decoding. */
  function PercentDecode(s: bytes): bytes {
    if s == [] then []
    else if s[0] == PERCENT && |s| >= 3 then [(16 * HexValue(s[1]) + HexValue(s[2])) % 0x100] + PercentDecode(s[3..])
    else [s[0]] + PercentDecode(s[1..])
  }

  lemma {:induction false} ReplacePlusConcat(a: bytes, b: bytes)
    ensures ReplacePlus(a + b) == ReplacePlus(a) + ReplacePlus(b)
    decreases |a|
  {
    if a == [] {
      assert a + b == b;
    } else {
      assert (a + b)[1..] == a[1..] + b;
      ReplacePlusConcat(a[1..], b);
    }
  }

  function EncodeByte(b: byte): bytes {
    if IsPlainByte(b) then [b] else [PERCENT, HexDigit(b / 16), HexDigit(b % 16)]
  }

  lemma ReplacePlusAbsent(s: bytes)
    requires |s| <= 3 && PLUS !in s
    ensures ReplacePlus(s) == s
  {
    if |s| == 3 {
      assert s[1..][1..][1..] == [] && s == [s[0]] + ([s[1]] + ([s[2]] + []));
    } else if |s| == 2 {
      assert s[1..][1..] == [] && s == [s[0]] + ([s[1]] + []);
    }
  }

  /** Both steps together encode byte by byte, a space like any other. */
  lemma EncodeCons(b: byte, s: bytes)
    ensures AwsEncode([b] + s) == EncodeByte(b) + AwsEncode(s)
  {
    ConsParts(b, s);
    var first := if IsPlainByte(b) then [b] else if b == 0x20 then [PLUS]
                 else [PERCENT, HexDigit(b / 16), HexDigit(b % 16)];
    ReplacePlusConcat(first, ByteSerialize(s));
    if b == 0x20 {
      assert ReplacePlus([PLUS]) == [PERCENT, 0x32, 0x30] + ReplacePlus([]);
    } else {
      ReplacePlusAbsent(first);
    }
  }

  predicate Alphabet(s: bytes) { forall b <- s :: IsPlainByte(b) || b == PERCENT }

  /** Encoding is undone by percent decoding, and its output needs no escaping in a query. */
  lemma {:induction false} EncodeExact(s: bytes)
    ensures PercentDecode(AwsEncode(s)) == s && Alphabet(AwsEncode(s))
    decreases |s|
  {
    hide AwsEncode;
    if s == [] {
      assert AwsEncode([]) == [] by { EncodeNothing(); }
    } else {
      var b, rest := s[0], AwsEncode(s[1..]);
      HeadTail(s);
      EncodeCons(b, s[1..]);
      EncodeExact(s[1..]);
      DecodeByte(b, rest);
    }
  }

  lemma EncodeNothing()
    ensures AwsEncode([]) == []
  {
  }

  lemma DecodeByte(b: byte, rest: bytes)
    ensures PercentDecode(EncodeByte(b) + rest) == [b] + PercentDecode(rest)
  {
    var s := EncodeByte(b) + rest;
    if IsPlainByte(b) {
      assert s[0] == b && s[1..] == rest;
    } else {
      assert s[0] == PERCENT && s[1] == HexDigit(b / 16) && s[2] == HexDigit(b % 16) && s[3..] == rest;
    }
  }

  // ---------- The order of pairs ----------

  type Pair = (bytes, bytes)

  predicate BytesLeq(a: bytes, b: bytes) {
    a == [] || (b != [] && (a[0] < b[0] || (a[0] == b[0] && BytesLeq(a[1..], b[1..]))))
  }

  predicate PairLeq(p: Pair, q: Pair) {
    if p.0 == q.0 then BytesLeq(p.1, q.1) else BytesLeq(p.0, q.0)
  }

  lemma {:induction false} BytesTotal(a: bytes, b: bytes)
    ensures BytesLeq(a, b) || BytesLeq(b, a)
    ensures BytesLeq(a, b) && BytesLeq(b, a) ==> a == b
    decreases |a|
  {
    if a != [] && b != [] {
      BytesTotal(a[1..], b[1..]);
      HeadTail(a);
      HeadTail(b);
    }
  }

  lemma {:induction false} BytesTransitive(a: bytes, b: bytes, c: bytes)
    requires BytesLeq(a, b) && BytesLeq(b, c)
    ensures BytesLeq(a, c)
    decreases |a|
  {
    if a != [] && a[0] == b[0] && b[0] == c[0] {
      BytesTransitive(a[1..], b[1..], c[1..]);
    }
  }

  lemma PairTotal(p: Pair, q: Pair)
    ensures PairLeq(p, q) || PairLeq(q, p)
    ensures PairLeq(p, q) && PairLeq(q, p) ==> p == q
  {
    BytesTotal(p.0, q.0);
    BytesTotal(p.1, q.1);
  }

  lemma PairTransitive(p: Pair, q: Pair, r: Pair)
    requires PairLeq(p, q) && PairLeq(q, r)
    ensures PairLeq(p, r)
  {
    if p.0 == q.0 && q.0 == r.0 {
      BytesTransitive(p.1, q.1, r.1);
    } else {
      BytesTotal(p.0, q.0);
      BytesTotal(q.0, r.0);
      if p.0 != q.0 && q.0 != r.0 {
        BytesTransitive(p.0, q.0, r.0);
      }
    }
  }

  // ---------- Sorting ----------

  predicate Sorted(ps: seq<Pair>) { forall i, j | 0 <= i < j < |ps| :: PairLeq(ps[i], ps[j]) }

  function Insert(p: Pair, ps: seq<Pair>): seq<Pair> {
    if ps == [] || PairLeq(p, ps[0]) then [p] + ps else [ps[0]] + Insert(p, ps[1..])
  }

  /** `sort()`: the sorted permutation, which is unique as the order is total. */
  function Sort(ps: seq<Pair>): seq<Pair> {
    if ps == [] then [] else Insert(ps[0], Sort(ps[1..]))
  }

  lemma {:induction false} InsertSorted(p: Pair, ps: seq<Pair>)
    requires Sorted(ps)
    ensures Sorted(Insert(p, ps)) && multiset(Insert(p, ps)) == multiset{p} + multiset(ps)
    decreases |ps|
  {
    hide PairLeq;
    if ps != [] {
      HeadTail(ps);
      if PairLeq(p, ps[0]) {
        forall i | 0 <= i < |ps|
          ensures PairLeq(p, ps[i])
        {
          if i > 0 {
            PairTransitive(p, ps[0], ps[i]);
          }
        }
      } else {
        var rest := Insert(p, ps[1..]);
        InsertSorted(p, ps[1..]);
        PairTotal(p, ps[0]);
        forall i | 0 <= i < |rest|
          ensures PairLeq(ps[0], rest[i])
        {
          assert rest[i] in multiset(rest);
          assert rest[i] == p || rest[i] in ps[1..];
        }
      }
    }
  }

  lemma {:induction false} SortSorted(ps: seq<Pair>)
    ensures Sorted(Sort(ps)) && multiset(Sort(ps)) == multiset(ps)
    decreases |ps|
  {
    hide PairLeq;
    if ps != [] {
      HeadTail(ps);
      SortSorted(ps[1..]);
      InsertSorted(ps[0], Sort(ps[1..]));
    }
  }

  lemma {:induction false} SortedUnique(a: seq<Pair>, b: seq<Pair>)
    requires Sorted(a) && Sorted(b) && multiset(a) == multiset(b)
    ensures a == b
    decreases |a|
  {
    hide PairLeq;
    if a == [] || b == [] {
      assert |multiset(a)| == |a| && |multiset(b)| == |b|;
    } else {
      HeadTail(a);
      HeadTail(b);
      assert a[0] in multiset(b) && b[0] in multiset(a);
      var i :| 0 <= i < |a| && a[i] == b[0];
      var j :| 0 <= j < |b| && b[j] == a[0];
      PairTotal(a[0], b[0]);
      assert multiset(a[1..]) == multiset(a) - multiset{a[0]};
      assert multiset(b[1..]) == multiset(b) - multiset{b[0]};
      SortedUnique(a[1..], b[1..]);
    }
  }

  // ---------- The canonical query string ----------

  function EncodePair(p: Pair): Pair { (AwsEncode(p.0), AwsEncode(p.1)) }

  function EncodeAll(ps: seq<Pair>): (es: seq<Pair>)
    ensures |es| == |ps|
  {
    seq(|ps|, i requires 0 <= i < |ps| => EncodePair(ps[i]))
  }

  /** `k=v` for each pair, joined with '&'. */
  function Join(es: seq<Pair>): bytes {
    if es == [] then []
    else es[0].0 + [EQUALS] + es[0].1 + (if |es| == 1 then [] else [AMPERSAND] + Join(es[1..]))
  }

  /** `canonical_query_string` of the decoded query pairs of a URL. */
  function CanonicalQuery(ps: seq<Pair>): bytes { Join(Sort(EncodeAll(ps))) }

  // ---------- Reading it back ----------

  function UpTo(s: bytes, stop: byte): (part: bytes)
    ensures |part| <= |s| && part == s[..|part|] && (|part| < |s| ==> s[|part|] == stop)
  {
    if s == [] || s[0] == stop then [] else [s[0]] + UpTo(s[1..], stop)
  }

  function Parse(s: bytes): seq<Pair>
    decreases |s|
  {
    if s == [] then []
    else
      var key := UpTo(s, EQUALS);
      if |key| == |s| then [(key, [])]
      else
        var rest := s[|key| + 1..];
        var value := UpTo(rest, AMPERSAND);
        [(key, value)] + (if |value| == |rest| then [] else Parse(rest[|value| + 1..]))
  }

  predicate Encoded(es: seq<Pair>) { forall e <- es :: Alphabet(e.0) && Alphabet(e.1) }

  lemma {:induction false} UpToStops(part: bytes, stop: byte, rest: bytes)
    requires stop !in part && (rest == [] || rest[0] == stop)
    ensures UpTo(part + rest, stop) == part
    decreases |part|
  {
    if part == [] {
      assert part + rest == rest;
    } else {
      assert part[0] in part && (part + rest)[1..] == part[1..] + rest;
      UpToStops(part[1..], stop, rest);
      HeadTail(part);
    }
  }

  lemma ParsePair(k: bytes, v: bytes, more: bytes)
    requires EQUALS !in k && AMPERSAND !in v && (more == [] || more[0] == AMPERSAND)
    ensures Parse(k + ([EQUALS] + (v + more))) == [(k, v)] + (if more == [] then [] else Parse(more[1..]))
  {
    hide UpTo;
    var tail := v + more;
    UpToStops(k, EQUALS, [EQUALS] + tail);
    AfterPart(k, EQUALS, tail);
    UpToStops(v, AMPERSAND, more);
    if more == [] {
      assert tail == v;
    } else {
      HeadTail(more);
      AfterPart(v, AMPERSAND, more[1..]);
    }
  }

  lemma {:induction false} ParseJoin(es: seq<Pair>)
    requires Encoded(es)
    ensures Parse(Join(es)) == es
    decreases |es|
  {
    hide Alphabet, Parse;
    if es == [] {
      ParseNothing();
    } else {
      var k, v := es[0].0, es[0].1;
      var more := if |es| == 1 then [] else [AMPERSAND] + Join(es[1..]);
      assert es[0] in es && forall e <- es[1..] :: e in es;
      AlphabetHasNoSeparator(k);
      AlphabetHasNoSeparator(v);
      Regroup(k, [EQUALS], v, more);
      Assoc(k, [EQUALS], v);
      Assoc(k, [EQUALS], v + more);
      ParsePair(k, v, more);
      ParseJoin(es[1..]);
      HeadTail(es);
    }
  }

  lemma ParseNothing()
    ensures Parse([]) == []
  {
  }

  lemma AlphabetHasNoSeparator(s: bytes)
    requires Alphabet(s)
    ensures EQUALS !in s && AMPERSAND !in s
  {
  }

  function DecodePair(e: Pair): Pair { (PercentDecode(e.0), PercentDecode(e.1)) }

  function DecodeAll(es: seq<Pair>): seq<Pair> {
    if es == [] then [] else [DecodePair(es[0])] + DecodeAll(es[1..])
  }

  lemma {:induction false} DecodeConcat(a: seq<Pair>, b: seq<Pair>)
    ensures DecodeAll(a + b) == DecodeAll(a) + DecodeAll(b)
    decreases |a|
  {
    if a == [] {
      assert a + b == b;
    } else {
      assert (a + b)[1..] == a[1..] + b;
      DecodeConcat(a[1..], b);
    }
  }

  /** Decoding a permutation gives a permutation. */
  lemma {:induction false} DecodePermutation(a: seq<Pair>, b: seq<Pair>)
    requires multiset(a) == multiset(b)
    ensures multiset(DecodeAll(a)) == multiset(DecodeAll(b))
    decreases |a|
  {
    hide DecodePair;
    assert |multiset(a)| == |a| && |multiset(b)| == |b|;
    if a != [] {
      HeadTail(a);
      var before, after := TakeFirstOut(a, b);
      DecodePermutation(a[1..], before + after);
      DecodeConcat(before, after);
      DecodeConcat(before, [a[0]] + after);
      ConsParts(a[0], after);
    }
  }

  lemma {:induction false} DecodeEncode(ps: seq<Pair>)
    ensures DecodeAll(EncodeAll(ps)) == ps && Encoded(EncodeAll(ps))
    decreases |ps|
  {
    hide AwsEncode, PercentDecode, Alphabet;
    if ps != [] {
      EncodeExact(ps[0].0);
      EncodeExact(ps[0].1);
      DecodeEncode(ps[1..]);
      HeadTail(ps);
      assert EncodeAll(ps) == [EncodePair(ps[0])] + EncodeAll(ps[1..]);
    }
  }

  lemma {:induction false} EncodePermutation(a: seq<Pair>, b: seq<Pair>)
    requires multiset(a) == multiset(b)
    ensures multiset(EncodeAll(a)) == multiset(EncodeAll(b))
    decreases |a|
  {
    hide EncodePair;
    assert |multiset(a)| == |a| && |multiset(b)| == |b|;
    if a != [] {
      HeadTail(a);
      var before, after := TakeFirstOut(a, b);
      EncodePermutation(a[1..], before + after);
      assert EncodeAll(a) == [EncodePair(a[0])] + EncodeAll(a[1..]);
      assert EncodeAll(b) == EncodeAll(before) + ([EncodePair(a[0])] + EncodeAll(after));
      assert EncodeAll(before + after) == EncodeAll(before) + EncodeAll(after);
    }
  }

  lemma EncodedIsPermutationInvariant(a: seq<Pair>, b: seq<Pair>)
    requires multiset(a) == multiset(b) && Encoded(b)
    ensures Encoded(a)
  {
    forall e <- a
      ensures Alphabet(e.0) && Alphabet(e.1)
    {
      assert e in multiset(b);
    }
  }

  /** The string, parsed and decoded, is a permutation of the pairs it was made from. */
  lemma CanonicalReadsBack(ps: seq<Pair>)
    ensures multiset(DecodeAll(Parse(CanonicalQuery(ps)))) == multiset(ps)
  {
    hide EncodeAll, Sort, Encoded;
    var es := EncodeAll(ps);
    DecodeEncode(ps);
    SortSorted(es);
    EncodedIsPermutationInvariant(Sort(es), es);
    ParseJoin(Sort(es));
    DecodePermutation(Sort(es), es);
  }

  /** Two lists of pairs have the same canonical string exactly when they are equal as multisets. */
  lemma CanonicalQueryExact(a: seq<Pair>, b: seq<Pair>)
    ensures CanonicalQuery(a) == CanonicalQuery(b) <==> multiset(a) == multiset(b)
  {
    hide EncodeAll, Sort, Join, Sorted;
    CanonicalReadsBack(a);
    CanonicalReadsBack(b);
    if multiset(a) == multiset(b) {
      EncodePermutation(a, b);
      SortSorted(EncodeAll(a));
      SortSorted(EncodeAll(b));
      SortedUnique(Sort(EncodeAll(a)), Sort(EncodeAll(b)));
    }
  }
}
