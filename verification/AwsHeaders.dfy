/**
 The canonical headers of a signed AWS request. Runs of white space in a value are collapsed, the
 lines are sorted by name, and values of one name keep their order.
 */
module AwsHeaders {
  import opened Sequences
  import Text
  import opened WireBytes
  import opened AwsCanonical

  // ---------- Collapsing white space ----------

  const SPACE: byte := 0x20
  const COLON: byte := 0x3A
  const NEWLINE: byte := 0x0A
  const SEMICOLON: byte := 0x3B

  /** `char::is_whitespace` on ASCII. */
  predicate IsBlankByte(b: byte) { b < 0x80 && Text.IsWhitespace(b as char) }

  predicate StartsWord(s: bytes) { s != [] && !IsBlankByte(s[0]) }

  /** The maximal runs of other bytes. */
  function Words(s: bytes): (ws: seq<bytes>)
    ensures StartsWord(s) ==> ws != []
  {
    if s == [] then []
    else if IsBlankByte(s[0]) then Words(s[1..])
    else
      var rest := Words(s[1..]);
      if StartsWord(s[1..]) then [[s[0]] + rest[0]] + rest[1..] else [[s[0]]] + rest
  }

  function Spaced(ws: seq<bytes>): bytes {
    if ws == [] then [] else ws[0] + (if |ws| == 1 then [] else [SPACE] + Spaced(ws[1..]))
  }

  predicate Word(w: bytes) { w != [] && forall b <- w :: !IsBlankByte(b) }

  predicate AllWords(ws: seq<bytes>) { forall w <- ws :: Word(w) }

  lemma {:induction false} WordsAreWords(s: bytes)
    ensures AllWords(Words(s))
    decreases |s|
  {
    if s != [] {
      WordsAreWords(s[1..]);
      if StartsWord(s[1..]) {
        WordCons(s[0], Words(s[1..])[0]);
      }
    }
  }

  lemma WordCons(b: byte, w: bytes)
    ensures !IsBlankByte(b) && Word(w) ==> Word([b] + w)
  {
  }

  function TrimBytesEnd(s: bytes): bytes {
    if s == [] then []
    else
      var rest := TrimBytesEnd(s[1..]);
      if rest == [] && IsBlankByte(s[0]) then [] else [s[0]] + rest
  }

  function TrimBytesStart(s: bytes): bytes {
    if s != [] && IsBlankByte(s[0]) then TrimBytesStart(s[1..]) else s
  }

  function TrimBytes(s: bytes): bytes { TrimBytesStart(TrimBytesEnd(s)) }

  /** What the loop of `collapse_spaces` still appends, given `last_space`. */
  function Appended(s: bytes, lastSpace: bool): bytes {
    if s == [] then []
    else if IsBlankByte(s[0]) then (if lastSpace then [] else [SPACE]) + Appended(s[1..], true)
    else [s[0]] + Appended(s[1..], false)
  }

  method CollapseSpaces(s: bytes) returns (r: bytes)
    ensures r == Spaced(Words(s))
  {
    hide Spaced, Words, TrimBytes, Appended, IsBlankByte;
    var out: bytes := [];
    var lastSpace := false;
    var i := 0;
    assert s[0..] == s && out + Appended(s, false) == Appended(s, false);
    while i < |s|
      invariant 0 <= i <= |s|
      invariant out + Appended(s[i..], lastSpace) == Appended(s, false)
    {
      AppendedStep(out, s, i, lastSpace);
      if IsBlankByte(s[i]) {
        if !lastSpace {
          out := out + [SPACE];
          lastSpace := true;
        }
      } else {
        out := out + [s[i]];
        lastSpace := false;
      }
      i := i + 1;
    }
    AppendedNothing(s, lastSpace);
    assert out == out + [] == Appended(s, false);
    r := TrimBytes(out);
    CollapsedTrimmed(s);
  }

  lemma AppendedNothing(s: bytes, lastSpace: bool)
    ensures Appended(s[|s|..], lastSpace) == []
  {
  }

  lemma AppendedStep(out: bytes, s: bytes, i: nat, lastSpace: bool)
    requires i < |s|
    ensures out + Appended(s[i..], lastSpace)
            == (if !IsBlankByte(s[i]) then out + [s[i]] else if lastSpace then out else out + [SPACE])
               + Appended(s[i + 1..], IsBlankByte(s[i]))
  {
    var rest := s[i + 1..];
    assert s[i..][0] == s[i] && s[i..][1..] == rest;
    Assoc(out, [SPACE], Appended(rest, true));
    Assoc(out, [s[i]], Appended(rest, false));
    assert [] + Appended(rest, true) == Appended(rest, true);
  }

  lemma SpacedFirst(ws: seq<bytes>)
    requires AllWords(ws)
    ensures ws != [] ==> StartsWord(Spaced(ws))
  {
    if ws != [] {
      assert ws[0] in ws && ws[0][0] in ws[0] && Spaced(ws)[0] == ws[0][0];
    }
  }

  /** Adding a byte in front of a value, as its words see it. */
  lemma SpacedCons(b: byte, s: bytes)
    requires !IsBlankByte(b)
    ensures Spaced(Words([b] + s))
            == [b] + ((if !StartsWord(s) && Words(s) != [] then [SPACE] else []) + Spaced(Words(s)))
  {
    ConsParts(b, s);
    var ws := Words(s);
    if StartsWord(s) {
      var tail := if |ws| == 1 then [] else [SPACE] + Spaced(ws[1..]);
      assert Words([b] + s) == [[b] + ws[0]] + ws[1..];
      ConsParts([b] + ws[0], ws[1..]);
      Assoc([b], ws[0], tail);
    } else {
      ConsParts([b], ws);
    }
  }

  lemma {:induction false} TrimmedAppended(s: bytes)
    ensures TrimBytesEnd(Appended(s, true)) == Spaced(Words(s))
    ensures TrimBytesEnd(Appended(s, false))
            == (if !StartsWord(s) && Words(s) != [] then [SPACE] else []) + Spaced(Words(s))
    decreases |s|
  {
    hide Spaced;
    if s == [] {
      assert Spaced([]) == [] by { SpacedNothing(); }
    } else {
      var rest := s[1..];
      TrimmedAppended(rest);
      if IsBlankByte(s[0]) {
        ConsParts(SPACE, Appended(rest, true));
        WordsAreWords(rest);
        SpacedFirst(Words(rest));
        SpacedNothing();
        assert Appended(s, true) == Appended(rest, true);
        assert Appended(s, false) == [SPACE] + Appended(rest, true);
        assert Words(s) == Words(rest);
      } else {
        HeadTail(s);
        SpacedCons(s[0], rest);
        ConsParts(s[0], Appended(rest, false));
      }
    }
  }

  lemma SpacedNothing()
    ensures Spaced([]) == []
  {
  }

  lemma CollapsedTrimmed(s: bytes)
    ensures TrimBytes(Appended(s, false)) == Spaced(Words(s))
  {
    hide Spaced, Words, TrimBytesEnd, Appended, TrimBytesStart;
    TrimmedAppended(s);
    WordsAreWords(s);
    SpacedFirst(Words(s));
    SpacedNothing();
    TrimStartStops(Spaced(Words(s)));
    assert [] + Spaced(Words(s)) == Spaced(Words(s));
  }

  lemma TrimStartStops(t: bytes)
    requires t == [] || StartsWord(t)
    ensures TrimBytesStart(t) == t && TrimBytesStart([SPACE] + t) == t
  {
    ConsParts(SPACE, t);
  }

  lemma {:induction false} WordsOfTrimEnd(s: bytes)
    ensures Words(TrimBytesEnd(s)) == Words(s) && (StartsWord(s) ==> StartsWord(TrimBytesEnd(s)))
    ensures StartsWord(TrimBytesEnd(s)) ==> StartsWord(s)
    decreases |s|
  {
    if s != [] {
      WordsOfTrimEnd(s[1..]);
      ConsParts(s[0], TrimBytesEnd(s[1..]));
    }
  }

  lemma {:induction false} WordsOfTrimStart(s: bytes)
    ensures Words(TrimBytesStart(s)) == Words(s)
    decreases |s|
  {
    if s != [] && IsBlankByte(s[0]) {
      WordsOfTrimStart(s[1..]);
    }
  }

  lemma {:induction false} WordsOfWord(w: bytes, rest: bytes)
    requires Word(w) && !StartsWord(rest)
    ensures Words(w + rest) == [w] + Words(rest)
    decreases |w|
  {
    HeadTail(w);
    Assoc([w[0]], w[1..], rest);
    ConsParts(w[0], w[1..] + rest);
    assert w[0] in w;
    if |w| == 1 {
      assert w[1..] + rest == rest;
    } else {
      assert Word(w[1..]) by {
        assert forall b <- w[1..] :: b in w;
      }
      WordsOfWord(w[1..], rest);
      assert w[1] in w && (w[1..] + rest)[0] == w[1];
    }
  }

  lemma {:induction false} WordsOfSpaced(ws: seq<bytes>)
    requires AllWords(ws)
    ensures Words(Spaced(ws)) == ws
    decreases |ws|
  {
    if ws != [] {
      var rest := if |ws| == 1 then [] else [SPACE] + Spaced(ws[1..]);
      assert Word(ws[0]) && AllWords(ws[1..]);
      HeadTail(ws);
      WordsOfSpaced(ws[1..]);
      WordsOfWord(ws[0], rest);
      if |ws| > 1 {
        ConsParts(SPACE, Spaced(ws[1..]));
      }
    }
  }

  /** Collapsing keeps the words and nothing else: it is a normal form of the word list. */
  lemma CollapseExact(s: bytes, t: bytes)
    ensures Words(Spaced(Words(s))) == Words(s)
    ensures Spaced(Words(s)) == Spaced(Words(t)) <==> Words(s) == Words(t)
  {
    WordsAreWords(s);
    WordsAreWords(t);
    WordsOfSpaced(Words(s));
    WordsOfSpaced(Words(t));
  }

  // ---------- The canonical headers ----------

  function LowerByte(b: byte): byte { if b < 0x80 then Text.LowerChar(b as char) as int else b }

  function LowerBytes(s: bytes): (r: bytes)
    ensures |r| == |s|
  {
    seq(|s|, i requires 0 <= i < |s| => LowerByte(s[i]))
  }

  /** `HeaderValue::to_str` succeeds. */
  predicate Readable(v: bytes) { forall b <- v :: 32 <= b < 127 || b == 9 }

  /** The items that are sorted: a value that is not text is left out. */
  function Items(headers: seq<Pair>): seq<Pair> {
    if headers == [] then []
    else
      (if Readable(headers[0].1) then [(LowerBytes(headers[0].0), Spaced(Words(TrimBytes(headers[0].1))))] else [])
      + Items(headers[1..])
  }

  /** One step of a stable sort: an item goes before those of the same name. */
  function InsertByName(p: Pair, ps: seq<Pair>): seq<Pair> {
    if ps == [] || BytesLeq(p.0, ps[0].0) then [p] + ps else [ps[0]] + InsertByName(p, ps[1..])
  }

  function SortByName(ps: seq<Pair>): seq<Pair> {
    if ps == [] then [] else InsertByName(ps[0], SortByName(ps[1..]))
  }

  function Lines(ps: seq<Pair>): bytes {
    if ps == [] then [] else ps[0].0 + [COLON] + ps[0].1 + [NEWLINE] + Lines(ps[1..])
  }

  function Names(ps: seq<Pair>): bytes {
    if ps == [] then [] else ps[0].0 + (if |ps| == 1 then [] else [SEMICOLON] + Names(ps[1..]))
  }

  /** `canonical_headers`: the lines and the signed names. */
  function CanonicalHeaders(headers: seq<Pair>): (bytes, bytes) {
    var ps := SortByName(Items(headers));
    (Lines(ps), Names(ps))
  }

  /** The values under a name, in order. */
  function Under(name: bytes, ps: seq<Pair>): seq<bytes> {
    if ps == [] then [] else (if ps[0].0 == name then [ps[0].1] else []) + Under(name, ps[1..])
  }

  predicate SortedByName(ps: seq<Pair>) { forall i, j | 0 <= i < j < |ps| :: BytesLeq(ps[i].0, ps[j].0) }

  lemma {:induction false} UnderEmpty(name: bytes, ps: seq<Pair>)
    ensures Under(name, ps) != [] <==> exists i | 0 <= i < |ps| :: ps[i].0 == name
    decreases |ps|
  {
    if ps != [] {
      UnderEmpty(name, ps[1..]);
      if i :| 0 <= i < |ps| && ps[i].0 == name {
        assert i > 0 ==> ps[1..][i - 1].0 == name;
      }
      if Under(name, ps) != [] && ps[0].0 != name {
        var i :| 0 <= i < |ps[1..]| && ps[1..][i].0 == name;
        assert ps[i + 1].0 == name;
      }
    }
  }

  lemma {:induction false} InsertByNameKeeps(p: Pair, ps: seq<Pair>, name: bytes)
    requires SortedByName(ps)
    ensures SortedByName(InsertByName(p, ps))
    ensures Under(name, InsertByName(p, ps)) == (if p.0 == name then [p.1] else []) + Under(name, ps)
    ensures forall q <- InsertByName(p, ps) :: q == p || q in ps
    decreases |ps|
  {
    hide BytesLeq;
    if ps == [] {
    } else if BytesLeq(p.0, ps[0].0) {
      InsertFirst(p, ps);
      ConsParts(p, ps);
    } else {
      var rest := InsertByName(p, ps[1..]);
      InsertByNameKeeps(p, ps[1..], name);
      BytesTotal(p.0, ps[0].0);
      BytesTotal(p.0, p.0);
      assert SortedByName([ps[0]] + rest) by {
        forall i | 0 <= i < |rest|
          ensures BytesLeq(ps[0].0, rest[i].0)
        {
          assert rest[i] in rest;
          if rest[i] != p {
            var k :| 0 <= k < |ps[1..]| && ps[1..][k] == rest[i];
            assert ps[1..][k] == ps[k + 1];
          }
        }
        ConsParts(ps[0], rest);
      }
      ConsParts(ps[0], rest);
    }
  }

  lemma InsertFirst(p: Pair, ps: seq<Pair>)
    requires SortedByName(ps) && ps != [] && BytesLeq(p.0, ps[0].0)
    ensures SortedByName([p] + ps)
  {
    hide BytesLeq;
    forall j | 0 <= j < |ps|
      ensures BytesLeq(p.0, ps[j].0)
    {
      if j > 0 {
        BytesTransitive(p.0, ps[0].0, ps[j].0);
      }
    }
  }

  /** The sort is sorted, and keeps the values of every name in order. */
  lemma {:induction false} SortByNameKeeps(ps: seq<Pair>, name: bytes)
    ensures SortedByName(SortByName(ps)) && Under(name, SortByName(ps)) == Under(name, ps)
    ensures forall q <- SortByName(ps) :: q in ps
    decreases |ps|
  {
    if ps != [] {
      SortByNameKeeps(ps[1..], name);
      InsertByNameKeeps(ps[0], SortByName(ps[1..]), name);
    }
  }

  ghost predicate SameUnder(a: seq<Pair>, b: seq<Pair>) { forall name: bytes :: Under(name, a) == Under(name, b) }

  lemma FirstNameLeq(a: seq<Pair>, b: seq<Pair>)
    requires SortedByName(a) && a != [] && b != [] && SameUnder(a, b)
    ensures BytesLeq(a[0].0, b[0].0)
  {
    hide BytesLeq;
    var m := b[0].0;
    UnderEmpty(m, b);
    UnderEmpty(m, a);
    assert Under(m, a) == Under(m, b);
    var i :| 0 <= i < |a| && a[i].0 == m;
    if i == 0 {
      BytesTotal(m, m);
    }
  }

  /** Sorted lists with the same values under every name are equal. */
  lemma {:induction false} SortedByNameUnique(a: seq<Pair>, b: seq<Pair>)
    requires SortedByName(a) && SortedByName(b) && SameUnder(a, b)
    ensures a == b
    decreases |a|
  {
    hide BytesLeq;
    if a == [] {
      assert b != [] ==> Under(b[0].0, a) == Under(b[0].0, b);
    } else if b == [] {
      UnderEmpty(a[0].0, a);
      assert false;
    } else {
      FirstNameLeq(a, b);
      FirstNameLeq(b, a);
      BytesTotal(a[0].0, b[0].0);
      var name := a[0].0;
      assert Under(name, a) == Under(name, b);
      ConsParts(a[0].1, Under(name, a[1..]));
      ConsParts(b[0].1, Under(name, b[1..]));
      forall n: bytes
        ensures Under(n, a[1..]) == Under(n, b[1..])
      {
        assert Under(n, a) == Under(n, b);
        if n != name {
          assert [] + Under(n, a[1..]) == Under(n, a[1..]);
          assert [] + Under(n, b[1..]) == Under(n, b[1..]);
        } else {
          ConsParts(a[0].1, Under(n, a[1..]));
          ConsParts(b[0].1, Under(n, b[1..]));
        }
      }
      SortedByNameUnique(a[1..], b[1..]);
      HeadTail(a);
      HeadTail(b);
    }
  }

  /** A name that holds no ':', and a value that is one line. */
  predicate LinesUp(p: Pair) { COLON !in p.0 && NEWLINE !in p.1 }

  lemma LineParts(p: Pair, rest: bytes)
    requires LinesUp(p)
    ensures p.0 + [COLON] + p.1 + [NEWLINE] + rest == p.0 + ([COLON] + (p.1 + ([NEWLINE] + rest)))
    ensures UpTo(p.0 + ([COLON] + (p.1 + ([NEWLINE] + rest))), COLON) == p.0
    ensures UpTo(p.1 + ([NEWLINE] + rest), NEWLINE) == p.1
  {
    hide UpTo;
    UpToStops(p.0, COLON, [COLON] + (p.1 + ([NEWLINE] + rest)));
    UpToStops(p.1, NEWLINE, [NEWLINE] + rest);
  }

  lemma {:induction false} LinesInjective(a: seq<Pair>, b: seq<Pair>)
    requires (forall p <- a :: LinesUp(p)) && (forall p <- b :: LinesUp(p)) && Lines(a) == Lines(b)
    ensures a == b
    decreases |a|
  {
    hide LinesUp, UpTo;
    if a != [] && b != [] {
      var p, q := a[0], b[0];
      assert p in a && q in b;
      LineParts(p, Lines(a[1..]));
      LineParts(q, Lines(b[1..]));
      AfterPart(p.0, COLON, p.1 + ([NEWLINE] + Lines(a[1..])));
      AfterPart(q.0, COLON, q.1 + ([NEWLINE] + Lines(b[1..])));
      assert p.0 == q.0;
      assert p.1 + ([NEWLINE] + Lines(a[1..])) == q.1 + ([NEWLINE] + Lines(b[1..]));
      assert p.1 == q.1;
      AfterPart(p.1, NEWLINE, Lines(a[1..]));
      AfterPart(q.1, NEWLINE, Lines(b[1..]));
      assert forall x <- a[1..] :: x in a;
      assert forall x <- b[1..] :: x in b;
      LinesInjective(a[1..], b[1..]);
      HeadTail(a);
      HeadTail(b);
    }
  }

  /** Header names are tokens (section 5.6.2 of RFC 9110); all that matters here is that no ':' is one. */
  predicate TokenNames(headers: seq<Pair>) { forall h <- headers :: COLON !in h.0 }

  lemma {:induction false} SpacedIsOneLine(ws: seq<bytes>)
    requires AllWords(ws)
    ensures NEWLINE !in Spaced(ws)
    decreases |ws|
  {
    if ws != [] {
      assert Word(ws[0]) && AllWords(ws[1..]);
      SpacedIsOneLine(ws[1..]);
    }
  }

  lemma LowerHasNoColon(s: bytes)
    requires COLON !in s
    ensures COLON !in LowerBytes(s)
  {
    forall i | 0 <= i < |s|
      ensures LowerBytes(s)[i] != COLON
    {
      assert s[i] in s;
    }
  }

  lemma {:induction false} ItemsLineUp(headers: seq<Pair>)
    requires TokenNames(headers)
    ensures forall p <- Items(headers) :: LinesUp(p)
    decreases |headers|
  {
    hide LowerBytes, Spaced, Words, TrimBytes, Readable;
    if headers != [] {
      var h := headers[0];
      assert h in headers && forall x <- headers[1..] :: x in headers;
      LowerHasNoColon(h.0);
      WordsAreWords(TrimBytes(h.1));
      SpacedIsOneLine(Words(TrimBytes(h.1)));
      ItemsLineUp(headers[1..]);
    }
  }

  /** The word lists of the readable values under a name, whatever its case. */
  function WordsUnder(name: bytes, headers: seq<Pair>): seq<seq<bytes>> {
    if headers == [] then []
    else
      (if Readable(headers[0].1) && LowerBytes(headers[0].0) == name then [Words(headers[0].1)] else [])
      + WordsUnder(name, headers[1..])
  }

  function SpacedAll(wss: seq<seq<bytes>>): (r: seq<bytes>)
    ensures |r| == |wss|
  {
    seq(|wss|, i requires 0 <= i < |wss| => Spaced(wss[i]))
  }

  lemma {:induction false} UnderItems(name: bytes, headers: seq<Pair>)
    ensures Under(name, Items(headers)) == SpacedAll(WordsUnder(name, headers))
    ensures forall wss <- WordsUnder(name, headers) :: AllWords(wss)
    decreases |headers|
  {
    hide LowerBytes, Spaced, Words, TrimBytes, Readable, AllWords;
    if headers != [] {
      var h := headers[0];
      var rest := headers[1..];
      UnderItems(name, rest);
      WordsOfTrim(h.1);
      WordsAreWords(h.1);
      SpacedAllCons(Words(h.1), WordsUnder(name, rest));
      if Readable(h.1) {
        UnderCons(name, (LowerBytes(h.0), Spaced(Words(h.1))), Items(rest));
      } else {
        assert [] + Items(rest) == Items(rest);
      }
      if !(Readable(h.1) && LowerBytes(h.0) == name) {
        assert [] + WordsUnder(name, rest) == WordsUnder(name, rest);
      }
    }
  }

  lemma UnderCons(name: bytes, p: Pair, ps: seq<Pair>)
    ensures Under(name, [p] + ps) == if p.0 == name then [p.1] + Under(name, ps) else Under(name, ps)
  {
    ConsParts(p, ps);
  }

  lemma SpacedAllCons(ws: seq<bytes>, wss: seq<seq<bytes>>)
    ensures SpacedAll([ws] + wss) == [Spaced(ws)] + SpacedAll(wss)
  {
  }

  lemma WordsOfTrim(v: bytes)
    ensures Words(TrimBytes(v)) == Words(v)
  {
    WordsOfTrimEnd(v);
    WordsOfTrimStart(TrimBytesEnd(v));
  }

  lemma SpacedAllInjective(a: seq<seq<bytes>>, b: seq<seq<bytes>>)
    requires (forall wss <- a :: AllWords(wss)) && (forall wss <- b :: AllWords(wss))
    requires SpacedAll(a) == SpacedAll(b)
    ensures a == b
  {
    hide Spaced, AllWords;
    assert |a| == |b|;
    forall i | 0 <= i < |a|
      ensures a[i] == b[i]
    {
      assert a[i] in a && b[i] in b;
      assert SpacedAll(a)[i] == Spaced(a[i]) && SpacedAll(b)[i] == Spaced(b[i]);
      WordsOfSpaced(a[i]);
      WordsOfSpaced(b[i]);
    }
  }

  /** The same words, value by value and in order, under every name. */
  ghost predicate SameHeaders(a: seq<Pair>, b: seq<Pair>) {
    forall name: bytes :: WordsUnder(name, a) == WordsUnder(name, b)
  }

  /**
   Two header lists have the same canonical form exactly when every name has the same values in the
   same order, up to white space: the order in which names come does not matter.
   */
  lemma CanonicalHeadersExact(a: seq<Pair>, b: seq<Pair>)
    requires TokenNames(a) && TokenNames(b)
    ensures CanonicalHeaders(a) == CanonicalHeaders(b) <==> SameHeaders(a, b)
  {
    hide Items, SortByName, Lines, Names, Under, WordsUnder, SortedByName, AllWords, LinesUp, SpacedAll;
    var sa, sb := SortByName(Items(a)), SortByName(Items(b));
    forall name: bytes
      ensures Under(name, sa) == SpacedAll(WordsUnder(name, a)) && Under(name, sb) == SpacedAll(WordsUnder(name, b))
      ensures SortedByName(sa) && SortedByName(sb)
      ensures SpacedAll(WordsUnder(name, a)) == SpacedAll(WordsUnder(name, b))
              ==> WordsUnder(name, a) == WordsUnder(name, b)
    {
      SortByNameKeeps(Items(a), name);
      SortByNameKeeps(Items(b), name);
      UnderItems(name, a);
      UnderItems(name, b);
      if SpacedAll(WordsUnder(name, a)) == SpacedAll(WordsUnder(name, b)) {
        SpacedAllInjective(WordsUnder(name, a), WordsUnder(name, b));
      }
    }
    if SameHeaders(a, b) {
      assert SameUnder(sa, sb);
      SortByNameKeeps(Items(a), []);
      SortByNameKeeps(Items(b), []);
      SortedByNameUnique(sa, sb);
    }
    if CanonicalHeaders(a) == CanonicalHeaders(b) {
      ItemsLineUp(a);
      ItemsLineUp(b);
      SortByNameKeeps(Items(a), []);
      SortByNameKeeps(Items(b), []);
      LinesInjective(sa, sb);
      forall name: bytes
        ensures WordsUnder(name, a) == WordsUnder(name, b)
      {
        assert Under(name, sa) == Under(name, sb);
      }
    }
  }
}
