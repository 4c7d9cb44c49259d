/**
 The canonical forms of a signed AWS request in plain terms: which bytes are escaped and how, what
 ascending means, and what stands between the parts.
 */
module AwsMeaning {
  import opened Sequences
  import Text
  import opened WireBytes
  import opened AwsCanonical
  import opened AwsHeaders

  // ---------- Ascending order ----------

  /** They agree up to `k`, where `a` has the smaller byte. */
  predicate SmallerAt(a: bytes, b: bytes, k: nat) { k < |a| && k < |b| && a[..k] == b[..k] && a[k] < b[k] }

  /** `a` is a prefix of `b`, or smaller at the first difference. */
  ghost predicate Ascends(a: bytes, b: bytes) { a <= b || exists k: nat :: SmallerAt(a, b, k) }

  lemma SmallerLater(a: bytes, b: bytes, k: nat)
    requires a != [] && b != [] && a[0] == b[0]
    ensures SmallerAt(a[1..], b[1..], k) <==> SmallerAt(a, b, k + 1)
  {
    if k + 1 <= |a| && k + 1 <= |b| {
      assert a[..k + 1] == [a[0]] + a[1..][..k] && b[..k + 1] == [b[0]] + b[1..][..k];
      ConsParts(a[0], a[1..][..k]);
      ConsParts(b[0], b[1..][..k]);
    }
  }

  lemma PrefixLater(a: bytes, b: bytes)
    requires a != [] && b != [] && a[0] == b[0]
    ensures a[1..] <= b[1..] <==> a <= b
  {
    HeadTail(a);
    HeadTail(b);
    if a[1..] <= b[1..] {
      assert forall i | 0 <= i < |a| :: a[i] == b[i] by {
        assert forall i | 0 < i < |a| :: a[i] == a[1..][i - 1] && b[i] == b[1..][i - 1];
      }
    }
  }

  lemma {:induction false} BytesLeqExact(a: bytes, b: bytes)
    ensures BytesLeq(a, b) <==> Ascends(a, b)
    decreases |a|
  {
    hide SmallerAt;
    if a != [] && b != [] {
      if a[0] == b[0] {
        BytesLeqExact(a[1..], b[1..]);
        PrefixLater(a, b);
        NotAtFirst(a, b);
        if k: nat :| SmallerAt(a[1..], b[1..], k) {
          SmallerLater(a, b, k);
        }
        if k: nat :| SmallerAt(a, b, k) {
          SmallerLater(a, b, k - 1);
        }
      } else {
        AtFirst(a, b);
      }
    } else {
      NowhereSmaller(a, b);
    }
  }

  lemma NotAtFirst(a: bytes, b: bytes)
    requires a != [] && b != [] && a[0] == b[0]
    ensures !SmallerAt(a, b, 0)
  {
  }

  lemma SameFirst(a: bytes, b: bytes, k: nat)
    requires SmallerAt(a, b, k)
    ensures k > 0 ==> a[0] == b[0]
  {
    if k > 0 {
      assert a[..k][0] == b[..k][0];
    }
  }

  lemma AtFirst(a: bytes, b: bytes)
    requires a != [] && b != [] && a[0] != b[0]
    ensures Ascends(a, b) <==> a[0] < b[0]
  {
    assert SmallerAt(a, b, 0) <==> a[0] < b[0];
    forall k: nat | SmallerAt(a, b, k)
      ensures k == 0
    {
      SameFirst(a, b, k);
    }
  }

  lemma NowhereSmaller(a: bytes, b: bytes)
    requires a == [] || b == []
    ensures Ascends(a, b) <==> a == []
  {
    assert a <= b <==> a == [];
  }

  /** By key, and pairs of one key by value. */
  ghost predicate PairAscends(p: Pair, q: Pair) { if p.0 == q.0 then Ascends(p.1, q.1) else Ascends(p.0, q.0) }

  ghost predicate AscendingPairs(ps: seq<Pair>) { forall i, j | 0 <= i < j < |ps| :: PairAscends(ps[i], ps[j]) }

  ghost predicate AscendingNames(ps: seq<Pair>) { forall i, j | 0 <= i < j < |ps| :: Ascends(ps[i].0, ps[j].0) }

  // ---------- The query ----------

  const HEX := "0123456789ABCDEF"

  /** Letters, digits and `*-._` stay; any other byte becomes "%" and two hexadecimal digits. */
  lemma EncodeByteSpelled(b: byte)
    ensures EncodeByte(b)
         == if b as char in Text.WORD_CHARS || b as char in "*." then [b]
            else ['%' as int, HEX[b / 16] as int, HEX[b % 16] as int]
  {
    hide Text.WORD_CHARS;
    Text.WordCharExact(b as char);
    HexSpelled(b / 16);
    HexSpelled(b % 16);
  }

  lemma HexSpelled(n: nat)
    requires n < 16
    ensures HexDigit(n) == HEX[n] as int
  {
  }

  /** A text is encoded byte by byte. */
  lemma {:induction false} EncodeParts(s: bytes, t: bytes)
    ensures AwsEncode(s + t) == AwsEncode(s) + AwsEncode(t)
    decreases |s|
  {
    hide AwsEncode;
    if s == [] {
      EncodeNothing();
      assert s + t == t;
    } else {
      EncodeCons(s[0], s[1..]);
      HeadTail(s);
      EncodeCons(s[0], s[1..] + t);
      assert s + t == [s[0]] + (s[1..] + t);
      EncodeParts(s[1..], t);
      Assoc(EncodeByte(s[0]), AwsEncode(s[1..]), AwsEncode(t));
    }
  }

  lemma EncodeOne(b: byte)
    ensures AwsEncode([b]) == EncodeByte(b)
  {
    EncodeCons(b, []);
    EncodeNothing();
    assert [b] + [] == [b];
  }

  /** "key=value", and '&' between two lists of pairs. */
  lemma {:induction false} JoinSpelled(a: seq<Pair>, b: seq<Pair>)
    ensures |a| == 1 ==> Join(a) == a[0].0 + ['=' as int] + a[0].1
    ensures a != [] && b != [] ==> Join(a + b) == Join(a) + ['&' as int] + Join(b)
    decreases |a|
  {
    if a != [] && b != [] {
      var pair := a[0].0 + [EQUALS] + a[0].1;
      assert (a + b)[0] == a[0] && (a + b)[1..] == a[1..] + b;
      if |a| == 1 {
        assert a[1..] + b == b && pair + [] == pair;
        Assoc(pair, [AMPERSAND], Join(b));
      } else {
        JoinSpelled(a[1..], b);
        Assoc([AMPERSAND], Join(a[1..]) + [AMPERSAND], Join(b));
        Assoc([AMPERSAND], Join(a[1..]), [AMPERSAND]);
        Assoc(pair, [AMPERSAND] + Join(a[1..]), [AMPERSAND]);
        Assoc(pair, [AMPERSAND] + Join(a[1..]) + [AMPERSAND], Join(b));
      }
    }
  }

  /** The canonical query is the encoded pairs in ascending order, joined. */
  lemma CanonicalQuerySpelled(ps: seq<Pair>) returns (es: seq<Pair>)
    ensures multiset(es) == multiset(EncodeAll(ps)) && AscendingPairs(es) && CanonicalQuery(ps) == Join(es)
  {
    hide BytesLeq, Ascends, Join, EncodeAll, Sort;
    es := Sort(EncodeAll(ps));
    SortSorted(EncodeAll(ps));
    forall i, j | 0 <= i < j < |es|
      ensures PairAscends(es[i], es[j])
    {
      BytesLeqExact(es[i].0, es[j].0);
      BytesLeqExact(es[i].1, es[j].1);
      assert PairLeq(es[i], es[j]);
    }
  }

  // ---------- The headers ----------

  function NamesOf(ps: seq<Pair>): (names: seq<bytes>)
    ensures |names| == |ps| && forall i | 0 <= i < |ps| :: names[i] == ps[i].0
  {
    seq(|ps|, i requires 0 <= i < |ps| => ps[i].0)
  }

  /** The signed names, split at ';', are the names of the items in their order. */
  lemma {:induction false} NamesSplit(ps: seq<Pair>)
    requires ps != [] && forall p <- ps :: ';' as int !in p.0
    ensures Split(Names(ps), ';' as int) == NamesOf(ps)
    decreases |ps|
  {
    assert ps[0] in ps;
    if |ps| == 1 {
      SplitOne(ps[0].0, SEMICOLON);
      assert ps[0].0 + [] == ps[0].0;
      assert NamesOf(ps) == [ps[0].0];
    } else {
      NamesSplit(ps[1..]);
      SplitFirst(ps[0].0, SEMICOLON, Names(ps[1..]));
      assert NamesOf(ps) == [ps[0].0] + NamesOf(ps[1..]);
    }
  }

  /** A line is "name:value", and lists of lines stand one after the other. */
  lemma {:induction false} LinesSpelled(a: seq<Pair>, b: seq<Pair>)
    ensures |a| == 1 ==> Lines(a) == a[0].0 + [':' as int] + a[0].1 + ['\n' as int]
    ensures Lines(a + b) == Lines(a) + Lines(b)
    decreases |a|
  {
    if a == [] {
      assert a + b == b;
    } else {
      assert (a + b)[0] == a[0] && (a + b)[1..] == a[1..] + b;
      LinesSpelled(a[1..], b);
      var line := a[0].0 + [COLON] + a[0].1 + [NEWLINE];
      Assoc(line, Lines(a[1..]), Lines(b));
      if |a| == 1 {
        assert line + [] == line;
      }
    }
  }

  lemma {:induction false} ItemNames(headers: seq<Pair>, c: byte)
    requires (forall h <- headers :: c !in h.0) && !(0x41 <= c <= 0x5A || 0x61 <= c <= 0x7A)
    ensures forall p <- Items(headers) :: c !in p.0
    decreases |headers|
  {
    hide Spaced, Words, TrimBytes, Readable, LowerBytes;
    if headers != [] {
      assert headers[0] in headers && forall h <- headers[1..] :: h in headers;
      LowerHasNo(headers[0].0, c);
      ItemNames(headers[1..], c);
    }
  }

  lemma LowerByteSpelled(b: byte)
    ensures LowerByte(b) == if 0x41 <= b <= 0x5A then b + 0x20 else b
  {
  }

  lemma LowerHasNo(s: bytes, c: byte)
    requires c !in s && !(0x41 <= c <= 0x5A || 0x61 <= c <= 0x7A)
    ensures c !in LowerBytes(s)
  {
    forall i | 0 <= i < |s|
      ensures LowerBytes(s)[i] != c
    {
      LowerByteSpelled(s[i]);
      assert s[i] in s;
    }
  }

  /** Tabs, line ends and blanks stand between words. */
  lemma BlankSpelled(b: byte)
    ensures IsBlankByte(b) <==> b in [9, 10, 11, 12, 13, 32]
  {
  }

  /** A value takes part if it is text: tabs and the printable ASCII characters. */
  lemma ReadableSpelled(v: bytes)
    ensures Readable(v) <==> forall b <- v :: b as char == '\t' || ' ' <= b as char <= '~'
  {
  }

  /**
   Both parts of the canonical headers come from one list of items: lines in ascending order of their
   names, the words of each value of a name in order, and the same names between semicolons.
   */
  lemma CanonicalHeadersSpelled(headers: seq<Pair>) returns (items: seq<Pair>)
    requires forall h <- headers :: ';' as int !in h.0
    ensures CanonicalHeaders(headers).0 == Lines(items) && AscendingNames(items)
    ensures forall name: bytes :: Under(name, items) == SpacedAll(WordsUnder(name, headers))
    ensures if items == [] then CanonicalHeaders(headers).1 == []
            else Split(CanonicalHeaders(headers).1, ';' as int) == NamesOf(items)
  {
    hide Items, SortByName, Lines, Under, WordsUnder, BytesLeq, Ascends, SpacedAll, Split;
    items := SortByName(Items(headers));
    forall name: bytes
      ensures Under(name, items) == SpacedAll(WordsUnder(name, headers))
    {
      SortByNameKeeps(Items(headers), name);
      UnderItems(name, headers);
    }
    SortByNameKeeps(Items(headers), []);
    forall i, j | 0 <= i < j < |items|
      ensures Ascends(items[i].0, items[j].0)
    {
      BytesLeqExact(items[i].0, items[j].0);
    }
    ItemNames(headers, SEMICOLON);
    if items != [] {
      NamesSplit(items);
    }
  }
}
