/**
 What the bearer pass and the key passes do to the marks that the query passes put behind parameter
 names: a bearer token's cut may fall inside a mark, the key passes leave marks alone.
 */
module RedactionMarks {
  import opened Sequences
  import opened Text
  import opened Redaction
  import opened RedactionProofs
  import opened RedactionValues
  import opened RedactionBearer

  // ---------- The bearer pass ----------

  /** The seven characters a bearer token starts with, one at a time. */
  lemma BearerAt(s: string, j: nat, i: nat)
    requires j <= |s| && StartsBearer(s[j..]) && i < |BEARER|
    ensures j + |BEARER| <= |s| && s[j + i] != '=' && !OpensParam(s[j + i])
    ensures (i == 0 ==> !IsMarkChar(s[j])) && (i == 6 ==> s[j + 6] == ' ')
  {
    var w := s[j..][..|BEARER|];
    assert w[i] == s[j + i] && LowerChar(w[i]) == Lower(w)[i] == BEARER[i];
    assert BEARER[0] == 'b' && BEARER[6] == ' ' && BEARER[i] in BEARER;
  }

  /** None starts where a '=' follows before its blank, or inside a mark. */
  lemma NoBearerIn(s: string, name: string, j: nat)
    requires IsName(name) && name + "=" + MARK <= s && j < |name| + 1 + |MARK|
    ensures !StartsBearer(s[j..])
  {
    var u := name + "=" + MARK;
    assert s[|name|] == u[|name|] == '=' && s[j] == u[j];
    if j <= |name| {
      NoBearerInName(s, name, j);
    } else {
      assert u[j] == MARK[j - |name| - 1] && u[j] in MARK;
      if StartsBearer(s[j..]) {
        BearerAt(s, j, 0);
      }
    }
  }

  lemma NoBearerInName(s: string, name: string, j: nat)
    requires IsName(name) && name + "=" <= s && j <= |name|
    ensures !StartsBearer(s[j..])
  {
    var u := name + "=";
    assert s[|name|] == u[|name|] == '=';
    if |name| < j + |BEARER| {
      if StartsBearer(s[j..]) {
        BearerAt(s, j, |name| - j);
      }
    } else {
      assert s[j + 6] == u[j + 6] == name[j + 6] && name[j + 6] in name;
      if StartsBearer(s[j..]) {
        BearerAt(s, j, 6);
      }
    }
  }

  lemma BearerHeadOpensNothing(s: string)
    requires StartsBearer(s)
    ensures forall c <- s[..|BEARER|] :: !OpensParam(c)
  {
    forall i | 0 <= i < |BEARER|
      ensures !OpensParam(s[i])
    {
      assert s[0..] == s;
      BearerAt(s, 0, i);
    }
  }

  /** A text that no bearer token starts keeps its first character. */
  lemma BearerCopiesFirst(s: string)
    requires s == [] || (EndsValueOrToken(s[0]))
    ensures var t := RedactBearer(s); (t == [] <==> s == []) && (s != [] ==> t[0] == s[0])
  {
    assert s[0..] == s;
    if s != [] && StartsBearer(s) {
      BearerAt(s, 0, 0);
      assert Lower(s[..|BEARER|])[0] == LowerChar(s[0]) && BEARER[0] == 'b';
    }
  }

  /** A name and its whole value are copied when they start outside every token. */
  lemma BearerKeepsFirst(s: string, t: string, name: string)
    requires IsName(name) && t == RedactBearer(s) && name + "=" <= t
    ensures name + "=" <= s && (IsWhole(s[|name| + 1..]) ==> IsWhole(t[|name| + 1..]))
  {
    hide RedactBearer, Cuts, StartsBearer, IsWhole;
    NameHasNoBracket(name);
    BearerCuts(s, false);
    CutsMirror(s, t, false, name + "=");
    if IsWhole(s[|name| + 1..]) {
      WholeBehindName(s, name);
      var u := name + "=" + MARK;
      forall j | 0 <= j < |u|
        ensures !StartsBearer(s[j..])
      {
        NoBearerIn(s, name, j);
      }
      BearerSkip(s, |u|);
      BearerCopiesFirst(s[|u|..]);
      var rest := RedactBearer(s[|u|..]);
      WholeParts(s[|u|..]);
      WholeEnds(s[|u|..], rest);
      assert t[|name| + 1..] == MARK + rest;
    }
  }

  lemma WholeBehindName(s: string, name: string)
    requires name + "=" <= s && IsWhole(s[|name| + 1..])
    ensures var u := name + "=" + MARK;
            && u <= s && s[..|u|] == u && s[|name| + 1..] == MARK + s[|u|..]
            && (s[|u|..] == [] || EndsValueOrToken(s[|u|..][0]))
  {
    var u := name + "=" + MARK;
    assert s == u + s[|name| + 1..][|MARK|..];
  }

  lemma WholeEnds(a: string, b: string)
    requires IsWhole(MARK + a) && (b == [] <==> a == []) && (a != [] ==> b[0] == a[0])
    ensures IsWhole(MARK + b)
  {
    WholeParts(a);
    WholeParts(b);
  }

  /**
   The start `u` of a token, of which at most eight characters are kept, and the rest `v`, in whose
   place the mark is put. A parameter that opens inside `u` loses at most all but `Slack` of its mark.
   */
  lemma {:induction false} TokenKeepsValues(
      u: string, v: string, tail: string, tail2: string, opens: bool, name: string)
    requires IsName(name) && (forall c <- u + v :: !EndsToken(c)) && |u| <= (if opens then 7 else 8)
    requires (tail == [] || EndsToken(tail[0])) && (tail2 == [] || EndsToken(tail2[0]))
    requires ValuesCoveredFrom(u + (v + tail), opens, name, Whole)
    requires ValuesCoveredFrom(tail2, false, name, UpTo(Slack(name)))
    ensures ValuesCoveredFrom(u + ((if v == [] then [] else MARK) + tail2), opens, name, UpTo(Slack(name)))
    decreases |u|
  {
    hide Covered, IsName, Slack;
    var put := (if v == [] then [] else MARK) + tail2;
    if u == [] {
      assert u + put == put && (v == [] ==> put == tail2) && (v != [] ==> put == MARK + tail2);
      TokenEndOpensNothing(v, tail2, name);
      BehindMark(tail2, name, UpTo(Slack(name)));
      NoNameNoMatter(put, opens, name, UpTo(Slack(name)));
    } else {
      HeadTail(u);
      Assoc([u[0]], u[1..], v + tail);
      Assoc([u[0]], u[1..], put);
      Assoc([u[0]], u[1..], v);
      ConsParts(u[0], u[1..] + (v + tail));
      ConsParts(u[0], u[1..] + put);
      assert forall c <- u[1..] + v :: c in u + v;
      TokenKeepsValues(u[1..], v, tail, tail2, OpensParam(u[0]), name);
      if opens && name + "=" <= u + put {
        if name + "=" <= u + (v + tail) {
          CoveredWhole((u + (v + tail))[|name| + 1..]);
        }
        TokenKeepsFirst(u, v, tail, tail2, name);
      }
      assert (u + put)[0] == u[0] && (u + put)[1..] == u[1..] + put;
    }
  }

  lemma TokenEndOpensNothing(v: string, tail2: string, name: string)
    requires IsName(name) && (tail2 == [] || EndsToken(tail2[0]))
    ensures !(name + "=" <= (if v == [] then [] else MARK) + tail2)
  {
    hide EndsToken;
    NameHasNoBracket(name);
    var put, w := (if v == [] then [] else MARK) + tail2, name + "=";
    assert w[0] == name[0] && name[0] in name && w[0] in w;
    assert v == [] ==> put == tail2;
    assert v != [] ==> put[0] == '[';
  }

  lemma TokenKeepsFirst(u: string, v: string, tail: string, tail2: string, name: string)
    requires IsName(name) && (forall c <- u + v :: !EndsToken(c)) && 0 < |u| <= 7
    requires (tail == [] || EndsToken(tail[0])) && (tail2 == [] || EndsToken(tail2[0]))
    requires name + "=" <= u + ((if v == [] then [] else MARK) + tail2)
    requires name + "=" <= u + (v + tail) ==> IsWhole((u + (v + tail))[|name| + 1..])
    ensures Covered((u + ((if v == [] then [] else MARK) + tail2))[|name| + 1..], UpTo(Slack(name)))
  {
    hide IsName, EndsToken;
    var put := (if v == [] then [] else MARK) + tail2;
    var s, t, len := u + (v + tail), u + put, |name| + 1;
    NameInsideToken(u, v, tail2, name);
    assert name + "=" <= u;
    assert s[len..] == u[len..] + (v + tail) && t[len..] == u[len..] + put;
    MarkInsideToken(u[len..], v, tail);
    var k := |u| - len;
    assert MARK[..k] == u[len..];
    assert t[len..] == Struck(k) + tail2;
    StruckParts(k, tail2);
  }

  lemma StruckParts(k: nat, rest: string)
    requires k <= |MARK|
    ensures IsStruck(Struck(k) + rest, k) <==> rest == [] || EndsValueOrToken(rest[0])
  {
    var value := Struck(k) + rest;
    assert Struck(k) <= value && (rest != [] ==> value[|Struck(k)|] == rest[0]);
  }

  /** The name ends before the cut, for it holds no bracket and nothing that ends a token. */
  lemma NameInsideToken(u: string, v: string, tail2: string, name: string)
    requires IsName(name) && (tail2 == [] || EndsToken(tail2[0]))
    requires name + "=" <= u + ((if v == [] then [] else MARK) + tail2)
    ensures |name| + 1 <= |u|
  {
    hide IsName, EndsToken;
    NameHasNoBracket(name);
    EqualsIsNoEnd();
    var put := (if v == [] then [] else MARK) + tail2;
    assert v == [] ==> put == tail2;
    assert v != [] ==> put[0] == '[';
    var w := name + "=";
    assert forall c <- w :: c in name || c == '=';
    assert put == [] || EndsToken(put[0]) || put[0] == '[';
    if |u| < |w| {
      Crosses(u, put, w);
    }
  }

  lemma Crosses(u: string, x: string, w: string)
    requires w <= u + x && |u| < |w|
    ensures x != [] && w[|u|] == x[0] && x[0] in w
  {
    assert w[|u|] == (u + x)[|u|];
  }

  lemma EqualsIsNoEnd()
    ensures !EndsToken('=') && !EndsToken('[')
  {
  }

  /** A mark that begins in a token does not leave it. */
  lemma MarkInsideToken(a: string, v: string, tail: string)
    requires MARK <= a + (v + tail) && (tail == [] || EndsToken(tail[0])) && |a| < |MARK|
    ensures v != [] && a == MARK[..|a|]
  {
    assert a == (a + (v + tail))[..|a|] == MARK[..|a|];
    if v == [] {
      var c := MARK[|a|];
      assert c == (a + (v + tail))[|a|] == tail[0];
      assert c in MARK;
      MarkCharsPlain(c);
    }
  }

  /** Behind the bearer pass a mark may start over, after no more characters than `Slack` allows. */
  lemma {:induction false} BearerKeepsValues(s: string, opens: bool, name: string)
    requires IsName(name) && ValuesCoveredFrom(s, opens, name, Whole)
    ensures ValuesCoveredFrom(RedactBearer(s), opens, name, UpTo(Slack(name)))
    decreases |s|
  {
    hide Covered, IsName, StartsBearer, Slack, ShortKey, EndsToken;
    if s == [] {
    } else if StartsBearer(s) && |s| >= |BEARER| {
      var rest := s[|BEARER|..];
      var n := TokenLength(rest);
      ValuesCoveredSuffix(s, opens, name, Whole, |BEARER|);
      ValuesCoveredSuffix(rest, false, name, Whole, n);
      BearerKeepsValues(rest[n..], false, name);
      BearerBlock(s, opens, name);
    } else {
      StartsBearerLong(s);
      BearerKeepsValues(s[1..], OpensParam(s[0]), name);
      var t := RedactBearer(s);
      ConsParts(s[0], RedactBearer(s[1..]));
      if opens && name + "=" <= t {
        BearerKeepsFirst(s, t, name);
        CoveredWhole(s[|name| + 1..]);
        WholeIsStruck(t[|name| + 1..], Slack(name));
      }
    }
  }

  lemma WholeIsStruck(value: string, slack: nat)
    requires IsWhole(value)
    ensures Covered(value, UpTo(slack))
  {
    assert Struck(0) == MARK;
    assert IsStruck(value, 0);
  }

  lemma BearerBlock(s: string, opens: bool, name: string)
    requires IsName(name) && StartsBearer(s) && |s| >= |BEARER| && ValuesCoveredFrom(s[|BEARER|..], false, name, Whole)
    requires var rest := s[|BEARER|..];
             ValuesCoveredFrom(RedactBearer(rest[TokenLength(rest)..]), false, name, UpTo(Slack(name)))
    ensures ValuesCoveredFrom(RedactBearer(s), opens, name, UpTo(Slack(name)))
  {
    hide Covered, IsName, StartsBearer, Slack, EndsToken, RedactBearer, ValuesCoveredFrom, ShortKey;
    var head, rest := s[..|BEARER|], s[|BEARER|..];
    var n := TokenLength(rest);
    var tail := RedactBearer(rest[n..]);
    BearerStep(s);
    BearerTailStart(rest);
    var u, v := rest[..if n > 8 then 8 else n], rest[if n > 8 then 8 else n..n];
    assert rest == u + (v + rest[n..]);
    assert forall c <- u + v :: !EndsToken(c) by { TokenStops(rest); assert u + v == rest[..n]; }
    TokenKeepsValues(u, v, rest[n..], tail, false, name);
    ShortKeyParts(rest[..n], u, v, tail);
    var t := RedactBearer(s);
    Assoc(head, ShortKey(rest[..n]), tail);
    BearerHeadOpensNothing(s);
    ValuesCoveredBehind(head, ShortKey(rest[..n]) + tail, name, UpTo(Slack(name)));
    if name + "=" <= t {
      BearerKeepsFirst(s, t, name);
      assert s[0..] == s;
      NoBearerInName(s, name, 0);
    }
    NoNameNoMatter(t, opens, name, UpTo(Slack(name)));
  }

  lemma ShortKeyParts(token: string, u: string, v: string, tail: string)
    requires u == token[..if |token| > 8 then 8 else |token|] && v == token[if |token| > 8 then 8 else |token|..]
    ensures ShortKey(token) + tail == u + ((if v == [] then [] else MARK) + tail)
  {
  }

  lemma BearerTailStart(rest: string)
    ensures var n := TokenLength(rest); var tail := RedactBearer(rest[n..]);
            (rest[n..] == [] || EndsToken(rest[n..][0])) && (tail == [] || EndsToken(tail[0]))
  {
    hide RedactBearer;
    var n := TokenLength(rest);
    if n < |rest| {
      assert rest[n..][0] == rest[n];
      BearerStart(rest[n..]);
    } else {
      assert rest[n..] == [];
      BearerNothing();
    }
  }

  // ---------- The key passes ----------

  lemma {:induction false} KeyRunApart(u: string, x: string)
    requires x == [] || !IsKeyChar(x[0])
    ensures KeyRun(u + x) == KeyRun(u)
    decreases |u|
  {
    hide IsKeyChar;
    if u == [] {
      assert u + x == x;
    } else {
      assert (u + x)[1..] == u[1..] + x;
      KeyRunApart(u[1..], x);
    }
  }

  /** A key pass works separately on both sides of a place where no key character follows. */
  lemma {:induction false} KeysApart(u: string, x: string, prefix: string)
    requires IsPrefix(prefix) && (x == [] || !IsKeyChar(x[0]))
    ensures prefix != []
    ensures RedactPrefixedKey(u + x, prefix) == RedactPrefixedKey(u, prefix) + RedactPrefixedKey(x, prefix)
    decreases |u|, 1
  {
    hide ShortKey, IsPrefix, IsKeyChar, KeyRun;
    PrefixHasNoEquals(prefix);
    if u == [] {
      assert u + x == x && [] + RedactPrefixedKey(x, prefix) == RedactPrefixedKey(x, prefix);
    } else if prefix <= u + x {
      PrefixInside(u, x, prefix);
      KeysApartBlock(u, x, prefix);
    } else {
      PrefixGrows(prefix, u, x);
      ConsApart(u, x);
      KeysApart(u[1..], x, prefix);
      Assoc([u[0]], RedactPrefixedKey(u[1..], prefix), RedactPrefixedKey(x, prefix));
    }
  }

  lemma ConsApart(u: string, x: string)
    requires u != []
    ensures (u + x)[0] == u[0] && (u + x)[1..] == u[1..] + x
  {
  }

  lemma {:induction false} KeysApartBlock(u: string, x: string, prefix: string)
    requires IsPrefix(prefix) && (x == [] || !IsKeyChar(x[0])) && u != []
    requires 0 < |prefix| <= |u| && prefix <= u + x
    ensures RedactPrefixedKey(u + x, prefix) == RedactPrefixedKey(u, prefix) + RedactPrefixedKey(x, prefix)
    decreases |u|, 0
  {
    hide ShortKey, IsPrefix, IsKeyChar, KeyRun;
    var rest := u[|prefix|..];
    var n := KeyRun(rest);
    BlockApart(u, x, prefix, n);
    KeyRunApart(rest, x);
    KeysApart(rest[n..], x, prefix);
    Assoc(prefix + ShortKey(rest[..n]), RedactPrefixedKey(rest[n..], prefix), RedactPrefixedKey(x, prefix));
  }

  lemma BlockApart(u: string, x: string, prefix: string, n: nat)
    requires prefix <= u + x && |prefix| + n <= |u|
    ensures prefix <= u && (u + x)[|prefix|..] == u[|prefix|..] + x
    ensures var rest := u[|prefix|..]; (rest + x)[..n] == rest[..n] && (rest + x)[n..] == rest[n..] + x
  {
    assert prefix == (u + x)[..|prefix|] == u[..|prefix|];
  }

  /** A '=' is in no key. */
  lemma KeysSplit(u: string, x: string, prefix: string)
    requires IsPrefix(prefix) && '=' !in u
    ensures RedactPrefixedKey(u + ("=" + x), prefix)
            == RedactPrefixedKey(u, prefix) + ("=" + RedactPrefixedKey(x, prefix))
    ensures '=' !in RedactPrefixedKey(u, prefix)
  {
    hide RedactPrefixedKey, IsPrefix;
    PrefixHasNoEquals(prefix);
    KeysApart(u, "=" + x, prefix);
    KeysSkipOne('=', x, prefix);
    PrefixedKeyCuts(u, prefix, false);
    assert '=' !in MARK;
    CutsKeepOut(u, RedactPrefixedKey(u, prefix), false, '=');
  }

  lemma KeysSkipOne(c: char, x: string, prefix: string)
    requires IsPrefix(prefix) && !IsKeyChar(c)
    ensures prefix != [] && RedactPrefixedKey([c] + x, prefix) == [c] + RedactPrefixedKey(x, prefix)
  {
    PrefixIsKeyChars(prefix);
    ConsParts(c, x);
    PrefixAt(prefix, [c] + x, 0);
  }

  lemma PrefixGrows(prefix: string, u: string, x: string)
    ensures prefix <= u ==> prefix <= u + x
  {
  }

  lemma PrefixHasNoEquals(prefix: string)
    requires IsPrefix(prefix)
    ensures prefix != [] && '=' !in prefix && prefix[0] != '['
  {
  }

  /** Characters of the mark at the start of a text are copied. */
  lemma {:induction false} KeysCopyMark(m: string, s: string, prefix: string)
    requires IsPrefix(prefix) && m <= s && forall c <- m :: IsMarkChar(c)
    ensures prefix != [] && RedactPrefixedKey(s, prefix) == m + RedactPrefixedKey(s[|m|..], prefix)
    decreases |m|
  {
    hide ShortKey, KeyRun, IsPrefix, IsMarkChar;
    PrefixHasNoEquals(prefix);
    if m == [] {
      assert s[|m|..] == s && m + RedactPrefixedKey(s, prefix) == RedactPrefixedKey(s, prefix);
    } else {
      assert m[0] in m && forall c <- m[1..] :: c in m;
      MarkCharsPlain(m[0]);
      PrefixCons(m, s);
      KeysCopyMark(m[1..], s[1..], prefix);
      PrefixStartsLower(prefix, s);
      HeadTail(m);
      assert s[1..][|m| - 1..] == s[|m|..];
      Assoc([m[0]], m[1..], RedactPrefixedKey(s[|m|..], prefix));
    }
  }

  lemma KeysCopyFirst(s: string, prefix: string)
    requires IsPrefix(prefix) && (s != [] ==> EndsValueOrToken(s[0]))
    ensures prefix != []
    ensures var t := RedactPrefixedKey(s, prefix); (t == [] <==> s == []) && (s != [] ==> t[0] == s[0])
  {
    hide IsPrefix;
    PrefixHasNoEquals(prefix);
    if s != [] {
      PrefixStartsLower(prefix, s);
    }
  }

  lemma KeysKeepStruck(value: string, prefix: string, k: nat)
    requires IsPrefix(prefix) && k <= |MARK| && IsStruck(value, k)
    ensures prefix != [] && IsStruck(RedactPrefixedKey(value, prefix), k)
  {
    hide Struck, EndsValueOrToken, RedactPrefixedKey, IsPrefix;
    var rest := value[|Struck(k)|..];
    StruckChars(k);
    KeysCopyMark(Struck(k), value, prefix);
    KeysCopyFirst(rest, prefix);
    StruckParts(k, RedactPrefixedKey(rest, prefix));
  }

  lemma KeysKeepCovered(value: string, prefix: string, slack: nat)
    requires IsPrefix(prefix) && Covered(value, UpTo(slack))
    ensures prefix != [] && Covered(RedactPrefixedKey(value, prefix), UpTo(slack))
  {
    hide IsStruck, RedactPrefixedKey, IsPrefix;
    var k: nat :| k <= slack && k <= |MARK| && IsStruck(value, k);
    KeysKeepStruck(value, prefix, k);
  }

  lemma KeysKeepFirst(s: string, t: string, prefix: string, name: string, slack: nat)
    requires IsPrefix(prefix) && IsName(name) && t == RedactPrefixedKey(s, prefix) && name + "=" <= t
    ensures name + "=" <= s && (Covered(s[|name| + 1..], UpTo(slack)) ==> Covered(t[|name| + 1..], UpTo(slack)))
  {
    hide RedactPrefixedKey, Cuts, Covered, IsPrefix;
    PrefixHasNoEquals(prefix);
    NameHasNoBracket(name);
    PrefixedKeyCuts(s, prefix, false);
    CutsMirror(s, t, false, name + "=");
    var x := s[|name| + 1..];
    assert s == name + ("=" + x);
    KeysSplit(name, x, prefix);
    var kept, y := RedactPrefixedKey(name, prefix), RedactPrefixedKey(x, prefix);
    assert t == kept + "=" + y;
    FirstEquals(name, kept, t);
    assert t[|name| + 1..] == y;
    if Covered(x, UpTo(slack)) {
      KeysKeepCovered(x, prefix, slack);
    }
  }

  lemma KeyBlockOpensNothing(prefix: string, key: string)
    requires IsPrefix(prefix) && forall c <- key :: IsKeyChar(c)
    ensures forall c <- prefix + ShortKey(key) :: !OpensParam(c)
  {
    PrefixIsKeyChars(prefix);
    assert forall c <- MARK :: !OpensParam(c);
    assert forall c: char | IsKeyChar(c) :: !OpensParam(c);
  }

  /** A key pass leaves what hides the values as it is. */
  lemma {:induction false} KeysKeepValues(s: string, opens: bool, prefix: string, name: string, slack: nat)
    requires IsPrefix(prefix) && IsName(name) && ValuesCoveredFrom(s, opens, name, UpTo(slack))
    ensures ValuesCoveredFrom(RedactPrefixedKey(s, prefix), opens, name, UpTo(slack))
    decreases |s|
  {
    hide Covered, IsName, IsPrefix, ShortKey, KeyRun, IsKeyChar;
    PrefixHasNoEquals(prefix);
    var t := RedactPrefixedKey(s, prefix);
    if s == [] {
    } else if prefix <= s {
      var rest := s[|prefix|..];
      var n := KeyRun(rest);
      assert rest[n..] == s[|prefix| + n..];
      ValuesCoveredSuffix(s, opens, name, UpTo(slack), |prefix| + n);
      KeysKeepValues(rest[n..], false, prefix, name, slack);
      KeyBlockOpensNothing(prefix, rest[..n]);
      ValuesCoveredBehind(prefix + ShortKey(rest[..n]), RedactPrefixedKey(rest[n..], prefix), name, UpTo(slack));
      KeysKeepStart(s, t, opens, prefix, name, slack);
    } else {
      KeysKeepValues(s[1..], OpensParam(s[0]), prefix, name, slack);
      ConsParts(s[0], RedactPrefixedKey(s[1..], prefix));
      if opens && name + "=" <= t {
        KeysKeepFirst(s, t, prefix, name, slack);
      }
    }
  }

  lemma KeysKeepStart(s: string, t: string, opens: bool, prefix: string, name: string, slack: nat)
    requires IsPrefix(prefix) && IsName(name) && t == RedactPrefixedKey(s, prefix)
    requires ValuesCoveredFrom(s, opens, name, UpTo(slack)) && ValuesCoveredFrom(t, false, name, UpTo(slack))
    ensures ValuesCoveredFrom(t, opens, name, UpTo(slack))
  {
    hide Covered, IsName, IsPrefix, RedactPrefixedKey;
    if opens && name + "=" <= t {
      KeysKeepFirst(s, t, prefix, name, slack);
    }
  }

  lemma {:induction false} AllKeysKeepValues(s: string, prefixes: seq<string>, name: string, slack: nat)
    requires ArePrefixes(prefixes) && IsName(name) && ValuesCoveredFrom(s, true, name, UpTo(slack))
    ensures ValuesCoveredFrom(RedactPrefixedKeys(s, prefixes), true, name, UpTo(slack))
    decreases |prefixes|
  {
    hide ValuesCoveredFrom;
    if prefixes != [] {
      assert prefixes[0] in prefixes;
      KeysKeepValues(s, true, prefixes[0], name, slack);
      AllKeysKeepValues(RedactPrefixedKey(s, prefixes[0]), prefixes[1..], name, slack);
    }
  }

  // ---------- All passes ----------

  lemma SlackOfNames()
    ensures Slack("key") == 3 && Slack("token") == 1
    ensures forall n <- PARAM_NAMES | n != "key" && n != "token" :: Slack(n) == 0
  {
    assert |"key"| == 3 && |"token"| == 5;
  }

  /**
   For every ASCII string, in the output of all passes: every value of a listed parameter is the
   mark, before which a bearer token's cut may have left at most `Slack` characters of it (three for
   "key", one for "token", none for the other names), and after which the value or its token ends;
   and every listed key prefix is followed by at most eight key characters.
   */
  lemma SensitiveRedacted(s: string)
    requires Ascii(s)
    ensures forall n <- PARAM_NAMES :: ValuesCovered(RedactSensitive(s), n, UpTo(Slack(n)))
    ensures forall n <- PARAM_NAMES | n != "key" && n != "token" :: ValuesCovered(RedactSensitive(s), n, UpTo(0))
    ensures Slack("key") == 3 && Slack("token") == 1
    ensures forall q <- KEY_PREFIXES :: KeysShort(RedactSensitive(s), q)
  {
    hide ValuesCovered, ValuesCoveredFrom, RedactQueries, RedactPrefixedKeys;
    hide KeysShort, IsName, IsPrefix, Slack;
    var queries := RedactQueries(s, PARAM_NAMES);
    var bearer := RedactBearer(queries);
    ParamNamesAreNames();
    KeyPrefixesArePrefixes();
    QueriesHide(s, PARAM_NAMES);
    KeyPatternsRedacted(bearer);
    forall n <- PARAM_NAMES
      ensures ValuesCovered(RedactSensitive(s), n, UpTo(Slack(n)))
    {
      BearerKeepsValues(queries, true, n);
      AllKeysKeepValues(bearer, KEY_PREFIXES, n, Slack(n));
      ValuesCoveredAtStart(RedactSensitive(s), n, UpTo(Slack(n)));
    }
    SlackOfNames();
  }
}
