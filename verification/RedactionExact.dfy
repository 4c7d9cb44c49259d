/**
 Exactly when every value of a listed parameter is, in the output of all passes, followed by the
 literal mark: when no bearer token is cut inside one.
 */
module RedactionExact {
  import opened Sequences
  import opened Redaction
  import opened RedactionProofs
  import opened RedactionValues
  import opened RedactionBearer
  import opened RedactionMarks

  // ---------- The bearer pass ----------

  /** A parameter opens in `kept`, which also holds its name, the '=' and something of its value. */
  predicate HoldsValue(kept: string, opens: bool, name: string) {
    || (opens && name + "=" <= kept && |kept| > |name| + 1)
    || (kept != [] && HoldsValue(kept[1..], OpensParam(kept[0]), name))
  }

  /** No bearer token that is cut holds a value of the parameter among the eight characters it keeps. */
  predicate SparesMarks(s: string, name: string)
    decreases |s|
  {
    if s == [] then true
    else if StartsBearer(s) then
      var rest := s[|BEARER|..];
      var n := TokenLength(rest);
      (n > 8 ==> !HoldsValue(rest[..8], false, name)) && SparesMarks(rest[n..], name)
    else SparesMarks(s[1..], name)
  }

  /** After some characters of a mark, the mark is not where it should be. */
  lemma StruckIsNoMark(k: nat, rest: string)
    requires k <= |MARK|
    ensures k < |MARK| ==> (MARK <= MARK[..k] + (MARK + rest) <==> k == 0)
  {
    var t := MARK[..k] + (MARK + rest);
    if k == 0 {
      assert t == MARK + rest;
    } else if k < |MARK| {
      assert t[k] == MARK[0] == '[';
      assert forall i | 0 < i < |MARK| :: MARK[i] != '[';
    }
  }

  lemma StruckExact(k: nat, rest: string)
    requires k < |MARK| && (rest == [] || EndsValueOrToken(rest[0]))
    ensures Covered(Struck(k) + rest, UpTo(0)) <==> k == 0
  {
    hide EndsValueOrToken, IsStruck;
    Assoc(MARK[..k], MARK, rest);
    StruckIsNoMark(k, rest);
    StruckParts(0, rest);
    StruckNone(Struck(k) + rest);
    assert Struck(0) == MARK;
  }

  lemma StruckNone(value: string)
    ensures Covered(value, UpTo(0)) <==> IsStruck(value, 0)
    ensures IsStruck(value, 0) ==> MARK <= value
  {
    assert Struck(0) == MARK;
  }

  /** One token that is cut, the start `u` of what is kept having been passed over up to here. */
  lemma {:induction false} CutTokenExactly(u: string, v: string, tail: string, tail2: string, opens: bool, name: string)
    requires IsName(name) && v != [] && (forall c <- u + v :: !EndsToken(c)) && |u| <= (if opens then 7 else 8)
    requires (tail == [] || EndsToken(tail[0])) && (tail2 == [] || EndsToken(tail2[0]))
    requires ValuesCoveredFrom(u + (v + tail), opens, name, Whole)
    ensures ValuesCoveredFrom(u + (MARK + tail2), opens, name, UpTo(0))
            <==> ValuesCoveredFrom(tail2, false, name, UpTo(0)) && !HoldsValue(u, opens, name)
    decreases |u|
  {
    hide Covered, IsName;
    var put := MARK + tail2;
    if u == [] {
      assert u + put == put;
      TokenEndOpensNothing(v, tail2, name);
      BehindMark(tail2, name, UpTo(0));
      NoNameNoMatter(put, opens, name, UpTo(0));
    } else {
      HeadTail(u);
      Assoc([u[0]], u[1..], v + tail);
      Assoc([u[0]], u[1..], put);
      Assoc([u[0]], u[1..], v);
      ConsParts(u[0], u[1..] + (v + tail));
      ConsParts(u[0], u[1..] + put);
      assert forall c <- u[1..] + v :: c in u + v;
      CutTokenExactly(u[1..], v, tail, tail2, OpensParam(u[0]), name);
      if opens {
        CoveredBefore(u + (v + tail), name);
        CutTokenFirst(u, v, tail, tail2, name);
      }
    }
  }

  lemma CoveredBefore(s: string, name: string)
    ensures name + "=" <= s ==> (Covered(s[|name| + 1..], Whole) <==> IsWhole(s[|name| + 1..]))
  {
  }

  lemma CutTokenFirst(u: string, v: string, tail: string, tail2: string, name: string)
    requires IsName(name) && v != [] && 0 < |u| <= 7
    requires (tail == [] || EndsToken(tail[0])) && (tail2 == [] || EndsToken(tail2[0]))
    requires name + "=" <= u + (v + tail) ==> IsWhole((u + (v + tail))[|name| + 1..])
    ensures name + "=" <= u + (MARK + tail2) <==> name + "=" <= u
    ensures name + "=" <= u ==> (Covered((u + (MARK + tail2))[|name| + 1..], UpTo(0)) <==> |u| == |name| + 1)
  {
    hide IsName, Covered;
    var put := MARK + tail2;
    var s, t, len := u + (v + tail), u + put, |name| + 1;
    if name + "=" <= t {
      NameInsideToken(u, v, tail2, name);
      assert name + "=" == t[..len] == u[..len];
    }
    if name + "=" <= u {
      PrefixGrows(name + "=", u, put);
      PrefixGrows(name + "=", u, v + tail);
      assert s[len..] == u[len..] + (v + tail) && t[len..] == u[len..] + put;
      MarkInsideToken(u[len..], v, tail);
      var k := |u| - len;
      assert MARK[..k] == u[len..];
      Assoc(MARK[..k], MARK, tail2);
      assert t[len..] == Struck(k) + tail2;
      StruckExact(k, tail2);
    }
  }

  /** A token that is not cut is too short for a mark, so no value opens in it. */
  lemma {:induction false} ShortTokenExactly(u: string, tail: string, tail2: string, opens: bool, name: string)
    requires IsName(name) && (forall c <- u :: !EndsToken(c)) && |u| <= 8
    requires (tail == [] || EndsToken(tail[0])) && (tail2 == [] || EndsToken(tail2[0]))
    requires ValuesCoveredFrom(u + tail, opens, name, Whole)
    ensures ValuesCoveredFrom(u + tail2, opens, name, UpTo(0)) <==> ValuesCoveredFrom(tail2, false, name, UpTo(0))
    decreases |u|
  {
    hide Covered, IsName;
    TokenEndOpensNothing([], tail2, name);
    assert [] + tail2 == tail2;
    if u == [] {
      assert u + tail2 == tail2;
      NoNameNoMatter(tail2, opens, name, UpTo(0));
    } else {
      HeadTail(u);
      Assoc([u[0]], u[1..], tail);
      Assoc([u[0]], u[1..], tail2);
      ConsParts(u[0], u[1..] + tail);
      ConsParts(u[0], u[1..] + tail2);
      ShortTokenExactly(u[1..], tail, tail2, OpensParam(u[0]), name);
      if opens {
        CoveredBefore(u + tail, name);
        ShortTokenFirst(u, tail, tail2, name);
      }
    }
  }

  lemma ShortTokenFirst(u: string, tail: string, tail2: string, name: string)
    requires IsName(name) && u != [] && |u| <= 8
    requires (tail == [] || EndsToken(tail[0])) && (tail2 == [] || EndsToken(tail2[0]))
    requires name + "=" <= u + tail ==> IsWhole((u + tail)[|name| + 1..])
    ensures !(name + "=" <= u + tail2)
  {
    hide IsName, EndsToken;
    var s, len := u + tail, |name| + 1;
    assert [] + tail2 == tail2 && [] + tail == tail;
    if name + "=" <= u + tail2 {
      NameInsideToken(u, [], tail2, name);
      assert name + "=" == (u + tail2)[..len] == u[..len];
      PrefixGrows(name + "=", u, tail);
      assert s[len..] == u[len..] + ([] + tail);
      MarkInsideToken(u[len..], [], tail);
    }
  }

  lemma {:induction false} BearerExactly(s: string, opens: bool, name: string)
    requires IsName(name) && ValuesCoveredFrom(s, opens, name, Whole)
    ensures ValuesCoveredFrom(RedactBearer(s), opens, name, UpTo(0)) <==> SparesMarks(s, name)
    decreases |s|
  {
    hide Covered, IsName, StartsBearer, ShortKey, EndsToken, HoldsValue;
    if s == [] {
    } else if StartsBearer(s) && |s| >= |BEARER| {
      var rest := s[|BEARER|..];
      var n := TokenLength(rest);
      ValuesCoveredSuffix(s, opens, name, Whole, |BEARER|);
      ValuesCoveredSuffix(rest, false, name, Whole, n);
      BearerExactly(rest[n..], false, name);
      BearerBlockExactly(s, opens, name);
    } else {
      StartsBearerLong(s);
      BearerExactly(s[1..], OpensParam(s[0]), name);
      var t := RedactBearer(s);
      ConsParts(s[0], RedactBearer(s[1..]));
      if opens && name + "=" <= t {
        BearerKeepsFirst(s, t, name);
        CoveredWhole(s[|name| + 1..]);
        WholeIsStruck(t[|name| + 1..], 0);
      }
    }
  }

  lemma BearerBlockExactly(s: string, opens: bool, name: string)
    requires IsName(name) && StartsBearer(s) && |s| >= |BEARER| && ValuesCoveredFrom(s[|BEARER|..], false, name, Whole)
    ensures var rest := s[|BEARER|..]; var n := TokenLength(rest);
            ValuesCoveredFrom(RedactBearer(s), opens, name, UpTo(0))
            <==> ValuesCoveredFrom(RedactBearer(rest[n..]), false, name, UpTo(0))
                 && (n > 8 ==> !HoldsValue(rest[..8], false, name))
  {
    hide Covered, IsName, StartsBearer, EndsToken, RedactBearer, ValuesCoveredFrom, ShortKey, HoldsValue;
    var head, rest := s[..|BEARER|], s[|BEARER|..];
    var n := TokenLength(rest);
    var tail := RedactBearer(rest[n..]);
    BearerStep(s);
    BearerTailStart(rest);
    TokenStops(rest);
    if n > 8 {
      var u, v := rest[..8], rest[8..n];
      assert rest == u + (v + rest[n..]) && u + v == rest[..n];
      CutTokenExactly(u, v, rest[n..], tail, false, name);
      ShortKeyParts(rest[..n], u, v, tail);
    } else {
      assert rest == rest[..n] + rest[n..];
      ShortTokenExactly(rest[..n], rest[n..], tail, false, name);
      ShortKeyParts(rest[..n], rest[..n], [], tail);
      assert [] + tail == tail;
    }
    var t := RedactBearer(s);
    Assoc(head, ShortKey(rest[..n]), tail);
    BearerHeadOpensNothing(s);
    ValuesCoveredBehind(head, ShortKey(rest[..n]) + tail, name, UpTo(0));
    if name + "=" <= t {
      BearerKeepsFirst(s, t, name);
      assert s[0..] == s;
      NoBearerInName(s, name, 0);
    }
    NoNameNoMatter(t, opens, name, UpTo(0));
  }

  // ---------- The key passes ----------

  /** A text that agrees with a key prefix and is no shorter has its dash. */
  lemma DashInside(prefix: string, w: string, s: string)
    requires IsPrefix(prefix) && prefix <= s && w <= s && |prefix| <= |w|
    ensures '-' in w
  {
    assert w[|prefix| - 1] == s[|prefix| - 1] == prefix[|prefix| - 1];
  }

  lemma {:induction false} NoDashNoKey(u: string, prefix: string)
    requires IsPrefix(prefix) && '-' !in u
    ensures RedactPrefixedKey(u, prefix) == u
    decreases |u|
  {
    if u != [] {
      if prefix <= u {
        DashInside(prefix, u, u);
      } else {
        NoDashNoKey(u[1..], prefix);
        HeadTail(u);
      }
    }
  }

  /** A name without a dash, and whether the whole mark follows it, are as before. */
  lemma KeysMarkFirst(s: string, t: string, prefix: string, name: string, slack: nat)
    requires IsPrefix(prefix) && IsName(name) && '-' !in name && t == RedactPrefixedKey(s, prefix)
    requires name + "=" <= s && Covered(s[|name| + 1..], UpTo(slack)) && slack < |MARK|
    ensures name + "=" <= t && (Covered(t[|name| + 1..], UpTo(0)) <==> Covered(s[|name| + 1..], UpTo(0)))
  {
    hide RedactPrefixedKey, IsPrefix, IsStruck;
    PrefixHasNoEquals(prefix);
    NameHasNoBracket(name);
    var x := s[|name| + 1..];
    assert s == name + ("=" + x);
    KeysSplit(name, x, prefix);
    NoDashNoKey(name, prefix);
    var y := RedactPrefixedKey(x, prefix);
    Assoc(name, "=", y);
    assert t == name + "=" + y && t[|name| + 1..] == y;
    var k: nat :| k <= slack && k <= |MARK| && IsStruck(x, k);
    KeysKeepStruck(x, prefix, k);
    StruckWhere(k, x);
    StruckWhere(k, y);
  }

  lemma StruckWhere(k: nat, x: string)
    requires k < |MARK| && IsStruck(x, k)
    ensures Covered(x, UpTo(0)) <==> k == 0
  {
    hide Covered, EndsValueOrToken;
    var rest := x[|Struck(k)|..];
    assert x == Struck(k) + rest;
    StruckExact(k, rest);
  }

  lemma EqualsInPrefix(prefix: string, name: string, s: string)
    requires prefix <= s && name + "=" <= s && |name| < |prefix|
    ensures '=' in prefix
  {
    assert prefix[|name|] == s[|name|] == (name + "=")[|name|];
  }

  lemma NoNameAtPrefix(s: string, prefix: string, name: string)
    requires IsPrefix(prefix) && '-' !in name && prefix <= s
    ensures !(name + "=" <= s)
  {
    PrefixHasNoEquals(prefix);
    var w := name + "=";
    assert '-' !in w;
    if w <= s {
      if |prefix| <= |w| {
        DashInside(prefix, w, s);
      } else {
        EqualsInPrefix(prefix, name, s);
      }
    }
  }

  /** For a name without a dash a key pass neither puts marks in place nor takes them away. */
  lemma {:induction false} KeysExactly(s: string, opens: bool, prefix: string, name: string, slack: nat)
    requires IsPrefix(prefix) && IsName(name) && '-' !in name && slack < |MARK|
    requires ValuesCoveredFrom(s, opens, name, UpTo(slack))
    ensures ValuesCoveredFrom(RedactPrefixedKey(s, prefix), opens, name, UpTo(0))
            <==> ValuesCoveredFrom(s, opens, name, UpTo(0))
    decreases |s|
  {
    hide Covered, IsName, IsPrefix, ShortKey, KeyRun;
    PrefixHasNoEquals(prefix);
    var t := RedactPrefixedKey(s, prefix);
    if s == [] {
    } else if prefix <= s {
      var rest := s[|prefix|..];
      var n := KeyRun(rest);
      assert rest[n..] == s[|prefix| + n..];
      ValuesCoveredSuffix(s, opens, name, UpTo(slack), |prefix| + n);
      KeysExactly(rest[n..], false, prefix, name, slack);
      KeyBlockBefore(s, opens, prefix, name);
      KeyBlockAfter(s, t, opens, prefix, name);
    } else {
      KeysExactly(s[1..], OpensParam(s[0]), prefix, name, slack);
      ConsParts(s[0], RedactPrefixedKey(s[1..], prefix));
      if opens {
        if name + "=" <= s {
          KeysMarkFirst(s, t, prefix, name, slack);
        } else if name + "=" <= t {
          KeysKeepFirst(s, t, prefix, name, slack);
        }
      }
    }
  }

  lemma KeyBlockBefore(s: string, opens: bool, prefix: string, name: string)
    requires IsPrefix(prefix) && IsName(name) && '-' !in name && prefix <= s
    ensures var rest := s[|prefix|..];
            ValuesCoveredFrom(s, opens, name, UpTo(0))
            <==> ValuesCoveredFrom(rest[KeyRun(rest)..], false, name, UpTo(0))
  {
    hide Covered, IsName, IsPrefix, ValuesCoveredFrom, IsKeyChar;
    var rest := s[|prefix|..];
    var n := KeyRun(rest);
    NoNameAtPrefix(s, prefix, name);
    NoNameNoMatter(s, opens, name, UpTo(0));
    KeyRunOpensNothing(prefix, rest[..n]);
    ValuesCoveredBehind(prefix + rest[..n], rest[n..], name, UpTo(0));
    assert s == prefix + rest[..n] + rest[n..];
  }

  lemma KeyBlockAfter(s: string, t: string, opens: bool, prefix: string, name: string)
    requires IsPrefix(prefix) && IsName(name) && '-' !in name && prefix <= s
    requires prefix != [] && t == RedactPrefixedKey(s, prefix)
    ensures var rest := s[|prefix|..];
            ValuesCoveredFrom(t, opens, name, UpTo(0))
            <==> ValuesCoveredFrom(RedactPrefixedKey(rest[KeyRun(rest)..], prefix), false, name, UpTo(0))
  {
    hide Covered, IsName, IsPrefix, ShortKey, ValuesCoveredFrom, IsKeyChar;
    var rest := s[|prefix|..];
    var n := KeyRun(rest);
    NoNameAtPrefix(s, prefix, name);
    if name + "=" <= t {
      KeysKeepFirst(s, t, prefix, name, 0);
    }
    NoNameNoMatter(t, opens, name, UpTo(0));
    KeyBlockOpensNothing(prefix, rest[..n]);
    ValuesCoveredBehind(prefix + ShortKey(rest[..n]), RedactPrefixedKey(rest[n..], prefix), name, UpTo(0));
  }

  lemma KeyRunOpensNothing(prefix: string, key: string)
    requires IsPrefix(prefix) && forall c <- key :: IsKeyChar(c)
    ensures forall c <- prefix + key :: !OpensParam(c)
  {
    PrefixIsKeyChars(prefix);
    assert forall c: char | IsKeyChar(c) :: !OpensParam(c);
  }

  lemma {:induction false} AllKeysExactly(s: string, prefixes: seq<string>, name: string, slack: nat)
    requires ArePrefixes(prefixes) && IsName(name) && '-' !in name && slack < |MARK|
    requires ValuesCoveredFrom(s, true, name, UpTo(slack))
    ensures ValuesCoveredFrom(RedactPrefixedKeys(s, prefixes), true, name, UpTo(0))
            <==> ValuesCoveredFrom(s, true, name, UpTo(0))
    decreases |prefixes|
  {
    hide ValuesCoveredFrom, IsName;
    if prefixes != [] {
      assert prefixes[0] in prefixes && forall p <- prefixes[1..] :: p in prefixes;
      KeysExactly(s, true, prefixes[0], name, slack);
      KeysKeepValues(s, true, prefixes[0], name, slack);
      AllKeysExactly(RedactPrefixedKey(s, prefixes[0]), prefixes[1..], name, slack);
    }
  }

  // ---------- All passes ----------

  /**
   For every ASCII string and listed name: in the output of all passes each value of the name is the
   literal mark, if and only if the bearer pass, which runs on the output of the query passes, cuts no
   token inside a value of that name.
   */
  lemma SensitiveMarkedExactly(s: string, name: string)
    requires Ascii(s) && name in PARAM_NAMES
    ensures ValuesCovered(RedactSensitive(s), name, UpTo(0)) <==> SparesMarks(RedactQueries(s, PARAM_NAMES), name)
  {
    hide ValuesCovered, ValuesCoveredFrom, RedactQueries, RedactPrefixedKeys, IsName, IsPrefix, Slack, SparesMarks;
    var queries := RedactQueries(s, PARAM_NAMES);
    var bearer, slack := RedactBearer(queries), Slack(name);
    ParamNamesAreNames();
    KeyPrefixesArePrefixes();
    SlackIsShort(name);
    QueriesHide(s, PARAM_NAMES);
    BearerExactly(queries, true, name);
    BearerKeepsValues(queries, true, name);
    ValuesCoveredAtStart(RedactSensitive(s), name, UpTo(0));
    if '-' in name {
      DashMeansNoSlack(name);
      AllKeysKeepValues(bearer, KEY_PREFIXES, name, 0);
    } else {
      AllKeysExactly(bearer, KEY_PREFIXES, name, slack);
    }
  }

  lemma SlackIsShort(name: string)
    ensures Slack(name) < |MARK|
  {
  }

  lemma DashMeansNoSlack(name: string)
    requires name in PARAM_NAMES && '-' in name
    ensures Slack(name) == 0
  {
    assert "api_key"[3] == '_';
    assert '-' !in "api_key" && '-' !in "key" && '-' !in "token" && '-' !in "secret" && '-' !in "password";
  }
}
