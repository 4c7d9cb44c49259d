/**
 Bearer tokens in the output of all passes: the key passes neither cut a token that the bearer pass
 stepped over nor lengthen one that it cut.
 */
module RedactionTokens {
  import opened Sequences
  import opened Text
  import opened Redaction
  import opened RedactionProofs
  import opened RedactionBearer
  import opened RedactionMarks
  import opened RedactionExact

  // ---------- Key passes and blanks ----------

  lemma EndsIsNoKeyChar(c: char)
    ensures EndsToken(c) ==> !IsKeyChar(c)
  {
  }

  lemma BlankIsNoKeyChar()
    ensures !IsKeyChar(' ') && !IsKeyChar('[') && EndsToken(' ')
  {
  }

  /** A key pass works separately on both sides of a blank. */
  lemma KeysAtBlank(a: string, y: string, prefix: string)
    requires IsPrefix(prefix)
    ensures prefix != []
    ensures RedactPrefixedKey(a + ([' '] + y), prefix)
            == RedactPrefixedKey(a, prefix) + ([' '] + RedactPrefixedKey(y, prefix))
  {
    hide RedactPrefixedKey, IsPrefix, IsKeyChar;
    BlankIsNoKeyChar();
    ConsParts(' ', y);
    KeysApart(a, [' '] + y, prefix);
    KeysSkipOne(' ', y, prefix);
  }

  /** A pass leaves a text with no room for a long key alone. */
  lemma ShortTextStays(s: string, prefix: string)
    requires IsPrefix(prefix) && |s| <= |prefix| + 8
    ensures prefix != [] && RedactPrefixedKey(s, prefix) == s
  {
    hide RedactPrefixedKey;
    PrefixHasNoEquals(prefix);
    forall i | 0 <= i <= |s| && prefix <= s[i..]
      ensures KeyRun(s[i + |prefix|..]) <= 8
    {
    }
    PrefixedKeyExact(s, prefix);
  }

  lemma LongBlock(prefix: string, key: string, rest: string, tail: string)
    requires tail == rest || |tail| >= |prefix| + 8 + |MARK|
    ensures var t := prefix + ShortKey(key) + tail; t == prefix + key + rest || |t| >= |prefix| + 8 + |MARK|
  {
  }

  /** What a cut leaves is too long for a short token. */
  lemma {:induction false} KeysLeaveLong(s: string, prefix: string)
    requires IsPrefix(prefix)
    ensures prefix != []
    ensures RedactPrefixedKey(s, prefix) == s || |RedactPrefixedKey(s, prefix)| >= |prefix| + 8 + |MARK|
    decreases |s|
  {
    hide IsPrefix, KeyRun, ShortKey;
    PrefixHasNoEquals(prefix);
    if s == [] {
    } else if prefix <= s {
      var rest := s[|prefix|..];
      var n := KeyRun(rest);
      KeysLeaveLong(rest[n..], prefix);
      assert s == prefix + rest[..n] + rest[n..];
      LongBlock(prefix, rest[..n], rest[n..], RedactPrefixedKey(rest[n..], prefix));
    } else {
      KeysLeaveLong(s[1..], prefix);
      HeadTail(s);
    }
  }

  lemma ShortTokenStays(token: string, prefix: string)
    requires IsPrefix(prefix) && IsShort(token)
    ensures prefix != [] && RedactPrefixedKey(token, prefix) == token
  {
    hide RedactPrefixedKey, IsPrefix, IsKeyChar;
    PrefixHasNoEquals(prefix);
    if |token| <= 8 {
      ShortTextStays(token, prefix);
    } else {
      var a := token[..8];
      assert token == a + MARK && MARK[0] == '[';
      BlankIsNoKeyChar();
      KeysApart(a, MARK, prefix);
      ShortTextStays(a, prefix);
      assert '-' !in MARK;
      NoDashNoKey(MARK, prefix);
    }
  }

  lemma LongTokenStaysLong(token: string, prefix: string)
    requires IsPrefix(prefix) && !IsShort(token)
    ensures prefix != [] && !IsShort(RedactPrefixedKey(token, prefix))
  {
    hide RedactPrefixedKey;
    KeysLeaveLong(token, prefix);
  }

  /** The first token of the result is the result of the first token. */
  lemma TokenThroughKeys(y: string, prefix: string)
    requires IsPrefix(prefix)
    ensures prefix != [] && TokenOf(RedactPrefixedKey(y, prefix)) == RedactPrefixedKey(TokenOf(y), prefix)
  {
    hide RedactPrefixedKey, IsPrefix, IsKeyChar, EndsToken, TokenLength;
    PrefixHasNoEquals(prefix);
    TokenStops(y);
    var n := TokenLength(y);
    var token, rest := y[..n], y[n..];
    assert y == token + rest;
    if rest != [] {
      assert rest[0] == y[n];
      EndsIsNoKeyChar(rest[0]);
      HeadTail(rest);
      KeysSkipOne(rest[0], rest[1..], prefix);
    } else {
      KeysOfNothing(prefix);
    }
    KeysApart(token, rest, prefix);
    var kept, tail := RedactPrefixedKey(token, prefix), RedactPrefixedKey(rest, prefix);
    KeysKeepTokens(token, prefix);
    TokenLengthOf(kept, tail);
    assert (kept + tail)[..|kept|] == kept;
  }

  lemma KeysOfNothing(prefix: string)
    requires prefix != []
    ensures RedactPrefixedKey([], prefix) == []
  {
  }

  lemma KeysKeepTokens(token: string, prefix: string)
    requires IsPrefix(prefix) && forall c <- token :: !EndsToken(c)
    ensures prefix != [] && forall c <- RedactPrefixedKey(token, prefix) :: !EndsToken(c)
  {
    hide RedactPrefixedKey, IsPrefix, EndsToken, Cuts;
    PrefixHasNoEquals(prefix);
    var t := RedactPrefixedKey(token, prefix);
    PrefixedKeyCuts(token, prefix, false);
    forall c <- t
      ensures !EndsToken(c)
    {
      if EndsToken(c) {
        EndsNotInMark(c);
        CutsKeepOut(token, t, false, c);
      }
    }
  }

  lemma EndsNotInMark(c: char)
    ensures EndsToken(c) ==> c !in MARK
  {
  }

  // ---------- Short tokens stay short ----------

  /** The text on both sides of a blank of the result. */
  lemma {:induction false} SplitAtBlank(s: string, prefix: string, m: nat) returns (a: string, y: string)
    requires IsPrefix(prefix) && prefix != [] && m < |RedactPrefixedKey(s, prefix)|
    requires RedactPrefixedKey(s, prefix)[m] == ' '
    ensures s == a + ([' '] + y)
    ensures RedactPrefixedKey(a, prefix) == RedactPrefixedKey(s, prefix)[..m]
    ensures RedactPrefixedKey(y, prefix) == RedactPrefixedKey(s, prefix)[m + 1..]
    decreases |s|
  {
    hide RedactPrefixedKey, IsPrefix, Cuts;
    var t := RedactPrefixedKey(s, prefix);
    PrefixedKeyCuts(s, prefix, false);
    BlankInText(s, t, m);
    var i := FirstBlank(s);
    var front, back := s[..i], s[i + 1..];
    assert s == front + ([' '] + back);
    KeysAtBlank(front, back, prefix);
    var k := RedactPrefixedKey(front, prefix);
    PrefixedKeyCuts(front, prefix, false);
    assert ' ' !in MARK;
    CutsKeepOut(front, k, false, ' ');
    var rest := RedactPrefixedKey(back, prefix);
    assert t == k + ([' '] + rest);
    if m == |k| {
      a, y := front, back;
      assert t[..m] == k && t[m + 1..] == rest;
    } else {
      InFront(k, [' '] + rest, m);
      assert t[m] == rest[m - |k| - 1];
      var a2, y2 := SplitAtBlank(back, prefix, m - |k| - 1);
      a, y := front + ([' '] + a2), y2;
      KeysAtBlank(front, a2, prefix);
      assert s == a + ([' '] + y);
      assert t[..m] == k + ([' '] + rest[..m - |k| - 1]) && t[m + 1..] == rest[m - |k|..];
    }
  }

  lemma InFront(k: string, x: string, m: nat)
    ensures m < |k| ==> (k + x)[m] in k
  {
  }

  lemma BlankInText(s: string, t: string, m: nat)
    requires Cuts(s, t, false) && m < |t| && t[m] == ' '
    ensures ' ' in s
  {
    hide Cuts;
    if ' ' !in s {
      assert ' ' !in MARK;
      CutsKeepOut(s, t, false, ' ');
    }
  }

  lemma {:induction false} FirstBlank(s: string) returns (i: nat)
    requires ' ' in s
    ensures i < |s| && s[i] == ' ' && ' ' !in s[..i]
    decreases |s|
  {
    if s[0] == ' ' {
      i := 0;
    } else {
      assert forall c <- s :: c == s[0] || c in s[1..];
      i := FirstBlank(s[1..]);
      assert s[..i + 1] == [s[0]] + s[1..][..i];
      i := i + 1;
    }
  }

  lemma {:induction false} KeysKeepShort(s: string, prefix: string)
    requires IsPrefix(prefix) && TokensShort(s)
    ensures prefix != [] && TokensShort(RedactPrefixedKey(s, prefix))
  {
    hide RedactPrefixedKey, IsPrefix, StartsBearer, IsShort, TokenOf;
    PrefixHasNoEquals(prefix);
    var t := RedactPrefixedKey(s, prefix);
    forall j | 0 <= j && j + |BEARER| <= |t| && StartsBearer(t[j..])
      ensures IsShort(TokenOf(t[j + |BEARER|..]))
    {
      BearerLetters(t[j..]);
      var a, y := SplitAtBlank(s, prefix, j + 6);
      var w := t[j..j + 6];
      assert RedactPrefixedKey(a, prefix) == t[..j + 6] && t[..j + 6][j..] == w && t[j..][..6] == w;
      WordMirrorsBack(a, t[..j + 6], w, prefix);
      var i := |a| - 6;
      assert s[i..] == w + ([' '] + y) && s[i + |BEARER|..] == y;
      ConsParts(' ', y);
      BearerFrom(w, [' '] + y);
      assert IsShort(TokenOf(y));
      TokenThroughKeys(y, prefix);
      ShortTokenStays(TokenOf(y), prefix);
      assert t[j + |BEARER|..] == t[j + 6 + 1..];
    }
  }

  lemma WordMirrorsBack(a: string, t: string, w: string, prefix: string)
    requires IsPrefix(prefix) && prefix != [] && t == RedactPrefixedKey(a, prefix)
    requires |w| == 6 && |t| >= 6 && t[|t| - 6..] == w && Lower(w) == WORD
    ensures |a| >= 6 && a[|a| - 6..] == w
  {
    hide RedactPrefixedKey, IsPrefix, Cuts;
    WordHasNoBracket(w);
    PrefixedKeyCuts(a, prefix, false);
    CutsMirrorEnd(a, t, false, w);
  }

  lemma WordHasNoBracket(w: string)
    requires Lower(w) == WORD
    ensures '[' !in w && ']' !in w
  {
    assert |w| == 6;
    forall i | 0 <= i < |w|
      ensures w[i] != '[' && w[i] != ']'
    {
      assert LowerChar(w[i]) == Lower(w)[i] == WORD[i] && WORD[i] in WORD;
    }
  }

  // ---------- Long tokens stay long ----------

  /** A "bearer " whose word ends a token of at most eight characters, and a long token behind it. */
  ghost predicate MissedAt(s: string, a: string, u: string, y: string) {
    && s == a + ([' '] + (u + ([' '] + y)))
    && |u| <= 8 && EndsInBearer(u) && !IsShort(TokenOf(y))
  }

  ghost predicate Missed(s: string) { exists a: string, u: string, y: string :: MissedAt(s, a, u, y) }

  lemma MissedIsLong(s: string)
    requires Missed(s)
    ensures !TokensShort(s)
  {
    hide StartsBearer, IsShort, TokenOf;
    var a, u, y :| MissedAt(s, a, u, y);
    var front, w := a + ([' '] + u[..|u| - 6]), u[|u| - 6..];
    var j := |front|;
    assert s == front + (w + ([' '] + y));
    assert s[j..] == w + ([' '] + y) && s[j + |BEARER|..] == y;
    ConsParts(' ', y);
    BearerFrom(w, [' '] + y);
  }

  lemma MissedBehind(m: string, s: string)
    requires Missed(s)
    ensures Missed(m + s)
  {
    hide EndsInBearer, IsShort, TokenOf;
    var a, u, y :| MissedAt(s, a, u, y);
    Assoc(m, a, [' '] + (u + ([' '] + y)));
    assert MissedAt(m + s, m + a, u, y);
  }

  lemma KeysKeepMissed(s: string, prefix: string)
    requires IsPrefix(prefix) && Missed(s)
    ensures prefix != [] && Missed(RedactPrefixedKey(s, prefix))
  {
    hide RedactPrefixedKey, IsPrefix, EndsInBearer, IsShort, TokenOf;
    PrefixHasNoEquals(prefix);
    var a, u, y :| MissedAt(s, a, u, y);
    KeysAtBlank(a, u + ([' '] + y), prefix);
    KeysAtBlank(u, y, prefix);
    ShortTextStays(u, prefix);
    TokenThroughKeys(y, prefix);
    LongTokenStaysLong(TokenOf(y), prefix);
    assert MissedAt(RedactPrefixedKey(s, prefix), RedactPrefixedKey(a, prefix), u, RedactPrefixedKey(y, prefix));
  }

  lemma {:induction false} BearerLeavesMissed(s: string)
    requires !NoneMissed(s)
    ensures Missed(RedactBearer(s))
    decreases |s|
  {
    hide StartsBearer, IsShort, TokenOf, EndsInBearer, ShortKey, Missed;
    if s != [] {
      StartsBearerLong(s);
      if StartsBearer(s) {
        var rest := s[|BEARER|..];
        var n := TokenLength(rest);
        var head, kept, tail := s[..|BEARER|], ShortKey(rest[..n]), RedactBearer(rest[n..]);
        BearerStep(s);
        Assoc(head, kept, tail);
        if NoneMissed(rest[n..]) {
          MissedHere(s, rest, n);
        } else {
          BearerLeavesMissed(rest[n..]);
          MissedBehind(head + kept, tail);
        }
      } else {
        BearerLeavesMissed(s[1..]);
        MissedBehind([s[0]], RedactBearer(s[1..]));
      }
    }
  }

  lemma MissedHere(s: string, rest: string, n: nat)
    requires StartsBearer(s) && |s| >= |BEARER| && rest == s[|BEARER|..] && n == TokenLength(rest)
    requires n <= 8 && EndsInBearer(rest[..n]) && n < |rest| && rest[n] == ' ' && !IsShort(TokenOf(rest[n + 1..]))
    ensures Missed(RedactBearer(s))
  {
    hide StartsBearer, IsShort, TokenOf, EndsInBearer, RedactBearer, Missed;
    BearerStep(s);
    BearerLetters(s);
    var u, x := rest[..n], rest[n..];
    BlankIsNoKeyChar();
    assert x[0] == ' ' && x[1..] == rest[n + 1..];
    TailTokens(x);
    assert ShortKey(u) == u;
    MissedParts(s[..|BEARER|], u, RedactBearer(x));
  }

  lemma MissedParts(head: string, u: string, tail: string)
    requires |head| == 7 && head[6] == ' ' && tail != [] && tail[0] == ' '
    requires |u| <= 8 && EndsInBearer(u) && !IsShort(TokenOf(tail[1..]))
    ensures Missed(head + u + tail)
  {
    hide IsShort, TokenOf, EndsInBearer;
    HeadTail(tail);
    var a, y := head[..6], tail[1..];
    assert head == a + [' '];
    assert head + u + tail == a + ([' '] + (u + ([' '] + y)));
    assert MissedAt(head + u + tail, a, u, y);
  }

  // ---------- All passes ----------

  lemma {:induction false} AllKeysKeepShort(s: string, prefixes: seq<string>)
    requires ArePrefixes(prefixes) && TokensShort(s)
    ensures TokensShort(RedactPrefixedKeys(s, prefixes))
    decreases |prefixes|
  {
    hide TokensShort;
    if prefixes != [] {
      assert prefixes[0] in prefixes;
      KeysKeepShort(s, prefixes[0]);
      AllKeysKeepShort(RedactPrefixedKey(s, prefixes[0]), prefixes[1..]);
    }
  }

  lemma {:induction false} AllKeysKeepMissed(s: string, prefixes: seq<string>)
    requires ArePrefixes(prefixes) && Missed(s)
    ensures Missed(RedactPrefixedKeys(s, prefixes))
    decreases |prefixes|
  {
    hide Missed;
    if prefixes != [] {
      assert prefixes[0] in prefixes;
      KeysKeepMissed(s, prefixes[0]);
      AllKeysKeepMissed(RedactPrefixedKey(s, prefixes[0]), prefixes[1..]);
    }
  }

  /**
   In the output of all passes every "bearer " is followed by a short token, if and only if the
   bearer pass, which runs on the output of the query passes, stepped over none whose token was long.
   */
  lemma SensitiveTokensExact(s: string)
    ensures TokensShort(RedactSensitive(s)) <==> NoneMissed(RedactQueries(s, PARAM_NAMES))
  {
    hide TokensShort, Missed, NoneMissed, RedactQueries, RedactBearer, RedactPrefixedKeys, IsPrefix;
    var queries := RedactQueries(s, PARAM_NAMES);
    var bearer := RedactBearer(queries);
    KeyPrefixesArePrefixes();
    BearerTokensExact(queries);
    if NoneMissed(queries) {
      AllKeysKeepShort(bearer, KEY_PREFIXES);
    } else {
      BearerLeavesMissed(queries);
      AllKeysKeepMissed(bearer, KEY_PREFIXES);
      MissedIsLong(RedactSensitive(s));
    }
  }
}
