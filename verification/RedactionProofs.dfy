/**
 Redaction guarantees that survive every later pass.

 All passes have one thing in common, captured by `Cuts`: they copy characters and, at some places,
 put the redaction mark in place of a stretch of text. Whatever `Cuts` preserves, every pass
 preserves; each pass then only has to establish its own guarantee.
 */
module RedactionProofs {
  import opened Sequences
  import opened Redaction

  // ---------- Copying and cutting ----------

  /** Whether, after copying `c`, the text ends in key characters with a dash among them. */
  predicate DashAfter(c: char, dash: bool) { IsKeyChar(c) && (c == '-' || dash) }

  /**
   `t` is `s` with the mark put in place of some stretches. A stretch must be followed by the end
   of a value, or be cut out of key characters that have a dash before them.
   */
  ghost predicate Cuts(s: string, t: string, dash: bool)
    decreases |t|
  {
    || (s == [] && t == [])
    || (s != [] && t != [] && s[0] == t[0] && Cuts(s[1..], t[1..], DashAfter(s[0], dash)))
    || (MARK <= t && exists k: nat | k <= |s| :: CutAt(s, k, dash) && Cuts(s[k..], t[|MARK|..], false))
  }

  predicate CutAt(s: string, k: nat, dash: bool)
    requires k <= |s|
  {
    dash || k == |s| || EndsValueOrToken(s[k])
  }

  lemma CutsCopy(c: char, s: string, t: string, dash: bool)
    requires Cuts(s, t, DashAfter(c, dash))
    ensures Cuts([c] + s, [c] + t, dash)
  {
    ConsParts(c, s);
    ConsParts(c, t);
  }

  lemma CutsCut(s: string, k: nat, t: string, dash: bool)
    requires k <= |s| && CutAt(s, k, dash) && Cuts(s[k..], t, false)
    ensures Cuts(s, MARK + t, dash)
  {
    assert (MARK + t)[|MARK|..] == t;
  }

  /** Whether text ending in `u` ends in key characters with a dash among them. */
  function DashIn(u: string, dash: bool): bool {
    if u == [] then dash else DashIn(u[1..], DashAfter(u[0], dash))
  }

  lemma {:induction false} CutsCopyAll(u: string, s: string, t: string, dash: bool)
    requires Cuts(s, t, DashIn(u, dash))
    ensures Cuts(u + s, u + t, dash)
    decreases |u|
  {
    hide Cuts;
    if u == [] {
      assert u + s == s && u + t == t;
    } else {
      CutsCopyAll(u[1..], s, t, DashAfter(u[0], dash));
      CutsCopy(u[0], u[1..] + s, u[1..] + t, dash);
      assert [u[0]] + (u[1..] + s) == u + s && [u[0]] + (u[1..] + t) == u + t;
    }
  }

  lemma {:induction false} CutsWeaken(s: string, t: string)
    requires Cuts(s, t, false)
    ensures Cuts(s, t, true)
    decreases |t|
  {
    if s != [] && t != [] && s[0] == t[0] && Cuts(s[1..], t[1..], DashAfter(s[0], false)) {
      if DashAfter(s[0], false) != DashAfter(s[0], true) {
        CutsWeaken(s[1..], t[1..]);
      }
    } else if s != [] || t != [] {
      var k: nat :| k <= |s| && CutAt(s, k, false) && Cuts(s[k..], t[|MARK|..], false);
      assert CutAt(s, k, true);
    }
  }

  // ---------- The passes cut ----------

  lemma {:induction false} DashInKey(u: string, dash: bool)
    requires forall c <- u :: IsKeyChar(c)
    ensures DashIn(u, dash) == (dash || '-' in u)
    decreases |u|
  {
    if u != [] {
      assert u[0] in u;
      DashInKey(u[1..], DashAfter(u[0], dash));
    }
  }

  lemma PrefixIsKeyChars(prefix: string)
    requires IsPrefix(prefix)
    ensures prefix != [] && forall c <- prefix :: IsKeyChar(c) && c != '['
  {
  }

  /** Copying `head` and what is kept of the `n` characters after it, cutting the rest of these. */
  lemma ShortKeyCuts(head: string, rest: string, n: nat, tail: string, dash: bool)
    requires n <= |rest|
    requires n <= 8 ==> Cuts(rest[n..], tail, DashIn(head + rest[..n], dash))
    requires n > 8 ==> CutAt(rest, n, DashIn(head + rest[..8], dash)) && Cuts(rest[n..], tail, false)
    ensures Cuts(head + rest, head + ShortKey(rest[..n]) + tail, dash)
  {
    hide Cuts, DashIn;
    if n > 8 {
      var kept := head + rest[..8];
      TakeTake(rest, n, 8);
      CutsCut(rest[8..], n - 8, tail, DashIn(kept, dash));
      CutsCopyAll(kept, rest[8..], MARK + tail, dash);
      Assoc(head, rest[..8], rest[8..]);
      Regroup(head, rest[..8], MARK, tail);
    } else {
      var kept := head + rest[..n];
      TakeTake(rest, n, n);
      CutsCopyAll(kept, rest[n..], tail, dash);
      Assoc(head, rest[..n], rest[n..]);
    }
  }

  lemma KeyBlockCuts(prefix: string, rest: string, n: nat, tail: string, dash: bool)
    requires IsPrefix(prefix) && n == KeyRun(rest) && Cuts(rest[n..], tail, n <= 8)
    ensures Cuts(prefix + rest, prefix + ShortKey(rest[..n]) + tail, dash)
  {
    hide Cuts;
    var kept := prefix + rest[..if n > 8 then 8 else n];
    PrefixIsKeyChars(prefix);
    assert forall c <- kept :: IsKeyChar(c);
    assert '-' == kept[|prefix| - 1];
    DashInKey(kept, dash);
    ShortKeyCuts(prefix, rest, n, tail, dash);
  }

  lemma {:induction false} PrefixedKeyCuts(s: string, prefix: string, dash: bool)
    requires IsPrefix(prefix)
    ensures Cuts(s, RedactPrefixedKey(s, prefix), dash)
    decreases |s|
  {
    hide Cuts;
    if s == [] {
      CutsNothing(dash);
    } else if prefix <= s {
      var rest := s[|prefix|..];
      var n := KeyRun(rest);
      PrefixedKeyCuts(rest[n..], prefix, n <= 8);
      KeyBlockCuts(prefix, rest, n, RedactPrefixedKey(rest[n..], prefix), dash);
      assert prefix + rest == s;
    } else {
      PrefixedKeyCuts(s[1..], prefix, DashAfter(s[0], dash));
      CutsCopy(s[0], s[1..], RedactPrefixedKey(s[1..], prefix), dash);
      HeadTail(s);
    }
  }

  lemma CutsNothing(dash: bool)
    ensures Cuts([], [], dash)
  {
  }

  lemma {:induction false} BearerCuts(s: string, dash: bool)
    ensures Cuts(s, RedactBearer(s), dash)
    decreases |s|
  {
    hide Cuts, StartsBearer;
    if s == [] {
      CutsNothing(dash);
    } else if StartsBearer(s) && |s| >= |BEARER| {
      var head, rest := s[..|BEARER|], s[|BEARER|..];
      var n := TokenLength(rest);
      var tail := RedactBearer(rest[n..]);
      BearerCuts(rest[n..], n <= 8 && DashIn(head + rest[..n], dash));
      ShortKeyCuts(head, rest, n, tail, dash);
      TakeTake(s, |BEARER|, |BEARER|);
    } else {
      StartsBearerLong(s);
      BearerCuts(s[1..], DashAfter(s[0], dash));
      CutsCopy(s[0], s[1..], RedactBearer(s[1..]), dash);
      HeadTail(s);
    }
  }

  lemma StartsBearerLong(s: string)
    ensures StartsBearer(s) ==> |s| >= |BEARER|
  {
  }

  /** Up to where a bearer token first starts the text is copied. */
  lemma {:induction false} BearerSkip(s: string, i: nat)
    requires i <= |s| && forall j | 0 <= j < i :: !StartsBearer(s[j..])
    ensures RedactBearer(s) == s[..i] + RedactBearer(s[i..])
    decreases i
  {
    hide StartsBearer, ShortKey, TokenLength;
    assert s[0..] == s;
    if i > 0 {
      assert forall j | 0 <= j < i - 1 :: s[1..][j..] == s[j + 1..];
      BearerSkip(s[1..], i - 1);
      assert s[1..][i - 1..] == s[i..];
      assert s[..i] == [s[0]] + s[1..][..i - 1];
    }
  }

  lemma {:induction false} QueryCuts(seen: string, s: string, name: string, dash: bool)
    ensures Cuts(s, RedactQuery(seen, s, name), dash)
    decreases |s|
  {
    hide Cuts, PrefixOk;
    if s == [] {
      CutsNothing(dash);
    } else if name + "=" <= s {
      var head, rest := name + "=", s[|name| + 1..];
      if PrefixOk(seen, s) {
        var value := SkipValue(rest);
        var tail, k := RedactQuery([], value, name), |rest| - |value|;
        QueryCuts([], value, name, false);
        CutsCut(rest, k, tail, DashIn(head, dash));
        CutsCopyAll(head, rest, MARK + tail, dash);
      } else {
        QueryCuts([], rest, name, DashIn(head, dash));
        CutsCopyAll(head, rest, RedactQuery([], rest, name), dash);
      }
      assert head + rest == s;
    } else {
      QueryCuts(seen + [s[0]], s[1..], name, DashAfter(s[0], dash));
      CutsCopy(s[0], s[1..], RedactQuery(seen + [s[0]], s[1..], name), dash);
      HeadTail(s);
    }
  }

  // ---------- What cutting preserves ----------

  /** Text without '[' at the start of the result stood at the start of the original. */
  lemma {:induction false} CutsMirror(s: string, t: string, dash: bool, w: string)
    requires Cuts(s, t, dash) && w <= t && '[' !in w
    ensures w <= s && Cuts(s[|w|..], t[|w|..], DashIn(w, dash))
    decreases |w|
  {
    if w != [] {
      assert w[0] in w && t[0] != '[';
      CutsMirror(s[1..], t[1..], DashAfter(s[0], dash), w[1..]);
      assert s[1..][|w| - 1..] == s[|w|..] && t[1..][|w| - 1..] == t[|w|..];
    } else {
      assert s[0..] == s && t[0..] == t;
    }
  }

  /** A character that is not in the text nor in the mark is not in the result. */
  lemma {:induction false} CutsKeepOut(s: string, t: string, dash: bool, c: char)
    requires Cuts(s, t, dash) && c !in s && c !in MARK
    ensures c !in t
    decreases |t|
  {
    if s != [] && t != [] && s[0] == t[0] && Cuts(s[1..], t[1..], DashAfter(s[0], dash)) {
      CutsKeepOut(s[1..], t[1..], DashAfter(s[0], dash), c);
      assert s[0] in s;
    } else if t != [] {
      var k: nat :| k <= |s| && CutAt(s, k, dash) && Cuts(s[k..], t[|MARK|..], false);
      CutsKeepOut(s[k..], t[|MARK|..], false, c);
      assert t == MARK + t[|MARK|..];
    }
  }

  predicate EndsWith(t: string, w: string) { |w| <= |t| && t[|t| - |w|..] == w }

  lemma EndsWithin(t: string, w: string, k: nat)
    requires k <= |t|
    ensures EndsWith(t[k..], w) ==> EndsWith(t, w)
    ensures EndsWith(t, w) && k + |w| <= |t| ==> EndsWith(t[k..], w)
  {
    assert k + |w| <= |t| ==> t[k..][|t| - k - |w|..] == t[|t| - |w|..];
  }

  /** Text without a bracket at the end of the result stood at the end of the original. */
  lemma {:induction false} CutsMirrorEnd(s: string, t: string, dash: bool, w: string)
    requires Cuts(s, t, dash) && '[' !in w && ']' !in w && EndsWith(t, w)
    ensures EndsWith(s, w)
    decreases |t|
  {
    hide DashAfter, CutAt, EndsWith;
    if |w| == |t| {
      CutsMirrorAll(s, t, dash, w);
    } else if s != [] && t != [] && s[0] == t[0] && Cuts(s[1..], t[1..], DashAfter(s[0], dash)) {
      EndsNoLonger(t, w);
      EndsWithin(t, w, 1);
      CutsMirrorEnd(s[1..], t[1..], DashAfter(s[0], dash), w);
      EndsWithin(s, w, 1);
    } else {
      EndsNoLonger(t, w);
      var k: nat :| k <= |s| && CutAt(s, k, dash) && Cuts(s[k..], t[|MARK|..], false);
      MarkBeforeEnd(t, w);
      EndsWithin(t, w, |MARK|);
      CutsMirrorEnd(s[k..], t[|MARK|..], false, w);
      EndsWithin(s, w, k);
    }
  }

  lemma EndsNoLonger(t: string, w: string)
    requires EndsWith(t, w)
    ensures |w| <= |t|
  {
  }

  lemma CutsMirrorAll(s: string, t: string, dash: bool, w: string)
    requires Cuts(s, t, dash) && '[' !in w && |w| == |t| && EndsWith(t, w)
    ensures EndsWith(s, w)
  {
    hide Cuts;
    assert t == w;
    CutsMirror(s, t, dash, w);
    CutsOfNothing(s[|w|..], t[|w|..], DashIn(w, dash));
    assert s == w && s[0..] == s;
  }

  lemma CutsOfNothing(s: string, t: string, dash: bool)
    requires Cuts(s, t, dash) && t == []
    ensures s == []
  {
  }

  lemma MarkBeforeEnd(t: string, w: string)
    requires MARK <= t && ']' !in w && EndsWith(t, w)
    ensures |MARK| + |w| <= |t|
  {
    assert t[9] == MARK[9] == ']';
    InTheEnd(t, w, 9);
  }

  lemma InTheEnd(t: string, w: string, i: nat)
    requires EndsWith(t, w) && i < |t|
    ensures |t| - |w| <= i ==> t[i] in w
  {
    var end := t[|t| - |w|..];
    assert |t| - |w| <= i ==> t[i] == end[i - (|t| - |w|)];
  }

  /** `KeysShort`, one position at a time. */
  predicate KeysShortFrom(s: string, prefix: string) {
    (prefix <= s ==> KeyRun(s[|prefix|..]) <= 8) && (s != [] ==> KeysShortFrom(s[1..], prefix))
  }

  lemma {:induction false} KeysShortIsLocal(s: string, prefix: string)
    ensures KeysShort(s, prefix) <==> KeysShortFrom(s, prefix)
    decreases |s|
  {
    hide KeyRun;
    assert s[0..] == s;
    if s != [] {
      KeysShortIsLocal(s[1..], prefix);
      if KeysShort(s, prefix) {
        forall i | 0 <= i <= |s[1..]| && prefix <= s[1..][i..]
          ensures KeyRun(s[1..][i + |prefix|..]) <= 8
        {
          assert s[1..][i..] == s[i + 1..] && s[1..][i + |prefix|..] == s[i + 1 + |prefix|..];
        }
      }
      if KeysShortFrom(s, prefix) {
        forall i | 0 <= i <= |s| && prefix <= s[i..]
          ensures KeyRun(s[i + |prefix|..]) <= 8
        {
          if i > 0 {
            assert s[1..][i - 1..] == s[i..] && s[1..][i - 1 + |prefix|..] == s[i + |prefix|..];
          }
        }
      }
    }
  }

  lemma {:induction false} KeyRunOf(u: string, s: string)
    requires forall c <- u :: IsKeyChar(c)
    ensures KeyRun(u + s) == |u| + KeyRun(s)
    decreases |u|
  {
    if u == [] {
      assert u + s == s;
    } else {
      assert u[0] in u && (u + s)[1..] == u[1..] + s;
      KeyRunOf(u[1..], s);
    }
  }

  lemma BracketIsNoKeyChar()
    ensures !IsKeyChar('[')
  {
  }

  /** The run after a prefix in the result is no longer than the run after it in the original. */
  lemma RunAfterPrefixShrinks(s: string, t: string, dash: bool, prefix: string)
    requires Cuts(s, t, dash) && IsPrefix(prefix) && prefix <= t
    ensures prefix <= s && KeyRun(t[|prefix|..]) <= KeyRun(s[|prefix|..])
  {
    hide IsKeyChar, IsPrefix, Cuts;
    PrefixIsKeyChars(prefix);
    BracketIsNoKeyChar();
    var w := prefix + t[|prefix|..][..KeyRun(t[|prefix|..])];
    assert forall c <- w :: IsKeyChar(c) && c != '[';
    assert w <= t;
    CutsMirror(s, t, dash, w);
    var run, rest := w[|prefix|..], s[|w|..];
    assert s[|prefix|..] == run + rest;
    KeyRunOf(run, rest);
  }

  lemma {:induction false} KeysShortSuffix(s: string, prefix: string, k: nat)
    requires KeysShortFrom(s, prefix) && k <= |s|
    ensures KeysShortFrom(s[k..], prefix)
    decreases k
  {
    if k == 0 {
      assert s[0..] == s;
    } else {
      KeysShortSuffix(s[1..], prefix, k - 1);
      assert s[1..][k - 1..] == s[k..];
    }
  }

  lemma {:induction false} KeysShortBehindMark(m: string, t: string, prefix: string)
    requires IsPrefix(prefix) && KeysShortFrom(t, prefix) && forall c <- m :: !IsLower(c)
    ensures KeysShortFrom(m + t, prefix)
    decreases |m|
  {
    hide IsPrefix, IsLower, KeyRun;
    if m == [] {
      assert m + t == t;
    } else {
      assert m[0] in m && (m + t)[1..] == m[1..] + t && (m + t)[0] == m[0];
      PrefixStartsLower(prefix, m + t);
      assert forall c <- m[1..] :: c in m;
      KeysShortBehindMark(m[1..], t, prefix);
    }
  }

  lemma PrefixStartsLower(prefix: string, s: string)
    requires IsPrefix(prefix) && s != []
    ensures prefix <= s ==> IsLower(s[0])
  {
    PrefixAt(prefix, s, 0);
  }

  lemma {:induction false} CutsKeepKeysShort(s: string, t: string, dash: bool, prefix: string)
    requires Cuts(s, t, dash) && IsPrefix(prefix) && KeysShortFrom(s, prefix)
    ensures KeysShortFrom(t, prefix)
    decreases |t|
  {
    hide KeyRun;
    if prefix <= t {
      RunAfterPrefixShrinks(s, t, dash, prefix);
    }
    if s != [] && t != [] && s[0] == t[0] && Cuts(s[1..], t[1..], DashAfter(s[0], dash)) {
      CutsKeepKeysShort(s[1..], t[1..], DashAfter(s[0], dash), prefix);
    } else if t != [] {
      var k: nat :| k <= |s| && CutAt(s, k, dash) && Cuts(s[k..], t[|MARK|..], false);
      KeysShortSuffix(s, prefix, k);
      CutsKeepKeysShort(s[k..], t[|MARK|..], false, prefix);
      KeysShortBehindMark(MARK, t[|MARK|..], prefix);
      assert t == MARK + t[|MARK|..];
    }
  }

  // ---------- Keys: each pass establishes its own guarantee ----------

  lemma PrefixInside(u: string, y: string, prefix: string)
    requires IsPrefix(prefix) && prefix <= u + y && (y == [] || !IsKeyChar(y[0]))
    ensures |prefix| <= |u|
  {
    PrefixIsKeyChars(prefix);
    PrefixAt(prefix, u + y, |u|);
    assert y != [] ==> (u + y)[|u|] == y[0];
  }

  lemma {:induction false} KeyBlockShort(u: string, y: string, prefix: string)
    requires IsPrefix(prefix) && (forall c <- u :: IsKeyChar(c)) && |u| <= |prefix| + 8
    requires KeysShortFrom(y, prefix) && (y == [] || !IsKeyChar(y[0]))
    ensures KeysShortFrom(u + y, prefix)
    decreases |u|
  {
    hide IsKeyChar, IsPrefix, KeyRun;
    if u == [] {
      assert u + y == y;
    } else {
      assert (u + y)[1..] == u[1..] + y && forall c <- u[1..] :: c in u;
      KeyBlockShort(u[1..], y, prefix);
      if prefix <= u + y {
        KeyBlockRun(u, y, prefix);
      }
    }
  }

  lemma KeyBlockRun(u: string, y: string, prefix: string)
    requires IsPrefix(prefix) && (forall c <- u :: IsKeyChar(c)) && prefix <= u + y && (y == [] || !IsKeyChar(y[0]))
    ensures |prefix| <= |u| && KeyRun((u + y)[|prefix|..]) == |u| - |prefix|
  {
    hide IsKeyChar, IsPrefix;
    PrefixInside(u, y, prefix);
    assert (u + y)[|prefix|..] == u[|prefix|..] + y;
    assert forall c <- u[|prefix|..] :: c in u;
    KeyRunOf(u[|prefix|..], y);
  }

  lemma RedactedStart(s: string, prefix: string)
    requires IsPrefix(prefix) && (s == [] || !IsKeyChar(s[0]))
    ensures var t := RedactPrefixedKey(s, prefix); |t| == 0 <==> s == []
    ensures s != [] ==> RedactPrefixedKey(s, prefix)[0] == s[0]
  {
    PrefixIsKeyChars(prefix);
    PrefixAt(prefix, s, 0);
  }

  lemma {:induction false} PrefixedKeyShort(s: string, prefix: string)
    requires IsPrefix(prefix)
    ensures KeysShortFrom(RedactPrefixedKey(s, prefix), prefix)
    decreases |s|
  {
    hide KeyRun, Cuts;
    if s == [] {
      assert !(prefix <= []);
    } else if prefix <= s {
      var rest := s[|prefix|..];
      var n := KeyRun(rest);
      var tail := RedactPrefixedKey(rest[n..], prefix);
      PrefixedKeyShort(rest[n..], prefix);
      KeyRunStops(rest);
      RedactedStart(rest[n..], prefix);
      KeyBlockResultShort(prefix, rest, n, tail);
    } else {
      var t := RedactPrefixedKey(s, prefix);
      PrefixedKeyShort(s[1..], prefix);
      PrefixedKeyCuts(s, prefix, false);
      if prefix <= t {
        RunAfterPrefixShrinks(s, t, false, prefix);
      }
      ConsParts(s[0], RedactPrefixedKey(s[1..], prefix));
    }
  }

  lemma KeyRunStops(s: string)
    ensures var n := KeyRun(s); n <= |s| && (n < |s| ==> !IsKeyChar(s[n])) && forall c <- s[..n] :: IsKeyChar(c)
  {
  }

  lemma KeyBlockResultShort(prefix: string, rest: string, n: nat, tail: string)
    requires IsPrefix(prefix) && n == KeyRun(rest) && KeysShortFrom(tail, prefix)
    requires tail == [] || !IsKeyChar(tail[0])
    ensures KeysShortFrom(prefix + ShortKey(rest[..n]) + tail, prefix)
  {
    hide KeysShortFrom;
    PrefixIsKeyChars(prefix);
    KeyRunStops(rest);
    if n > 8 {
      KeysShortBehindMark(MARK, tail, prefix);
      TakeTake(rest, n, 8);
      KeyBlockShort(prefix + rest[..8], MARK + tail, prefix);
      Regroup(prefix, rest[..8], MARK, tail);
    } else {
      KeyBlockShort(prefix + rest[..n], tail, prefix);
    }
  }

  lemma KeysShortHere(s: string, prefix: string)
    requires KeysShortFrom(s, prefix)
    ensures prefix <= s ==> KeyRun(s[|prefix|..]) <= 8
    ensures s != [] ==> KeysShortFrom(s[1..], prefix)
  {
  }

  lemma ThreeParts(s: string, a: nat, n: nat)
    requires a + n <= |s|
    ensures s == s[..a] + s[a..][..n] + s[a..][n..] && s[a + n..] == s[a..][n..]
  {
  }

  lemma ShortBlockStays(s: string, prefix: string)
    requires prefix != [] && prefix <= s && KeyRun(s[|prefix|..]) <= 8
    ensures var rest := s[|prefix|..]; var n := KeyRun(rest);
            RedactPrefixedKey(rest[n..], prefix) == rest[n..] ==> RedactPrefixedKey(s, prefix) == s
  {
    hide KeyRun;
    var rest := s[|prefix|..];
    var n := KeyRun(rest);
    ThreeParts(s, |prefix|, n);
    assert s[..|prefix|] == prefix && ShortKey(rest[..n]) == rest[..n];
  }

  lemma {:induction false} ShortKeysStay(s: string, prefix: string)
    requires IsPrefix(prefix) && KeysShortFrom(s, prefix)
    ensures RedactPrefixedKey(s, prefix) == s
    decreases |s|
  {
    hide KeyRun, IsPrefix, KeysShortFrom, IsKeyChar;
    PrefixIsKeyChars(prefix);
    KeysShortHere(s, prefix);
    if s != [] {
      if prefix <= s {
        var rest := s[|prefix|..];
        var n := KeyRun(rest);
        KeyRunStops(rest);
        KeysShortSuffix(s, prefix, |prefix| + n);
        ThreeParts(s, |prefix|, n);
        ShortKeysStay(rest[n..], prefix);
        ShortBlockStays(s, prefix);
      } else {
        ShortKeysStay(s[1..], prefix);
        HeadTail(s);
      }
    }
  }

  /** A pass leaves a string alone exactly when its keys are short; so each pass is idempotent. */
  lemma PrefixedKeyExact(s: string, prefix: string)
    requires IsPrefix(prefix)
    ensures KeysShort(RedactPrefixedKey(s, prefix), prefix)
    ensures RedactPrefixedKey(s, prefix) == s <==> KeysShort(s, prefix)
    ensures RedactPrefixedKey(RedactPrefixedKey(s, prefix), prefix) == RedactPrefixedKey(s, prefix)
  {
    hide KeysShortFrom, KeysShort;
    var t := RedactPrefixedKey(s, prefix);
    PrefixedKeyShort(s, prefix);
    KeysShortIsLocal(s, prefix);
    KeysShortIsLocal(t, prefix);
    ShortKeysStay(t, prefix);
    if KeysShortFrom(s, prefix) {
      ShortKeysStay(s, prefix);
    }
  }

  predicate ArePrefixes(prefixes: seq<string>) { forall p <- prefixes :: IsPrefix(p) }

  lemma {:induction false} PrefixedKeysKeep(s: string, prefixes: seq<string>, q: string)
    requires ArePrefixes(prefixes) && IsPrefix(q) && KeysShortFrom(s, q)
    ensures KeysShortFrom(RedactPrefixedKeys(s, prefixes), q)
    decreases |prefixes|
  {
    if prefixes != [] {
      assert prefixes[0] in prefixes;
      PrefixedKeyCuts(s, prefixes[0], false);
      CutsKeepKeysShort(s, RedactPrefixedKey(s, prefixes[0]), false, q);
      PrefixedKeysKeep(RedactPrefixedKey(s, prefixes[0]), prefixes[1..], q);
    }
  }

  lemma {:induction false} PrefixedKeysShort(s: string, prefixes: seq<string>)
    requires ArePrefixes(prefixes)
    ensures forall q <- prefixes :: KeysShortFrom(RedactPrefixedKeys(s, prefixes), q)
    decreases |prefixes|
  {
    if prefixes != [] {
      assert prefixes[0] in prefixes;
      PrefixedKeyShort(s, prefixes[0]);
      PrefixedKeysKeep(RedactPrefixedKey(s, prefixes[0]), prefixes[1..], prefixes[0]);
      PrefixedKeysShort(RedactPrefixedKey(s, prefixes[0]), prefixes[1..]);
    }
  }

  lemma {:induction false} ShortKeysStayAll(s: string, prefixes: seq<string>)
    requires ArePrefixes(prefixes) && forall q <- prefixes :: KeysShortFrom(s, q)
    ensures RedactPrefixedKeys(s, prefixes) == s
    decreases |prefixes|
  {
    if prefixes != [] {
      assert prefixes[0] in prefixes;
      ShortKeysStay(s, prefixes[0]);
      ShortKeysStayAll(s, prefixes[1..]);
    }
  }

  lemma KeyPrefixesArePrefixes()
    ensures ArePrefixes(KEY_PREFIXES)
  {
  }

  /**
   For every string: after all six passes each occurrence of each prefix is followed by at most
   eight key characters, and running the six passes again changes nothing.
   */
  lemma KeyPatternsRedacted(s: string)
    ensures var t := RedactPrefixedKeys(s, KEY_PREFIXES);
            && (forall q <- KEY_PREFIXES :: KeysShort(t, q))
            && RedactPrefixedKeys(t, KEY_PREFIXES) == t
  {
    hide KeysShort, KeysShortFrom, RedactPrefixedKeys;
    KeyPrefixesArePrefixes();
    var t := RedactPrefixedKeys(s, KEY_PREFIXES);
    PrefixedKeysShort(s, KEY_PREFIXES);
    ShortKeysStayAll(t, KEY_PREFIXES);
    forall q <- KEY_PREFIXES
      ensures KeysShort(t, q)
    {
      KeysShortIsLocal(t, q);
    }
  }
}
