/** A condition on the text that is logged, under which no mark is cut. */
module RedactionClear {
  import opened Sequences
  import opened Text
  import opened Redaction
  import opened RedactionProofs
  import opened RedactionValues
  import opened RedactionBearer
  import opened RedactionMarks
  import opened RedactionExact

  /** Within the first seven characters a parameter of that name opens and its '=' is there too. */
  predicate OpensName(x: string, name: string) {
    exists p: nat | p + |name| + 2 <= 7 && p + |name| + 2 <= |x| :: OpensParam(x[p]) && name + "=" <= x[p + 1..]
  }

  /** No "bearer " of the text is followed, within eight characters, by the start of a value of that name. */
  predicate Clear(s: string, name: string) {
    forall j | 0 <= j && j + |BEARER| <= |s| && StartsBearer(s[j..]) :: !OpensName(s[j + |BEARER|..], name)
  }

  predicate ClearFrom(s: string, name: string) {
    && (|s| >= |BEARER| && StartsBearer(s) ==> !OpensName(s[|BEARER|..], name))
    && (s != [] ==> ClearFrom(s[1..], name))
  }

  lemma {:induction false} ClearIsLocal(s: string, name: string)
    requires Clear(s, name)
    ensures ClearFrom(s, name)
    decreases |s|
  {
    hide StartsBearer, OpensName;
    assert s[0..] == s;
    if s != [] {
      var tail := s[1..];
      forall j | 0 <= j && j + |BEARER| <= |tail| && StartsBearer(tail[j..])
        ensures !OpensName(tail[j + |BEARER|..], name)
      {
        assert tail[j..] == s[j + 1..] && tail[j + |BEARER|..] == s[j + 1 + |BEARER|..];
      }
      ClearIsLocal(tail, name);
    }
  }

  /** A short start of the result that no mark can end stood at the start of the original. */
  lemma {:induction false} CutsMirrorShort(s: string, t: string, dash: bool, w: string)
    requires Cuts(s, t, dash) && w <= t && 0 < |w| <= |MARK| && !IsMarkChar(w[|w| - 1])
    ensures w <= s
    decreases |w|
  {
    hide IsMarkChar;
    if MARK <= t {
      assert w[|w| - 1] == t[|w| - 1] == MARK[|w| - 1] && MARK[|w| - 1] in MARK;
      MarkCharIn(w[|w| - 1]);
      assert false;
    }
    HeadTail(w);
    PrefixCons(w, t);
    if |w| > 1 {
      assert w[1..][|w| - 2] == w[|w| - 1];
      CutsMirrorShort(s[1..], t[1..], DashAfter(s[0], dash), w[1..]);
    }
    PrefixCons(w, s);
  }

  lemma MarkCharIn(c: char)
    requires c in MARK
    ensures IsMarkChar(c)
  {
  }

  lemma OpensNameMirror(s: string, t: string, dash: bool, name: string)
    requires Cuts(s, t, dash) && OpensName(t, name)
    ensures OpensName(s, name)
  {
    hide Cuts;
    var p: nat :| p + |name| + 2 <= 7 && p + |name| + 2 <= |t| && OpensParam(t[p]) && name + "=" <= t[p + 1..];
    var n := p + |name| + 2;
    var w := t[..n];
    assert w[n - 1] == t[p + 1..][|name|] == (name + "=")[|name|] == '=';
    CutsMirrorShort(s, t, dash, w);
    assert s[p] == w[p] == t[p];
    assert s[p + 1..][..|name| + 1] == w[p + 1..] == t[p + 1..][..|name| + 1] == name + "=";
  }

  /** Cutting brings no parameter closer to a "bearer ". */
  lemma {:induction false} CutsKeepClear(s: string, t: string, dash: bool, name: string)
    requires Cuts(s, t, dash) && ClearFrom(s, name)
    ensures ClearFrom(t, name)
    decreases |t|
  {
    hide StartsBearer, OpensName;
    if t != [] {
      ClearHere(s, t, dash, name);
      if s != [] && s[0] == t[0] && Cuts(s[1..], t[1..], DashAfter(s[0], dash)) {
        CutsKeepClear(s[1..], t[1..], DashAfter(s[0], dash), name);
      } else {
        var k: nat :| k <= |s| && CutAt(s, k, dash) && Cuts(s[k..], t[|MARK|..], false);
        ClearSuffix(s, name, k);
        CutsKeepClear(s[k..], t[|MARK|..], false, name);
        assert t == MARK + t[|MARK|..] && forall c <- MARK :: IsMarkChar(c);
        ClearBehind(MARK, t[|MARK|..], name);
      }
    }
  }

  lemma ClearHere(s: string, t: string, dash: bool, name: string)
    requires Cuts(s, t, dash) && ClearFrom(s, name)
    ensures |t| >= |BEARER| && StartsBearer(t) ==> !OpensName(t[|BEARER|..], name)
  {
    hide StartsBearer, OpensName, Cuts;
    if |t| >= |BEARER| && StartsBearer(t) {
      var w := t[..|BEARER|];
      BearerHasNoBracket(t);
      CutsMirror(s, t, dash, w);
      assert s[..|BEARER|] == w;
      StartsBearerHead(t, s);
      if OpensName(t[|BEARER|..], name) {
        OpensNameMirror(s[|BEARER|..], t[|BEARER|..], DashIn(w, dash), name);
      }
    }
  }

  lemma BearerHasNoBracket(t: string)
    requires |t| >= |BEARER| && StartsBearer(t)
    ensures '[' !in t[..|BEARER|]
  {
    var w := t[..|BEARER|];
    forall i | 0 <= i < |w|
      ensures w[i] != '['
    {
      assert LowerChar(w[i]) == Lower(w)[i] == BEARER[i] && BEARER[i] in BEARER;
    }
  }

  lemma {:induction false} ClearSuffix(s: string, name: string, k: nat)
    requires ClearFrom(s, name) && k <= |s|
    ensures ClearFrom(s[k..], name)
    decreases k
  {
    hide StartsBearer, OpensName;
    if k == 0 {
      assert s[0..] == s;
    } else {
      ClearSuffix(s[1..], name, k - 1);
      assert s[1..][k - 1..] == s[k..];
    }
  }

  lemma {:induction false} ClearBehind(m: string, t: string, name: string)
    requires ClearFrom(t, name) && forall c <- m :: IsMarkChar(c)
    ensures ClearFrom(m + t, name)
    decreases |m|
  {
    hide StartsBearer, OpensName, IsMarkChar;
    if m == [] {
      assert m + t == t;
    } else {
      assert m[0] in m && (m + t)[0] == m[0] && (m + t)[1..] == m[1..] + t && forall c <- m[1..] :: c in m;
      ClearBehind(m[1..], t, name);
      MarkIsNoBearer(m + t);
    }
  }

  lemma MarkIsNoBearer(s: string)
    requires s != [] && IsMarkChar(s[0])
    ensures !StartsBearer(s)
  {
    assert s[0..] == s;
    if StartsBearer(s) {
      BearerAt(s, 0, 0);
    }
  }

  /** A value that is held among eight characters of a token opened there. */
  lemma {:induction false} HeldIsOpened(kept: string, opens: bool, name: string)
    requires HoldsValue(kept, opens, name)
    ensures (opens && name + "=" <= kept && |kept| > |name| + 1)
            || exists p: nat | p + |name| + 2 < |kept| :: OpensParam(kept[p]) && name + "=" <= kept[p + 1..]
    decreases |kept|
  {
    hide OpensParam;
    if !(opens && name + "=" <= kept && |kept| > |name| + 1) {
      var tail := kept[1..];
      HeldIsOpened(tail, OpensParam(kept[0]), name);
      if OpensParam(kept[0]) && name + "=" <= tail && |tail| > |name| + 1 {
        assert OpensParam(kept[0]) && name + "=" <= kept[0 + 1..];
      } else {
        var p: nat :| p + |name| + 2 < |tail| && OpensParam(tail[p]) && name + "=" <= tail[p + 1..];
        assert kept[p + 1] == tail[p] && kept[p + 1 + 1..] == tail[p + 1..];
      }
    }
  }

  lemma HeldOpensName(rest: string, name: string)
    requires |rest| > 8 && HoldsValue(rest[..8], false, name)
    ensures OpensName(rest, name)
  {
    hide HoldsValue, OpensParam;
    var kept := rest[..8];
    HeldIsOpened(kept, false, name);
    var p: nat :| p + |name| + 2 < |kept| && OpensParam(kept[p]) && name + "=" <= kept[p + 1..];
    assert rest[p] == kept[p] && kept[p + 1..] == rest[p + 1..8];
    assert name + "=" <= rest[p + 1..];
  }

  lemma {:induction false} ClearSpares(s: string, name: string)
    requires ClearFrom(s, name)
    ensures SparesMarks(s, name)
    decreases |s|
  {
    hide StartsBearer, OpensName, HoldsValue;
    if s != [] {
      StartsBearerLong(s);
      if StartsBearer(s) {
        var rest := s[|BEARER|..];
        var n := TokenLength(rest);
        assert rest[n..] == s[|BEARER| + n..];
        ClearSuffix(s, name, |BEARER| + n);
        ClearSpares(rest[n..], name);
        if n > 8 && HoldsValue(rest[..8], false, name) {
          HeldOpensName(rest, name);
        }
      } else {
        ClearSpares(s[1..], name);
      }
    }
  }

  lemma {:induction false} QueriesKeepClear(s: string, names: seq<string>, name: string)
    requires ClearFrom(s, name)
    ensures ClearFrom(RedactQueries(s, names), name)
    decreases |names|
  {
    hide ClearFrom, RedactQuery;
    if names != [] {
      QueryCuts([], s, names[0], false);
      CutsKeepClear(s, RedactQuery([], s, names[0]), false, name);
      QueriesKeepClear(RedactQuery([], s, names[0]), names[1..], name);
    }
  }

  /**
   On the text that is logged: where no "bearer " is closely followed by a parameter of that name,
   every value of it ends as the literal mark.
   */
  lemma ClearTextIsMarked(s: string, name: string)
    requires Ascii(s) && name in PARAM_NAMES && Clear(s, name)
    ensures ValuesCovered(RedactSensitive(s), name, UpTo(0))
  {
    hide ValuesCovered, RedactQueries, RedactSensitive, ClearFrom, Clear, SparesMarks;
    ClearIsLocal(s, name);
    QueriesKeepClear(s, PARAM_NAMES, name);
    ClearSpares(RedactQueries(s, PARAM_NAMES), name);
    SensitiveMarkedExactly(s, name);
  }
}
