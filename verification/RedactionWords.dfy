/**
 Which "bearer " of a text the bearer pass never sees, because a query pass has taken its word away
 with the value of a parameter.
 */
module RedactionWords {
  import opened Sequences
  import opened Text
  import opened Redaction
  import opened RedactionProofs
  import opened RedactionValues
  import opened RedactionBearer
  import opened RedactionMarks
  import opened RedactionCode
  import opened RedactionTokens

  /** The number of "bearer " in a text, in any letter case. */
  function Bearers(s: string): nat {
    if s == [] then 0 else (if StartsBearer(s) then 1 else 0) + Bearers(s[1..])
  }

  /** No value that the pass replaces ends in the word, with a blank behind it. */
  predicate NoWordReplaced(seen: string, s: string, name: string)
    decreases |s|
  {
    if s == [] then true
    else if name + "=" <= s then
      var rest := s[|name| + 1..];
      if PrefixOk(seen, s) then
        var tail := SkipValue(rest);
        && !(EndsInBearer(rest[..|rest| - |tail|]) && tail != [] && tail[0] == ' ')
        && NoWordReplaced([], tail, name)
      else NoWordReplaced([], rest, name)
    else NoWordReplaced(seen + [s[0]], s[1..], name)
  }

  // ---------- Counting ----------

  lemma {:induction false} BearersBehind(m: string, t: string)
    requires forall c <- m :: LowerChar(c) != 'b'
    ensures Bearers(m + t) == Bearers(t)
    decreases |m|
  {
    hide StartsBearer;
    if m == [] {
      assert m + t == t;
    } else {
      assert m[0] in m && (m + t)[0] == m[0] && (m + t)[1..] == m[1..] + t && forall c <- m[1..] :: c in m;
      NoBearerHere(m + t);
      BearersBehind(m[1..], t);
    }
  }

  predicate StopsWord(s: string) { s == [] || LowerChar(s[0]) !in WORD }

  /** In text without a blank only the last six letters can be the word of a "bearer ". */
  lemma {:induction false} BearersInside(u: string, tail: string)
    requires ' ' !in u && StopsWord(tail)
    ensures Bearers(u + tail)
            == (if EndsInBearer(u) && tail != [] && tail[0] == ' ' then 1 else 0) + Bearers(tail)
    decreases |u|
  {
    hide StartsBearer, StopsWord;
    if u == [] {
      assert u + tail == tail;
    } else {
      ConsApart(u, tail);
      assert ' ' !in u[1..] by { assert forall c <- u[1..] :: c in u; }
      BearersInside(u[1..], tail);
      WordInside(u, tail);
      if |u| > 6 {
        assert u[1..][|u| - 1 - 6..] == u[|u| - 6..];
      } else if |u| == 6 {
        assert u[0..] == u;
      }
    }
  }

  lemma WordInside(u: string, tail: string)
    requires u != [] && ' ' !in u && StopsWord(tail)
    ensures StartsBearer(u + tail) <==> |u| == 6 && Lower(u) == WORD && tail != [] && tail[0] == ' '
  {
    hide StartsBearer, EndsToken;
    var s := u + tail;
    if StartsBearer(s) {
      BearerLetters(s);
      InOrBehind(u, tail, 6);
      if |u| < 6 {
        InOrBehind(u, tail, |u|);
        LetterOfWord(s, |u|);
      }
      assert |u| == 6 ==> s[..6] == u;
    }
    if |u| == 6 && Lower(u) == WORD && tail != [] && tail[0] == ' ' {
      BearerFrom(u, tail);
    }
  }

  lemma LetterOfWord(s: string, i: nat)
    requires |s| >= 6 && Lower(s[..6]) == WORD && i < 6
    ensures LowerChar(s[i]) in WORD
  {
    assert Lower(s[..6])[i] == LowerChar(s[..6][i]) && WORD[i] in WORD;
  }

  lemma PlainStops(c: char, x: string)
    requires c == '=' || c == '[' || EndsValue(c)
    ensures StopsWord([c] + x) && LowerChar(c) != 'b'
  {
  }

  /** A name and its '=' hold no "bearer ". */
  lemma BearersBehindName(name: string, x: string)
    requires IsName(name)
    ensures Bearers(name + "=" + x) == Bearers(x)
  {
    hide Bearers, StopsWord;
    NameHasNoBlank(name);
    Assoc(name, "=", x);
    PlainStops('=', x);
    BearersInside(name, "=" + x);
    ConsParts('=', x);
    BearersBehind("=", x);
  }

  lemma NameHasNoBlank(name: string)
    requires IsName(name)
    ensures ' ' !in name
  {
  }

  lemma BearersBehindMark(x: string)
    ensures Bearers(MARK + x) == Bearers(x)
  {
    assert forall c <- MARK :: LowerChar(c) != 'b';
    BearersBehind(MARK, x);
  }

  lemma {:induction false} SkippedHasNoBlank(s: string)
    ensures ' ' !in s[..|s| - |SkipValue(s)|]
    decreases |s|
  {
    if s != [] && !EndsValue(s[0]) {
      SkippedHasNoBlank(s[1..]);
      var n := |s| - |SkipValue(s)|;
      assert s[..n] == [s[0]] + s[1..][..n - 1];
    }
  }

  lemma BearersBehindValue(rest: string)
    ensures var tail := SkipValue(rest); var value := rest[..|rest| - |tail|];
            Bearers(rest) == (if EndsInBearer(value) && tail != [] && tail[0] == ' ' then 1 else 0) + Bearers(tail)
  {
    hide Bearers, StopsWord, EndsInBearer;
    var tail := SkipValue(rest);
    var value := rest[..|rest| - |tail|];
    SkippedHasNoBlank(rest);
    assert rest == value + tail;
    TailStops(tail);
    BearersInside(value, tail);
  }

  lemma TailStops(tail: string)
    requires tail != [] ==> EndsValue(tail[0])
    ensures StopsWord(tail)
  {
    if tail != [] {
      PlainStops(tail[0], tail[1..]);
    }
  }

  // ---------- One query pass ----------

  /** A pass copies a "bearer ": no name with its '=' begins inside it. */
  lemma QueryCopiesBearer(seen: string, s: string, name: string)
    requires IsName(name)
    ensures StartsBearer(RedactQuery(seen, s, name)) <==> StartsBearer(s)
  {
    hide RedactQuery, StartsBearer, Cuts;
    var t := RedactQuery(seen, s, name);
    if StartsBearer(t) {
      QueryCuts(seen, s, name, false);
      StartsBearerMirror(s, t);
    }
    if StartsBearer(s) {
      BearerLetters(s);
      forall j | 0 <= j < 7
        ensures !(name + "=" <= s[j..])
      {
        NoNameInBearer(s, name, j);
      }
      QuerySkip(seen, s, name, 7);
      assert t[..7] == s[..7];
      StartsBearerHead(s, t);
    }
  }

  lemma NoNameInBearer(s: string, name: string, j: nat)
    requires IsName(name) && StartsBearer(s) && j < 7 && j <= |s|
    ensures !(name + "=" <= s[j..])
  {
    hide StartsBearer;
    NameHasNoBlank(name);
    BearerLetters(s);
    var w := name + "=";
    assert ' ' !in w && w[|name|] == '=';
    if w <= s[j..] {
      AtPrefix(s, j, w, 6 - j);
      if j + |name| < 7 {
        AtPrefix(s, j, w, |name|);
        assert s[0..] == s;
        BearerAt(s, 0, j + |name|);
      }
    }
  }

  lemma AtPrefix(s: string, j: nat, w: string, i: nat)
    requires j <= |s| && w <= s[j..]
    ensures i < |w| ==> j + i < |s| && s[j + i] == w[i] && w[i] in w
  {
  }

  /** What a query pass does to the number of "bearer ". */
  lemma {:induction false} QueryBearers(seen: string, s: string, name: string)
    requires IsName(name)
    ensures Bearers(RedactQuery(seen, s, name)) <= Bearers(s)
    ensures Bearers(RedactQuery(seen, s, name)) == Bearers(s) <==> NoWordReplaced(seen, s, name)
    decreases |s|
  {
    hide StartsBearer, PrefixOk, IsName, SkipValue, EndsInBearer;
    if s == [] {
    } else if name + "=" <= s {
      var rest := s[|name| + 1..];
      assert s == name + "=" + rest;
      BearersBehindName(name, rest);
      if PrefixOk(seen, s) {
        var tail := SkipValue(rest);
        QueryBearers([], tail, name);
        BearersBehindValue(rest);
        BearersBehindName(name, MARK + RedactQuery([], tail, name));
        BearersBehindMark(RedactQuery([], tail, name));
      } else {
        QueryBearers([], rest, name);
        BearersBehindName(name, RedactQuery([], rest, name));
      }
    } else {
      QueryBearers(seen + [s[0]], s[1..], name);
      QueryCopiesBearer(seen, s, name);
      ConsParts(s[0], RedactQuery(seen + [s[0]], s[1..], name));
    }
  }

  // ---------- The seven passes ----------

  predicate NoWordsReplaced(s: string, names: seq<string>)
    decreases |names|
  {
    names == [] || (NoWordReplaced([], s, names[0]) && NoWordsReplaced(RedactQuery([], s, names[0]), names[1..]))
  }

  lemma {:induction false} QueriesBearers(s: string, names: seq<string>)
    requires AreNames(names)
    ensures Bearers(RedactQueries(s, names)) <= Bearers(s)
    ensures Bearers(RedactQueries(s, names)) == Bearers(s) <==> NoWordsReplaced(s, names)
    decreases |names|
  {
    hide Bearers, NoWordReplaced, IsName;
    if names != [] {
      assert names[0] in names && forall n <- names[1..] :: n in names;
      QueryBearers([], s, names[0]);
      QueriesBearers(RedactQuery([], s, names[0]), names[1..]);
    }
  }

  /**
   What the promise to cut bearer tokens takes: every "bearer " of the logged text reaches the bearer
   pass, and in the output of all passes every one is followed by a short token. That is so if and
   only if no query pass takes a word away with a value, and the bearer pass steps over no long token.
   */
  lemma BearerPromiseExact(s: string)
    ensures Bearers(RedactQueries(s, PARAM_NAMES)) <= Bearers(s)
    ensures Bearers(RedactQueries(s, PARAM_NAMES)) == Bearers(s) && TokensShort(RedactSensitive(s))
            <==> NoWordsReplaced(s, PARAM_NAMES) && NoneMissed(RedactQueries(s, PARAM_NAMES))
  {
    hide Bearers, RedactQueries, RedactSensitive, TokensShort, NoneMissed, NoWordsReplaced, IsName;
    ParamNamesAreNames();
    QueriesBearers(s, PARAM_NAMES);
    SensitiveTokensExact(s);
  }
}
