/** The bearer pass changes nothing in its own output. */
module RedactionBearer {
  import opened Sequences
  import opened Text
  import opened Redaction
  import opened RedactionProofs

  lemma {:induction false} TokenLengthOf(u: string, s: string)
    requires (forall c <- u :: !EndsToken(c)) && (s == [] || EndsToken(s[0]))
    ensures TokenLength(u + s) == |u|
    decreases |u|
  {
    if u == [] {
      assert u + s == s;
    } else {
      assert u[0] in u && (u + s)[1..] == u[1..] + s;
      TokenLengthOf(u[1..], s);
    }
  }

  lemma TokenStops(s: string)
    ensures var n := TokenLength(s); n <= |s| && (n < |s| ==> EndsToken(s[n])) && forall c <- s[..n] :: !EndsToken(c)
  {
  }

  lemma BearerStart(s: string)
    requires s != [] && EndsToken(s[0])
    ensures RedactBearer(s) != [] && RedactBearer(s)[0] == s[0]
  {
    if StartsBearer(s) {
      assert Lower(s[..|BEARER|])[0] == 'b';
    }
  }

  lemma StartsBearerMirror(s: string, t: string)
    requires Cuts(s, t, false) && StartsBearer(t)
    ensures StartsBearer(s)
  {
    var w := t[..|BEARER|];
    forall i | 0 <= i < |w|
      ensures w[i] != '['
    {
      assert Lower(w)[i] == BEARER[i];
      assert BEARER[i] != '[';
    }
    CutsMirror(s, t, false, w);
    assert s[..|BEARER|] == w;
  }

  lemma ShortKeyAgain(token: string)
    requires forall c <- token :: !EndsToken(c)
    ensures ShortKey(ShortKey(token)) == ShortKey(token) && forall c <- ShortKey(token) :: !EndsToken(c)
  {
    if |token| > 8 {
      assert (token[..8] + MARK)[..8] == token[..8];
    }
  }

  lemma BearerStep(s: string)
    requires StartsBearer(s) && |s| >= |BEARER|
    ensures var rest := s[|BEARER|..]; var n := TokenLength(rest);
            RedactBearer(s) == s[..|BEARER|] + ShortKey(rest[..n]) + RedactBearer(rest[n..])
  {
    hide StartsBearer, ShortKey, TokenLength;
  }

  lemma BearerTokenAgain(s: string, rest: string, n: nat, tail: string)
    requires StartsBearer(s) && |s| >= |BEARER| && rest == s[|BEARER|..] && n == TokenLength(rest)
    requires tail == RedactBearer(rest[n..]) && RedactBearer(tail) == tail
    ensures RedactBearer(RedactBearer(s)) == RedactBearer(s)
  {
    hide StartsBearer, ShortKey, TokenLength, RedactBearer;
    var head, token := s[..|BEARER|], ShortKey(rest[..n]);
    ShortKeyAgain(rest[..n]);
    TokenStops(rest);
    if n < |rest| {
      assert rest[n..][0] == rest[n];
      BearerStart(rest[n..]);
    } else {
      assert rest[n..] == [];
      BearerNothing();
    }
    assert tail == [] || EndsToken(tail[0]);
    TokenLengthOf(token, tail);
    var t := RedactBearer(s);
    BearerStep(s);
    Assoc(head, token, tail);
    BearerSplit(head, token, tail);
    StartsBearerHead(s, t);
    BearerStep(t);
  }

  lemma BearerNothing()
    ensures RedactBearer([]) == []
  {
  }

  lemma {:induction false} BearerIdempotent(s: string)
    ensures RedactBearer(RedactBearer(s)) == RedactBearer(s)
    decreases |s|
  {
    hide StartsBearer, ShortKey, Cuts;
    if s != [] {
      StartsBearerLong(s);
      var t := RedactBearer(s);
      if StartsBearer(s) {
        var rest := s[|BEARER|..];
        var n := TokenLength(rest);
        BearerIdempotent(rest[n..]);
        BearerTokenAgain(s, rest, n, RedactBearer(rest[n..]));
      } else {
        BearerIdempotent(s[1..]);
        BearerCuts(s, false);
        ConsParts(s[0], RedactBearer(s[1..]));
        if StartsBearer(t) {
          StartsBearerMirror(s, t);
        }
      }
    }
  }

  lemma BearerSplit(head: string, token: string, tail: string)
    requires |head| == |BEARER|
    ensures (head + (token + tail))[..|BEARER|] == head && (head + (token + tail))[|BEARER|..] == token + tail
    ensures (token + tail)[..|token|] == token && (token + tail)[|token|..] == tail
  {
  }

  lemma StartsBearerHead(s: string, t: string)
    requires StartsBearer(s) && |t| >= |BEARER| && t[..|BEARER|] == s[..|BEARER|]
    ensures StartsBearer(t)
  {
  }

  // ---------- Which tokens are left long ----------

  /** What the bearer pass leaves of a token: at most eight characters, or eight and the mark. */
  predicate IsShort(token: string) { |token| <= 8 || (|token| == 8 + |MARK| && token[8..] == MARK) }

  function TokenOf(s: string): string { s[..TokenLength(s)] }

  /** Every "bearer " of the text is followed by a short token. */
  ghost predicate TokensShort(s: string) {
    forall j | 0 <= j && j + |BEARER| <= |s| && StartsBearer(s[j..]) :: IsShort(TokenOf(s[j + |BEARER|..]))
  }

  predicate TokensShortFrom(s: string) {
    && (|s| >= |BEARER| && StartsBearer(s) ==> IsShort(TokenOf(s[|BEARER|..])))
    && (s != [] ==> TokensShortFrom(s[1..]))
  }

  const WORD := "bearer"

  predicate EndsInBearer(u: string) { |u| >= |WORD| && Lower(u[|u| - |WORD|..]) == WORD }

  /**
   The pass steps over a "bearer " whose word ends the token before it. Then the token behind it is
   left as it is, and all is well only if the token before it is cut, or the one behind it is short.
   */
  predicate NoneMissed(s: string)
    decreases |s|
  {
    if s == [] then true
    else if StartsBearer(s) then
      var rest := s[|BEARER|..];
      var n := TokenLength(rest);
      && (n <= 8 && EndsInBearer(rest[..n]) && n < |rest| && rest[n] == ' ' ==> IsShort(TokenOf(rest[n + 1..])))
      && NoneMissed(rest[n..])
    else NoneMissed(s[1..])
  }

  lemma {:induction false} TokensShortIsLocal(s: string)
    ensures TokensShort(s) <==> TokensShortFrom(s)
    decreases |s|
  {
    hide StartsBearer, IsShort, TokenOf;
    assert s[0..] == s;
    if s != [] {
      var tail := s[1..];
      TokensShortIsLocal(tail);
      if TokensShort(s) {
        forall j | 0 <= j && j + |BEARER| <= |tail| && StartsBearer(tail[j..])
          ensures IsShort(TokenOf(tail[j + |BEARER|..]))
        {
          assert tail[j..] == s[j + 1..] && tail[j + |BEARER|..] == s[j + 1 + |BEARER|..];
        }
      }
      if TokensShortFrom(s) {
        forall j | 0 <= j && j + |BEARER| <= |s| && StartsBearer(s[j..])
          ensures IsShort(TokenOf(s[j + |BEARER|..]))
        {
          if j > 0 {
            assert tail[j - 1..] == s[j..] && tail[j - 1 + |BEARER|..] == s[j + |BEARER|..];
          }
        }
      }
    }
  }

  /** "bearer " is a letter-by-letter match of six letters and a blank. */
  lemma BearerLetters(s: string)
    requires StartsBearer(s)
    ensures |s| >= |BEARER| && s[6] == ' ' && LowerChar(s[0]) == 'b' && Lower(s[..6]) == WORD
    ensures forall i | 0 <= i < 6 :: !EndsToken(s[i]) && (i > 0 ==> LowerChar(s[i]) != 'b')
  {
    var w := s[..|BEARER|];
    assert forall i | 0 <= i < |BEARER| :: LowerChar(w[i]) == BEARER[i] && w[i] == s[i];
    assert BEARER[0] == 'b' && BEARER[1] == 'e' && BEARER[2] == 'a' && BEARER[3] == 'r' && BEARER[4] == 'e';
    assert BEARER[5] == 'r' && BEARER[6] == ' ' && BEARER[..6] == WORD;
    assert Lower(s[..6]) == Lower(w)[..6];
  }

  lemma BearerFrom(u: string, tail: string)
    requires |u| == 6 && Lower(u) == WORD && tail != [] && tail[0] == ' '
    ensures StartsBearer(u + tail)
  {
    var w := (u + tail)[..|BEARER|];
    assert w == u + [' '] && Lower(w) == Lower(u) + [' '];
    assert WORD + [' '] == BEARER;
  }

  lemma NoBearerHere(s: string)
    requires s == [] || LowerChar(s[0]) != 'b'
    ensures !StartsBearer(s)
  {
    if StartsBearer(s) {
      BearerLetters(s);
    }
  }

  /** Characters that do not start the word add nothing. */
  lemma {:induction false} TokensBehind(m: string, t: string)
    requires forall c <- m :: LowerChar(c) != 'b'
    ensures TokensShortFrom(m + t) <==> TokensShortFrom(t)
    decreases |m|
  {
    hide StartsBearer, IsShort, TokenOf;
    if m == [] {
      assert m + t == t;
    } else {
      assert m[0] in m && (m + t)[0] == m[0] && (m + t)[1..] == m[1..] + t && forall c <- m[1..] :: c in m;
      NoBearerHere(m + t);
      TokensBehind(m[1..], t);
    }
  }

  /** Inside a token only its last six letters can be the word of a "bearer ". */
  lemma {:induction false} TokensInside(u: string, tail: string)
    requires (forall c <- u :: !EndsToken(c)) && (tail == [] || EndsToken(tail[0]))
    ensures TokensShortFrom(u + tail)
            <==> TokensShortFrom(tail)
                 && (EndsInBearer(u) && tail != [] && tail[0] == ' ' ==> IsShort(TokenOf(tail[1..])))
    decreases |u|
  {
    hide StartsBearer, IsShort, TokenOf, EndsToken;
    if u == [] {
      assert u + tail == tail;
    } else {
      assert (u + tail)[1..] == u[1..] + tail && forall c <- u[1..] :: c in u;
      TokensInside(u[1..], tail);
      BearerInside(u, tail);
      if |u| > 6 {
        assert u[1..][|u| - 1 - 6..] == u[|u| - 6..];
      } else if |u| == 6 {
        assert u[0..] == u && (tail != [] ==> (u + tail)[|BEARER|..] == tail[1..]);
      }
    }
  }

  lemma BearerInside(u: string, tail: string)
    requires u != [] && (forall c <- u :: !EndsToken(c)) && (tail == [] || EndsToken(tail[0]))
    ensures StartsBearer(u + tail) <==> |u| == 6 && Lower(u) == WORD && tail != [] && tail[0] == ' '
  {
    hide StartsBearer, EndsToken;
    var s := u + tail;
    BlankEnds();
    if StartsBearer(s) {
      BearerLetters(s);
      InOrBehind(u, tail, 6);
      if |u| < 6 {
        InOrBehind(u, tail, |u|);
      }
      assert |u| == 6 ==> s[..6] == u;
    }
    if |u| == 6 && Lower(u) == WORD && tail != [] && tail[0] == ' ' {
      BearerFrom(u, tail);
    }
  }

  lemma BlankEnds()
    ensures EndsToken(' ')
  {
  }

  lemma InOrBehind(u: string, tail: string, i: nat)
    requires i < |u| + |tail|
    ensures i < |u| ==> (u + tail)[i] in u
    ensures i == |u| ==> (u + tail)[i] == tail[0]
  {
  }

  /** A token keeps its text when the pass reads it as ordinary characters. */
  lemma {:induction false} TokenThroughBearer(x: string)
    ensures TokenOf(RedactBearer(x)) == TokenOf(x)
    decreases |x|
  {
    hide StartsBearer, ShortKey, EndsToken;
    var t := RedactBearer(x);
    if x == [] {
    } else if EndsToken(x[0]) {
      BearerStart(x);
    } else if StartsBearer(x) {
      BearerLetters(x);
      BlankEnds();
      var rest := x[|BEARER|..];
      BearerStep(x);
      assert t[..|BEARER|] == x[..|BEARER|];
      TokenUpTo(x, 6);
      TokenUpTo(t, 6);
      assert t[..6] == x[..6];
    } else {
      TokenThroughBearer(x[1..]);
      ConsParts(x[0], RedactBearer(x[1..]));
      TokenCons(x);
      TokenCons(t);
    }
  }

  lemma TokenCons(s: string)
    requires s != [] && !EndsToken(s[0])
    ensures TokenOf(s) == [s[0]] + TokenOf(s[1..])
  {
  }

  lemma {:induction false} TokenUpTo(s: string, n: nat)
    requires n < |s| && EndsToken(s[n]) && forall i | 0 <= i < n :: !EndsToken(s[i])
    ensures TokenLength(s) == n
    decreases n
  {
    if n > 0 {
      TokenUpTo(s[1..], n - 1);
    }
  }

  lemma ShortKeyShort(token: string)
    ensures IsShort(ShortKey(token))
  {
  }

  /** What is kept of a token ends in "bearer" only if the token does and is not cut. */
  lemma ShortKeyEnds(token: string)
    ensures EndsInBearer(ShortKey(token)) <==> |token| <= 8 && EndsInBearer(token)
  {
    if |token| > 8 {
      var k := token[..8] + MARK;
      var last := k[|k| - |WORD|..];
      assert last[5] == ']' && Lower(last)[5] == ']' && WORD[5] == 'r';
    }
  }

  lemma HeadTokens(s: string, t: string)
    requires StartsBearer(s) && |t| >= |BEARER| && t[..|BEARER|] == s[..|BEARER|]
    ensures TokensShortFrom(t) <==> IsShort(TokenOf(t[|BEARER|..])) && TokensShortFrom(t[|BEARER|..])
  {
    hide StartsBearer, IsShort, TokenOf, TokensShortFrom;
    StartsBearerHead(s, t);
    BearerLetters(t);
    var m, rest := t[1..|BEARER|], t[|BEARER|..];
    assert t[1..] == m + rest;
    assert forall i | 0 <= i < 6 :: m[i] == t[i + 1];
    BlankIsNoB();
    TokensBehind(m, rest);
    TokensUnfold(t);
  }

  lemma BlankIsNoB()
    ensures LowerChar(' ') != 'b'
  {
  }

  lemma TokensUnfold(s: string)
    requires s != []
    ensures TokensShortFrom(s)
            <==> (|s| >= |BEARER| && StartsBearer(s) ==> IsShort(TokenOf(s[|BEARER|..]))) && TokensShortFrom(s[1..])
  {
  }

  lemma BearerBlockTokens(s: string)
    requires StartsBearer(s) && |s| >= |BEARER|
    ensures var rest := s[|BEARER|..]; var n := TokenLength(rest);
            TokensShortFrom(RedactBearer(s))
            <==> TokensShortFrom(RedactBearer(rest[n..]))
                 && (n <= 8 && EndsInBearer(rest[..n]) && n < |rest| && rest[n] == ' ' ==>
                       IsShort(TokenOf(rest[n + 1..])))
  {
    hide StartsBearer, IsShort, TokensShortFrom, RedactBearer, EndsToken, EndsInBearer;
    var head, rest := s[..|BEARER|], s[|BEARER|..];
    var n := TokenLength(rest);
    var kept, tail := ShortKey(rest[..n]), RedactBearer(rest[n..]);
    BearerStep(s);
    Assoc(head, kept, tail);
    BearerSplit(head, kept, tail);
    TokenStops(rest);
    ShortKeyAgain(rest[..n]);
    TailTokens(rest[n..]);
    HeadTokens(s, RedactBearer(s));
    TokenLengthOf(kept, tail);
    ShortKeyShort(rest[..n]);
    ShortKeyEnds(rest[..n]);
    TokensInside(kept, tail);
    assert n < |rest| ==> rest[n..][0] == rest[n] && rest[n..][1..] == rest[n + 1..];
  }

  /** The text behind a token: its first character stays, and so does a token behind a blank. */
  lemma TailTokens(x: string)
    requires x == [] || EndsToken(x[0])
    ensures var t := RedactBearer(x);
            && (t == [] <==> x == []) && (x != [] ==> t[0] == x[0])
            && (x != [] && x[0] == ' ' ==> TokenOf(t[1..]) == TokenOf(x[1..]))
  {
    hide TokenOf, EndsToken;
    if x != [] {
      BearerStart(x);
      if x[0] == ' ' {
        BlankIsNoB();
        NoBearerHere(x);
        ConsParts(x[0], RedactBearer(x[1..]));
        TokenThroughBearer(x[1..]);
      }
    }
  }

  lemma {:induction false} TokensFromExactly(s: string)
    ensures TokensShortFrom(RedactBearer(s)) <==> NoneMissed(s)
    decreases |s|
  {
    hide StartsBearer, IsShort, TokenOf, EndsInBearer, ShortKey;
    if s != [] {
      StartsBearerLong(s);
      var t := RedactBearer(s);
      if StartsBearer(s) {
        var rest := s[|BEARER|..];
        TokensFromExactly(rest[TokenLength(rest)..]);
        BearerBlockTokens(s);
      } else {
        TokensFromExactly(s[1..]);
        BearerCuts(s, false);
        ConsParts(s[0], RedactBearer(s[1..]));
        TokensUnfold(t);
        if StartsBearer(t) {
          StartsBearerMirror(s, t);
        }
      }
    }
  }

  /**
   Behind the bearer pass every "bearer " is followed by a short token, if and only if the pass
   stepped over none whose token was long.
   */
  lemma BearerTokensExact(s: string)
    ensures TokensShort(RedactBearer(s)) <==> NoneMissed(s)
  {
    TokensFromExactly(s);
    TokensShortIsLocal(RedactBearer(s));
  }

  /** In "bearer bearer X" the second word is the first token, so `X` is not cut, however long. */
  lemma TokenMissed(token: string)
    requires !IsShort(token) && forall c <- token :: !EndsToken(c)
    ensures !TokensShort(RedactBearer(BEARER + (WORD + ([' '] + token))))
  {
    hide EndsToken, TokensShort, IsShort, RedactBearer, TokenLength;
    var rest := WORD + ([' '] + token);
    var s := BEARER + rest;
    BlankEnds();
    WordIsToken();
    assert s[..|BEARER|] == BEARER && s[|BEARER|..] == rest;
    TokenLengthOf(WORD, [' '] + token);
    assert rest[..6] == WORD && rest[6] == ' ' && rest[7..] == token;
    TokenLengthOf(token, []);
    assert token + [] == token && token[..|token|] == token;
    assert !NoneMissed(s);
    BearerTokensExact(s);
  }

  lemma WordIsToken()
    ensures Lower(BEARER) == BEARER && EndsInBearer(WORD) && forall c <- WORD :: !EndsToken(c)
  {
    assert WORD[0..] == WORD && Lower(WORD) == WORD;
  }
}
