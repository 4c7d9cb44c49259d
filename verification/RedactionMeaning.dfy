/**
 The redaction passes in plain text: which characters make a key, where a token and a value end, the
 prefixes, names and the mark, all written out. What is said here of `RedactSensitive` and of the
 passes mentions none of the scanners that compute them.
 */
module RedactionMeaning {
  import opened Sequences
  import opened Text
  import opened Utf8
  import opened Redaction
  import opened RedactionProofs
  import opened RedactionValues
  import opened RedactionBearer
  import opened RedactionMarks
  import opened RedactionCode

  lemma KeyCharExact(c: char)
    ensures IsKeyChar(c) <==> c in WORD_CHARS
  {
    WordCharExact(c);
  }

  predicate AllKeyChars(s: string) { forall i | 0 <= i < |s| :: s[i] in WORD_CHARS }

  lemma KeyRunExact(run: string, rest: string)
    requires AllKeyChars(run) && (rest == [] || rest[0] !in WORD_CHARS)
    ensures KeyRun(run + rest) == |run|
  {
    hide IsKeyChar;
    forall c: char
      ensures IsKeyChar(c) <==> c in WORD_CHARS
    {
      KeyCharExact(c);
    }
    KeyRunOf(run, rest);
    KeyRunNone(rest);
  }

  lemma KeyRunNone(s: string)
    ensures s == [] || !IsKeyChar(s[0]) ==> KeyRun(s) == 0
  {
  }

  // ---------- Keys ----------

  /** What is left of a long key or token: eight characters and the mark. */
  function Kept(text: string): string { if |text| <= 8 then text else text[..8] + "[REDACTED]" }

  lemma KeptIsShortKey(text: string)
    ensures ShortKey(text) == Kept(text)
  {
  }

  /**
   What a key pass makes of the first key of a text: up to eight key characters behind the prefix are
   kept, more are cut. The run ends at any other character or with the text.
   */
  lemma FirstKey(head: string, prefix: string, run: string, rest: string)
    requires prefix != [] && AllKeyChars(run) && (rest == [] || rest[0] !in WORD_CHARS)
    requires forall j | 0 <= j < |head| :: !(prefix <= (head + prefix + run + rest)[j..])
    ensures RedactPrefixedKey(head + prefix + run + rest, prefix)
            == head + prefix + Kept(run) + RedactPrefixedKey(rest, prefix)
  {
    hide RedactPrefixedKey, KeyRun, ShortKey, Kept, AllKeyChars;
    var s := head + prefix + run + rest;
    FourParts(head, prefix, run, rest);
    KeyTurn(s, prefix, |head|);
    KeyRunExact(run, rest);
    KeptIsShortKey(run);
    assert (run + rest)[..|run|] == run && (run + rest)[|run|..] == rest;
  }

  lemma FourParts(a: string, b: string, c: string, d: string)
    ensures var s := a + b + c + d;
            && s[|a|..] == b + c + d && b <= s[|a|..] && s[..|a| + |b|] == a + b && s[|a| + |b|..] == c + d
  {
  }

  /**
   In the output of all passes, for any text, none of the six prefixes is followed by nine key
   characters.
   */
  lemma NoLongKeyLeft(s: string, prefix: string, i: nat)
    requires prefix in ["sk-", "eavs-", "api-", "key-", "pk-", "rk-"]
    requires i + |prefix| + 9 <= |RedactSensitive(s)| && RedactSensitive(s)[i..i + |prefix|] == prefix
    ensures exists k | i + |prefix| <= k < i + |prefix| + 9 :: RedactSensitive(s)[k] !in WORD_CHARS
  {
    hide RedactSensitive, KeyRun, RedactPrefixedKeys;
    assert prefix in KEY_PREFIXES;
    SensitiveKeysShort(s, prefix);
    var t := RedactSensitive(s);
    LongRunBehind(t, prefix, i);
  }

  lemma SensitiveKeysShort(s: string, prefix: string)
    requires prefix in KEY_PREFIXES
    ensures KeysShort(RedactSensitive(s), prefix)
  {
    hide KeysShort, RedactPrefixedKeys, RedactBearer, RedactQueries;
    KeyPatternsRedacted(RedactBearer(RedactQueries(s, PARAM_NAMES)));
  }

  lemma LongRunBehind(t: string, prefix: string, i: nat)
    requires KeysShort(t, prefix) && i + |prefix| + 9 <= |t| && t[i..i + |prefix|] == prefix
    ensures exists k | i + |prefix| <= k < i + |prefix| + 9 :: t[k] !in WORD_CHARS
  {
    hide KeyRun, IsKeyChar;
    assert t[i..][..|prefix|] == prefix;
    var rest := t[i + |prefix|..];
    var n := KeyRun(rest);
    KeyRunStops(rest);
    KeyCharExact(rest[n]);
    assert t[i + |prefix| + n] !in WORD_CHARS;
  }

  // ---------- Bearer tokens ----------

  /** "bearer " in letters of either case. */
  predicate BearerWord(w: string) {
    && |w| == 7
    && (w[0] == 'b' || w[0] == 'B') && (w[1] == 'e' || w[1] == 'E') && (w[2] == 'a' || w[2] == 'A')
    && (w[3] == 'r' || w[3] == 'R') && (w[4] == 'e' || w[4] == 'E') && (w[5] == 'r' || w[5] == 'R') && w[6] == ' '
  }

  predicate WordAt(s: string, i: nat) { i + 7 <= |s| && BearerWord(s[i..i + 7]) }

  lemma BearerWordExact(w: string)
    requires |w| == 7
    ensures Lower(w) == BEARER <==> BearerWord(w)
  {
    var low := Lower(w);
    assert low == BEARER <==> low[0] == 'b' && low[1] == 'e' && low[2] == 'a' && low[3] == 'r' && low[4] == 'e'
                              && low[5] == 'r' && low[6] == ' ';
  }

  lemma StartsBearerExact(s: string)
    ensures StartsBearer(s) <==> |s| >= 7 && BearerWord(s[..7])
  {
    if |s| >= 7 {
      BearerWordExact(s[..7]);
    }
  }

  /** A token goes on to white space, a quotation mark or the end. */
  predicate TokenChar(c: char) { c !in WHITE_SPACE && c != '"' && c != '\'' }

  predicate AllTokenChars(s: string) { forall i | 0 <= i < |s| :: TokenChar(s[i]) }

  lemma TokenCharExact(c: char)
    ensures EndsToken(c) <==> !TokenChar(c)
  {
    WhitespaceExact(c);
  }

  lemma TokenLengthExact(token: string, rest: string)
    requires AllTokenChars(token) && (rest == [] || !TokenChar(rest[0]))
    ensures TokenLength(token + rest) == |token|
  {
    hide EndsToken, TokenChar;
    forall c: char
      ensures EndsToken(c) <==> !TokenChar(c)
    {
      TokenCharExact(c);
    }
    TokenLengthOf(token, rest);
  }

  lemma WordExact(s: string, i: nat)
    requires i <= |s|
    ensures StartsBearer(s[i..]) <==> WordAt(s, i)
  {
    hide StartsBearer, BearerWord;
    StartsBearerExact(s[i..]);
    if i + 7 <= |s| {
      assert s[i..][..7] == s[i..i + 7];
    }
  }

  /** What the bearer pass makes of the first bearer token of a text. */
  lemma FirstToken(head: string, word: string, token: string, rest: string)
    requires BearerWord(word) && AllTokenChars(token) && (rest == [] || !TokenChar(rest[0]))
    requires forall j | 0 <= j < |head| :: !WordAt(head + word + token + rest, j)
    ensures RedactBearer(head + word + token + rest) == head + word + Kept(token) + RedactBearer(rest)
  {
    hide RedactBearer, StartsBearer, TokenLength, ShortKey, Kept, AllTokenChars, BearerWord, WordAt, TokenChar;
    var s := head + word + token + rest;
    WordLength(word);
    FourParts(head, word, token, rest);
    forall j | 0 <= j < |head|
      ensures !StartsBearer(s[j..])
    {
      WordExact(s, j);
    }
    WordStands(head, word, token + rest);
    WordExact(s, |head|);
    Assoc(head + word, token, rest);
    BearerTurn(s, |head|);
    TokenLengthExact(token, rest);
    KeptIsShortKey(token);
    assert (token + rest)[..|token|] == token && (token + rest)[|token|..] == rest;
  }

  lemma WordStands(head: string, word: string, rest: string)
    requires BearerWord(word)
    ensures WordAt(head + word + rest, |head|)
  {
    assert (head + word + rest)[|head|..|head| + 7] == word;
  }

  lemma WordLength(word: string)
    requires BearerWord(word)
    ensures |word| == 7 && |BEARER| == 7
  {
  }

  /** A token that is short, or was cut. */
  predicate ShortOrCut(token: string) { |token| <= 8 || (|token| == 18 && token[8..] == "[REDACTED]") }

  /** Wherever the word stands, with whatever token behind it. */
  ghost predicate EveryTokenShort(t: string) {
    forall head, word, token, rest |
      && t == head + word + token + rest && BearerWord(word)
      && AllTokenChars(token) && (rest == [] || !TokenChar(rest[0])) :: ShortOrCut(token)
  }

  lemma TokenHere(head: string, word: string, token: string, rest: string)
    requires TokensShort(head + word + token + rest) && BearerWord(word)
    requires AllTokenChars(token) && (rest == [] || !TokenChar(rest[0]))
    ensures ShortOrCut(token)
  {
    hide StartsBearer, TokenLength, AllTokenChars, BearerWord, WordAt, TokenChar, TokensShort;
    var t := head + word + token + rest;
    WordLength(word);
    FourParts(head, word, token, rest);
    WordStands(head, word, token + rest);
    Assoc(head + word, token, rest);
    WordExact(t, |head|);
    TokenLengthExact(token, rest);
    assert (token + rest)[..|token|] == token;
    ShortAt(t, |head|);
  }

  lemma ShortAt(t: string, j: nat)
    requires TokensShort(t) && j + |BEARER| <= |t| && StartsBearer(t[j..])
    ensures IsShort(TokenOf(t[j + |BEARER|..]))
  {
  }

  lemma TokenThere(t: string, j: nat)
    requires EveryTokenShort(t) && j + |BEARER| <= |t| && StartsBearer(t[j..])
    ensures IsShort(TokenOf(t[j + |BEARER|..]))
  {
    hide StartsBearer, TokenLength, AllTokenChars, BearerWord, TokenChar;
    WordExact(t, j);
    var word, behind := t[j..j + 7], t[j + 7..];
    var n := TokenLength(behind);
    TokenParts(behind);
    assert t == t[..j] + word + behind[..n] + behind[n..];
    assert ShortOrCut(behind[..n]);
  }

  /** What `TokensShort` says, in these words. */
  lemma TokensShortExact(t: string)
    ensures TokensShort(t) <==> EveryTokenShort(t)
  {
    hide StartsBearer, TokenLength, AllTokenChars, BearerWord, TokenChar, IsShort, ShortOrCut, TokenOf;
    if TokensShort(t) {
      forall head, word, token, rest |
        && t == head + word + token + rest && BearerWord(word)
        && AllTokenChars(token) && (rest == [] || !TokenChar(rest[0]))
        ensures ShortOrCut(token)
      {
        TokenHere(head, word, token, rest);
      }
    }
    if EveryTokenShort(t) {
      forall j | 0 <= j && j + |BEARER| <= |t| && StartsBearer(t[j..])
        ensures IsShort(TokenOf(t[j + |BEARER|..]))
      {
        TokenThere(t, j);
      }
    }
  }

  lemma TokenParts(s: string)
    ensures var n := TokenLength(s);
            n <= |s| && AllTokenChars(s[..n]) && (s[n..] == [] || !TokenChar(s[n..][0]))
  {
    hide EndsToken, TokenChar;
    forall c: char
      ensures EndsToken(c) <==> !TokenChar(c)
    {
      TokenCharExact(c);
    }
  }

  // ---------- Query parameters ----------

  /** The character codes of a text. */
  function Codes(s: string): (ns: seq<int>)
    ensures |ns| == |s| && AllScalars(ns) && forall i | 0 <= i < |s| :: ns[i] == s[i] as int
  {
    seq(|s|, i requires 0 <= i < |s| => s[i] as int)
  }

  /** A byte offset counts the bytes of the text's UTF-8 encoding. */
  lemma {:induction false} BytesExact(s: string)
    ensures Bytes(s) == |EncodedAll(Codes(s))|
  {
    if s != [] {
      BytesExact(s[1..]);
      assert Codes(s)[1..] == Codes(s[1..]);
    }
  }

  /** A value goes on to an ampersand, a blank, the end of the line or the end. */
  predicate ValueChar(c: char) { c !in "& \n" }

  predicate AllValueChars(s: string) { forall i | 0 <= i < |s| :: ValueChar(s[i]) }

  lemma {:induction false} SkipValueExact(value: string, rest: string)
    requires AllValueChars(value) && (rest == [] || !ValueChar(rest[0]))
    ensures SkipValue(value + rest) == rest
    decreases |value|
  {
    if value == [] {
      assert value + rest == rest;
    } else {
      assert (value + rest)[1..] == value[1..] + rest;
      SkipValueExact(value[1..], rest);
    }
  }

  /** The first match is at the start, or the character the source looks at is a separator. */
  predicate Opened(head: string, s: string) {
    head == [] || (|EncodedAll(Codes(head))| - 1 < |s| && s[|EncodedAll(Codes(head))| - 1] in "?&")
  }

  lemma OpenedExact(head: string, s: string)
    ensures Opened(head, head + s) <==> PrefixOk(head, s)
  {
    BytesExact(head);
  }

  /** What a query pass makes of the first `name=` of a text, and of the value behind it. */
  lemma FirstParameterValue(head: string, name: string, value: string, rest: string)
    requires AllValueChars(value) && (rest == [] || !ValueChar(rest[0]))
    requires forall j | 0 <= j < |head| :: !(name + "=" <= (head + (name + "=") + value + rest)[j..])
    ensures var s := head + (name + "=") + value + rest;
            RedactQuery([], s, name)
            == if Opened(head, s) then head + (name + "=") + "[REDACTED]" + RedactQuery([], rest, name)
               else head + (name + "=") + RedactQuery([], value + rest, name)
  {
    hide RedactQuery, PrefixOk, SkipValue, AllValueChars, Opened;
    var s := head + (name + "=") + value + rest;
    FourParts(head, name + "=", value, rest);
    QueryTurn(s, name, |head|);
    SkipValueExact(value, rest);
    assert s == head + s[|head|..] && s[..|head|] == head;
    OpenedExact(head, s[|head|..]);
    assert head + (name + "=") + [] == head + (name + "=");
  }

  /** On ASCII the character looked at is the one before the name. */
  lemma OpenedOnAscii(head: string, s: string)
    requires Ascii(head) && head <= s
    ensures Opened(head, s) <==> head == [] || head[|head| - 1] in "?&"
  {
    AsciiBytes(head);
    BytesExact(head);
  }

  /**
   On ASCII, in the output of the query passes, each of the seven names at the start or behind a
   separator is followed by "=[REDACTED]", and that by '&', a blank, the end of the line or the end.
   */
  lemma EveryValueHidden(s: string, name: string, i: nat)
    requires Ascii(s) && name in ["api_key", "key", "token", "secret", "password", "api-key", "apikey"]
    requires i <= |RedactQueries(s, PARAM_NAMES)| && name + "=" <= RedactQueries(s, PARAM_NAMES)[i..]
    requires i == 0 || RedactQueries(s, PARAM_NAMES)[i - 1] in "?&"
    ensures var behind := RedactQueries(s, PARAM_NAMES)[i + |name| + 1..];
            "[REDACTED]" <= behind && (|behind| == 10 || behind[10] in "& \n")
  {
    hide RedactQueries, ValuesCovered;
    QueriesRedacted(s);
    assert name in PARAM_NAMES;
    ValueHidden(RedactQueries(s, PARAM_NAMES), name, i);
  }

  lemma ValueHidden(t: string, name: string, i: nat)
    requires ValuesCovered(t, name, Whole) && i <= |t| && name + "=" <= t[i..] && (i == 0 || t[i - 1] in "?&")
    ensures var behind := t[i + |name| + 1..];
            "[REDACTED]" <= behind && (|behind| == 10 || behind[10] in "& \n")
  {
    assert i > 0 ==> OpensParam(t[i - 1]);
    assert ParamPosition(t, i);
    assert Covered(t[i + |name| + 1..], Whole);
    assert |MARK| == 10;
  }

  /** How many characters of a cut mark may stand before the whole one, given the name. */
  function MarkSlack(name: string): nat { if name == "key" then 3 else if name == "token" then 1 else 0 }

  /** What may stand behind a name in the log: the mark, after at most a few characters of another one. */
  ghost predicate MarkBehind(behind: string, slack: nat) {
    exists k: nat | k <= slack && k <= 10 :: MarkFrom(behind, k)
  }

  predicate MarkFrom(behind: string, k: nat)
    requires k <= 10
  {
    && "[REDACTED]"[..k] + "[REDACTED]" <= behind
    && (|behind| == 10 + k || behind[10 + k] == '&' || !TokenChar(behind[10 + k]))
  }

  /** On ASCII, what follows any of the seven names in the output of all passes. */
  lemma EveryValueMarked(s: string, name: string, i: nat)
    requires Ascii(s) && name in ["api_key", "key", "token", "secret", "password", "api-key", "apikey"]
    requires i <= |RedactSensitive(s)| && name + "=" <= RedactSensitive(s)[i..]
    requires i == 0 || RedactSensitive(s)[i - 1] in "?&"
    ensures MarkBehind(RedactSensitive(s)[i + |name| + 1..], MarkSlack(name))
  {
    hide RedactSensitive, ValuesCovered, MarkBehind;
    SensitiveRedacted(s);
    assert name in PARAM_NAMES;
    SlackSpelled(name);
    ValueMarked(RedactSensitive(s), name, i, Slack(name));
  }

  lemma SlackSpelled(name: string)
    requires name in ["api_key", "key", "token", "secret", "password", "api-key", "apikey"]
    ensures Slack(name) == MarkSlack(name)
  {
    SlackOfNames();
  }

  lemma ValueMarked(t: string, name: string, i: nat, slack: nat)
    requires ValuesCovered(t, name, UpTo(slack)) && i <= |t| && name + "=" <= t[i..] && (i == 0 || t[i - 1] in "?&")
    ensures MarkBehind(t[i + |name| + 1..], slack)
  {
    hide EndsToken, TokenChar;
    var behind := t[i + |name| + 1..];
    assert i > 0 ==> OpensParam(t[i - 1]);
    assert ParamPosition(t, i);
    assert Covered(behind, UpTo(slack));
    assert |MARK| == 10;
    var k: nat :| k <= slack && k <= |MARK| && IsStruck(behind, k);
    assert |Struck(k)| == 10 + k;
    if |behind| > 10 + k {
      TokenCharExact(behind[10 + k]);
    }
    assert MarkFrom(behind, k);
  }

  // ---------- All passes ----------

  /** The passes of `redact_sensitive`, one after the other. */
  lemma PassesSpelled(s: string)
    ensures var named := RedactQuery([], RedactQuery([], RedactQuery([], s, "api_key"), "key"), "token");
            var more := RedactQuery([], RedactQuery([], named, "secret"), "password");
            var queries := RedactQuery([], RedactQuery([], more, "api-key"), "apikey");
            var keys := RedactPrefixedKey(RedactPrefixedKey(RedactBearer(queries), "sk-"), "eavs-");
            var last := RedactPrefixedKey(RedactPrefixedKey(keys, "api-"), "key-");
            RedactSensitive(s) == RedactPrefixedKey(RedactPrefixedKey(last, "pk-"), "rk-")
  {
    hide RedactQuery, RedactPrefixedKey, RedactBearer;
    SevenQueries(s, "api_key", "key", "token", "secret", "password", "api-key", "apikey");
    SixKeys(RedactBearer(RedactQueries(s, PARAM_NAMES)), "sk-", "eavs-", "api-", "key-", "pk-", "rk-");
  }

  lemma SevenQueries(s: string, a: string, b: string, c: string, d: string, e: string, f: string, g: string)
    ensures RedactQueries(s, [a, b, c, d, e, f, g])
         == RedactQuery([], RedactQuery([], RedactQuery([], RedactQuery([], RedactQuery([], RedactQuery([],
              RedactQuery([], s, a), b), c), d), e), f), g)
  {
    hide RedactQuery;
    var one := RedactQuery([], s, a);
    var two := RedactQuery([], one, b);
    var three := RedactQuery([], two, c);
    var four := RedactQuery([], three, d);
    var five := RedactQuery([], four, e);
    var six := RedactQuery([], five, f);
    assert [a, b, c, d, e, f, g][1..] == [b, c, d, e, f, g] && [b, c, d, e, f, g][1..] == [c, d, e, f, g];
    assert [c, d, e, f, g][1..] == [d, e, f, g] && [d, e, f, g][1..] == [e, f, g];
    assert [e, f, g][1..] == [f, g] && [f, g][1..] == [g] && [g][1..] == [];
    assert RedactQueries(six, [g]) == RedactQuery([], six, g);
    assert RedactQueries(five, [f, g]) == RedactQueries(six, [g]);
    assert RedactQueries(four, [e, f, g]) == RedactQueries(five, [f, g]);
    assert RedactQueries(three, [d, e, f, g]) == RedactQueries(four, [e, f, g]);
    assert RedactQueries(two, [c, d, e, f, g]) == RedactQueries(three, [d, e, f, g]);
    assert RedactQueries(one, [b, c, d, e, f, g]) == RedactQueries(two, [c, d, e, f, g]);
  }

  lemma SixKeys(s: string, a: string, b: string, c: string, d: string, e: string, f: string)
    requires a != [] && b != [] && c != [] && d != [] && e != [] && f != []
    ensures RedactPrefixedKeys(s, [a, b, c, d, e, f])
         == RedactPrefixedKey(RedactPrefixedKey(RedactPrefixedKey(RedactPrefixedKey(RedactPrefixedKey(
              RedactPrefixedKey(s, a), b), c), d), e), f)
  {
    hide RedactPrefixedKey;
    var one := RedactPrefixedKey(s, a);
    var two := RedactPrefixedKey(one, b);
    var three := RedactPrefixedKey(two, c);
    var four := RedactPrefixedKey(three, d);
    var five := RedactPrefixedKey(four, e);
    assert [a, b, c, d, e, f][1..] == [b, c, d, e, f] && [b, c, d, e, f][1..] == [c, d, e, f];
    assert [c, d, e, f][1..] == [d, e, f] && [d, e, f][1..] == [e, f] && [e, f][1..] == [f] && [f][1..] == [];
    assert RedactPrefixedKeys(five, [f]) == RedactPrefixedKey(five, f);
    assert RedactPrefixedKeys(four, [e, f]) == RedactPrefixedKeys(five, [f]);
    assert RedactPrefixedKeys(three, [d, e, f]) == RedactPrefixedKeys(four, [e, f]);
    assert RedactPrefixedKeys(two, [c, d, e, f]) == RedactPrefixedKeys(three, [d, e, f]);
    assert RedactPrefixedKeys(one, [b, c, d, e, f]) == RedactPrefixedKeys(two, [c, d, e, f]);
  }
}
