/** A text for which the bearer pass cuts a token inside the mark that a query pass has put in place. */
module RedactionStruck {
  import opened Sequences
  import opened Text
  import opened Redaction
  import opened RedactionProofs
  import opened RedactionValues
  import opened RedactionBearer
  import opened RedactionCode
  import opened RedactionExact

  /** A text with one '=', which stands behind `head`. */
  function OneEquals(head: string, value: string): string { head + ("=" + value) }

  predicate Apart(head: string, value: string) { '=' !in head && '=' !in value }

  lemma EqualsAt(head: string, value: string, k: nat)
    requires Apart(head, value) && k < |OneEquals(head, value)|
    ensures OneEquals(head, value)[k] == '=' <==> k == |head|
  {
    assert OneEquals(head, value)[k]
        == if k < |head| then head[k] else if k == |head| then '=' else value[k - |head| - 1];
  }

  lemma NameAtEquals(head: string, value: string, name: string, j: nat)
    requires Apart(head, value) && '=' !in name && j <= |OneEquals(head, value)|
    requires name + "=" <= OneEquals(head, value)[j..]
    ensures j <= |head| && name == head[j..]
  {
    var s, w := OneEquals(head, value), name + "=";
    assert s[j + |name|] == w[|name|] == '=';
    EqualsAt(head, value, j + |name|);
    assert name == s[j..][..|name|] == head[j..];
  }

  lemma AbsentAt(head: string, value: string, name: string, i: nat, j: nat)
    requires Apart(head, value) && '=' !in name && i < |name| <= |head| && name[i] != head[|head| - |name| + i]
    requires j <= |OneEquals(head, value)|
    ensures !(name + "=" <= OneEquals(head, value)[j..])
  {
    hide OneEquals, Apart;
    if name + "=" <= OneEquals(head, value)[j..] {
      NameAtEquals(head, value, name, j);
    }
  }

  /** A pass for a name that `head` does not end in, as its character `i` shows. */
  lemma OtherPassLeaves(head: string, value: string, name: string, i: nat)
    requires Apart(head, value) && '=' !in name && i < |name| <= |head| && name[i] != head[|head| - |name| + i]
    ensures RedactQuery([], OneEquals(head, value), name) == OneEquals(head, value)
  {
    hide OneEquals, Apart, RedactQuery;
    var s := OneEquals(head, value);
    forall j | 0 <= j <= |s|
      ensures !(name + "=" <= s[j..])
    {
      AbsentAt(head, value, name, i, j);
    }
    QuerySkipAll(s, name);
  }

  lemma {:induction false} SkipAll(value: string, rest: string)
    requires (forall c <- value :: !EndsValue(c)) && (rest == [] || EndsValue(rest[0]))
    ensures SkipValue(value + rest) == rest
    decreases |value|
  {
    hide EndsValue;
    if value == [] {
      assert value + rest == rest;
    } else {
      assert value[0] in value && (value + rest)[0] == value[0] && (value + rest)[1..] == value[1..] + rest;
      assert forall c <- value[1..] :: c in value;
      SkipAll(value[1..], rest);
    }
  }

  lemma HoldsEquals(rest: string, name: string, j: nat)
    requires j <= |rest| && name + "=" <= rest[j..]
    ensures '=' in rest
  {
    assert rest[j + |name|] == (name + "=")[|name|];
  }

  lemma NoEqualsNoName(rest: string, name: string)
    requires '=' !in rest
    ensures RedactQuery([], rest, name) == rest
  {
    hide RedactQuery;
    forall j | 0 <= j <= |rest|
      ensures !(name + "=" <= rest[j..])
    {
      if name + "=" <= rest[j..] {
        HoldsEquals(rest, name, j);
      }
    }
    QuerySkipAll(rest, name);
  }

  lemma PassParts(before: string, name: string, value: string)
    ensures var s, i := OneEquals(before + name, value), |before|;
            && s == before + (name + "=" + value) && s[..i] == before && s[i..] == name + "=" + value
            && s[..i + |name| + 1] == before + name + "=" && s[i + |name| + 1..] == value
            && s == before + name + "=" + value
  {
    var s := OneEquals(before + name, value);
    assert s == before + (name + "=" + value);
    assert s == (before + name + "=") + value;
  }

  /** The pass for the name that stands behind `before`; `rest` begins where the value ends. */
  lemma PassMarks(before: string, name: string, value: string, rest: string)
    requires Apart(before + name, value + rest) && IsName(name) && Ascii(before) && before != []
    requires OpensParam(before[|before| - 1]) && (forall c <- value :: !EndsValue(c))
    requires rest == [] || EndsValue(rest[0])
    ensures RedactQuery([], OneEquals(before + name, value + rest), name) == OneEquals(before + name, MARK + rest)
  {
    hide RedactQuery, OneEquals, SkipValue, IsName, EndsValue, Ascii, OpensParam, PrefixOk;
    var s, i := OneEquals(before + name, value + rest), |before|;
    PassParts(before, name, value + rest);
    PassParts(before, name, MARK + rest);
    NoneBefore(before, name, value + rest);
    AsciiPrefixOk(before, s[i..]);
    SkipAll(value, rest);
    RestHasNoEquals(before + name, value, rest);
    NoEqualsNoName(rest, name);
    LastTurn(s, name, i, rest);
  }

  lemma RestHasNoEquals(head: string, value: string, rest: string)
    requires Apart(head, value + rest)
    ensures '=' !in rest
  {
    assert forall c <- rest :: c in value + rest;
  }

  /** The pass replaces the value at `i` and finds nothing behind it. */
  lemma LastTurn(s: string, name: string, i: nat, rest: string)
    requires i + |name| + 1 <= |s| && name + "=" <= s[i..] && forall j | 0 <= j < i :: !(name + "=" <= s[j..])
    requires PrefixOk(s[..i], s[i..]) && SkipValue(s[i + |name| + 1..]) == rest && RedactQuery([], rest, name) == rest
    ensures RedactQuery([], s, name) == s[..i + |name| + 1] + (MARK + rest)
  {
    hide PrefixOk, RedactQuery, SkipValue;
    QueryTurn(s, name, i);
    Assoc(s[..i + |name| + 1], MARK, rest);
  }

  lemma NoneBefore(before: string, name: string, value: string)
    requires Apart(before + name, value)
    ensures forall j | 0 <= j < |before| :: !(name + "=" <= OneEquals(before + name, value)[j..])
  {
    hide OneEquals, Apart;
    var s := OneEquals(before + name, value);
    PassParts(before, name, value);
    forall j | 0 <= j < |before|
      ensures !(name + "=" <= s[j..])
    {
      if name + "=" <= s[j..] {
        NameHasNoEquals(before, name, value);
        NameAtEquals(before + name, value, name, j);
      }
    }
  }

  lemma NameHasNoEquals(before: string, name: string, value: string)
    requires Apart(before + name, value)
    ensures '=' !in name
  {
    assert forall c <- name :: c in before + name;
  }

  lemma QueriesStep(s: string, names: seq<string>, i: nat)
    requires i < |names|
    ensures RedactQueries(s, names[i..]) == RedactQueries(RedactQuery([], s, names[i]), names[i + 1..])
  {
    assert names[i..][0] == names[i] && names[i..][1..] == names[i + 1..];
  }

  const BEFORE := "bearer ?"
  const HEAD := "bearer ?key"

  lemma HeadCharacters()
    ensures BEFORE + "key" == HEAD && '=' !in HEAD && Ascii(BEFORE) && |HEAD| == 11 && HEAD[7] == '?' && HEAD[10] == 'y'
    ensures '=' !in MARK && '=' !in "hello" && forall c <- "hello" :: !EndsValue(c)
  {
  }

  /** All passes but that for "key" leave such a text alone. */
  lemma OthersLeave(value: string)
    requires '=' !in value
    ensures var s := OneEquals(HEAD, value); var n := PARAM_NAMES;
            && RedactQuery([], s, n[0]) == s && RedactQuery([], s, n[2]) == s && RedactQuery([], s, n[3]) == s
            && RedactQuery([], s, n[4]) == s && RedactQuery([], s, n[5]) == s && RedactQuery([], s, n[6]) == s
  {
    hide RedactQuery, OneEquals;
    HeadCharacters();
    OtherPassLeaves(HEAD, value, "api_key", 3);
    OtherPassLeaves(HEAD, value, "token", 4);
    OtherPassLeaves(HEAD, value, "secret", 5);
    OtherPassLeaves(HEAD, value, "password", 7);
    OtherPassLeaves(HEAD, value, "api-key", 3);
    OtherPassLeaves(HEAD, value, "apikey", 2);
  }

  lemma QueriesOfLogged()
    ensures RedactQueries(OneEquals(HEAD, "hello"), PARAM_NAMES) == OneEquals(HEAD, MARK)
  {
    hide RedactQuery, OneEquals, RedactQueries;
    var names, s, t := PARAM_NAMES, OneEquals(HEAD, "hello"), OneEquals(HEAD, MARK);
    HeadCharacters();
    OthersLeave("hello");
    OthersLeave(MARK);
    KeyPass();
    QueriesStep(s, names, 0);
    QueriesStep(s, names, 1);
    QueriesStep(t, names, 2);
    QueriesStep(t, names, 3);
    QueriesStep(t, names, 4);
    QueriesStep(t, names, 5);
    QueriesStep(t, names, 6);
    QueriesNothing(t);
    assert names[0..] == names && names[7..] == [];
  }

  lemma QueriesNothing(s: string)
    ensures RedactQueries(s, []) == s
  {
  }

  lemma KeyPass()
    ensures RedactQuery([], OneEquals(HEAD, "hello"), PARAM_NAMES[1]) == OneEquals(HEAD, MARK)
  {
    hide RedactQuery, OneEquals;
    HeadCharacters();
    assert IsName("key") by { ParamNamesAreNames(); assert PARAM_NAMES[1] in PARAM_NAMES; }
    assert "hello" + [] == "hello" && MARK + [] == MARK;
    PassMarks(BEFORE, "key", "hello", []);
  }

  /** A long token behind "bearer ", with nothing after it. */
  lemma BearerOne(head: string, token: string)
    requires |head| == |BEARER| && Lower(head) == BEARER && |token| > 8 && forall c <- token :: !EndsToken(c)
    ensures RedactBearer(head + token) == head + (token[..8] + MARK)
  {
    hide TokenLength;
    var s := head + token;
    assert s[..|BEARER|] == head && s[|BEARER|..] == token;
    TokenLengthOf(token, []);
    assert token + [] == token && token[..|token|] == token && token[|token|..] == [];
    BearerStep(s);
    BearerNothing();
  }

  lemma BearerOfQueried()
    ensures RedactBearer(OneEquals(HEAD, MARK)) == "bearer ?key=[RE[REDACTED]"
  {
    hide RedactBearer, EndsToken;
    var token := "?key=[REDACTED]";
    assert OneEquals(HEAD, MARK) == BEARER + token;
    assert Lower(BEARER) == BEARER;
    TokenOfQueried();
    BearerOne(BEARER, token);
    assert token[..8] == "?key=[RE";
  }

  lemma TokenOfQueried()
    ensures forall c <- "?key=[REDACTED]" :: !EndsToken(c)
  {
  }

  lemma {:induction false} NoDashNoKeys(s: string, prefixes: seq<string>)
    requires ArePrefixes(prefixes) && '-' !in s
    ensures RedactPrefixedKeys(s, prefixes) == s
    decreases |prefixes|
  {
    if prefixes != [] {
      assert prefixes[0] in prefixes;
      NoDashNoKey(s, prefixes[0]);
      NoDashNoKeys(s, prefixes[1..]);
    }
  }

  /** The cut of a bearer token falls inside the mark that the query pass has put in place. */
  lemma MarkCutByBearer()
    ensures RedactSensitive("bearer ?key=hello") == "bearer ?key=[RE[REDACTED]"
    ensures !ValuesCovered("bearer ?key=[RE[REDACTED]", "key", UpTo(0))
  {
    hide RedactQueries, RedactBearer, RedactPrefixedKeys, IsPrefix;
    var struck := "bearer ?key=[RE[REDACTED]";
    assert OneEquals(HEAD, "hello") == "bearer ?key=hello";
    QueriesOfLogged();
    BearerOfQueried();
    KeyPrefixesArePrefixes();
    NoDashNoKeys(struck, KEY_PREFIXES);
    assert "key" + "=" == "key=" && struck[8..] == "key=[RE[REDACTED]" && struck[7] == '?';
    StruckNone(struck[12..]);
    assert ParamPosition(struck, 8) && struck[12..][3] == '[' && MARK[3] == 'D';
  }
}
