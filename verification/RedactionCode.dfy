/**
 The redaction passes as the gateway runs them: loops that search the remaining text, push what
 they keep onto a result buffer and advance. Each is proved to compute the corresponding function
 of `Redaction`, whose guarantees are proved in `RedactionProofs` and `RedactionValues`.
 */
module RedactionCode {
  import opened Wrappers
  import opened Sequences
  import opened Redaction
  import opened RedactionProofs

  /** `str::find`: where `pattern` first occurs. */
  function Find(s: string, pattern: string): (index: Option<nat>)
    ensures index.Some? ==> index.value + |pattern| <= |s| && pattern <= s[index.value..]
    ensures index.Some? ==> forall j | 0 <= j < index.value :: !(pattern <= s[j..])
    ensures index.None? ==> forall j | 0 <= j <= |s| :: !(pattern <= s[j..])
  {
    if pattern <= s then assert s[0..] == s; Some(0)
    else if s == [] then None
    else
      var later := Find(s[1..], pattern);
      assert forall j | 0 < j <= |s| :: s[j..] == s[1..][j - 1..];
      assert s[0..] == s;
      if later.None? then None else Some(later.value + 1)
  }

  // ---------- Prefixed keys ----------

  lemma KeyCopy(s: string, prefix: string)
    requires prefix != [] && s != [] && !(prefix <= s)
    ensures RedactPrefixedKey(s, prefix) == [s[0]] + RedactPrefixedKey(s[1..], prefix)
  {
    hide KeyRun, ShortKey;
  }

  lemma {:induction false} KeySkip(s: string, prefix: string, i: nat)
    requires prefix != [] && i <= |s| && forall j | 0 <= j < i :: !(prefix <= s[j..])
    ensures RedactPrefixedKey(s, prefix) == s[..i] + RedactPrefixedKey(s[i..], prefix)
    decreases i
  {
    hide RedactPrefixedKey;
    assert s[0..] == s;
    if i > 0 {
      KeyCopy(s, prefix);
      assert forall j | 0 <= j < i - 1 :: s[1..][j..] == s[j + 1..];
      KeySkip(s[1..], prefix, i - 1);
      assert s[1..][i - 1..] == s[i..];
      assert s[..i] == [s[0]] + s[1..][..i - 1];
    }
  }

  /** With no prefix anywhere there is nothing to redact. */
  lemma KeySkipAll(s: string, prefix: string)
    requires prefix != [] && forall j | 0 <= j <= |s| :: !(prefix <= s[j..])
    ensures RedactPrefixedKey(s, prefix) == s
  {
    KeySkip(s, prefix, |s|);
    assert s[..|s|] == s && s[|s|..] == [];
  }

  /** Pushing two parts of a redacted text one after the other. */
  lemma Pushed(before: string, a: string, b: string, tail: string)
    ensures before + (a + b + tail) == before + a + b + tail
  {
  }

  lemma KeyStep(s: string, prefix: string)
    requires prefix != [] && prefix <= s
    ensures var rest := s[|prefix|..]; var n := KeyRun(rest);
            RedactPrefixedKey(s, prefix) == prefix + ShortKey(rest[..n]) + RedactPrefixedKey(rest[n..], prefix)
  {
    hide KeyRun, ShortKey;
  }

  /** What one turn of the loop pushes, given where the prefix first occurs. */
  lemma KeyTurn(s: string, prefix: string, i: nat)
    requires prefix != [] && i + |prefix| <= |s| && prefix <= s[i..] && forall j | 0 <= j < i :: !(prefix <= s[j..])
    ensures var rest := s[i + |prefix|..]; var n := KeyRun(rest);
            RedactPrefixedKey(s, prefix)
            == s[..i + |prefix|] + ShortKey(rest[..n]) + RedactPrefixedKey(rest[n..], prefix)
  {
    hide KeyRun, ShortKey, RedactPrefixedKey;
    KeySkip(s, prefix, i);
    KeyStep(s[i..], prefix);
    PrefixParts(s, prefix, i);
    var rest := s[i + |prefix|..];
    var n := KeyRun(rest);
    KeyRunStops(rest);
    Pushed(s[..i], prefix, ShortKey(rest[..n]), RedactPrefixedKey(rest[n..], prefix));
  }

  method RedactPrefixedKeyLoop(input: string, prefix: string) returns (result: string)
    requires prefix != []
    ensures result == RedactPrefixedKey(input, prefix)
  {
    hide RedactPrefixedKey, KeyRun, Find, ShortKey;
    result := [];
    var remaining := input;
    var index := Find(remaining, prefix);
    while index.Some?
      invariant index == Find(remaining, prefix)
      invariant result + RedactPrefixedKey(remaining, prefix) == RedactPrefixedKey(input, prefix)
      decreases |remaining|
    {
      ghost var before := result;
      KeyTurn(remaining, prefix, index.value);
      var upTo := remaining[..index.value + |prefix|];
      remaining := remaining[index.value + |prefix|..];
      result := result + upTo;
      var keyLength := KeyRun(remaining);
      KeyRunStops(remaining);
      ShortKeyPushed(result, remaining[..keyLength]);
      if keyLength > 8 {
        var key := remaining[..keyLength];
        result := result + key[..8] + MARK;
      } else {
        result := result + remaining[..keyLength];
      }
      Pushed(before, upTo, ShortKey(remaining[..keyLength]), RedactPrefixedKey(remaining[keyLength..], prefix));
      remaining := remaining[keyLength..];
      index := Find(remaining, prefix);
    }
    KeySkipAll(remaining, prefix);
    result := result + remaining;
  }

  lemma ShortKeyPushed(result: string, key: string)
    ensures result + ShortKey(key) == if |key| > 8 then result + key[..8] + MARK else result + key
  {
  }

  method RedactApiKeyPatterns(input: string) returns (result: string)
    ensures result == RedactPrefixedKeys(input, KEY_PREFIXES)
  {
    hide RedactPrefixedKey;
    KeyPrefixesArePrefixes();
    result := input;
    assert KEY_PREFIXES[0..] == KEY_PREFIXES;
    for i := 0 to |KEY_PREFIXES|
      invariant forall p <- KEY_PREFIXES :: p != []
      invariant RedactPrefixedKeys(result, KEY_PREFIXES[i..]) == RedactPrefixedKeys(input, KEY_PREFIXES)
    {
      assert KEY_PREFIXES[i..][0] == KEY_PREFIXES[i] && KEY_PREFIXES[i..][1..] == KEY_PREFIXES[i + 1..];
      result := RedactPrefixedKeyLoop(result, KEY_PREFIXES[i]);
    }
  }

  // ---------- Bearer tokens ----------

  /** `to_lowercase().find("bearer ")`, on ASCII text. */
  function FindBearer(s: string): (index: Option<nat>)
    ensures index.Some? ==> index.value + |BEARER| <= |s| && StartsBearer(s[index.value..])
    ensures index.Some? ==> forall j | 0 <= j < index.value :: !StartsBearer(s[j..])
    ensures index.None? ==> forall j | 0 <= j <= |s| :: !StartsBearer(s[j..])
  {
    if StartsBearer(s) then assert s[0..] == s; Some(0)
    else if s == [] then None
    else
      var later := FindBearer(s[1..]);
      assert forall j | 0 < j <= |s| :: s[j..] == s[1..][j - 1..];
      assert s[0..] == s;
      if later.None? then None else Some(later.value + 1)
  }

  lemma BearerSkipAll(s: string)
    requires forall j | 0 <= j <= |s| :: !StartsBearer(s[j..])
    ensures RedactBearer(s) == s
  {
    BearerSkip(s, |s|);
    assert s[..|s|] == s && s[|s|..] == [];
  }

  lemma BearerTurn(s: string, i: nat)
    requires i + |BEARER| <= |s| && StartsBearer(s[i..]) && forall j | 0 <= j < i :: !StartsBearer(s[j..])
    ensures var rest := s[i + |BEARER|..]; var n := TokenLength(rest);
            RedactBearer(s) == s[..i + |BEARER|] + ShortKey(rest[..n]) + RedactBearer(rest[n..])
  {
    hide StartsBearer, ShortKey, TokenLength;
    BearerSkip(s, i);
    var rest := s[i + |BEARER|..];
    var n := TokenLength(rest);
    assert s[i..][|BEARER|..] == rest;
    assert s[..i + |BEARER|] == s[..i] + s[i..][..|BEARER|];
    Pushed(s[..i], s[i..][..|BEARER|], ShortKey(rest[..n]), RedactBearer(rest[n..]));
  }

  method RedactBearerToken(input: string) returns (result: string)
    ensures result == RedactBearer(input)
  {
    hide RedactBearer, StartsBearer, TokenLength, FindBearer, ShortKey;
    result := [];
    var remaining := input;
    var index := FindBearer(remaining);
    while index.Some?
      invariant index == FindBearer(remaining)
      invariant result + RedactBearer(remaining) == RedactBearer(input)
      decreases |remaining|
    {
      ghost var before := result;
      BearerTurn(remaining, index.value);
      var upTo := remaining[..index.value + |BEARER|];
      remaining := remaining[index.value + |BEARER|..];
      result := result + upTo;
      var tokenEnd := TokenLength(remaining);
      TokenInside(remaining);
      var token := remaining[..tokenEnd];
      ShortKeyPushed(result, token);
      if |token| > 8 {
        result := result + token[..8] + MARK;
      } else {
        result := result + token;
      }
      Pushed(before, upTo, ShortKey(token), RedactBearer(remaining[tokenEnd..]));
      remaining := remaining[tokenEnd..];
      index := FindBearer(remaining);
    }
    BearerSkipAll(remaining);
    result := result + remaining;
  }

  lemma TokenInside(s: string)
    ensures TokenLength(s) <= |s|
  {
  }

  // ---------- Query parameters ----------

  lemma {:induction false} QuerySkip(seen: string, s: string, name: string, i: nat)
    requires i <= |s| && forall j | 0 <= j < i :: !(name + "=" <= s[j..])
    ensures RedactQuery(seen, s, name) == s[..i] + RedactQuery(seen + s[..i], s[i..], name)
    decreases i
  {
    hide PrefixOk, SkipValue;
    assert s[0..] == s && seen + [] == seen;
    if i > 0 {
      assert forall j | 0 <= j < i - 1 :: s[1..][j..] == s[j + 1..];
      QuerySkip(seen + [s[0]], s[1..], name, i - 1);
      assert s[1..][i - 1..] == s[i..];
      assert s[..i] == [s[0]] + s[1..][..i - 1];
      assert seen + [s[0]] + s[1..][..i - 1] == seen + s[..i];
    } else {
      assert s[..0] == [];
    }
  }

  lemma QuerySkipAll(s: string, name: string)
    requires forall j | 0 <= j <= |s| :: !(name + "=" <= s[j..])
    ensures RedactQuery([], s, name) == s
  {
    QuerySkip([], s, name, |s|);
    assert s[..|s|] == s && s[|s|..] == [];
  }

  lemma QueryStep(seen: string, s: string, name: string)
    requires name + "=" <= s
    ensures var rest, ok := s[|name| + 1..], PrefixOk(seen, s);
            RedactQuery(seen, s, name)
            == name + "=" + (if ok then MARK else []) + RedactQuery([], if ok then SkipValue(rest) else rest, name)
  {
    hide PrefixOk, SkipValue;
  }

  lemma QueryTurn(s: string, name: string, i: nat)
    requires i + |name| + 1 <= |s| && name + "=" <= s[i..] && forall j | 0 <= j < i :: !(name + "=" <= s[j..])
    ensures var rest, ok := s[i + |name| + 1..], PrefixOk(s[..i], s[i..]);
            RedactQuery([], s, name)
            == s[..i + |name| + 1] + (if ok then MARK else [])
               + RedactQuery([], if ok then SkipValue(rest) else rest, name)
  {
    hide PrefixOk, SkipValue, RedactQuery;
    QuerySkip([], s, name, i);
    QueryStep(s[..i], s[i..], name);
    PrefixParts(s, name + "=", i);
    assert [] + s[..i] == s[..i];
    var rest, ok := s[i + |name| + 1..], PrefixOk(s[..i], s[i..]);
    var tail := RedactQuery([], if ok then SkipValue(rest) else rest, name);
    Pushed(s[..i], name + "=", if ok then MARK else [], tail);
  }

  method RedactQueryParam(input: string, name: string) returns (result: string)
    ensures result == RedactQuery([], input, name)
  {
    hide RedactQuery, PrefixOk, SkipValue, Find;
    var pattern := name + "=";
    result := [];
    var remaining := input;
    var index := Find(remaining, pattern);
    while index.Some?
      invariant index == Find(remaining, pattern)
      invariant result + RedactQuery([], remaining, name) == RedactQuery([], input, name)
      decreases |remaining|
    {
      ghost var before := result;
      QueryTurn(remaining, name, index.value);
      var prefixOk := PrefixOk(remaining[..index.value], remaining[index.value..]);
      var upTo := remaining[..index.value + |pattern|];
      remaining := remaining[index.value + |pattern|..];
      result := result + upTo;
      SkipsForward(remaining);
      if prefixOk {
        result := result + MARK;
        remaining := SkipValue(remaining);
      }
      Pushed(before, upTo, if prefixOk then MARK else [], RedactQuery([], remaining, name));
      index := Find(remaining, pattern);
    }
    QuerySkipAll(remaining, name);
    result := result + remaining;
  }

  lemma SkipsForward(s: string)
    ensures |SkipValue(s)| <= |s|
  {
  }

  // ---------- All passes ----------

  method RedactSensitiveText(input: string) returns (result: string)
    ensures result == RedactSensitive(input)
  {
    hide RedactQuery, RedactBearer, RedactPrefixedKeys;
    result := input;
    assert PARAM_NAMES[0..] == PARAM_NAMES;
    for i := 0 to |PARAM_NAMES|
      invariant RedactQueries(result, PARAM_NAMES[i..]) == RedactQueries(input, PARAM_NAMES)
    {
      assert PARAM_NAMES[i..][0] == PARAM_NAMES[i] && PARAM_NAMES[i..][1..] == PARAM_NAMES[i + 1..];
      result := RedactQueryParam(result, PARAM_NAMES[i]);
    }
    result := RedactBearerToken(result);
    result := RedactApiKeyPatterns(result);
  }
}
