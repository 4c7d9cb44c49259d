/**
 The log redaction passes, as functions over the characters of a string.

 Each pass walks the text once. `RedactPrefixedKey` cuts long runs of key characters that follow a
 key prefix, `RedactBearer` cuts long bearer tokens, and `RedactQuery` replaces the value of a
 query parameter. The loops that compute them are in `RedactionCode`.
 */
module Redaction {
  import opened Text

  const MARK := "[REDACTED]"
  const KEY_PREFIXES: seq<string> := ["sk-", "eavs-", "api-", "key-", "pk-", "rk-"]
  const PARAM_NAMES: seq<string> := ["api_key", "key", "token", "secret", "password", "api-key", "apikey"]

  predicate IsLower(c: char) { 'a' <= c <= 'z' }

  predicate IsKeyChar(c: char) {
    'a' <= c <= 'z' || 'A' <= c <= 'Z' || '0' <= c <= '9' || c == '-' || c == '_'
  }

  /** The number of key characters that `s` starts with. */
  function KeyRun(s: string): (n: nat)
    ensures n <= |s| && (n < |s| ==> !IsKeyChar(s[n]))
    ensures forall i | 0 <= i < n :: IsKeyChar(s[i])
  {
    if s != [] && IsKeyChar(s[0]) then 1 + KeyRun(s[1..]) else 0
  }

  // ---------- Keys with a known prefix ----------

  /** What is kept of a run of key characters. */
  function ShortKey(key: string): string {
    if |key| > 8 then key[..8] + MARK else key
  }

  function RedactPrefixedKey(s: string, prefix: string): string
    requires prefix != []
    decreases |s|
  {
    if s == [] then []
    else if prefix <= s then
      var rest := s[|prefix|..];
      var n := KeyRun(rest);
      prefix + ShortKey(rest[..n]) + RedactPrefixedKey(rest[n..], prefix)
    else [s[0]] + RedactPrefixedKey(s[1..], prefix)
  }

  function RedactPrefixedKeys(s: string, prefixes: seq<string>): string
    requires forall p <- prefixes :: p != []
    decreases |prefixes|
  {
    if prefixes == [] then s
    else
      assert prefixes[0] in prefixes && forall p <- prefixes[1..] :: p in prefixes;
      RedactPrefixedKeys(RedactPrefixedKey(s, prefixes[0]), prefixes[1..])
  }

  // ---------- Bearer tokens ----------

  const BEARER := "bearer "

  predicate StartsBearer(s: string) { |s| >= |BEARER| && Lower(s[..|BEARER|]) == BEARER }

  predicate EndsToken(c: char) { IsWhitespace(c) || c == '"' || c == '\'' }

  function TokenLength(s: string): (n: nat)
    ensures n <= |s| && (n < |s| ==> EndsToken(s[n])) && forall i | 0 <= i < n :: !EndsToken(s[i])
  {
    if s != [] && !EndsToken(s[0]) then 1 + TokenLength(s[1..]) else 0
  }

  function RedactBearer(s: string): string
    decreases |s|
  {
    if s == [] then []
    else if StartsBearer(s) then
      var rest := s[|BEARER|..];
      var n := TokenLength(rest);
      s[..|BEARER|] + ShortKey(rest[..n]) + RedactBearer(rest[n..])
    else [s[0]] + RedactBearer(s[1..])
  }

  // ---------- Query parameters ----------

  function ByteLength(c: char): nat {
    if c < '\U{80}' then 1 else if c < '\U{800}' then 2 else if c < '\U{10000}' then 3 else 4
  }

  /** `str::len`: the length in UTF-8 bytes. */
  function Bytes(s: string): (n: nat)
    ensures n >= |s|
  {
    if s == [] then 0 else ByteLength(s[0]) + Bytes(s[1..])
  }

  predicate OpensParam(c: char) { c == '?' || c == '&' }

  predicate EndsValue(c: char) { c == '&' || c == ' ' || c == '\n' }

  function SkipValue(s: string): (rest: string)
    ensures |rest| <= |s| && rest == s[|s| - |rest|..] && (rest != [] ==> EndsValue(rest[0]))
  {
    if s == [] || EndsValue(s[0]) then s else SkipValue(s[1..])
  }

  /**
   The check that a name found in `seen + s`, right after `seen`, stands where a parameter may: the
   byte offset of the match, less one, is used as a CHARACTER index.
   */
  predicate PrefixOk(seen: string, s: string) {
    seen == [] || (Bytes(seen) - 1 < |seen + s| && OpensParam((seen + s)[Bytes(seen) - 1]))
  }

  /** `seen` is the part of the current search text already passed over. */
  function RedactQuery(seen: string, s: string, name: string): string
    decreases |s|
  {
    if s == [] then []
    else if name + "=" <= s then
      var rest := s[|name| + 1..];
      name + "=" + (if PrefixOk(seen, s) then MARK + RedactQuery([], SkipValue(rest), name)
                    else RedactQuery([], rest, name))
    else [s[0]] + RedactQuery(seen + [s[0]], s[1..], name)
  }

  function RedactQueries(s: string, names: seq<string>): string
    decreases |names|
  {
    if names == [] then s else RedactQueries(RedactQuery([], s, names[0]), names[1..])
  }

  // ---------- All passes ----------

  function RedactSensitive(s: string): string {
    RedactPrefixedKeys(RedactBearer(RedactQueries(s, PARAM_NAMES)), KEY_PREFIXES)
  }

  // ---------- What the passes promise ----------

  /** A key prefix: lower-case letters and a final dash. */
  predicate IsPrefix(p: string) {
    |p| >= 2 && p[|p| - 1] == '-' && forall i | 0 <= i < |p| - 1 :: IsLower(p[i])
  }

  /** A parameter name: a lower-case letter, then lower-case letters, dashes and underscores. */
  predicate IsName(n: string) {
    n != [] && IsLower(n[0]) && forall c <- n :: IsLower(c) || c == '-' || c == '_'
  }

  /** Every occurrence of `prefix` in `s` is followed by at most 8 consecutive key characters. */
  ghost predicate KeysShort(s: string, prefix: string) {
    forall i | 0 <= i <= |s| && prefix <= s[i..] :: KeyRun(s[i + |prefix|..]) <= 8
  }

  predicate IsMarkChar(c: char) { c in MARK }

  predicate EndsValueOrToken(c: char) { c == '&' || EndsToken(c) }

  /** Position `i` of `s` is one where a query parameter may start. */
  predicate ParamPosition(s: string, i: nat)
    requires i <= |s|
  {
    i == 0 || OpensParam(s[i - 1])
  }

  /** What a cut inside the mark leaves: the start of the mark, and then the mark. */
  function Struck(k: nat): string
    requires k <= |MARK|
  {
    MARK[..k] + MARK
  }

  /** What may stand in place of a value: the mark alone, or the mark behind part of one. */
  datatype Cover = Whole | UpTo(slack: nat)

  /** Up to its end, the value is the mark and nothing else. */
  predicate IsWhole(value: string) { MARK <= value && (|value| == |MARK| || EndsValue(value[|MARK|])) }

  /** Up to its end, which may also be that of a token, the value is `k` characters of the mark and the mark. */
  predicate IsStruck(value: string, k: nat)
    requires k <= |MARK|
  {
    Struck(k) <= value && (|value| == |Struck(k)| || EndsValueOrToken(value[|Struck(k)|]))
  }

  predicate Covered(value: string, cover: Cover) {
    match cover
    case Whole => IsWhole(value)
    case UpTo(slack) => exists k: nat | k <= slack && k <= |MARK| :: IsStruck(value, k)
  }

  /** Nothing of any value of parameter `name` is left in `s`. */
  ghost predicate ValuesCovered(s: string, name: string, cover: Cover) {
    forall i | 0 <= i <= |s| && name + "=" <= s[i..] && ParamPosition(s, i) :: Covered(s[i + |name| + 1..], cover)
  }

  /**
   How much of a mark a bearer token's first eight characters can hold, behind the separator, the
   name and the '='.
   */
  function Slack(name: string): nat { if |name| + 2 < 8 then 8 - (|name| + 2) else 0 }
}
