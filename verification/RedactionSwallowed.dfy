/** A text whose bearer token is left long, because a query pass takes the word before it. */
module RedactionSwallowed {
  import opened Text
  import opened Redaction
  import opened RedactionProofs
  import opened RedactionValues
  import opened RedactionBearer
  import opened RedactionCode
  import opened RedactionStruck
  import opened RedactionWords

  const PATH := "GET /v1?"
  const UP_TO := "GET /v1?token"
  const SECRET := " abcdefghi"
  const LOGGED := "GET /v1?token=Bearer abcdefghi"
  const WRITTEN := "GET /v1?token=[REDACTED] abcdefghi"

  lemma Characters()
    ensures PATH + "token" == UP_TO && '=' !in UP_TO && Ascii(PATH) && |UP_TO| == 13
    ensures UP_TO[7] == '?' && UP_TO[12] == 'n' && PATH[7] == '?' && EndsValue(SECRET[0])
    ensures '=' !in MARK + SECRET && '=' !in "Bearer" + SECRET && forall c <- "Bearer" :: !EndsValue(c)
  {
    assert '=' !in SECRET && '=' !in MARK && '=' !in "Bearer";
  }

  /** All passes but that for "token" leave such a text alone. */
  lemma OthersLeave(value: string)
    requires '=' !in value
    ensures var s := OneEquals(UP_TO, value); var n := PARAM_NAMES;
            && RedactQuery([], s, n[0]) == s && RedactQuery([], s, n[1]) == s && RedactQuery([], s, n[3]) == s
            && RedactQuery([], s, n[4]) == s && RedactQuery([], s, n[5]) == s && RedactQuery([], s, n[6]) == s
  {
    hide RedactQuery, OneEquals;
    Characters();
    OtherPassLeaves(UP_TO, value, "api_key", 6);
    OtherPassLeaves(UP_TO, value, "key", 2);
    OtherPassLeaves(UP_TO, value, "secret", 5);
    OtherPassLeaves(UP_TO, value, "password", 7);
    OtherPassLeaves(UP_TO, value, "api-key", 6);
    OtherPassLeaves(UP_TO, value, "apikey", 5);
  }

  lemma TokenPass()
    ensures RedactQuery([], OneEquals(UP_TO, "Bearer" + SECRET), PARAM_NAMES[2]) == OneEquals(UP_TO, MARK + SECRET)
  {
    hide RedactQuery, OneEquals, EndsValue;
    Characters();
    assert IsName("token") by { ParamNamesAreNames(); assert PARAM_NAMES[2] in PARAM_NAMES; }
    PassMarks(PATH, "token", "Bearer", SECRET);
  }

  lemma QueriesOfSwallowed()
    ensures RedactQueries(OneEquals(UP_TO, "Bearer" + SECRET), PARAM_NAMES) == OneEquals(UP_TO, MARK + SECRET)
  {
    hide RedactQuery, OneEquals, RedactQueries, EndsValue;
    var names, s, t := PARAM_NAMES, OneEquals(UP_TO, "Bearer" + SECRET), OneEquals(UP_TO, MARK + SECRET);
    Characters();
    OthersLeave("Bearer" + SECRET);
    OthersLeave(MARK + SECRET);
    TokenPass();
    QueriesStep(s, names, 0);
    QueriesStep(s, names, 1);
    QueriesStep(s, names, 2);
    QueriesStep(t, names, 3);
    QueriesStep(t, names, 4);
    QueriesStep(t, names, 5);
    QueriesStep(t, names, 6);
    QueriesNothing(t);
    assert names[0..] == names && names[7..] == [];
  }

  lemma Literals()
    ensures OneEquals(UP_TO, "Bearer" + SECRET) == LOGGED && OneEquals(UP_TO, MARK + SECRET) == WRITTEN
    ensures '-' !in WRITTEN
  {
  }

  /** The only blanks of the output are not those of a "bearer ". */
  lemma NoBearerWritten(j: nat)
    requires j <= |WRITTEN|
    ensures !StartsBearer(WRITTEN[j..])
  {
    hide StartsBearer;
    if StartsBearer(WRITTEN[j..]) {
      BearerLetters(WRITTEN[j..]);
      BlanksWritten(j);
    }
  }

  lemma BlanksWritten(j: nat)
    requires j + 6 < |WRITTEN|
    ensures WRITTEN[j + 6] == ' ' ==> LowerChar(WRITTEN[j]) != 'b'
  {
    assert WRITTEN[j + 6] == ' ' ==> j + 6 == 24;
    assert WRITTEN[18] == 'A';
  }

  lemma {:induction false} NoneCounted(s: string)
    requires forall j | 0 <= j <= |s| :: !StartsBearer(s[j..])
    ensures Bearers(s) == 0
    decreases |s|
  {
    hide StartsBearer;
    if s != [] {
      assert s[0..] == s;
      assert forall j | 0 <= j <= |s[1..]| :: s[1..][j..] == s[j + 1..];
      NoneCounted(s[1..]);
    }
  }

  lemma {:induction false} OneCounted(s: string, j: nat)
    requires j < |s| && StartsBearer(s[j..])
    ensures Bearers(s) > 0
    decreases j
  {
    hide StartsBearer;
    if j == 0 {
      assert s[0..] == s;
    } else {
      assert s[1..][j - 1..] == s[j..];
      OneCounted(s[1..], j - 1);
    }
  }

  /**
   The word goes with the value of "token", and the token behind it stays as it is. The bearer pass
   does nothing wrong: it steps over nothing, for nothing is there.
   */
  lemma TokenLeftByQuery()
    ensures RedactSensitive(LOGGED) == WRITTEN
    ensures Bearers(LOGGED) > 0 && Bearers(RedactQueries(LOGGED, PARAM_NAMES)) == 0
    ensures NoneMissed(RedactQueries(LOGGED, PARAM_NAMES)) && !NoWordsReplaced(LOGGED, PARAM_NAMES)
  {
    hide RedactQueries, RedactBearer, RedactPrefixedKeys, IsPrefix, OneEquals, StartsBearer, Bearers;
    Literals();
    QueriesOfSwallowed();
    forall j | 0 <= j <= |WRITTEN|
      ensures !StartsBearer(WRITTEN[j..])
    {
      NoBearerWritten(j);
    }
    BearerSkipAll(WRITTEN);
    NoneCounted(WRITTEN);
    KeyPrefixesArePrefixes();
    NoDashNoKeys(WRITTEN, KEY_PREFIXES);
    BearerTokensExact(WRITTEN);
    WordLogged();
    OneCounted(LOGGED, 14);
    ParamNamesAreNames();
    QueriesBearers(LOGGED, PARAM_NAMES);
  }

  lemma WordLogged()
    ensures StartsBearer(LOGGED[14..])
  {
    var w := LOGGED[14..][..|BEARER|];
    assert w == "Bearer " && Lower("Bearer ") == BEARER;
  }
}
