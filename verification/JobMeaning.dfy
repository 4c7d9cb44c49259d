/**
 Where the calls for a job go, spelled out for both kinds of provider, and what the parts of a handle
 look like.
 */
module JobMeaning {
  import opened Wrappers
  import opened Sequences
  import opened Text
  import opened WireBytes
  import opened JobTokens
  import opened JobHandles

  // ---------- Which requests are the same ----------

  lemma PredictionsJoin(base: bytes, x: bytes)
    ensures base + Ascii("/predictions/") + x == (base + Ascii("/predictions")) + ([SLASH] + x)
  {
    assert "/predictions" + "/" == "/predictions/" && Ascii("/") == [SLASH];
    AsciiConcat("/predictions", "/");
    Assoc(base, Ascii("/predictions"), [SLASH]);
    Assoc(base + Ascii("/predictions"), [SLASH], x);
  }

  /** Two Replicate requests are the same exactly for the same job, and the same action up to Status and Result. */
  lemma ReplicateRequestExact(
      a: Action, j: bytes, b: Action, k: bytes, base: bytes, verbA: Method, urlA: bytes, verbB: Method, urlB: bytes)
    requires SafeComponent(j) && SafeComponent(k)
    requires ReplicateRequest(a, base, j, verbA, urlA) && ReplicateRequest(b, base, k, verbB, urlB)
    ensures verbA == verbB && urlA == urlB <==> j == k && (a == Cancel <==> b == Cancel)
  {
    hide Ascii, SafeComponent;
    PredictionsJoin(base, j);
    PredictionsJoin(base, k);
    if verbA == verbB && urlA == urlB {
      if a == Cancel {
        CancelRight(base + Ascii("/predictions/") + j, base + Ascii("/predictions/") + k, Ascii("/cancel"));
      }
      CancelLeft(base + Ascii("/predictions/"), j, k);
    }
  }

  /**
   Two fal requests are the same exactly for the same action, model and job, but for the one pair: a
   status request for the job "requests" of a model, and a result request for the job "status" of the
   model whose name goes on with "/requests".
   */
  lemma FalRequestExact(
      a: Action, m: bytes, j: bytes, b: Action, n: bytes, k: bytes, base: bytes,
      verbA: Method, urlA: bytes, verbB: Method, urlB: bytes)
    requires SafeComponent(j) && SafeComponent(k)
    requires FalRequest(a, base, m, j, verbA, urlA) && FalRequest(b, base, n, k, verbB, urlB)
    ensures verbA == verbB && urlA == urlB <==>
              || (a == b && m == n && j == k)
              || (&& a == Status && b == Result && j == Ascii("requests") && k == Ascii("status")
                  && n == m + Ascii("/requests"))
              || (&& a == Result && b == Status && j == Ascii("status") && k == Ascii("requests")
                  && m == n + Ascii("/requests"))
  {
    hide Ascii, SafeComponent, LifecycleTarget, FalRequest;
    var g, h := JobHandle([], [], m, j, NO_COST, 0), JobHandle([], [], n, k, NO_COST, 0);
    var target := Lookup([], Fal, [], base);
    TargetSpelled(a, target, g);
    TargetSpelled(b, target, h);
    FalTargetExact(a, g, b, h);
    OneFalRequest(a, base, m, j, verbA, urlA, LifecycleTarget(a, Fal, g));
    OneFalRequest(b, base, n, k, verbB, urlB, LifecycleTarget(b, Fal, h));
    if urlA == urlB {
      CancelLeft(base, LifecycleTarget(a, Fal, g).1, LifecycleTarget(b, Fal, h).1);
    }
  }

  lemma OneFalRequest(
      a: Action, base: bytes, m: bytes, j: bytes, verb: Method, url: bytes, t: (Method, bytes))
    requires FalRequest(a, base, m, j, verb, url) && FalRequest(a, base, m, j, t.0, base + t.1)
    ensures verb == t.0 && url == base + t.1
  {
  }

  // ---------- What a handle may name ----------

  /** One to 128 ASCII letters, digits, dashes and underscores. */
  predicate PlainWord(s: bytes) { 1 <= |s| <= 128 && forall b <- s :: b as char in WORD_CHARS }

  /** At most 256 bytes: such words, with slashes between them. */
  ghost predicate PlainPath(s: bytes) {
    && |s| <= 256
    && exists words: seq<bytes> :: words != [] && (forall x <- words :: PlainWord(x)) && s == Joined(words, 0x2F)
  }

  lemma PlainWordExact(s: bytes)
    ensures SafeComponent(s) <==> PlainWord(s)
  {
    forall b: byte
      ensures SafeByte(b) <==> b as char in WORD_CHARS
    {
      WordCharExact(b as char);
    }
  }

  lemma {:induction false} SplitOfJoined(words: seq<bytes>, sep: byte)
    requires words != [] && forall x <- words :: sep !in x
    ensures Split(Joined(words, sep), sep) == words
    decreases |words|
  {
    assert words[0] in words;
    if |words| == 1 {
      SplitOne(words[0], sep);
      assert words == [words[0]];
    } else {
      SplitOfJoined(words[1..], sep);
      SplitFirst(words[0], sep, Joined(words[1..], sep));
      HeadTail(words);
    }
  }

  lemma PlainPathExact(s: bytes)
    ensures SafeFalModel(s) <==> PlainPath(s)
  {
    hide SafeComponent, PlainWord, Split, Joined;
    forall x: bytes
      ensures SafeComponent(x) <==> PlainWord(x)
      ensures SafeComponent(x) ==> SLASH !in x
    {
      PlainWordExact(x);
      if SafeComponent(x) {
        NoSlash(x);
      }
    }
    SplitJoins(s, SLASH);
    if PlainPath(s) {
      var words: seq<bytes> :| words != [] && (forall x <- words :: PlainWord(x)) && s == Joined(words, 0x2F);
      SplitOfJoined(words, SLASH);
    }
  }

  /** A virtual key, by its prefix and length. */
  predicate VirtualKey(key: bytes) { Ascii("eavs-") <= key && |key| >= 36 }

  // ---------- When a job is given out, and when its handle is good ----------

  predicate JobProvider(found: Option<Lookup>) {
    found.Some? && found.value.kind != NoJobs && found.value.apiKey != []
  }

  /** Whom the validator takes the caller for, if the caller brings a virtual key. */
  function CallerFor(
      bearer: Option<bytes>, validator: Option<Validator>, model: bytes, provider: bytes, skipBudget: bool)
    : Option<Owner>
  {
    if bearer.Some? && VirtualKey(bearer.value) && validator.Some?
    then validator.value(bearer.value, model, provider, skipBudget) else None
  }

  /** A submission for which a job is given out: no budget on the key, and a plain job id in the reply. */
  ghost predicate GivesOutJob(e: Event)
    requires e.Submit?
  {
    && PlainPath(e.model) && JobProvider(e.lookup)
    && CallerFor(e.bearer, e.validator, e.model, e.lookup.value.name, false).Some?
    && !CallerFor(e.bearer, e.validator, e.model, e.lookup.value.name, false).value.capped
    && e.accepted && e.replyId.Some? && PlainWord(e.replyId.value)
  }

  /** Exactly when a submission gives out a handle, and which one: it lapses after seven days. */
  lemma SubmissionSpelled(e: Event)
    requires e.Submit?
    ensures Submission(e).Some? <==> GivesOutJob(e)
    ensures Submission(e).Some? ==>
              var s, found := Submission(e).value, e.lookup.value;
              && s.secret == found.apiKey && s.handle.provider == found.name
              && Some(s.handle.owner) == HashOf(CallerFor(e.bearer, e.validator, e.model, found.name, false))
              && s.handle.model == e.model && Some(s.handle.jobId) == e.replyId
              && s.handle.reservedCost == Ascii("0.0") && s.handle.expires == e.now + 604_800
  {
    hide SafeComponent, SafeFalModel, PlainWord, PlainPath;
    PlainPathExact(e.model);
    if e.replyId.Some? {
      PlainWordExact(e.replyId.value);
    }
    QuoteText();
  }

  function HashOf(owner: Option<Owner>): Option<bytes> { if owner.Some? then Some(owner.value.keyHash) else None }

  /** The handle names the provider and the caller, has not lapsed, and its parts are plain. */
  ghost predicate GoodFor(w: World, e: Event, h: JobHandle)
    requires e.Lifecycle?
  {
    && e.first.Some? && h.provider == e.first.value.name
    && e.bearer.Some? && h.owner == w.hash(e.bearer.value) && e.now <= h.expires
    && PlainWord(h.jobId) && PlainPath(h.model)
  }

  /** Exactly when a sealed handle, brought back, lets the call go upstream. */
  lemma SealedHandleSpelled(w: World, e: Event, h: JobHandle)
    requires e.Lifecycle? && e.first.Some? && e.token == Seal(w, h, e.first.value.apiKey)
    ensures Follow(w, e).Ok? <==>
              && JobProvider(e.first) && JobProvider(e.second) && |e.token| <= 2048 && GoodFor(w, e, h)
              && HashOf(CallerFor(e.bearer, e.validator, h.model, e.second.value.name, true)) == Some(h.owner)
              && e.sendable
  {
    hide SafeComponent, SafeFalModel, PlainWord, PlainPath, Follow, Seal;
    SealedHandleExact(w, e, h);
    PlainWordExact(h.jobId);
    PlainPathExact(h.model);
  }

  /** Bringing back the very token that a submission gave out forges nothing. */
  lemma HonestRunIsUnforged(w: World, submit: Event, call: Event)
    requires submit.Submit? && Submission(submit).Some? && call.Lifecycle? && call.first.Some?
    requires call.first.value.apiKey == Submission(submit).value.secret
    requires call.token == Seal(w, Submission(submit).value.handle, Submission(submit).value.secret)
    ensures Unforgeable(w, [submit, call])
  {
    hide Submission, Seal, Authentic, Payload, Base64;
    var run, s := [submit, call], Submission(submit).value;
    assert SealedAt(run, 0, s.secret, s.handle);
    forall i: nat, encoded: bytes | i < |run| && run[i].Lifecycle? && Authentic(w, call.token, s.secret, encoded)
      ensures encoded == Base64(Payload(s.handle))
    {
      OneMiddlePart(w, s.handle, s.secret, encoded);
    }
  }

  lemma OneMiddlePart(w: World, h: JobHandle, secret: bytes, encoded: bytes)
    requires Authentic(w, Seal(w, h, secret), secret, encoded)
    ensures encoded == Base64(Payload(h))
  {
    hide Payload, Base64, Hex, FromHex, Token, Split;
    var token, sealed := Seal(w, h, secret), Base64(Payload(h));
    var signature :|
      DOT !in encoded && DOT !in signature && token == Token(encoded, signature)
      && FromHex(signature) == Some(w.mac(secret, encoded));
    var tag := Hex(w.mac(secret, sealed));
    Base64HasNoDot(Payload(h));
    HexDecodes(w.mac(secret, sealed));
    TokenParts(token, encoded, signature);
    TokenParts(token, sealed, tag);
    assert [VERSION, encoded, signature][1] == [VERSION, sealed, tag][1];
  }

  // ---------- The text of a token ----------

  lemma VersionText()
    ensures Ascii("v1.") == VERSION + [DOT] && Ascii(".") == [DOT]
  {
  }

  /** A token is "v1.", the encoded payload, a dot and the signature in hexadecimal. */
  lemma TokenSpelled(w: World, h: JobHandle, secret: bytes)
    ensures var encoded := Base64(Payload(h));
            Seal(w, h, secret) == Ascii("v1.") + encoded + Ascii(".") + Hex(w.mac(secret, encoded))
  {
    hide Payload, Base64, Hex, Ascii;
    var encoded := Base64(Payload(h));
    var signature := Hex(w.mac(secret, encoded));
    VersionText();
    Assoc(VERSION, [DOT], encoded + ([DOT] + signature));
    Assoc(VERSION + [DOT], encoded, [DOT] + signature);
    Assoc(VERSION + [DOT] + encoded, [DOT], signature);
  }

  /** The text of a payload, for fields that need no escaping. */
  function PayloadText(provider: string, owner: string, model: string, jobId: string, expires: nat): string {
    "{\"provider\":\"" + provider + "\"" + (
      ",\"owner\":\"" + owner + "\"" + (
        ",\"model\":\"" + model + "\"" + (
          ",\"job_id\":\"" + jobId + "\"" + (",\"reserved_cost\":0.0,\"expires\":" + Decimal(expires) + "}"))))
  }

  /** A character that a plain word or path may hold. */
  predicate PlainChar(c: char) { c in WORD_CHARS || c == '/' }

  predicate Unescaped(s: string) { forall i | 0 <= i < |s| :: PlainChar(s[i]) }

  lemma PlainByte(c: char)
    requires PlainChar(c)
    ensures c < '\U{80}' && EscapeByte(c as int) == [c as int]
  {
    hide WORD_CHARS;
    WordCharExact(c);
  }

  lemma {:induction false} PlainEscape(s: string)
    requires Unescaped(s)
    ensures Escape(Ascii(s)) == Ascii(s)
  {
    hide PlainChar, EscapeByte;
    if s != [] {
      PlainByte(s[0]);
      PlainEscape(s[1..]);
      assert Ascii(s)[1..] == Ascii(s[1..]);
      HeadTail(Ascii(s));
    }
  }

  lemma MemberText(opening: string, value: string, rest: string)
    requires Unescaped(value)
    ensures Member(opening, Ascii(value), Ascii(rest)) == Ascii(opening + value + "\"" + rest)
  {
    hide Escape, Ascii;
    PlainEscape(value);
    AsciiConcat(opening + value + "\"", rest);
    AsciiConcat(opening + value, "\"");
    AsciiConcat(opening, value);
    QuoteText();
    Assoc(Ascii(opening) + Ascii(value), [QUOTE], Ascii(rest));
    Assoc(Ascii(opening), Ascii(value), [QUOTE] + Ascii(rest));
  }

  lemma QuoteText()
    ensures Ascii("\"") == [QUOTE] && Ascii(",") == [COMMA] && Ascii("0.0") == NO_COST
  {
  }

  lemma NumbersLiteral()
    ensures ",\"reserved_cost\":" + "0.0" + "," + "\"expires\":" == ",\"reserved_cost\":0.0,\"expires\":"
  {
  }

  lemma FiveParts(a: string, b: string, c: string, d: string, e: string)
    ensures a + (b + (c + (d + e))) == a + b + c + d + e
  {
    Assoc(a, b, c + (d + e));
    Assoc(a + b, c, d + e);
    Assoc(a + b + c, d, e);
  }

  lemma NumbersText(expires: nat)
    ensures Numbers(NO_COST, expires) == Ascii(",\"reserved_cost\":0.0,\"expires\":" + Decimal(expires) + "}")
  {
    hide Ascii, Decimal;
    var a, b, c, d := ",\"reserved_cost\":", "0.0", ",", "\"expires\":";
    QuoteText();
    AsciiConcat(Decimal(expires), "}");
    AsciiConcat(d, Decimal(expires) + "}");
    AsciiConcat(c, d + (Decimal(expires) + "}"));
    AsciiConcat(b, c + (d + (Decimal(expires) + "}")));
    AsciiConcat(a, b + (c + (d + (Decimal(expires) + "}"))));
    NumbersLiteral();
    FiveParts(a, b, c, d, Decimal(expires) + "}");
    Assoc(a + b + c + d, Decimal(expires), "}");
  }

  /** The payload of a submitted handle, letter by letter. */
  lemma PayloadSpelled(provider: string, owner: string, model: string, jobId: string, expires: nat)
    requires Unescaped(provider) && Unescaped(owner) && Unescaped(model) && Unescaped(jobId)
    ensures Payload(JobHandle(Ascii(provider), Ascii(owner), Ascii(model), Ascii(jobId), NO_COST, expires))
         == Ascii(PayloadText(provider, owner, model, jobId, expires))
  {
    hide Member, Numbers, Ascii, Decimal, Unescaped;
    NumbersText(expires);
    var numbers := ",\"reserved_cost\":0.0,\"expires\":" + Decimal(expires) + "}";
    var job := ",\"job_id\":\"" + jobId + "\"" + numbers;
    var named := ",\"model\":\"" + model + "\"" + job;
    var owned := ",\"owner\":\"" + owner + "\"" + named;
    MemberText(",\"job_id\":\"", jobId, numbers);
    MemberText(",\"model\":\"", model, job);
    MemberText(",\"owner\":\"", owner, named);
    MemberText("{\"provider\":\"", provider, owned);
  }

  // ---------- The alphabets ----------

  const BASE64_LETTERS := Text.UPPER_CASE + Text.LOWER_CASE + "0123456789" + "-_"

  lemma UpperCaseAt(v: nat)
    ensures |Text.UPPER_CASE| == 26 && (v < 26 ==> Text.UPPER_CASE[v] as int == 0x41 + v)
  {
  }

  lemma LowerCaseAt(v: nat)
    ensures |Text.LOWER_CASE| == 26 && (v < 26 ==> Text.LOWER_CASE[v] as int == 0x61 + v)
  {
  }

  lemma DigitAt(v: nat)
    requires v < 10
    ensures "0123456789"[v] as int == 0x30 + v
  {
  }

  /** The URL-safe alphabet (table 2 of RFC 4648). */
  lemma LettersSpelled(v: nat)
    requires v < 64
    ensures |BASE64_LETTERS| == 64 && Letter(v) == BASE64_LETTERS[v] as int
  {
    hide Text.UPPER_CASE, Text.LOWER_CASE;
    UpperCaseAt(v);
    LowerCaseAt(if v < 26 then 0 else v - 26);
    if 52 <= v < 62 {
      DigitAt(v - 52);
    }
  }

  /** Hexadecimal digits are written in lower case. */
  lemma HexLetterSpelled(v: nat)
    requires v < 16
    ensures HexLetter(v) == "0123456789abcdef"[v] as int
  {
  }

  /** A hexadecimal digit is read in either case. */
  lemma HexDigitsSpelled(c: byte, v: nat)
    requires v < 16
    ensures HexLetterValue(c) == Some(v)
            <==> c == "0123456789abcdef"[v] as int || c == "0123456789ABCDEF"[v] as int
  {
  }

  /** The escapes of a JSON string as `serde_json` writes them. */
  lemma EscapesSpelled(b: byte)
    ensures EscapeByte(b)
         == if b as char == '\"' then Ascii("\\\"")
            else if b as char == '\\' then Ascii("\\\\")
            else if b == 8 then Ascii("\\b")
            else if b as char == '\t' then Ascii("\\t")
            else if b as char == '\n' then Ascii("\\n")
            else if b == 12 then Ascii("\\f")
            else if b as char == '\r' then Ascii("\\r")
            else if b < 32 then
              Ascii("\\u00") + ["0123456789abcdef"[b / 16] as int, "0123456789abcdef"[b % 16] as int]
            else [b]
  {
    if b < 32 {
      HexLetterSpelled(b / 16);
      HexLetterSpelled(b % 16);
    }
  }

  // ---------- Refusals ----------

  /** With which status a call of either kind is refused for its provider, key or budget. */
  function ContextRefusal(
      found: Option<Lookup>, bearer: Option<bytes>, validator: Option<Validator>, model: bytes, skipBudget: bool)
    : Option<nat>
  {
    if found.None? || found.value.kind == NoJobs then Some(400)
    else if bearer.None? || !VirtualKey(bearer.value) then Some(401)
    else if validator.None? then Some(503)
    else
      match CallerFor(bearer, validator, model, found.value.name, skipBudget)
      case None => Some(403)
      case Some(caller) =>
        if caller.capped && !skipBudget then Some(400) else if found.value.apiKey == [] then Some(503) else None
  }

  lemma ContextRefusalExact(
      found: Option<Lookup>, bearer: Option<bytes>, validator: Option<Validator>, model: bytes, skipBudget: bool)
    ensures var c := ContextOf(found, bearer, validator, model, skipBudget);
            ContextRefusal(found, bearer, validator, model, skipBudget) == if c.Err? then Some(c.status) else None
    ensures var c := ContextOf(found, bearer, validator, model, skipBudget);
            c.Ok? ==> Some(c.value.owner) == CallerFor(bearer, validator, model, found.value.name, skipBudget)
  {
    hide Ascii;
  }

  /** A lifecycle call that never gets to its handle: the first check that fails gives the status. */
  lemma EarlyRefusal(w: World, e: Event)
    requires e.Lifecycle?
    ensures e.first.None? || e.first.value.kind == NoJobs ==> Follow(w, e) == Err(400)
    ensures e.first.Some? && e.first.value.kind != NoJobs && e.first.value.apiKey == [] ==> Follow(w, e) == Err(503)
    ensures JobProvider(e.first) && !(e.bearer.Some? && VirtualKey(e.bearer.value)) ==> Follow(w, e) == Err(401)
    ensures JobProvider(e.first) && e.bearer.Some? && VirtualKey(e.bearer.value) && e.validator.None? ==>
              Follow(w, e) == Err(503)
  {
    hide Open, LifecycleTarget, ContextOf, Ascii;
  }

  /** A call whose handle does not open is refused with 403. */
  lemma RefusedHandle(w: World, e: Event)
    requires e.Lifecycle? && JobProvider(e.first)
    requires e.bearer.Some? && VirtualKey(e.bearer.value) && e.validator.Some?
    requires !Open(w, e.token, e.first.value.apiKey, e.first.value.name, w.hash(e.bearer.value), e.now).Opened?
    ensures Follow(w, e) == Err(403)
  {
    hide Open, LifecycleTarget, ContextOf, Ascii;
  }

  /** One whose handle opens: for the second provider lookup, the key, or a change of owner. */
  lemma LateRefusal(w: World, e: Event, h: JobHandle)
    requires e.Lifecycle? && JobProvider(e.first)
    requires e.bearer.Some? && VirtualKey(e.bearer.value) && e.validator.Some?
    requires Open(w, e.token, e.first.value.apiKey, e.first.value.name, w.hash(e.bearer.value), e.now) == Opened(h)
    ensures var refusal := ContextRefusal(e.second, e.bearer, e.validator, h.model, true);
            && (refusal.Some? ==> Follow(w, e) == Err(refusal.value))
            && (refusal.None? && Follow(w, e).Err? ==> Follow(w, e).status == 403)
  {
    hide Open, LifecycleTarget, ContextOf, Ascii, ContextRefusal;
    ContextRefusalExact(e.second, e.bearer, e.validator, h.model, true);
  }
}
