/**
 Signed job handles: sealing and opening them, the calls that follow, and what holds over whole runs
 when the signatures cannot be forged.

 The MAC and the key hash are functions that nothing is known about.
 */
module JobHandles {
  import opened Wrappers
  import opened Sequences
  import opened WireBytes
  import opened JobTokens

  // ---------- Handles and their JSON ----------

  /** The text of a finite cost. */
  type Lexeme = s: bytes | IsNumber(s) witness [0x30]

  datatype JobHandle = JobHandle(
    provider: bytes, owner: bytes, model: bytes, jobId: bytes, reservedCost: Lexeme, expires: int)

  /** A member with a string value, and what follows its closing quote. */
  function Member(opening: string, value: bytes, rest: bytes): bytes {
    Ascii(opening) + (Escape(value) + ([QUOTE] + rest))
  }

  function Numbers(cost: bytes, expires: int): bytes {
    Ascii(",\"reserved_cost\":") + (cost + ([COMMA] + (Ascii("\"expires\":") + (IntText(expires) + Ascii("}")))))
  }

  /** `serde_json::to_vec`: the fields in the order of their declaration. */
  function Payload(h: JobHandle): bytes {
    Member("{\"provider\":\"", h.provider,
    Member(",\"owner\":\"", h.owner,
    Member(",\"model\":\"", h.model,
    Member(",\"job_id\":\"", h.jobId, Numbers(h.reservedCost, h.expires)))))
  }

  lemma CancelLeft(a: bytes, x: bytes, y: bytes)
    requires a + x == a + y
    ensures x == y
  {
    assert (a + x)[|a|..] == x && (a + y)[|a|..] == y;
  }

  lemma CancelRight(a: bytes, b: bytes, x: bytes)
    requires a + x == b + x
    ensures a == b
  {
    assert |a + x| == |a| + |x| && |b + x| == |b| + |x|;
    assert (a + x)[..|a|] == a && (b + x)[..|b|] == b;
  }

  lemma ShorterStops(a: bytes, b: bytes, stop: byte, x: bytes, y: bytes)
    requires a + ([stop] + x) == b + ([stop] + y)
    ensures |a| < |b| ==> stop in b
  {
    var s, t := a + ([stop] + x), b + ([stop] + y);
    assert s[|a|] == stop;
    assert |a| < |b| ==> t[|a|] == b[|a|];
  }

  /** The first `stop` splits a text in one way. */
  lemma CancelTo(a: bytes, b: bytes, stop: byte, x: bytes, y: bytes)
    requires a + ([stop] + x) == b + ([stop] + y) && stop !in a && stop !in b
    ensures a == b && x == y
  {
    ShorterStops(a, b, stop, x, y);
    ShorterStops(b, a, stop, y, x);
    var s, t := a + ([stop] + x), b + ([stop] + y);
    assert s[..|a|] == a && t[..|b|] == b && s[|a| + 1..] == x && t[|b| + 1..] == y;
  }

  lemma ShorterStarts(a: bytes, b: bytes, stop: byte, x: bytes, y: bytes)
    requires a + ([stop] + x) == b + ([stop] + y)
    ensures |a| < |b| ==> stop in x
  {
    var s, t := a + ([stop] + x), b + ([stop] + y);
    assert t[|b|] == stop;
    assert |a| < |b| ==> s[|b|] == x[|b| - |a| - 1];
  }

  /** And so does the last. */
  lemma CancelFrom(a: bytes, b: bytes, stop: byte, x: bytes, y: bytes)
    requires a + ([stop] + x) == b + ([stop] + y) && stop !in x && stop !in y
    ensures a == b && x == y
  {
    ShorterStarts(a, b, stop, x, y);
    ShorterStarts(b, a, stop, y, x);
    var s, t := a + ([stop] + x), b + ([stop] + y);
    assert s[..|a|] == a && t[..|b|] == b && s[|a| + 1..] == x && t[|b| + 1..] == y;
  }

  lemma MemberInjective(opening: string, v: bytes, w: bytes, x: bytes, y: bytes)
    requires Member(opening, v, x) == Member(opening, w, y)
    ensures v == w && x == y
  {
    CancelLeft(Ascii(opening), Escape(v) + ([QUOTE] + x), Escape(w) + ([QUOTE] + y));
    EscapeInjective(v, w, x, y);
  }

  lemma NumbersInjective(c: Lexeme, m: int, d: Lexeme, n: int)
    requires Numbers(c, m) == Numbers(d, n)
    ensures c == d && m == n
  {
    hide IntText, Ascii, IsNumber;
    NumberHasNoComma(c);
    NumberHasNoComma(d);
    var expires := Ascii("\"expires\":");
    var x, y := expires + (IntText(m) + Ascii("}")), expires + (IntText(n) + Ascii("}"));
    CancelLeft(Ascii(",\"reserved_cost\":"), c + ([COMMA] + x), d + ([COMMA] + y));
    CancelTo(c, d, COMMA, x, y);
    CancelLeft(expires, IntText(m) + Ascii("}"), IntText(n) + Ascii("}"));
    CancelRight(IntText(m), IntText(n), Ascii("}"));
    IntTextInjective(m, n);
  }

  /** No two handles have the same JSON text. */
  lemma PayloadInjective(g: JobHandle, h: JobHandle)
    requires Payload(g) == Payload(h)
    ensures g == h
  {
    hide Member, Numbers;
    var gn, hn := Numbers(g.reservedCost, g.expires), Numbers(h.reservedCost, h.expires);
    var gj, hj := Member(",\"job_id\":\"", g.jobId, gn), Member(",\"job_id\":\"", h.jobId, hn);
    var gm, hm := Member(",\"model\":\"", g.model, gj), Member(",\"model\":\"", h.model, hj);
    var go, ho := Member(",\"owner\":\"", g.owner, gm), Member(",\"owner\":\"", h.owner, hm);
    MemberInjective("{\"provider\":\"", g.provider, h.provider, go, ho);
    MemberInjective(",\"owner\":\"", g.owner, h.owner, gm, hm);
    MemberInjective(",\"model\":\"", g.model, h.model, gj, hj);
    MemberInjective(",\"job_id\":\"", g.jobId, h.jobId, gn, hn);
    NumbersInjective(g.reservedCost, g.expires, h.reservedCost, h.expires);
  }

  // ---------- What is left to the environment ----------

  /**
   `mac` is HMAC-SHA-256 and `hash` the hash of a virtual key; `other` says how the JSON parser reads
   the texts that the serializer never writes.
   */
  datatype World = World(mac: (bytes, bytes) -> bytes, hash: bytes -> bytes, other: bytes -> Option<JobHandle>)

  /** Every MAC is 32 bytes long. */
  ghost predicate Mac32(w: World) { forall secret: bytes, message: bytes :: |w.mac(secret, message)| == 32 }

  /** `serde_json::from_slice`: whatever the serializer writes is read back. */
  ghost function FromSlice(w: World, payload: bytes): (r: Option<JobHandle>)
    ensures forall h | Payload(h) == payload :: r == Some(h)
  {
    if h :| Payload(h) == payload then
      assert forall g | Payload(g) == payload :: g == h by {
        forall g | Payload(g) == payload ensures g == h { PayloadInjective(g, h); }
      }
      Some(h)
    else w.other(payload)
  }

  // ---------- Sealing and opening ----------

  const VERSION: bytes := [0x76, 0x31]
  const MAX_TOKEN := 2048

  function Token(encoded: bytes, signature: bytes): bytes { VERSION + ([DOT] + (encoded + ([DOT] + signature))) }

  function Seal(w: World, h: JobHandle, secret: bytes): bytes {
    var encoded := Base64(Payload(h));
    Token(encoded, Hex(w.mac(secret, encoded)))
  }

  predicate SafeByte(b: byte) {
    0x30 <= b <= 0x39 || 0x41 <= b <= 0x5A || 0x61 <= b <= 0x7A || b == 0x2D || b == 0x5F
  }

  predicate SafeComponent(s: bytes) { s != [] && |s| <= 128 && forall b <- s :: SafeByte(b) }

  const SLASH: byte := 0x2F

  predicate SafeFalModel(s: bytes) { |s| <= 256 && forall part <- Split(s, SLASH) :: SafeComponent(part) }

  /** The checks that follow the signature. */
  predicate Admissible(h: JobHandle, provider: bytes, owner: bytes, now: int) {
    h.provider == provider && h.owner == owner && now <= h.expires && SafeComponent(h.jobId) && SafeFalModel(h.model)
  }

  /** Both refusals are 403; only the message differs. */
  datatype Opening = Opened(handle: JobHandle) | Invalid | NotForCaller

  ghost function Open(w: World, token: bytes, secret: bytes, provider: bytes, owner: bytes, now: int): Opening {
    if |token| > MAX_TOKEN then Invalid
    else
      var parts := Split(token, DOT);
      if |parts| != 3 || parts[0] != VERSION then Invalid
      else
        var signature := FromHex(parts[2]);
        if signature.None? || signature.value != w.mac(secret, parts[1]) then Invalid
        else
          match FromBase64(parts[1])
          case None => Invalid
          case Some(payload) =>
            match FromSlice(w, payload)
            case None => Invalid
            case Some(h) => if Admissible(h, provider, owner, now) then Opened(h) else NotForCaller
  }

  /** The token is of the right form and its signature is that of its middle part. */
  ghost predicate Authentic(w: World, token: bytes, secret: bytes, encoded: bytes) {
    exists signature ::
      DOT !in encoded && DOT !in signature && token == Token(encoded, signature)
      && FromHex(signature) == Some(w.mac(secret, encoded))
  }

  lemma TokenParts(token: bytes, encoded: bytes, signature: bytes)
    requires DOT !in encoded && DOT !in signature
    ensures Split(token, DOT) == [VERSION, encoded, signature] <==> token == Token(encoded, signature)
  {
    SplitThree(token, VERSION, encoded, signature, DOT);
  }

  /** What opens is authentic, and the handle is the content of its middle part. */
  lemma OpenedIsAuthentic(w: World, token: bytes, secret: bytes, provider: bytes, owner: bytes, now: int)
      returns (encoded: bytes)
    requires Open(w, token, secret, provider, owner, now).Opened?
    ensures Authentic(w, token, secret, encoded) && |token| <= MAX_TOKEN
    ensures var h := Open(w, token, secret, provider, owner, now).handle;
            Admissible(h, provider, owner, now) && exists payload ::
              encoded == Base64(payload) && FromSlice(w, payload) == Some(h)
  {
    hide Split, FromBase64, FromHex, FromSlice, Admissible, Token, Base64;
    var parts := Split(token, DOT);
    encoded := parts[1];
    SplitJoins(token, DOT);
    assert parts == [VERSION, encoded, parts[2]];
    assert parts[1] in parts && parts[2] in parts;
    TokenParts(token, encoded, parts[2]);
    var payload := FromBase64(encoded).value;
    Base64Exact(encoded, payload);
  }

  /** A sealed handle opens as itself exactly when the length and the later checks allow it. */
  lemma OpenOfSeal(w: World, h: JobHandle, secret: bytes, provider: bytes, owner: bytes, now: int)
    ensures Open(w, Seal(w, h, secret), secret, provider, owner, now)
            == if |Seal(w, h, secret)| > MAX_TOKEN then Invalid
               else if Admissible(h, provider, owner, now) then Opened(h) else NotForCaller
  {
    hide Split, FromBase64, FromHex, FromSlice, Admissible, Token, Base64, Hex, Payload;
    var encoded := Base64(Payload(h));
    var tag := w.mac(secret, encoded);
    Base64HasNoDot(Payload(h));
    HexDecodes(tag);
    TokenParts(Token(encoded, Hex(tag)), encoded, Hex(tag));
    Base64Exact(encoded, Payload(h));
    assert FromSlice(w, Payload(h)) == Some(h);
  }

  // ---------- How long a token is ----------

  lemma {:induction false} EscapeLength(s: bytes)
    requires forall b <- s :: SafeByte(b) || b == SLASH
    ensures |Escape(s)| == |s|
    decreases |s|
  {
    if s != [] {
      assert s[0] in s;
      EscapeLength(s[1..]);
    }
  }

  lemma {:induction false} JoinedBytes(parts: seq<bytes>, sep: byte)
    requires parts != [] && forall part <- parts, b <- part :: SafeByte(b)
    ensures forall b <- Joined(parts, sep) :: SafeByte(b) || b == sep
    decreases |parts|
  {
    assert parts[0] in parts;
    if |parts| > 1 {
      JoinedBytes(parts[1..], sep);
    }
  }

  lemma SafeModelBytes(model: bytes)
    requires SafeFalModel(model)
    ensures forall b <- model :: SafeByte(b) || b == SLASH
  {
    SplitJoins(model, SLASH);
    JoinedBytes(Split(model, SLASH), SLASH);
  }

  lemma PayloadLength(h: JobHandle)
    ensures |Payload(h)| == 77 + |Escape(h.provider)| + |Escape(h.owner)| + |Escape(h.model)| + |Escape(h.jobId)|
                            + |h.reservedCost| + |IntText(h.expires)|
  {
  }

  /** Whether a token is short enough to be opened depends on its payload only. */
  lemma FitsExact(w: World, h: JobHandle, secret: bytes)
    requires Mac32(w)
    ensures |Seal(w, h, secret)| <= MAX_TOKEN <==> |Payload(h)| <= 1485
  {
    hide Payload, Base64, Hex;
    Base64Length(Payload(h));
    HexDecodes(w.mac(secret, Base64(Payload(h))));
  }

  predicate IsI64(n: int) { -0x8000_0000_0000_0000 <= n < 0x8000_0000_0000_0000 }

  lemma IntTextLength(n: int)
    requires IsI64(n)
    ensures |IntText(n)| <= 20
  {
    assert Pow10(10) == 10_000_000_000;
    assert Pow10(19) == 10_000_000_000_000_000_000;
    NatTextLength(if n < 0 then -n else n, 19);
  }

  /** The `key_hash` of an owner: a SHA-256 digest in hexadecimal. */
  predicate IsKeyHash(s: bytes) { |s| == 64 && forall b <- s :: HexLetterValue(b).Some? }

  // ---------- The job calls ----------

  datatype Kind = Fal | Replicate | NoJobs
  datatype Action = Status | Result | Cancel
  datatype Method = Get | Post | Put

  /** `lifecycle_target`. */
  function LifecycleTarget(action: Action, kind: Kind, h: JobHandle): (Method, bytes)
    requires kind != NoJobs
  {
    var stem := if kind == Fal then Ascii("/") + h.model + Ascii("/requests/") + h.jobId
                else Ascii("/predictions/") + h.jobId;
    var path := if action == Cancel then stem + Ascii("/cancel")
                else if kind == Fal && action == Status then stem + Ascii("/status") else stem;
    (if action != Cancel then Get else if kind == Fal then Put else Post, path)
  }

  /** A status request and a result request for different jobs of fal have the same address. */
  predicate Collide(a: Action, g: JobHandle, b: Action, h: JobHandle) {
    a == Status && b == Result
    && g.jobId == Ascii("requests") && h.jobId == Ascii("status") && h.model == g.model + Ascii("/requests")
  }

  function FalStem(h: JobHandle): bytes { Ascii("/") + h.model + Ascii("/requests/") + h.jobId }

  lemma StemParts(h: JobHandle)
    ensures FalStem(h) == ((Ascii("/") + h.model) + Ascii("/requests")) + ([SLASH] + h.jobId)
    ensures FalStem(h) + Ascii("/status") == FalStem(h) + ([SLASH] + Ascii("status"))
    ensures FalStem(h) + Ascii("/cancel") == FalStem(h) + ([SLASH] + Ascii("cancel"))
  {
    hide Ascii;
    SlashLiterals();
    var x := Ascii("/") + h.model;
    Assoc(x, Ascii("/requests"), [SLASH]);
    Assoc(x + Ascii("/requests"), [SLASH], h.jobId);
  }

  lemma SlashLiterals()
    ensures Ascii("/requests/") == Ascii("/requests") + [SLASH]
    ensures Ascii("/status") == [SLASH] + Ascii("status") && Ascii("/cancel") == [SLASH] + Ascii("cancel")
  {
    assert "/requests" + "/" == "/requests/" && "/" + "status" == "/status" && "/" + "cancel" == "/cancel";
    assert Ascii("/") == [SLASH];
    AsciiConcat("/requests", "/");
    AsciiConcat("/", "status");
    AsciiConcat("/", "cancel");
  }

  lemma StemInjective(g: JobHandle, h: JobHandle)
    requires SLASH !in g.jobId && SLASH !in h.jobId && FalStem(g) == FalStem(h)
    ensures g.model == h.model && g.jobId == h.jobId
  {
    hide Ascii, FalStem;
    StemParts(g);
    StemParts(h);
    var x, y := Ascii("/") + g.model, Ascii("/") + h.model;
    CancelFrom(x + Ascii("/requests"), y + Ascii("/requests"), SLASH, g.jobId, h.jobId);
    CancelRight(x, y, Ascii("/requests"));
    CancelLeft(Ascii("/"), g.model, h.model);
  }

  lemma RequestsLiteral()
    ensures Ascii("/requests") == [SLASH] + Ascii("requests")
  {
    assert "/" + "requests" == "/requests" && Ascii("/") == [SLASH];
    AsciiConcat("/", "requests");
  }

  /** A stem with a segment behind it is another stem in one way only. */
  lemma StemPlusSegment(
      slash: bytes, m: bytes, j: bytes, n: bytes, k: bytes, requests: bytes, last: bytes, status: bytes)
    requires requests == [SLASH] + last && SLASH !in last && SLASH !in j && SLASH !in k && SLASH !in status
    ensures ((slash + m) + requests) + ([SLASH] + j) + ([SLASH] + status) == ((slash + n) + requests) + ([SLASH] + k)
            <==> j == last && k == status && n == m + requests
  {
    var x, y := slash + m, slash + n;
    var stem, other := (x + requests) + ([SLASH] + j), (y + requests) + ([SLASH] + k);
    Assoc(y, [SLASH], last);
    Assoc(slash, m, requests);
    if stem + ([SLASH] + status) == other {
      CancelFrom(stem, y + requests, SLASH, status, k);
      CancelFrom(x + requests, y, SLASH, j, last);
      CancelLeft(slash, m + requests, n);
    }
  }

  lemma SegmentLiterals()
    ensures Ascii("/requests") == [SLASH] + Ascii("requests")
    ensures SLASH !in Ascii("requests") && SLASH !in Ascii("status")
  {
    RequestsLiteral();
    LettersAreSafe("status");
    LettersAreSafe("requests");
  }

  lemma CollisionParts(g: JobHandle, h: JobHandle)
    requires SLASH !in g.jobId && SLASH !in h.jobId
    ensures FalStem(g) + Ascii("/status") == FalStem(h) <==> Collide(Status, g, Result, h)
  {
    hide Ascii, FalStem;
    StemParts(g);
    StemParts(h);
    SegmentLiterals();
    StemPlusSegment(
      Ascii("/"), g.model, g.jobId, h.model, h.jobId, Ascii("/requests"), Ascii("requests"), Ascii("status"));
  }

  /**
   The address of a fal request tells the action, the model and the job apart, but for one kind of
   pair: a job called "requests" and a model whose last segment is "requests".
   */
  lemma FalTargetExact(a: Action, g: JobHandle, b: Action, h: JobHandle)
    requires SafeComponent(g.jobId) && SafeComponent(h.jobId)
    ensures LifecycleTarget(a, Fal, g) == LifecycleTarget(b, Fal, h) <==>
              || (a == b && g.model == h.model && g.jobId == h.jobId)
              || Collide(a, g, b, h) || Collide(b, h, a, g)
  {
    hide Ascii, Collide, FalStem;
    assert SLASH !in g.jobId && SLASH !in h.jobId;
    StemParts(g);
    StemParts(h);
    FalTargetStem(a, g);
    FalTargetStem(b, h);
    CollisionParts(g, h);
    CollisionParts(h, g);
    OnlyStatusCollides(a, g, b, h);
    OnlyStatusCollides(b, h, a, g);
    if a == b && LifecycleTarget(a, Fal, g) == LifecycleTarget(b, Fal, h) {
      if a == Status {
        CancelRight(FalStem(g), FalStem(h), Ascii("/status"));
      } else if a == Cancel {
        CancelRight(FalStem(g), FalStem(h), Ascii("/cancel"));
      }
      StemInjective(g, h);
    }
    if a == b && g.model == h.model && g.jobId == h.jobId {
      SameStem(g, h);
    }
  }

  const REQUESTS_JOB := JobHandle([], [], Ascii("m"), Ascii("requests"), NO_COST, 0)
  const STATUS_JOB := JobHandle([], [], Ascii("m/requests"), Ascii("status"), NO_COST, 0)

  lemma LettersAreSafe(s: string)
    requires 0 < |s| <= 128 && forall i | 0 <= i < |s| :: 'a' <= s[i] <= 'z'
    ensures SafeComponent(Ascii(s)) && SLASH !in Ascii(s)
  {
  }

  lemma AsciiConcat(s: string, t: string)
    ensures Ascii(s + t) == Ascii(s) + Ascii(t)
  {
  }

  lemma CollidingParts()
    ensures Ascii("m/requests") == Ascii("m") + ([SLASH] + Ascii("requests")) == Ascii("m") + Ascii("/requests")
  {
    assert "m" + "/requests" == "m/requests" && "/" + "requests" == "/requests" && Ascii("/") == [SLASH];
    AsciiConcat("m", "/requests");
    AsciiConcat("/", "requests");
  }

  /** A pair of jobs that a handle may name and that share an address. */
  lemma FalJobsCollide()
    ensures SafeComponent(REQUESTS_JOB.jobId) && SafeFalModel(REQUESTS_JOB.model)
    ensures SafeComponent(STATUS_JOB.jobId) && SafeFalModel(STATUS_JOB.model)
    ensures REQUESTS_JOB.model != STATUS_JOB.model && REQUESTS_JOB.jobId != STATUS_JOB.jobId
    ensures LifecycleTarget(Status, Fal, REQUESTS_JOB) == LifecycleTarget(Result, Fal, STATUS_JOB)
  {
    hide SafeComponent, SafeFalModel, LifecycleTarget, Ascii;
    CollidingParts();
    LettersAreSafe("m");
    LettersAreSafe("requests");
    LettersAreSafe("status");
    OneSegment(Ascii("m"));
    TwoSegments(Ascii("m"), Ascii("requests"));
    FalTargetExact(Status, REQUESTS_JOB, Result, STATUS_JOB);
  }

  lemma OneSegment(a: bytes)
    requires SafeComponent(a)
    ensures SafeFalModel(a)
  {
    SplitOne(a, SLASH);
  }

  lemma TwoSegments(a: bytes, b: bytes)
    requires SafeComponent(a) && SafeComponent(b) && |a| + 1 + |b| <= 256
    ensures SafeFalModel(a + ([SLASH] + b))
  {
    hide SafeComponent;
    assert SLASH !in a && SLASH !in b by { NoSlash(a); NoSlash(b); }
    SplitFirst(a, SLASH, b);
    SplitOne(b, SLASH);
  }

  lemma NoSlash(a: bytes)
    requires SafeComponent(a)
    ensures SLASH !in a
  {
  }

  lemma SameStem(g: JobHandle, h: JobHandle)
    requires g.model == h.model && g.jobId == h.jobId
    ensures FalStem(g) == FalStem(h)
  {
  }

  lemma FalTargetStem(a: Action, h: JobHandle)
    ensures LifecycleTarget(a, Fal, h)
            == match a
               case Status => (Get, FalStem(h) + Ascii("/status"))
               case Result => (Get, FalStem(h))
               case Cancel => (Put, FalStem(h) + Ascii("/cancel"))
  {
  }

  lemma OnlyStatusCollides(a: Action, g: JobHandle, b: Action, h: JobHandle)
    ensures Collide(a, g, b, h) ==> a == Status && b == Result
    ensures Collide(a, g, b, h) ==> Collide(Status, g, Result, h)
    ensures a == Status && b == Result && Collide(Status, g, Result, h) ==> Collide(a, g, b, h)
  {
  }

  datatype Lookup = Lookup(name: bytes, kind: Kind, apiKey: bytes, base: bytes)

  /** `capped`: the key has a budget or a token limit. */
  datatype Owner = Owner(keyHash: bytes, capped: bool)

  /** Key, model, provider and whether the budget is ignored. */
  type Validator = (bytes, bytes, bytes, bool) -> Option<Owner>

  datatype Context = Context(kind: Kind, provider: bytes, apiKey: bytes, base: bytes, owner: Owner)

  datatype Reply<T> = Ok(value: T) | Err(status: nat)

  predicate IsVirtualKey(key: bytes) { Ascii("eavs-") <= key && |key| >= 36 }

  /** `context`. */
  function ContextOf(
    lookup: Option<Lookup>, bearer: Option<bytes>, validator: Option<Validator>, model: bytes, skipBudget: bool)
    : Reply<Context>
  {
    if lookup.None? || lookup.value.kind == NoJobs then Err(400)
    else if bearer.None? || !IsVirtualKey(bearer.value) then Err(401)
    else if validator.None? then Err(503)
    else
      match validator.value(bearer.value, model, lookup.value.name, skipBudget)
      case None => Err(403)
      case Some(owner) =>
        if !skipBudget && owner.capped then Err(400)
        else if lookup.value.apiKey == [] then Err(503)
        else Ok(Context(lookup.value.kind, lookup.value.name, lookup.value.apiKey, lookup.value.base, owner))
  }

  /**
   A call of the run with what its surroundings answered: provider lookups, the key validator, the
   upstream reply and the clock.

   `accepted` says that the body of a submission passed its checks and the upstream call succeeded;
   `sendable` that the network policy and the credential let a lifecycle call be sent. A lifecycle
   call looks the provider up twice.
   */
  datatype Event =
    | Submit(
        lookup: Option<Lookup>, bearer: Option<bytes>, validator: Option<Validator>, model: bytes, accepted: bool,
        replyId: Option<bytes>, now: int)
    | Lifecycle(
        first: Option<Lookup>, second: Option<Lookup>, bearer: Option<bytes>, validator: Option<Validator>,
        token: bytes, action: Action, sendable: bool, now: int)

  const WEEK := 7 * 24 * 3600
  const NO_COST: Lexeme := (ZeroIsNumber(); [0x30, DOT, 0x30])

  /** The handle that a submission seals, and the secret it seals it with. */
  datatype Sealing = Sealing(secret: bytes, handle: JobHandle)

  function Submission(e: Event): Option<Sealing>
    requires e.Submit?
  {
    if !SafeFalModel(e.model) then None
    else
      match ContextOf(e.lookup, e.bearer, e.validator, e.model, false)
      case Err(_) => None
      case Ok(c) =>
        if !e.accepted || e.replyId.None? || !SafeComponent(e.replyId.value) then None
        else
          Some(Sealing(c.apiKey,
                       JobHandle(c.provider, c.owner.keyHash, e.model, e.replyId.value, NO_COST, e.now + WEEK)))
  }

  /** A request that goes upstream. */
  datatype Call = Call(verb: Method, url: bytes, handle: JobHandle)

  /** `lifecycle`, up to the point where the request is sent. */
  ghost function Follow(w: World, e: Event): Reply<Call>
    requires e.Lifecycle?
  {
    if e.first.None? || e.first.value.kind == NoJobs then Err(400)
    else if e.first.value.apiKey == [] then Err(503)
    else if e.bearer.None? || !IsVirtualKey(e.bearer.value) then Err(401)
    else if e.validator.None? then Err(503)
    else
      match Open(w, e.token, e.first.value.apiKey, e.first.value.name, w.hash(e.bearer.value), e.now)
      case Invalid => Err(403)
      case NotForCaller => Err(403)
      case Opened(h) =>
        match ContextOf(e.second, e.bearer, e.validator, h.model, true)
        case Err(status) => Err(status)
        case Ok(c) =>
          if c.owner.keyHash != h.owner || !e.sendable then Err(403)
          else
            var target := LifecycleTarget(e.action, c.kind, h);
            Ok(Call(target.0, c.base + target.1, h))
  }

  // ---------- What a submission hands out ----------

  /** Its component checks never fail later, and its token fits for every provider name of up to 937 escaped bytes. */
  lemma SubmittedHandle(w: World, e: Event)
    requires e.Submit? && Submission(e).Some? && IsI64(e.now + WEEK)
    requires Mac32(w) && IsKeyHash(Submission(e).value.handle.owner)
    ensures var s := Submission(e).value;
            && SafeComponent(s.handle.jobId) && SafeFalModel(s.handle.model)
            && (|Escape(s.handle.provider)| <= 937 ==> |Seal(w, s.handle, s.secret)| <= MAX_TOKEN)
  {
    hide Payload, Base64, Seal, Escape, SafeComponent, SafeFalModel, Split, ContextOf, IntText;
    var s := Submission(e).value;
    PayloadLength(s.handle);
    FitsExact(w, s.handle, s.secret);
    IntTextLength(s.handle.expires);
    PlainFields(s.handle);
  }

  lemma PlainFields(h: JobHandle)
    requires SafeComponent(h.jobId) && SafeFalModel(h.model) && IsKeyHash(h.owner)
    ensures |Escape(h.jobId)| <= 128 && |Escape(h.model)| <= 256 && |Escape(h.owner)| == 64
  {
    hide Escape, Split;
    SafeModelBytes(h.model);
    EscapeLength(h.jobId);
    EscapeLength(h.model);
    EscapeLength(h.owner);
  }

  // ---------- Where the calls go ----------

  /** The request for an action on a job of a fal model. */
  predicate FalRequest(action: Action, base: bytes, model: bytes, jobId: bytes, verb: Method, url: bytes) {
    var stem := base + Ascii("/") + model + Ascii("/requests/") + jobId;
    match action
    case Status => verb == Get && url == stem + Ascii("/status")
    case Result => verb == Get && url == stem
    case Cancel => verb == Put && url == stem + Ascii("/cancel")
  }

  /** The request for an action on a Replicate job: the model is no part of it. */
  predicate ReplicateRequest(action: Action, base: bytes, jobId: bytes, verb: Method, url: bytes) {
    var stem := base + Ascii("/predictions/") + jobId;
    match action
    case Status => verb == Get && url == stem
    case Result => verb == Get && url == stem
    case Cancel => verb == Post && url == stem + Ascii("/cancel")
  }

  predicate AddressedTo(action: Action, target: Lookup, model: bytes, jobId: bytes, verb: Method, url: bytes) {
    match target.kind
    case Fal => FalRequest(action, target.base, model, jobId, verb, url)
    case Replicate => ReplicateRequest(action, target.base, jobId, verb, url)
    case NoJobs => false
  }

  lemma TargetSpelled(action: Action, target: Lookup, h: JobHandle)
    requires target.kind != NoJobs
    ensures var t := LifecycleTarget(action, target.kind, h);
            AddressedTo(action, target, h.model, h.jobId, t.0, target.base + t.1)
  {
    hide Ascii;
    var stem := if target.kind == Fal then FalStem(h) else Ascii("/predictions/") + h.jobId;
    Assoc(target.base, stem, Ascii("/status"));
    Assoc(target.base, stem, Ascii("/cancel"));
    Assoc(target.base, Ascii("/predictions/"), h.jobId);
    Assoc(target.base, Ascii("/") + h.model + Ascii("/requests/"), h.jobId);
    Assoc(target.base, Ascii("/") + h.model, Ascii("/requests/"));
    Assoc(target.base, Ascii("/"), h.model);
  }

  /** What goes upstream goes to the provider of the second lookup, for the model and job of the handle. */
  lemma FollowedCall(w: World, e: Event)
    requires e.Lifecycle? && Follow(w, e).Ok?
    ensures var call := Follow(w, e).value;
            && e.second.Some? && SafeComponent(call.handle.jobId) && SafeFalModel(call.handle.model)
            && AddressedTo(e.action, e.second.value, call.handle.model, call.handle.jobId, call.verb, call.url)
  {
    hide Open, LifecycleTarget, AddressedTo, SafeComponent, SafeFalModel, IsVirtualKey;
    var call := Follow(w, e).value;
    var owner := w.hash(e.bearer.value);
    var encoded := OpenedIsAuthentic(w, e.token, e.first.value.apiKey, e.first.value.name, owner, e.now);
    TargetSpelled(e.action, e.second.value, call.handle);
  }

  // ---------- Runs ----------

  /** The event at `j` is a submission that sealed this handle with this secret. */
  predicate SealedAt(run: seq<Event>, j: nat, secret: bytes, h: JobHandle) {
    j < |run| && run[j].Submit? && Submission(run[j]) == Some(Sealing(secret, h))
  }

  /** A token that verifies holds, as its middle part, one that an earlier submission signed. */
  ghost predicate Unforgeable(w: World, run: seq<Event>) {
    forall i: nat, encoded: bytes | i < |run| && run[i].Lifecycle? && run[i].first.Some? ::
      Authentic(w, run[i].token, run[i].first.value.apiKey, encoded) ==>
      exists j: nat, h :: j < i && SealedAt(run, j, run[i].first.value.apiKey, h) && encoded == Base64(Payload(h))
  }

  /**
   A lifecycle call that goes upstream acts on a job that an earlier submission of the same key, to
   the same provider, was given: its handle is the one sealed there, unexpired, and it goes to the
   address of that model and job at the provider that the second lookup gave.
   */
  lemma CallsStayWithOwner(w: World, run: seq<Event>, i: nat) returns (j: nat)
    requires i < |run| && run[i].Lifecycle? && Unforgeable(w, run) && Follow(w, run[i]).Ok?
    ensures var call := Follow(w, run[i]).value;
            && j < i && SealedAt(run, j, run[i].first.value.apiKey, call.handle)
            && call.handle.provider == run[i].first.value.name == run[j].lookup.value.name
            && call.handle.owner == w.hash(run[i].bearer.value)
            && run[i].now <= run[j].now + 604_800
            && run[i].second.Some? && run[i].second.value.kind != NoJobs
            && (run[i].first == run[i].second ==> run[i].second.value.name == call.handle.provider)
            && call.handle.model == run[j].model && Some(call.handle.jobId) == run[j].replyId
            && AddressedTo(run[i].action, run[i].second.value, run[j].model, run[j].replyId.value, call.verb, call.url)
  {
    hide IsNumber, Ascii, Split, Escape, IntText, AddressedTo;
    hide Open, LifecycleTarget, Authentic, Payload, Base64, FromSlice, SafeComponent, SafeFalModel, IsVirtualKey;
    var e := run[i];
    var call := Follow(w, e).value;
    var secret, owner := e.first.value.apiKey, w.hash(e.bearer.value);
    var encoded := OpenedIsAuthentic(w, e.token, secret, e.first.value.name, owner, e.now);
    var payload :| encoded == Base64(payload) && FromSlice(w, payload) == Some(call.handle);
    var k: nat, h :| k < i && SealedAt(run, k, secret, h) && encoded == Base64(Payload(h));
    j := k;
    FollowedCall(w, e);
    Base64Exact(encoded, payload);
    Base64Exact(encoded, Payload(h));
    assert FromSlice(w, payload) == Some(h);
  }

  /** A sealed handle, brought back, goes upstream exactly when the caller may use it. */
  lemma SealedHandleExact(w: World, e: Event, h: JobHandle)
    requires e.Lifecycle? && e.first.Some? && e.token == Seal(w, h, e.first.value.apiKey)
    ensures Follow(w, e).Ok? <==>
              && e.first.value.kind != NoJobs && e.first.value.apiKey != []
              && e.bearer.Some? && e.validator.Some? && IsVirtualKey(e.bearer.value)
              && |e.token| <= MAX_TOKEN && Admissible(h, e.first.value.name, w.hash(e.bearer.value), e.now)
              && ContextOf(e.second, e.bearer, e.validator, h.model, true).Ok?
              && ContextOf(e.second, e.bearer, e.validator, h.model, true).value.owner.keyHash == h.owner
              && e.sendable
    ensures Follow(w, e).Ok? ==> Follow(w, e).value.handle == h
  {
    hide Open, Seal, Admissible, ContextOf, IsVirtualKey, LifecycleTarget;
    if e.bearer.Some? {
      OpenOfSeal(w, h, e.first.value.apiKey, e.first.value.name, w.hash(e.bearer.value), e.now);
      ContextKind(e.second, e.bearer, e.validator, h.model, true);
    }
  }

  lemma ContextKind(
      lookup: Option<Lookup>, bearer: Option<bytes>, validator: Option<Validator>, model: bytes, skipBudget: bool)
    ensures var c := ContextOf(lookup, bearer, validator, model, skipBudget); c.Ok? ==> c.value.kind != NoJobs
  {
  }
}
