/**
 JSON trees as `serde_json::Value` holds them, the accessors the gateway uses, and JSON Pointer
 (RFC 6901) resolution on strings.

 Paths occur in two forms: the string the gateway writes into its audit trail, and a sequence of
 steps. `Render` turns the second into the first; the lemmas say that resolving the string is
 walking the steps, and that different paths never render to the same string.
 */
module JsonPointer {
  import opened Wrappers
  import opened Sequences
  import opened Text

  /** A number keeps its lexeme: nothing modelled here computes with it. */
  datatype Json =
    | Null
    | Bool(b: bool)
    | Number(lexeme: string)
    | String(text: string)
    | Array(items: seq<Json>)
    | Object(fields: map<string, Json>)
  {
    /** Member `name` of an object; nothing for any other kind of value. */
    function Get(name: string): Option<Json> {
      if Object? && name in fields then Some(fields[name]) else None
    }

    function AsStr(): Option<string> {
      if String? then Some(text) else None
    }

    /** The string held by member `name`, if there is one. */
    function GetStr(name: string): Option<string> {
      if Get(name).Some? then Get(name).value.AsStr() else None
    }

    /** The array held by member `name`, if there is one. */
    function GetArray(name: string): Option<seq<Json>> {
      if Get(name).Some? && Get(name).value.Array? then Some(Get(name).value.items) else None
    }

    /** The object held by member `name`, if there is one. */
    function GetObject(name: string): Option<Json> {
      if Get(name).Some? && Get(name).value.Object? then Get(name) else None
    }
  }

  // ---------- Array indices ----------

  /** A pointer token as an array index: digits only, no sign, no superfluous leading zero. */
  function ParseIndex(s: string): Option<nat> {
    if s == [] || !AllDigits(s) || (s[0] == '0' && |s| != 1) then None else Some(DigitsValue(s))
  }

  lemma ParseIndexOfDecimal(n: nat)
    ensures ParseIndex(Decimal(n)) == Some(n)
  {
    DecimalValue(n);
  }

  lemma {:induction false} DecimalOfDigits(s: string)
    requires s != [] && AllDigits(s) && (s[0] == '0' ==> |s| == 1)
    ensures Decimal(DigitsValue(s)) == s && (s[0] != '0' ==> DigitsValue(s) > 0)
    decreases |s|
  {
    if |s| == 1 {
      assert s[..0] == [] && s == [s[0]];
    } else {
      var front := s[..|s| - 1];
      DecimalOfDigits(front);
      assert IsDigit(s[|s| - 1]) && s == front + [s[|s| - 1]];
    }
  }

  /** The decimal numeral of a number is the only token read as that index. */
  lemma ParseIndexExact(s: string, n: nat)
    ensures ParseIndex(s) == Some(n) <==> s == Decimal(n)
  {
    ParseIndexOfDecimal(n);
    if ParseIndex(s) == Some(n) {
      DecimalOfDigits(s);
    }
  }

  // ---------- Pointer resolution ----------

  /** The characters before the first '/', or all of them. */
  function FirstToken(s: string): (token: string)
    ensures |token| <= |s| && token == s[..|token|] && '/' !in token
    ensures |token| < |s| ==> s[|token|] == '/'
  {
    if s == [] || s[0] == '/' then [] else [s[0]] + FirstToken(s[1..])
  }

  /** Replaces each occurrence of the two characters `a`, `b`, scanning left to right. */
  function ReplacePair(s: string, a: char, b: char, to: char): string {
    if |s| < 2 then s
    else if s[0] == a && s[1] == b then [to] + ReplacePair(s[2..], a, b, to)
    else [s[0]] + ReplacePair(s[1..], a, b, to)
  }

  function Unescape(token: string): string {
    ReplacePair(ReplacePair(token, '~', '1', '/'), '~', '0', '~')
  }

  /** How a member name is written as a token: "~0" for '~' and "~1" for '/'. */
  function Escape(name: string): string {
    if name == [] then []
    else (if name[0] == '~' then "~0" else if name[0] == '/' then "~1" else [name[0]]) + Escape(name[1..])
  }

  /** What the first replacement leaves of an escaped name: only its tildes are still escaped. */
  function Halfway(name: string): string {
    if name == [] then [] else (if name[0] == '~' then "~0" else [name[0]]) + Halfway(name[1..])
  }

  lemma ReplacePlain(c: char, s: string, a: char, b: char, to: char)
    requires c != a
    ensures ReplacePair([c] + s, a, b, to) == [c] + ReplacePair(s, a, b, to)
  {
    ConsParts(c, s);
    if s == [] {
      assert [c] + s == [c];
    }
  }

  lemma ReplaceFound(s: string, a: char, b: char, to: char)
    ensures ReplacePair([a, b] + s, a, b, to) == [to] + ReplacePair(s, a, b, to)
  {
    assert ([a, b] + s)[2..] == s;
  }

  lemma ReplaceOther(c: char, s: string, a: char, b: char, to: char)
    requires c != a && c != b
    ensures ReplacePair([a, c] + s, a, b, to) == [a, c] + ReplacePair(s, a, b, to)
  {
    assert ([a, c] + s)[1..] == [c] + s;
    ReplacePlain(c, s, a, b, to);
  }

  lemma {:induction false} HalfwayThere(name: string)
    ensures ReplacePair(Escape(name), '~', '1', '/') == Halfway(name)
  {
    if name != [] {
      HalfwayThere(name[1..]);
      var rest := Escape(name[1..]);
      if name[0] == '~' {
        ReplaceOther('0', rest, '~', '1', '/');
      } else if name[0] == '/' {
        ReplaceFound(rest, '~', '1', '/');
      } else {
        ReplacePlain(name[0], rest, '~', '1', '/');
      }
    }
  }

  /** Unescaping a token gives back the name it was written for. */
  lemma UnescapeExact(name: string)
    ensures Unescape(Escape(name)) == name
  {
    HalfwayThere(name);
    HalfwayBack(name);
  }

  lemma {:induction false} HalfwayBack(name: string)
    ensures ReplacePair(Halfway(name), '~', '0', '~') == name
  {
    if name != [] {
      HalfwayBack(name[1..]);
      HeadTail(name);
      if name[0] == '~' {
        ReplaceFound(Halfway(name[1..]), '~', '0', '~');
      } else {
        ReplacePlain(name[0], Halfway(name[1..]), '~', '0', '~');
      }
    }
  }

  function Child(v: Json, token: string): Option<Json> {
    match v
    case Object(fields) => if token in fields then Some(fields[token]) else None
    case Array(items) =>
      var index := ParseIndex(token);
      if index.Some? && index.value < |items| then Some(items[index.value]) else None
    case _ => None
  }

  /** `Value::pointer`. */
  function Pointer(v: Json, path: string): Option<Json>
    decreases |path|
  {
    if path == [] then Some(v)
    else if path[0] != '/' then None
    else
      var token := FirstToken(path[1..]);
      var child := Child(v, Unescape(token));
      if child.None? then None else Pointer(child.value, path[1 + |token|..])
  }

  // ---------- Paths as steps ----------

  datatype Step = Key(name: string) | At(index: nat)

  /** A member name that needs no escaping and cannot be taken for an index. */
  predicate PlainName(name: string) {
    name != [] && !IsDigit(name[0]) && '/' !in name && '~' !in name
  }

  predicate PlainStep(step: Step) { step.Key? ==> PlainName(step.name) }

  predicate PlainPath(path: seq<Step>) { forall step <- path :: PlainStep(step) }

  /** A non-empty path of member names. */
  predicate NamesPath(path: seq<Step>) {
    path != [] && PlainPath(path) && forall step <- path :: step.Key?
  }

  function Token(step: Step): string {
    if step.Key? then step.name else Decimal(step.index)
  }

  function Render(path: seq<Step>): (s: string)
    ensures if path == [] then s == [] else s != [] && s[0] == '/'
  {
    if path == [] then "" else "/" + Token(path[0]) + Render(path[1..])
  }

  function StepInto(v: Json, step: Step): Option<Json> {
    match step
    case Key(name) => v.Get(name)
    case At(index) => if v.Array? && index < |v.items| then Some(v.items[index]) else None
  }

  function Walk(v: Json, path: seq<Step>): Option<Json>
    decreases |path|
  {
    if path == [] then Some(v)
    else
      var child := StepInto(v, path[0]);
      if child.None? then None else Walk(child.value, path[1..])
  }

  lemma {:induction false} WalkAppend(v: Json, path: seq<Step>, more: seq<Step>)
    ensures Walk(v, path + more)
         == if Walk(v, path).Some? then Walk(Walk(v, path).value, more) else None
    decreases |path|
  {
    if path == [] {
      assert path + more == more;
    } else {
      assert (path + more)[1..] == path[1..] + more;
      var child := StepInto(v, path[0]);
      if child.Some? {
        WalkAppend(child.value, path[1..], more);
      }
    }
  }

  lemma {:induction false} ReplacePairAbsent(s: string, a: char, b: char, to: char)
    requires a !in s
    ensures ReplacePair(s, a, b, to) == s
  {
    if |s| >= 2 {
      assert s[0] != a;
      ReplacePairAbsent(s[1..], a, b, to);
    }
  }

  lemma {:induction false} FirstTokenStops(token: string, rest: string)
    requires '/' !in token && (rest == [] || rest[0] == '/')
    ensures FirstToken(token + rest) == token
  {
    if token == [] {
      assert token + rest == rest;
    } else {
      assert token[0] != '/';
      assert (token + rest)[1..] == token[1..] + rest;
      FirstTokenStops(token[1..], rest);
    }
  }

  lemma TokenIsPlain(step: Step)
    requires PlainStep(step)
    ensures '/' !in Token(step) && '~' !in Token(step)
    ensures forall v :: StepInto(v, step).Some? ==> Child(v, Token(step)) == StepInto(v, step)
    ensures step.Key? ==> forall v :: Child(v, Token(step)) == StepInto(v, step)
  {
    if step.At? {
      ParseIndexOfDecimal(step.index);
      assert AllDigits(Decimal(step.index));
    } else {
      assert !AllDigits(step.name);
    }
  }

  lemma SlashToken(token: string, rest: string)
    ensures ("/" + token + rest)[0] == '/' && ("/" + token + rest)[1..] == token + rest
    ensures ("/" + token + rest)[1 + |token|..] == rest
  {
  }

  lemma RenderStep(path: seq<Step>)
    requires path != [] && PlainPath(path)
    ensures Render(path) != [] && Render(path)[0] == '/'
    ensures FirstToken(Render(path)[1..]) == Token(path[0])
    ensures Render(path)[1 + |Token(path[0])|..] == Render(path[1..])
  {
    assert path[0] in path;
    TokenIsPlain(path[0]);
    var token, rest := Token(path[0]), Render(path[1..]);
    SlashToken(token, rest);
    FirstTokenStops(token, rest);
  }

  /** Resolving a path's string takes its first step. */
  lemma PointerStep(v: Json, path: seq<Step>)
    requires path != [] && PlainPath(path)
    requires StepInto(v, path[0]).Some? || path[0].Key?
    ensures Pointer(v, Render(path))
         == if StepInto(v, path[0]).None? then None
            else Pointer(StepInto(v, path[0]).value, Render(path[1..]))
  {
    assert path[0] in path;
    var token := Token(path[0]);
    TokenIsPlain(path[0]);
    ReplacePairAbsent(token, '~', '1', '/');
    ReplacePairAbsent(token, '~', '0', '~');
    assert Unescape(token) == token;
    RenderStep(path);
  }

  /**
   Resolving a rendered path is walking its steps, wherever those lead. For paths of member names
   alone the two also agree on failure.
   */
  lemma {:induction false} PointerOfRender(v: Json, path: seq<Step>)
    requires PlainPath(path) && (Walk(v, path).Some? || forall step <- path :: step.Key?)
    ensures Pointer(v, Render(path)) == Walk(v, path)
    decreases |path|
  {
    if path != [] {
      assert path[0] in path;
      PointerStep(v, path);
      if StepInto(v, path[0]).Some? {
        PointerOfRender(StepInto(v, path[0]).value, path[1..]);
      }
    }
  }

  lemma PointerOfNames(v: Json, path: seq<Step>)
    requires NamesPath(path)
    ensures Pointer(v, Render(path)) == Walk(v, path)
  {
    PointerOfRender(v, path);
  }

  lemma TokenInjective(a: Step, b: Step)
    requires PlainStep(a) && PlainStep(b) && Token(a) == Token(b)
    ensures a == b
  {
    if a.At? {
      DecimalValue(a.index);
      assert IsDigit(Token(a)[0]);
    }
    if b.At? {
      DecimalValue(b.index);
      assert IsDigit(Token(b)[0]);
    }
  }

  /** Different paths are different strings. */
  lemma {:induction false} RenderInjective(p: seq<Step>, q: seq<Step>)
    requires PlainPath(p) && PlainPath(q) && Render(p) == Render(q)
    ensures p == q
  {
    if p != [] && q != [] {
      RenderStep(p);
      RenderStep(q);
      assert p[0] in p && q[0] in q;
      TokenInjective(p[0], q[0]);
      RenderInjective(p[1..], q[1..]);
      HeadTail(p);
      HeadTail(q);
    }
  }
}
