/**
 Query parameter values: exactly when one pass puts the mark in their place, why later query passes
 leave the mark alone, and what the bearer pass can do to it.
 */
module RedactionValues {
  import opened Sequences
  import opened Redaction
  import opened RedactionProofs

  // ---------- Covered values, one position at a time ----------

  /** `opens` says whether a parameter may start at the first position of `s`. */
  predicate ValuesCoveredFrom(s: string, opens: bool, name: string, cover: Cover) {
    && (opens && name + "=" <= s ==> Covered(s[|name| + 1..], cover))
    && (s != [] ==> ValuesCoveredFrom(s[1..], OpensParam(s[0]), name, cover))
  }

  ghost predicate ValuesCoveredIf(s: string, opens: bool, name: string, cover: Cover) {
    forall i | 0 <= i <= |s| && name + "=" <= s[i..] && (if i == 0 then opens else OpensParam(s[i - 1])) ::
      Covered(s[i + |name| + 1..], cover)
  }

  lemma {:induction false} ValuesCoveredIsLocal(s: string, opens: bool, name: string, cover: Cover)
    ensures ValuesCoveredIf(s, opens, name, cover) <==> ValuesCoveredFrom(s, opens, name, cover)
    decreases |s|
  {
    hide Covered, ValuesCoveredIf;
    if s == [] {
      NothingCovered(opens, name, cover);
    } else {
      ValuesCoveredIsLocal(s[1..], OpensParam(s[0]), name, cover);
      CoveredStep(s, opens, name, cover);
    }
  }

  lemma NothingCovered(opens: bool, name: string, cover: Cover)
    ensures ValuesCoveredIf([], opens, name, cover)
  {
  }

  lemma CoveredStep(s: string, opens: bool, name: string, cover: Cover)
    requires s != []
    ensures ValuesCoveredIf(s, opens, name, cover)
            <==> (opens && name + "=" <= s ==> Covered(s[|name| + 1..], cover))
                 && ValuesCoveredIf(s[1..], OpensParam(s[0]), name, cover)
  {
    hide ValuesCoveredIf, Covered;
    if ValuesCoveredIf(s, opens, name, cover) {
      CoveredDown(s, opens, name, cover);
    }
    if ValuesCoveredIf(s[1..], OpensParam(s[0]), name, cover)
       && (opens && name + "=" <= s ==> Covered(s[|name| + 1..], cover)) {
      CoveredUp(s, opens, name, cover);
    }
  }

  lemma CoveredDown(s: string, opens: bool, name: string, cover: Cover)
    requires s != [] && ValuesCoveredIf(s, opens, name, cover)
    ensures opens && name + "=" <= s ==> Covered(s[|name| + 1..], cover)
    ensures ValuesCoveredIf(s[1..], OpensParam(s[0]), name, cover)
  {
    hide Covered, OpensParam;
    var tail, len, tailOpens := s[1..], |name| + 1, OpensParam(s[0]);
    assert s[0..] == s;
    forall i | 0 <= i <= |tail| && name + "=" <= tail[i..] && (if i == 0 then tailOpens else OpensParam(tail[i - 1]))
      ensures Covered(tail[i + len..], cover)
    {
      assert tail[i..] == s[i + 1..] && tail[i + len..] == s[i + 1 + len..];
    }
  }

  lemma CoveredUp(s: string, opens: bool, name: string, cover: Cover)
    requires s != [] && ValuesCoveredIf(s[1..], OpensParam(s[0]), name, cover)
    requires opens && name + "=" <= s ==> Covered(s[|name| + 1..], cover)
    ensures ValuesCoveredIf(s, opens, name, cover)
  {
    hide Covered, OpensParam;
    var tail, len := s[1..], |name| + 1;
    assert s[0..] == s;
    forall i | 0 <= i <= |s| && name + "=" <= s[i..] && (if i == 0 then opens else OpensParam(s[i - 1]))
      ensures Covered(s[i + len..], cover)
    {
      if i > 0 {
        assert tail[i - 1..] == s[i..] && tail[i - 1 + len..] == s[i + len..];
      }
    }
  }

  lemma ValuesCoveredAtStart(s: string, name: string, cover: Cover)
    ensures ValuesCovered(s, name, cover) <==> ValuesCoveredFrom(s, true, name, cover)
  {
    hide Covered;
    ValuesCoveredIsLocal(s, true, name, cover);
  }

  /** Characters of the mark neither end nor open anything, and no name or key prefix has one. */
  lemma MarkCharsPlain(c: char)
    requires IsMarkChar(c)
    ensures !EndsToken(c) && !OpensParam(c) && !IsLower(c) && c != '=' && c != '-' && c != '_'
  {
  }

  lemma StruckChars(k: nat)
    requires k <= |MARK|
    ensures Struck(k) != [] && forall c <- Struck(k) :: IsMarkChar(c)
  {
    assert forall c <- MARK :: IsMarkChar(c);
  }

  lemma NameHasNoBracket(name: string)
    requires IsName(name)
    ensures '[' !in name + "=" && '=' !in name && forall c <- name :: !OpensParam(c) && !EndsToken(c)
  {
  }

  lemma {:induction false} ValuesCoveredSuffix(s: string, opens: bool, name: string, cover: Cover, k: nat)
    requires ValuesCoveredFrom(s, opens, name, cover) && k <= |s|
    ensures ValuesCoveredFrom(s[k..], false, name, cover)
    decreases k
  {
    hide Covered;
    if k == 0 {
      assert s[0..] == s;
    } else {
      ValuesCoveredSuffix(s[1..], OpensParam(s[0]), name, cover, k - 1);
      assert s[1..][k - 1..] == s[k..];
    }
  }

  /** Text that opens no parameter, put in front, adds no obligation of its own. */
  lemma {:induction false} ValuesCoveredBehind(m: string, t: string, name: string, cover: Cover)
    requires forall c <- m :: !OpensParam(c)
    ensures ValuesCoveredFrom(m + t, false, name, cover) <==> ValuesCoveredFrom(t, false, name, cover)
    decreases |m|
  {
    hide Covered;
    if m == [] {
      assert m + t == t;
    } else {
      assert m[0] in m && (m + t)[1..] == m[1..] + t && (m + t)[0] == m[0];
      ValuesCoveredBehind(m[1..], t, name, cover);
    }
  }

  lemma BehindMark(t: string, name: string, cover: Cover)
    ensures ValuesCoveredFrom(MARK + t, false, name, cover) <==> ValuesCoveredFrom(t, false, name, cover)
  {
    hide Covered, ValuesCoveredFrom;
    assert forall c <- MARK :: !OpensParam(c);
    ValuesCoveredBehind(MARK, t, name, cover);
  }

  /** Where the name does not stand it makes no difference whether it could. */
  lemma NoNameNoMatter(s: string, opens: bool, name: string, cover: Cover)
    requires !(name + "=" <= s)
    ensures ValuesCoveredFrom(s, opens, name, cover) <==> ValuesCoveredFrom(s, false, name, cover)
  {
    hide Covered;
  }

  lemma FirstParameter(name: string, rest: string, opens: bool, cover: Cover)
    requires IsName(name)
    ensures ValuesCoveredFrom(name + "=" + rest, opens, name, cover)
            <==> (opens ==> Covered(rest, cover)) && ValuesCoveredFrom(rest, false, name, cover)
  {
    hide Covered;
    var head, s := name + "=", name + "=" + rest;
    NameHasNoBracket(name);
    assert s[|name| + 1..] == rest && head <= s;
    assert s == head + rest && s[1..] == head[1..] + rest && s[0] == name[0] && name[0] in name;
    ValuesCoveredBehind(head[1..], rest, name, cover);
  }

  lemma EqualsInside(u: string, w: string, s: string)
    requires u + "=" <= s && w + "=" <= s && |u| < |w|
    ensures w[|u|] == '='
  {
    assert s[|u|] == (u + "=")[|u|] && s[|u|] == (w + "=")[|u|];
  }

  /** The first '=' tells what stands before it. */
  lemma FirstEquals(u: string, w: string, s: string)
    requires u + "=" <= s && w + "=" <= s && '=' !in u && '=' !in w
    ensures u == w
  {
    if |u| < |w| {
      EqualsInside(u, w, s);
    } else if |w| < |u| {
      EqualsInside(w, u, s);
    } else {
      assert u == s[..|u|] == w;
    }
  }

  lemma OtherParameter(other: string, rest: string, opens: bool, name: string, cover: Cover)
    requires IsName(name) && IsName(other) && name != other
    ensures ValuesCoveredFrom(other + "=" + rest, opens, name, cover) <==> ValuesCoveredFrom(rest, false, name, cover)
  {
    hide Covered;
    var head, s := other + "=", other + "=" + rest;
    NameHasNoBracket(name);
    NameHasNoBracket(other);
    assert s == head + rest;
    if name + "=" <= s {
      FirstEquals(name, other, s);
    }
    ValuesCoveredBehind(head, rest, name, cover);
  }

  // ---------- Exactly when a query pass hides the values ----------

  /**
   Nothing of a value is left because its parameter's position was misread: whenever a name stands
   where a parameter may start and `PrefixOk` says no, its value is the whole mark already.
   */
  predicate NeverMisread(seen: string, s: string, name: string)
    decreases |s|
  {
    if s == [] then true
    else if name + "=" <= s then
      var rest := s[|name| + 1..];
      if PrefixOk(seen, s) then NeverMisread([], SkipValue(rest), name)
      else (OpensParam(seen[|seen| - 1]) ==> IsWhole(rest)) && NeverMisread([], rest, name)
    else NeverMisread(seen + [s[0]], s[1..], name)
  }

  lemma RedactQueryStart(seen: string, s: string, name: string)
    requires name != []
    ensures var t := RedactQuery(seen, s, name); (t == [] <==> s == []) && (s != [] ==> t[0] == s[0])
  {
  }

  /** Characters of the mark at the start are copied. */
  lemma {:induction false} QueryCopiesMark(m: string, seen: string, s: string, name: string)
    requires IsName(name) && m <= s && forall c <- m :: IsMarkChar(c)
    ensures RedactQuery(seen, s, name) == m + RedactQuery(seen + m, s[|m|..], name)
    decreases |m|
  {
    hide PrefixOk, IsName, IsMarkChar;
    if m == [] {
      assert seen + m == seen && s[0..] == s;
    } else {
      assert m[0] in m && forall c <- m[1..] :: c in m;
      MarkCharsPlain(m[0]);
      NameStartsLower(name);
      PrefixCons(m, s);
      QueryCopiesMark(m[1..], seen + [s[0]], s[1..], name);
      HeadTail(m);
      assert seen + [s[0]] + m[1..] == seen + m && s[1..][|m| - 1..] == s[|m|..];
      Assoc([m[0]], m[1..], RedactQuery(seen + m, s[|m|..], name));
    }
  }

  /** And stand there only if they did before. */
  lemma {:induction false} QueryMakesNoMark(m: string, seen: string, s: string, name: string)
    requires IsName(name) && m <= RedactQuery(seen, s, name) && forall c <- m :: IsMarkChar(c)
    ensures m <= s
    decreases |m|
  {
    hide PrefixOk, IsName, IsMarkChar;
    if m != [] {
      assert m[0] in m && forall c <- m[1..] :: c in m;
      MarkCharsPlain(m[0]);
      NameStartsLower(name);
      RedactQueryStart(seen, s, name);
      var tail := RedactQuery(seen + [s[0]], s[1..], name);
      ConsParts(s[0], tail);
      PrefixCons(m, [s[0]] + tail);
      QueryMakesNoMark(m[1..], seen + [s[0]], s[1..], name);
      PrefixCons(m, s);
    }
  }

  lemma NameStartsLower(name: string)
    requires IsName(name)
    ensures name != [] && IsLower(name[0])
  {
  }

  lemma PrefixCons(m: string, s: string)
    requires m != [] && s != [] && m[0] == s[0]
    ensures m <= s <==> m[1..] <= s[1..]
  {
    HeadTail(m);
    HeadTail(s);
    if m[1..] <= s[1..] {
      assert s == m + s[1..][|m| - 1..];
    }
    if m <= s {
      assert s[1..] == m[1..] + s[|m|..];
    }
  }

  /** A pass neither makes a value whole nor spoils one. */
  lemma WholeThroughQuery(seen: string, s: string, name: string)
    requires IsName(name)
    ensures IsWhole(RedactQuery(seen, s, name)) <==> IsWhole(s)
  {
    hide RedactQuery, IsName, EndsValue;
    assert forall c <- MARK :: IsMarkChar(c);
    if MARK <= RedactQuery(seen, s, name) {
      QueryMakesNoMark(MARK, seen, s, name);
    }
    if MARK <= s {
      QueryCopiesMark(MARK, seen, s, name);
      NameStartsLower(name);
      RedactQueryStart(seen + MARK, s[|MARK|..], name);
      WholeParts(s[|MARK|..]);
      WholeParts(RedactQuery(seen + MARK, s[|MARK|..], name));
      assert s == MARK + s[|MARK|..];
    }
  }

  lemma CoveredWhole(value: string)
    ensures Covered(value, Whole) <==> IsWhole(value)
  {
  }

  lemma WholeParts(rest: string)
    ensures IsWhole(MARK + rest) <==> rest == [] || EndsValue(rest[0])
  {
    var value := MARK + rest;
    assert MARK <= value && (rest != [] ==> value[|MARK|] == rest[0]);
  }

  lemma {:induction false} QueryHidesExactly(seen: string, s: string, opens: bool, name: string)
    requires IsName(name) && (seen != [] ==> opens == OpensParam(seen[|seen| - 1]))
    ensures ValuesCoveredFrom(RedactQuery(seen, s, name), opens, name, Whole) <==> NeverMisread(seen, s, name)
    decreases |s|
  {
    hide IsWhole, PrefixOk, IsName, SkipValue;
    if s == [] {
    } else if name + "=" <= s {
      var rest := s[|name| + 1..];
      if PrefixOk(seen, s) {
        QueryHidesExactly([], SkipValue(rest), false, name);
        SkippedEnds(rest, name);
        ReplacedValue(RedactQuery([], SkipValue(rest), name), opens, name);
      } else {
        EmptyPrefixOk(s);
        QueryHidesExactly([], rest, false, name);
        FirstParameter(name, RedactQuery([], rest, name), opens, Whole);
        WholeThroughQuery([], rest, name);
      }
    } else {
      QueryHidesExactly(seen + [s[0]], s[1..], OpensParam(s[0]), name);
      NoNameAppears(seen, s, name);
      ConsParts(s[0], RedactQuery(seen + [s[0]], s[1..], name));
    }
  }

  /** What follows a value that was skipped starts with the end of a value. */
  lemma SkippedEnds(rest: string, name: string)
    requires IsName(name)
    ensures var tail := RedactQuery([], SkipValue(rest), name); tail == [] || EndsValue(tail[0])
  {
    hide IsName, EndsValue;
    NameStartsLower(name);
    var value := SkipValue(rest);
    RedactQueryStart([], value, name);
    assert value != [] ==> EndsValue(value[0]);
  }

  lemma ReplacedValue(tail: string, opens: bool, name: string)
    requires IsName(name) && (tail == [] || EndsValue(tail[0]))
    ensures ValuesCoveredFrom(name + "=" + (MARK + tail), opens, name, Whole)
            <==> ValuesCoveredFrom(tail, false, name, Whole)
  {
    hide IsWhole, ValuesCoveredFrom;
    WholeParts(tail);
    FirstParameter(name, MARK + tail, opens, Whole);
    BehindMark(tail, name, Whole);
  }

  /** Where the name does not stand in the text, it does not stand in the redacted text. */
  lemma NoNameAppears(seen: string, s: string, name: string)
    requires IsName(name) && !(name + "=" <= s)
    ensures !(name + "=" <= RedactQuery(seen, s, name))
  {
    hide Cuts, RedactQuery;
    var t := RedactQuery(seen, s, name);
    if name + "=" <= t {
      NameHasNoBracket(name);
      QueryCuts(seen, s, name, false);
      CutsMirror(s, t, false, name + "=");
    }
  }

  /** A query pass leaves nothing of its parameter's values exactly when it misreads no position. */
  lemma QueryPassExact(s: string, name: string)
    requires IsName(name)
    ensures ValuesCovered(RedactQuery([], s, name), name, Whole) <==> NeverMisread([], s, name)
  {
    hide ValuesCovered, ValuesCoveredFrom, NeverMisread;
    QueryHidesExactly([], s, true, name);
    ValuesCoveredAtStart(RedactQuery([], s, name), name, Whole);
  }

  predicate Ascii(s: string) { forall i | 0 <= i < |s| :: s[i] < '\U{80}' }

  lemma {:induction false} AsciiBytes(s: string)
    requires Ascii(s)
    ensures Bytes(s) == |s|
    decreases |s|
  {
    if s != [] {
      AsciiBytes(s[1..]);
    }
  }

  /** On ASCII text byte offsets are character indices, and no position is misread. */
  lemma AsciiPrefixOk(seen: string, s: string)
    requires Ascii(seen) && seen != []
    ensures PrefixOk(seen, s) == OpensParam(seen[|seen| - 1])
  {
    AsciiBytes(seen);
    assert (seen + s)[|seen| - 1] == seen[|seen| - 1];
  }

  lemma {:induction false} AsciiNeverMisread(seen: string, s: string, name: string)
    requires Ascii(seen) && Ascii(s)
    ensures NeverMisread(seen, s, name)
    decreases |s|
  {
    hide PrefixOk, IsWhole;
    if s != [] {
      if name + "=" <= s {
        var rest := s[|name| + 1..];
        AsciiNeverMisread([], rest, name);
        AsciiNeverMisread([], SkipValue(rest), name);
        if !PrefixOk(seen, s) {
          EmptyPrefixOk(s);
          AsciiPrefixOk(seen, s);
        }
      } else {
        AsciiNeverMisread(seen + [s[0]], s[1..], name);
      }
    }
  }

  lemma EmptyPrefixOk(s: string)
    ensures PrefixOk([], s)
  {
  }

  const MISREAD := "\U{E9}?key=v"

  lemma MisreadOffset()
    ensures !PrefixOk("\U{E9}?", "key=v")
  {
    assert "\U{E9}?"[1..] == "?" && "?"[1..] == "";
    assert Bytes("?") == 1 && Bytes("\U{E9}?") == 3;
    assert ("\U{E9}?" + "key=v")[2] == 'k';
  }

  lemma MisreadMatch()
    ensures RedactQuery("\U{E9}?", "key=v", "key") == "key=v"
  {
    hide PrefixOk;
    MisreadOffset();
    assert "key" + "=" == "key=" && "key=v"[4..] == "v" && "v"[1..] == "" && "key=" <= "key=v";
    assert RedactQuery([], "v", "key") == "v";
  }

  lemma MisreadUnchanged()
    ensures RedactQuery([], MISREAD, "key") == MISREAD
  {
    hide PrefixOk;
    MisreadMatch();
    var head, tail := "\U{E9}", "?key=v";
    assert "key" + "=" == "key=";
    assert tail[1..] == "key=v" && head + ['?'] == "\U{E9}?";
    assert RedactQuery(head, tail, "key") == ['?'] + "key=v" == tail;
    assert MISREAD[1..] == tail && [] + [MISREAD[0]] == head;
  }

  /** Beyond ASCII a value can be left in the open: the character index lands past the separator. */
  lemma NonAsciiValueLeftOpen()
    ensures RedactQuery([], MISREAD, "key") == MISREAD && !ValuesCovered(MISREAD, "key", Whole)
  {
    MisreadUnchanged();
    assert "key" + "=" == "key=" && MISREAD[2..] == "key=v" && MISREAD[6..] == "v";
    assert ParamPosition(MISREAD, 2) && !(MARK <= "v");
  }

  // ---------- The seven query passes ----------

  lemma {:induction false} CutsKeepAscii(s: string, t: string, dash: bool)
    requires Cuts(s, t, dash) && Ascii(s)
    ensures Ascii(t)
    decreases |t|
  {
    if s != [] && t != [] && s[0] == t[0] && Cuts(s[1..], t[1..], DashAfter(s[0], dash)) {
      CutsKeepAscii(s[1..], t[1..], DashAfter(s[0], dash));
    } else if t != [] {
      var k: nat :| k <= |s| && CutAt(s, k, dash) && Cuts(s[k..], t[|MARK|..], false);
      CutsKeepAscii(s[k..], t[|MARK|..], false);
      assert t == MARK + t[|MARK|..];
    }
  }

  /** A query pass leaves a whole value behind a '=', or makes one there. */
  lemma {:induction false} QueryKeepsWhole(u: string, x: string, seen: string, other: string) returns (y: string)
    requires IsName(other) && '=' !in u && IsWhole(x)
    ensures RedactQuery(seen, u + ("=" + x), other) == u + ("=" + y) && IsWhole(y)
    decreases |u|
  {
    hide PrefixOk, IsWhole;
    var s := u + ("=" + x);
    NameHasNoBracket(other);
    if other + "=" <= s {
      Assoc(u, "=", x);
      FirstEquals(other, u, s);
      assert s[|u| + 1..] == x;
      y := QueryKeepsWholeHere(x, seen, other);
    } else if u == [] {
      assert s == "=" + x && s[1..] == x;
      y := RedactQuery(seen + [s[0]], x, other);
      WholeThroughQuery(seen + [s[0]], x, other);
      assert u + ("=" + y) == "=" + y;
    } else {
      HeadTail(u);
      assert s == [u[0]] + (u[1..] + ("=" + x));
      ConsParts(u[0], u[1..] + ("=" + x));
      y := QueryKeepsWhole(u[1..], x, seen + [s[0]], other);
      Assoc([u[0]], u[1..], "=" + y);
    }
  }

  lemma QueryKeepsWholeHere(x: string, seen: string, other: string) returns (y: string)
    requires IsName(other) && IsWhole(x)
    ensures RedactQuery(seen, other + ("=" + x), other) == other + ("=" + y) && IsWhole(y)
  {
    hide PrefixOk, IsName, IsWhole;
    var s := other + ("=" + x);
    Assoc(other, "=", x);
    assert s[|other| + 1..] == x;
    WholeThroughQuery([], x, other);
    SkippedEnds(x, other);
    WholeParts(RedactQuery([], SkipValue(x), other));
    y := if PrefixOk(seen, s) then MARK + RedactQuery([], SkipValue(x), other) else RedactQuery([], x, other);
    Assoc(other, "=", y);
    assert RedactQuery(seen, s, other) == other + "=" + y;
  }

  /** At the first position of a text: the name still stands there, and its value is still whole. */
  lemma QueryKeepsFirst(seen: string, s: string, t: string, other: string, name: string)
    requires IsName(other) && IsName(name) && t == RedactQuery(seen, s, other) && name + "=" <= t
    ensures name + "=" <= s && (IsWhole(s[|name| + 1..]) ==> IsWhole(t[|name| + 1..]))
  {
    hide RedactQuery, Cuts, IsWhole;
    NameHasNoBracket(name);
    QueryCuts(seen, s, other, false);
    CutsMirror(s, t, false, name + "=");
    var x := s[|name| + 1..];
    if IsWhole(x) {
      Assoc(name, "=", x);
      assert s == name + ("=" + x);
      var y := QueryKeepsWhole(name, x, seen, other);
      Assoc(name, "=", y);
      assert t[|name| + 1..] == y;
    }
  }

  /** Values of one parameter stay whole in the pass for another, on any text. */
  lemma {:induction false} QueryKeepsValues(seen: string, s: string, opens: bool, other: string, name: string)
    requires IsName(other) && IsName(name) && ValuesCoveredFrom(s, opens, name, Whole)
    ensures ValuesCoveredFrom(RedactQuery(seen, s, other), opens, name, Whole)
    decreases |s|
  {
    hide Covered, IsName, PrefixOk, SkipValue;
    if s == [] {
    } else if other + "=" <= s {
      var rest := s[|other| + 1..];
      var value := if PrefixOk(seen, s) then SkipValue(rest) else rest;
      assert s == other + "=" + rest;
      ValuesCoveredSuffix(s, opens, name, Whole, |s| - |value|);
      assert s[|s| - |value|..] == value;
      QueryKeepsValues([], value, false, other, name);
      SkippedEnds(rest, other);
      BlockKeepsValues(rest, RedactQuery([], value, other), PrefixOk(seen, s), opens, other, name);
    } else {
      QueryKeepsValues(seen + [s[0]], s[1..], OpensParam(s[0]), other, name);
      QueryCopies(seen, s, opens, other, name);
    }
  }

  lemma BlockKeepsValues(rest: string, tail: string, replaced: bool, opens: bool, other: string, name: string)
    requires IsName(other) && IsName(name) && ValuesCoveredFrom(other + "=" + rest, opens, name, Whole)
    requires ValuesCoveredFrom(tail, false, name, Whole)
    requires if replaced then tail == [] || EndsValue(tail[0]) else tail == RedactQuery([], rest, other)
    ensures ValuesCoveredFrom(other + "=" + (if replaced then MARK + tail else tail), opens, name, Whole)
  {
    hide IsWhole, IsName, ValuesCoveredFrom, RedactQuery;
    var put := if replaced then MARK + tail else tail;
    BehindMark(tail, name, Whole);
    WholeParts(tail);
    WholeThroughQuery([], rest, other);
    if name == other {
      FirstParameter(name, rest, opens, Whole);
      FirstParameter(name, put, opens, Whole);
    } else {
      OtherParameter(other, put, opens, name, Whole);
    }
  }

  lemma QueryCopies(seen: string, s: string, opens: bool, other: string, name: string)
    requires IsName(other) && IsName(name) && s != [] && !(other + "=" <= s) && ValuesCoveredFrom(s, opens, name, Whole)
    requires ValuesCoveredFrom(RedactQuery(seen + [s[0]], s[1..], other), OpensParam(s[0]), name, Whole)
    ensures ValuesCoveredFrom(RedactQuery(seen, s, other), opens, name, Whole)
  {
    hide IsWhole, IsName;
    var t := RedactQuery(seen, s, other);
    ConsParts(s[0], RedactQuery(seen + [s[0]], s[1..], other));
    if opens && name + "=" <= t {
      QueryKeepsFirst(seen, s, t, other, name);
    }
  }

  predicate AreNames(names: seq<string>) { forall n <- names :: IsName(n) }

  lemma {:induction false} QueriesKeep(s: string, names: seq<string>, name: string)
    requires AreNames(names) && IsName(name) && ValuesCoveredFrom(s, true, name, Whole)
    ensures ValuesCoveredFrom(RedactQueries(s, names), true, name, Whole)
    decreases |names|
  {
    hide ValuesCoveredFrom, IsName;
    if names != [] {
      assert names[0] in names && forall n <- names[1..] :: n in names;
      QueryKeepsValues([], s, true, names[0], name);
      QueriesKeep(RedactQuery([], s, names[0]), names[1..], name);
    }
  }

  lemma {:induction false} QueriesHide(s: string, names: seq<string>)
    requires AreNames(names) && Ascii(s)
    ensures forall n <- names :: ValuesCoveredFrom(RedactQueries(s, names), true, n, Whole)
    ensures Ascii(RedactQueries(s, names))
    decreases |names|
  {
    hide ValuesCoveredFrom, NeverMisread, IsName;
    if names != [] {
      var n, t := names[0], RedactQuery([], s, names[0]);
      assert n in names && forall m <- names[1..] :: m in names;
      AsciiNeverMisread([], s, n);
      QueryHidesExactly([], s, true, n);
      QueriesKeep(t, names[1..], n);
      QueryCuts([], s, n, false);
      CutsKeepAscii(s, t, false);
      QueriesHide(t, names[1..]);
    }
  }

  lemma ParamNamesAreNames()
    ensures AreNames(PARAM_NAMES)
  {
  }

  /**
   For every ASCII string: after the seven query passes every listed name that stands where a
   parameter may is followed by "=[REDACTED]", and that by the end of the value.
   */
  lemma QueriesRedacted(s: string)
    requires Ascii(s)
    ensures forall n <- PARAM_NAMES :: ValuesCovered(RedactQueries(s, PARAM_NAMES), n, Whole)
  {
    hide ValuesCovered, ValuesCoveredFrom, RedactQueries, IsName;
    ParamNamesAreNames();
    QueriesHide(s, PARAM_NAMES);
    forall n <- PARAM_NAMES
      ensures ValuesCovered(RedactQueries(s, PARAM_NAMES), n, Whole)
    {
      ValuesCoveredAtStart(RedactQueries(s, PARAM_NAMES), n, Whole);
    }
  }
}
