/**
 The server name of a TLS ClientHello (section 4.1.2 of RFC 8446, section 3 of RFC 6066).

 `SniOf` is a recursive-descent reading; the gateway's cursor walk, which checks every access as it
 goes, computes the same. `SniExact` says what both mean: a name is found exactly when the bytes
 are some ClientHello whose first server_name extension carries that name.
 */
module TlsSni {
  import opened Wrappers
  import opened Sequences
  import opened WireBytes

  // ---------- Reading ----------

  const RECORD_HEADER := 5
  const CLIENT_HELLO: byte := 0x01
  /** Handshake length, client version and random. */
  const HELLO_HEAD := 3 + 2 + 32
  const SERVER_NAME := 0x0000

  /** The name in the body of a server_name extension. */
  function HostOf(ext: bytes): Option<bytes> {
    if |ext| < 5 || ext[2] != 0x00 then None
    else
      var nameLength := U16(ext[3], ext[4]);
      if 5 + nameLength > |ext| || !ValidUtf8(ext[5..5 + nameLength]) then None
      else Some(ext[5..5 + nameLength])
  }

  /** The name in the first server_name extension of an extension block. */
  function HostIn(block: bytes): Option<bytes>
    decreases |block|
  {
    if |block| < 4 then None
    else
      var length := U16(block[2], block[3]);
      if 4 + length > |block| then None
      else if U16(block[0], block[1]) == SERVER_NAME then HostOf(block[4..4 + length])
      else HostIn(block[4 + length..])
  }

  function SniOf(buf: bytes): Option<bytes> {
    if |buf| <= RECORD_HEADER + HELLO_HEAD || buf[RECORD_HEADER] != CLIENT_HELLO then None
    else
      var sessionId := TakeVec8(buf[RECORD_HEADER + 1 + HELLO_HEAD..]);
      if sessionId.None? then None
      else
        var suites := TakeVec16(sessionId.value.rest);
        if suites.None? then None
        else
          var compression := TakeVec8(suites.value.rest);
          if compression.None? then None
          else
            var extensions := TakeVec16(compression.value.rest);
            if extensions.None? then None else HostIn(extensions.value.body)
  }

  // ---------- The cursor walk ----------

  lemma SkipVec8(rec: bytes, p: nat)
    requires p <= |rec|
    ensures p == |rec| ==> TakeVec8(rec[p..]).None?
    ensures p < |rec| ==>
              var q := p + 1 + rec[p];
              if q <= |rec| then TakeVec8(rec[p..]).Some? && TakeVec8(rec[p..]).value.rest == rec[q..]
              else TakeVec8(rec[p..]).None?
  {
  }

  lemma SkipVec16(rec: bytes, p: nat)
    requires p <= |rec|
    ensures p + 1 >= |rec| ==> TakeVec16(rec[p..]).None?
    ensures p + 1 < |rec| ==>
              var q := p + 2 + U16(rec[p], rec[p + 1]);
              if q <= |rec| then TakeVec16(rec[p..]) == Some(Taken(rec[p + 2..q], rec[q..]))
              else TakeVec16(rec[p..]).None?
  {
    if p + 1 < |rec| && p + 2 + U16(rec[p], rec[p + 1]) <= |rec| {
      var q := p + 2 + U16(rec[p], rec[p + 1]);
      assert rec[p..][2..q - p] == rec[p + 2..q] && rec[p..][q - p..] == rec[q..];
    }
  }

  lemma NextExtension(rec: bytes, p: nat, extEnd: nat)
    requires p + 4 <= extEnd <= |rec|
    ensures var block, length := rec[p..extEnd], U16(rec[p + 2], rec[p + 3]);
            && U16(block[0], block[1]) == U16(rec[p], rec[p + 1]) && U16(block[2], block[3]) == length
            && (p + 4 + length <= extEnd ==>
                  && block[4..4 + length] == rec[p + 4..p + 4 + length]
                  && block[4 + length..] == rec[p + 4 + length..extEnd])
  {
    var block, length := rec[p..extEnd], U16(rec[p + 2], rec[p + 3]);
    if p + 4 + length <= extEnd {
      SliceSlice(rec, p, extEnd, 4, 4 + length);
    }
  }

  /** `extract_sni`: a cursor `p` into the record; each read past the end gives up. */
  method ExtractSni(buf: bytes) returns (host: Option<bytes>)
    ensures host == SniOf(buf)
  {
    hide HostOf, TakeVec8, TakeVec16;
    if |buf| < 5 {
      return None;
    }
    var rec := buf[5..];
    var p := 0;
    if p >= |rec| || rec[p] != 0x01 {
      return None;
    }
    p := p + 4 + 2 + 32;
    if p >= |rec| {
      if p == |rec| {
        SkipVec8(rec, p);
        assert buf[RECORD_HEADER + 1 + HELLO_HEAD..] == rec[p..];
      }
      return None;
    }
    assert buf[RECORD_HEADER + 1 + HELLO_HEAD..] == rec[p..];
    SkipVec8(rec, p);
    p := p + 1 + rec[p];
    if p >= |rec| || p + 1 >= |rec| {
      if p <= |rec| {
        SkipVec16(rec, p);
      }
      return None;
    }
    SkipVec16(rec, p);
    p := p + 2 + U16(rec[p], rec[p + 1]);
    if p >= |rec| {
      if p == |rec| {
        SkipVec8(rec, p);
      }
      return None;
    }
    SkipVec8(rec, p);
    p := p + 1 + rec[p];
    if p >= |rec| || p + 1 >= |rec| {
      if p <= |rec| {
        SkipVec16(rec, p);
      }
      return None;
    }
    SkipVec16(rec, p);
    var extTotal := U16(rec[p], rec[p + 1]);
    p := p + 2;
    var extEnd := p + extTotal;
    if extEnd > |rec| {
      return None;
    }
    assert SniOf(buf) == HostIn(rec[p..extEnd]);
    host := WalkExtensions(rec, p, extEnd);
  }

  /** The loop of `extract_sni` over the extensions in `rec[start..extEnd]`. */
  method WalkExtensions(rec: bytes, start: nat, extEnd: nat) returns (host: Option<bytes>)
    requires start <= extEnd <= |rec|
    ensures host == HostIn(rec[start..extEnd])
  {
    hide HostOf;
    var p := start;
    while p + 4 <= extEnd
      invariant p <= extEnd && HostIn(rec[start..extEnd]) == HostIn(rec[p..extEnd])
      decreases extEnd - p
    {
      NextExtension(rec, p, extEnd);
      var extType := U16(rec[p], rec[p + 1]);
      var extLength := U16(rec[p + 2], rec[p + 3]);
      p := p + 4;
      if p + extLength > extEnd {
        return None;
      }
      if extType == 0x0000 {
        return HostOf(rec[p..p + extLength]);
      }
      p := p + extLength;
    }
    return None;
  }

  // ---------- The grammar ----------

  datatype Extension = Extension(kind: nat, body: bytes)

  /**
   A ClientHello up to and including its first server_name extension: the fields that precede the
   extensions, the extensions before server_name, the parts of the server_name body, the rest of
   the extension block, and whatever follows it. Lengths of record and handshake are free bytes.
   */
  datatype Hello = Hello(
    record: bytes, head: bytes, sessionId: bytes, suites: bytes, compression: bytes,
    before: seq<Extension>, listLength: bytes, host: bytes, more: bytes, after: bytes, trailing: bytes)

  function ExtensionBytes(e: Extension): bytes
    requires e.kind < 0x1_0000 && |e.body| < 0x1_0000
  {
    Be16(e.kind) + Vec16(e.body)
  }

  predicate OtherExtensions(es: seq<Extension>) {
    forall e <- es :: 0 < e.kind < 0x1_0000 && |e.body| < 0x1_0000
  }

  function ExtensionsBytes(es: seq<Extension>): bytes
    requires OtherExtensions(es)
  {
    if es == [] then [] else assert es[0] in es; ExtensionBytes(es[0]) + ExtensionsBytes(es[1..])
  }

  predicate NameFits(host: bytes, listLength: bytes, more: bytes) {
    |listLength| == 2 && |host| < 0x1_0000 && 5 + |host| + |more| < 0x1_0000 && ValidUtf8(host)
  }

  function NameBody(listLength: bytes, host: bytes, more: bytes): bytes
    requires |host| < 0x1_0000
  {
    listLength + [0x00] + Vec16(host) + more
  }

  function NameExtension(listLength: bytes, host: bytes, more: bytes): Extension
    requires |host| < 0x1_0000
  {
    Extension(SERVER_NAME, NameBody(listLength, host, more))
  }

  /** The extension block of a hello. */
  function Block(h: Hello): bytes
    requires OtherExtensions(h.before) && NameFits(h.host, h.listLength, h.more)
  {
    ExtensionsBytes(h.before) + ExtensionBytes(NameExtension(h.listLength, h.host, h.more)) + h.after
  }

  predicate WellFormed(h: Hello) {
    && |h.record| == RECORD_HEADER && |h.head| == HELLO_HEAD
    && |h.sessionId| < 0x100 && |h.suites| < 0x1_0000 && |h.compression| < 0x100
    && OtherExtensions(h.before) && NameFits(h.host, h.listLength, h.more) && |Block(h)| < 0x1_0000
  }

  function HelloBytes(h: Hello): bytes
    requires WellFormed(h)
  {
    h.record + [CLIENT_HELLO] + h.head
    + (Vec8(h.sessionId) + (Vec16(h.suites) + (Vec8(h.compression) + (Vec16(Block(h)) + h.trailing))))
  }

  // ---------- Reading is exactly parsing the grammar ----------

  lemma HostOfExact(ext: bytes, host: bytes)
    requires |ext| < 0x1_0000
    ensures HostOf(ext) == Some(host) ==>
              && |ext| >= 5 + |host| && NameFits(host, ext[..2], ext[5 + |host|..])
              && ext == NameBody(ext[..2], host, ext[5 + |host|..])
  {
    if HostOf(ext) == Some(host) {
      Be16Inverse(ext[3], ext[4]);
      assert ext == ext[..2] + [0x00] + ([ext[3], ext[4]] + host) + ext[5 + |host|..];
    }
  }

  lemma HostOfName(listLength: bytes, host: bytes, more: bytes)
    requires NameFits(host, listLength, more)
    ensures |NameBody(listLength, host, more)| == 5 + |host| + |more|
    ensures HostOf(NameBody(listLength, host, more)) == Some(host)
  {
    var ext := NameBody(listLength, host, more);
    assert ext[2] == 0x00 && ext[3] == Be16(|host|)[0] && ext[4] == Be16(|host|)[1];
    assert ext[5..5 + |host|] == host;
  }

  lemma ReadExtension(e: Extension, rest: bytes)
    requires e.kind < 0x1_0000 && |e.body| < 0x1_0000
    ensures var block := ExtensionBytes(e) + rest;
            && |block| >= 4 + |e.body| && U16(block[0], block[1]) == e.kind && U16(block[2], block[3]) == |e.body|
            && block[4..4 + |e.body|] == e.body && block[4 + |e.body|..] == rest
  {
    var block := ExtensionBytes(e) + rest;
    assert block[0] == Be16(e.kind)[0] && block[1] == Be16(e.kind)[1];
    assert block[2] == Be16(|e.body|)[0] && block[3] == Be16(|e.body|)[1];
  }

  lemma {:induction false} HostInComplete(
      before: seq<Extension>, listLength: bytes, host: bytes, more: bytes, after: bytes)
    requires OtherExtensions(before) && NameFits(host, listLength, more)
    ensures |NameBody(listLength, host, more)| < 0x1_0000
    ensures HostIn(ExtensionsBytes(before) + ExtensionBytes(NameExtension(listLength, host, more)) + after)
            == Some(host)
    decreases |before|
  {
    hide HostOf, ExtensionBytes, NameBody, ValidUtf8;
    HostOfName(listLength, host, more);
    var name := NameExtension(listLength, host, more);
    if before == [] {
      assert [] + ExtensionBytes(name) + after == ExtensionBytes(name) + after;
      ReadExtension(name, after);
    } else {
      assert before[0] in before && OtherExtensions(before[1..]);
      var rest := ExtensionsBytes(before[1..]) + ExtensionBytes(name) + after;
      Assoc(ExtensionBytes(before[0]), ExtensionsBytes(before[1..]), ExtensionBytes(name));
      Assoc(ExtensionBytes(before[0]), ExtensionsBytes(before[1..]) + ExtensionBytes(name), after);
      ReadExtension(before[0], rest);
      HostInComplete(before[1..], listLength, host, more, after);
    }
  }

  lemma SplitExtension(block: bytes)
    requires |block| >= 4 && 4 + U16(block[2], block[3]) <= |block|
    ensures var length := U16(block[2], block[3]);
            var e := Extension(U16(block[0], block[1]), block[4..4 + length]);
            && e.kind < 0x1_0000 && |e.body| < 0x1_0000 && block == ExtensionBytes(e) + block[4 + length..]
  {
    var length := U16(block[2], block[3]);
    Be16Inverse(block[0], block[1]);
    Be16Inverse(block[2], block[3]);
    assert block == [block[0], block[1]] + ([block[2], block[3]] + block[4..4 + length]) + block[4 + length..];
  }

  lemma {:induction false} HostInSound(block: bytes, host: bytes)
    returns (before: seq<Extension>, listLength: bytes, more: bytes, after: bytes)
    requires HostIn(block) == Some(host)
    ensures OtherExtensions(before) && NameFits(host, listLength, more)
    ensures |NameBody(listLength, host, more)| < 0x1_0000
    ensures block == ExtensionsBytes(before) + ExtensionBytes(NameExtension(listLength, host, more)) + after
    decreases |block|
  {
    hide HostOf, ExtensionBytes, NameBody, ValidUtf8;
    var length := U16(block[2], block[3]);
    SplitExtension(block);
    var e, rest := Extension(U16(block[0], block[1]), block[4..4 + length]), block[4 + length..];
    if e.kind == SERVER_NAME {
      HostOfExact(e.body, host);
      before, listLength, more, after := [], e.body[..2], e.body[5 + |host|..], rest;
      assert e == NameExtension(listLength, host, more);
      assert [] + ExtensionBytes(e) + rest == ExtensionBytes(e) + rest;
    } else {
      var later;
      later, listLength, more, after := HostInSound(rest, host);
      before := [e] + later;
      ConsParts(e, later);
      var name := ExtensionBytes(NameExtension(listLength, host, more));
      Assoc(ExtensionBytes(e), ExtensionsBytes(later), name);
      Assoc(ExtensionBytes(e), ExtensionsBytes(later) + name, after);
    }
  }

  /** The fields before the extension block, as the reader sees them. */
  lemma ReadFields(h: Hello)
    requires WellFormed(h)
    ensures SniOf(HelloBytes(h)) == HostIn(Block(h))
  {
    hide HostIn, Block, Vec8, Vec16, TakeVec8, TakeVec16;
    var blockOn := Vec16(Block(h)) + h.trailing;
    var compressionOn := Vec8(h.compression) + blockOn;
    var suitesOn := Vec16(h.suites) + compressionOn;
    var sessionOn := Vec8(h.sessionId) + suitesOn;
    var buf := HelloBytes(h);
    VecNonEmpty(h.sessionId);
    assert buf == (h.record + [CLIENT_HELLO] + h.head) + sessionOn;
    assert buf[RECORD_HEADER] == CLIENT_HELLO && buf[RECORD_HEADER + 1 + HELLO_HEAD..] == sessionOn;
    TakeVec8Exact(sessionOn, h.sessionId, suitesOn);
    TakeVec16Exact(suitesOn, h.suites, compressionOn);
    TakeVec8Exact(compressionOn, h.compression, blockOn);
    TakeVec16Exact(blockOn, Block(h), h.trailing);
  }

  lemma VecNonEmpty(body: bytes)
    requires |body| < 0x100
    ensures |Vec8(body)| > 0
  {
  }

  lemma SniComplete(h: Hello)
    ensures WellFormed(h) ==> SniOf(HelloBytes(h)) == Some(h.host)
  {
    if WellFormed(h) {
      hide HostIn, ExtensionBytes, SniOf;
      ReadFields(h);
      HostInComplete(h.before, h.listLength, h.host, h.more, h.after);
    }
  }

  lemma SniSound(buf: bytes, host: bytes) returns (h: Hello)
    requires SniOf(buf) == Some(host)
    ensures WellFormed(h) && h.host == host && HelloBytes(h) == buf
  {
    hide HostIn, ExtensionBytes, ExtensionsBytes, NameBody, Vec8, Vec16, TakeVec8, TakeVec16, ValidUtf8;
    var sessionOn := buf[RECORD_HEADER + 1 + HELLO_HEAD..];
    var session := TakeVec8(sessionOn).value;
    var suites := TakeVec16(session.rest).value;
    var compression := TakeVec8(suites.rest).value;
    var block := TakeVec16(compression.rest).value;
    TakeVec8Exact(sessionOn, session.body, session.rest);
    TakeVec16Exact(session.rest, suites.body, suites.rest);
    TakeVec8Exact(suites.rest, compression.body, compression.rest);
    TakeVec16Exact(compression.rest, block.body, block.rest);
    var before, listLength, more, after := HostInSound(block.body, host);
    h := Hello(buf[..RECORD_HEADER], buf[RECORD_HEADER + 1..RECORD_HEADER + 1 + HELLO_HEAD],
               session.body, suites.body, compression.body, before, listLength, host, more, after, block.rest);
    assert buf == buf[..RECORD_HEADER] + [CLIENT_HELLO] + h.head + sessionOn;
  }

  /**
   A name is found exactly when the bytes are a ClientHello, within all its length fields, whose
   first server_name extension carries that name as valid UTF-8, whatever precedes it.
   */
  lemma SniExact(buf: bytes, host: bytes)
    ensures SniOf(buf) == Some(host) <==> exists h: Hello :: WellFormed(h) && h.host == host && HelloBytes(h) == buf
  {
    hide SniOf, HelloBytes, WellFormed;
    if SniOf(buf) == Some(host) {
      var h := SniSound(buf, host);
    }
    forall h: Hello | WellFormed(h) && h.host == host && HelloBytes(h) == buf
      ensures SniOf(buf) == Some(host)
    {
      SniComplete(h);
    }
  }

  /** A name once found is found again, the same, however many bytes follow. */
  lemma SniStable(buf: bytes, more: bytes)
    ensures SniOf(buf).Some? ==> SniOf(buf + more) == SniOf(buf)
  {
    hide SniOf, Block;
    if SniOf(buf).Some? {
      var h := SniSound(buf, SniOf(buf).value);
      var longer := h.(trailing := h.trailing + more);
      assert Block(longer) == Block(h) by { SameBlock(h, longer); }
      LongerHello(h, more);
      SniComplete(longer);
    }
  }

  lemma SameBlock(h: Hello, k: Hello)
    requires OtherExtensions(h.before) && NameFits(h.host, h.listLength, h.more)
    requires k == h.(trailing := k.trailing)
    ensures Block(k) == Block(h)
  {
  }

  lemma LongerHello(h: Hello, more: bytes)
    requires WellFormed(h)
    ensures WellFormed(h.(trailing := h.trailing + more))
    ensures HelloBytes(h.(trailing := h.trailing + more)) == HelloBytes(h) + more
  {
    hide Block, Vec8, Vec16;
    var longer := h.(trailing := h.trailing + more);
    SameBlock(h, longer);
    var front := h.record + [CLIENT_HELLO] + h.head;
    var blockOn := Vec16(Block(h)) + h.trailing;
    var compressionOn := Vec8(h.compression) + blockOn;
    var suitesOn := Vec16(h.suites) + compressionOn;
    Assoc(Vec16(Block(h)), h.trailing, more);
    Assoc(Vec8(h.compression), blockOn, more);
    Assoc(Vec16(h.suites), compressionOn, more);
    Assoc(Vec8(h.sessionId), suitesOn, more);
    Assoc(front, Vec8(h.sessionId) + suitesOn, more);
  }
}
