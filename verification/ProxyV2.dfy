/**
 The PROXY protocol v2 header (section 2.2 of the HAProxy PROXY protocol specification) and the
 byte flow of one egress connection: the header is consumed exactly, the name is looked for in the
 next bytes, and every byte after the header reaches the declared destination.
 */
module ProxyV2 {
  import opened Wrappers
  import opened WireBytes
  import opened TlsSni

  const SIGNATURE: bytes := [0x0D, 0x0A, 0x0D, 0x0A, 0x00, 0x0D, 0x0A, 0x51, 0x55, 0x49, 0x54, 0x0A]
  const HEAD_LENGTH := 16
  const PEEK_LIMIT := 8192

  datatype Family = Inet | Inet6
  datatype HeaderError =
    BadSignature | UnsupportedVersion | UnsupportedCommand | UnsupportedTransport | UnsupportedFamily |
    AddressBlockTooShort | UnexpectedEof
  datatype Result<T> = Ok(value: T) | Err(error: HeaderError)

  datatype Head = Head(addressLength: nat, family: Family)

  /** The address block of a family starts with source and destination addresses and ports. */
  function AddressSize(family: Family): nat { if family.Inet? then 4 else 16 }

  function MinimumBlock(family: Family): nat { 2 * AddressSize(family) + 4 }

  function ParseHead(head: bytes): Result<Head>
    requires |head| == HEAD_LENGTH
  {
    if head[..12] != SIGNATURE then Err(BadSignature)
    else if head[12] / 0x10 != 0x2 then Err(UnsupportedVersion)
    else if head[12] % 0x10 != 0x1 then Err(UnsupportedCommand)
    else if head[13] % 0x10 != 0x1 then Err(UnsupportedTransport)
    else if head[13] / 0x10 != 0x1 && head[13] / 0x10 != 0x2 then Err(UnsupportedFamily)
    else
      var family := if head[13] / 0x10 == 0x1 then Inet else Inet6;
      var length := U16(head[14], head[15]);
      if length < MinimumBlock(family) then Err(AddressBlockTooShort) else Ok(Head(length, family))
  }

  datatype SocketAddr = SocketAddr(ip: bytes, port: nat)

  function ParseDestination(family: Family, addrs: bytes): SocketAddr
    requires |addrs| >= MinimumBlock(family)
  {
    match family
    case Inet => SocketAddr(addrs[4..8], U16(addrs[10], addrs[11]))
    case Inet6 => SocketAddr(addrs[16..32], U16(addrs[34], addrs[35]))
  }

  /** What reading the header off the front of a stream gives: the destination and the bytes left. */
  datatype Opened = Opened(destination: SocketAddr, rest: bytes)

  function ReadHeader(stream: bytes): Result<Opened> {
    if |stream| < HEAD_LENGTH then Err(UnexpectedEof)
    else
      var head := ParseHead(stream[..HEAD_LENGTH]);
      if head.Err? then Err(head.error)
      else
        var block := HEAD_LENGTH + head.value.addressLength;
        if |stream| < block then Err(UnexpectedEof)
        else Ok(Opened(ParseDestination(head.value.family, stream[HEAD_LENGTH..block]), stream[block..]))
  }

  // ---------- The header as its sender writes it ----------

  /** Source, destination and, after the addresses, any type-length-value extensions. */
  datatype Header = Header(family: Family, source: SocketAddr, destination: SocketAddr, extensions: bytes)

  predicate WellFormedHeader(h: Header) {
    && |h.source.ip| == |h.destination.ip| == AddressSize(h.family)
    && h.source.port < 0x1_0000 && h.destination.port < 0x1_0000
    && MinimumBlock(h.family) + |h.extensions| < 0x1_0000
  }

  function AddressBlock(h: Header): bytes
    requires WellFormedHeader(h)
  {
    h.source.ip + h.destination.ip + Be16(h.source.port) + Be16(h.destination.port) + h.extensions
  }

  function HeaderBytes(h: Header): bytes
    requires WellFormedHeader(h)
  {
    SIGNATURE + [0x21, if h.family.Inet? then 0x11 else 0x21] + Vec16(AddressBlock(h))
  }

  lemma AddressBlockRead(h: Header)
    requires WellFormedHeader(h)
    ensures |AddressBlock(h)| == MinimumBlock(h.family) + |h.extensions|
    ensures ParseDestination(h.family, AddressBlock(h)) == h.destination
  {
    var n, block := AddressSize(h.family), AddressBlock(h);
    assert block[n..2 * n] == h.destination.ip;
    assert block[2 * n + 2] == Be16(h.destination.port)[0] && block[2 * n + 3] == Be16(h.destination.port)[1];
  }

  lemma HeaderHead(h: Header, rest: bytes)
    requires WellFormedHeader(h)
    ensures var stream, n := HeaderBytes(h) + rest, |AddressBlock(h)|;
            && |stream| >= HEAD_LENGTH + n && |HeaderBytes(h)| == HEAD_LENGTH + n
            && ParseHead(stream[..HEAD_LENGTH]) == Ok(Head(n, h.family))
            && stream[HEAD_LENGTH..HEAD_LENGTH + n] == AddressBlock(h) && stream[HEAD_LENGTH + n..] == rest
  {
    hide AddressBlock;
    AddressBlockRead(h);
    var block := AddressBlock(h);
    var stream := HeaderBytes(h) + rest;
    assert stream[..12] == SIGNATURE && stream[12] == 0x21;
    assert stream[13] == if h.family.Inet? then 0x11 else 0x21;
    assert stream[14] == Be16(|block|)[0] && stream[15] == Be16(|block|)[1];
    assert stream[..HEAD_LENGTH][..12] == SIGNATURE;
  }

  /** A header is read back whole: its destination, and exactly the bytes that follow it. */
  lemma HeaderComplete(h: Header, rest: bytes)
    requires WellFormedHeader(h)
    ensures ReadHeader(HeaderBytes(h) + rest) == Ok(Opened(h.destination, rest))
  {
    hide ParseHead, ParseDestination, AddressBlock, HeaderBytes;
    HeaderHead(h, rest);
    AddressBlockRead(h);
  }

  lemma BlockParts(block: bytes, n: nat)
    requires |block| >= 2 * n + 4
    ensures block == block[..n] + block[n..2 * n]
                     + block[2 * n..2 * n + 2] + block[2 * n + 2..2 * n + 4] + block[2 * n + 4..]
  {
  }

  lemma HeaderSound(stream: bytes, destination: SocketAddr, rest: bytes) returns (h: Header)
    requires ReadHeader(stream) == Ok(Opened(destination, rest))
    ensures WellFormedHeader(h) && h.destination == destination && stream == HeaderBytes(h) + rest
  {
    var head := ParseHead(stream[..HEAD_LENGTH]).value;
    var n := AddressSize(head.family);
    var block := stream[HEAD_LENGTH..HEAD_LENGTH + head.addressLength];
    var source := SocketAddr(block[..n], U16(block[2 * n], block[2 * n + 1]));
    h := Header(head.family, source, destination, block[2 * n + 4..]);
    BlockParts(block, n);
    Be16Inverse(block[2 * n], block[2 * n + 1]);
    Be16Inverse(block[2 * n + 2], block[2 * n + 3]);
    assert block[2 * n..2 * n + 2] == [block[2 * n], block[2 * n + 1]];
    assert block[2 * n + 2..2 * n + 4] == [block[2 * n + 2], block[2 * n + 3]];
    assert AddressBlock(h) == block;
    HeadParts(stream, block);
  }

  lemma HeadParts(stream: bytes, block: bytes)
    requires |stream| >= HEAD_LENGTH && ParseHead(stream[..HEAD_LENGTH]).Ok?
    requires var n := ParseHead(stream[..HEAD_LENGTH]).value.addressLength;
             HEAD_LENGTH + n <= |stream| && block == stream[HEAD_LENGTH..HEAD_LENGTH + n]
    ensures |block| < 0x1_0000
    ensures var head := ParseHead(stream[..HEAD_LENGTH]).value;
            stream == SIGNATURE + [0x21, if head.family.Inet? then 0x11 else 0x21] + Vec16(block)
                      + stream[HEAD_LENGTH + head.addressLength..]
  {
    Be16Inverse(stream[14], stream[15]);
    assert stream[12] == 0x21 && (stream[13] == 0x11 || stream[13] == 0x21);
    assert stream[..12] == SIGNATURE;
    assert stream == stream[..12] + [stream[12], stream[13]] + ([stream[14], stream[15]] + block)
                     + stream[HEAD_LENGTH + |block|..];
  }

  /** A stream opens with a header exactly when some sender's header is its prefix. */
  lemma HeaderExact(stream: bytes, destination: SocketAddr, rest: bytes)
    ensures ReadHeader(stream) == Ok(Opened(destination, rest))
            <==> exists h :: WellFormedHeader(h) && h.destination == destination && stream == HeaderBytes(h) + rest
  {
    hide ReadHeader, HeaderBytes, WellFormedHeader;
    if ReadHeader(stream) == Ok(Opened(destination, rest)) {
      var h := HeaderSound(stream, destination, rest);
    }
    forall h | WellFormedHeader(h) && h.destination == destination && stream == HeaderBytes(h) + rest
      ensures ReadHeader(stream) == Ok(Opened(destination, rest))
    {
      HeaderComplete(h, rest);
    }
  }

  /** The signature of the specification, as text. */
  const SIGNATURE_TEXT := "\r\n\r\n\0\r\nQUIT\n"

  lemma SignatureSpelled()
    ensures |SIGNATURE| == |SIGNATURE_TEXT| && forall i | 0 <= i < 12 :: SIGNATURE[i] == SIGNATURE_TEXT[i] as int
  {
  }

  /** The first sixteen bytes, from the values of their fields. */
  function Fields(version: nat, command: nat, family: nat, transport: nat, length: nat): bytes
    requires version < 0x10 && command < 0x10 && family < 0x10 && transport < 0x10 && length < 0x1_0000
  {
    SIGNATURE + [0x10 * version + command, 0x10 * family + transport] + Be16(length)
  }

  /** What is refused, and with which reason: the first field that is not as it should be gives it. */
  lemma RefusalExact(version: nat, command: nat, family: nat, transport: nat, length: nat, rest: bytes)
    requires version < 0x10 && command < 0x10 && family < 0x10 && transport < 0x10 && length < 0x1_0000
    ensures var r := ReadHeader(Fields(version, command, family, transport, length) + rest);
            && (r == Err(UnsupportedVersion) <==> version != 2)
            && (r == Err(UnsupportedCommand) <==> version == 2 && command != 1)
            && (r == Err(UnsupportedTransport) <==> version == 2 && command == 1 && transport != 1)
            && (r == Err(UnsupportedFamily)
                <==> version == 2 && command == 1 && transport == 1 && family != 1 && family != 2)
            && (r == Err(AddressBlockTooShort)
                <==> && version == 2 && command == 1 && transport == 1
                     && ((family == 1 && length < 12) || (family == 2 && length < 36)))
            && (r == Err(UnexpectedEof)
                <==> && version == 2 && command == 1 && transport == 1 && |rest| < length
                     && ((family == 1 && length >= 12) || (family == 2 && length >= 36)))
            && r != Err(BadSignature)
  {
    hide ParseDestination;
    var stream := Fields(version, command, family, transport, length) + rest;
    var head := stream[..HEAD_LENGTH];
    FieldsRead(version, command, family, transport, length);
    assert head == Fields(version, command, family, transport, length);
  }

  lemma FieldsRead(version: nat, command: nat, family: nat, transport: nat, length: nat)
    requires version < 0x10 && command < 0x10 && family < 0x10 && transport < 0x10 && length < 0x1_0000
    ensures var head := Fields(version, command, family, transport, length);
            && |head| == HEAD_LENGTH && head[..12] == SIGNATURE && U16(head[14], head[15]) == length
            && head[12] / 0x10 == version && head[12] % 0x10 == command
            && head[13] / 0x10 == family && head[13] % 0x10 == transport
  {
    var head := Fields(version, command, family, transport, length);
    assert head[14] == Be16(length)[0] && head[15] == Be16(length)[1];
    assert head[..12] == SIGNATURE;
  }

  /** Only the signature makes a stream a header at all. */
  lemma SignatureExact(stream: bytes)
    ensures ReadHeader(stream) == Err(BadSignature) <==> |stream| >= 16 && !(SIGNATURE <= stream)
  {
    if |stream| >= 16 {
      assert stream[..HEAD_LENGTH][..12] == stream[..12];
    }
  }

  // ---------- One connection ----------

  datatype Target = Host(name: bytes) | Ip(ip: bytes)

  /** How a connection ends: no valid header, dropped by the access list, no way out, or spliced through. */
  datatype Outcome =
    | Refused(error: HeaderError)
    | Dropped
    | Unreachable(destination: SocketAddr)
    | Spliced(destination: SocketAddr, upstream: bytes)

  /** The name in the first client bytes; `httpHost` stands for the reading of HTTP requests. */
  function Hostname(peek: bytes, httpHost: bytes -> Option<bytes>): Option<bytes> {
    if peek != [] && peek[0] == 0x16 then SniOf(peek) else httpHost(peek)
  }

  function TargetOf(peek: bytes, destination: SocketAddr, httpHost: bytes -> Option<bytes>): Target {
    if Hostname(peek, httpHost).Some? then Host(Hostname(peek, httpHost).value) else Ip(destination.ip)
  }

  /**
   What the access list is asked about. A first byte 0x16 announces TLS: the name is that of the
   ClientHello received, and the address stands in if it is none. Anything else is read as HTTP.
   */
  ghost predicate AskedAbout(peek: bytes, destination: SocketAddr, httpHost: bytes -> Option<bytes>, target: Target) {
    if peek != [] && peek[0] == 0x16 then
      && (forall h: Hello | WellFormed(h) && HelloBytes(h) == peek :: target == Host(h.host))
      && ((forall h: Hello | WellFormed(h) :: HelloBytes(h) != peek) ==> target == Ip(destination.ip))
    else
      match httpHost(peek)
      case Some(name) => target == Host(name)
      case None => target == Ip(destination.ip)
  }

  /** There is one such target, the one the gateway finds. */
  lemma TargetExact(peek: bytes, destination: SocketAddr, httpHost: bytes -> Option<bytes>, target: Target)
    ensures AskedAbout(peek, destination, httpHost, target) <==> target == TargetOf(peek, destination, httpHost)
  {
    hide SniOf, HelloBytes, WellFormed;
    forall h: Hello | WellFormed(h)
      ensures SniOf(HelloBytes(h)) == Some(h.host)
    {
      SniComplete(h);
    }
    if SniOf(peek).Some? {
      SniExact(peek, SniOf(peek).value);
    }
  }

  /**
   One connection whose client sends `stream`. The first read after the header returns
   `firstRead` bytes; `allowed` is the access list, and `connects` says whether the destination
   accepts a connection.
   */
  method Handle(
      stream: bytes, firstRead: nat, enforce: bool, connects: bool,
      allowed: (Target, SocketAddr) -> bool, httpHost: bytes -> Option<bytes>)
    returns (outcome: Outcome)
    requires ReadHeader(stream).Ok? ==>
               firstRead <= PEEK_LIMIT && firstRead <= |ReadHeader(stream).value.rest|
    ensures outcome.Refused? <==> ReadHeader(stream).Err?
    ensures outcome.Refused? ==> outcome.error == ReadHeader(stream).error
    ensures outcome.Spliced? ==> connects
    ensures outcome.Unreachable? ==> !connects && outcome.destination == ReadHeader(stream).value.destination
    ensures outcome.Spliced? ==>
              exists h: Header :: && WellFormedHeader(h) && h.destination == outcome.destination
                                  && stream == HeaderBytes(h) + outcome.upstream
    ensures ReadHeader(stream).Ok? ==>
              var start := ReadHeader(stream).value;
              outcome.Dropped?
              <==> && enforce
                   && !allowed(TargetOf(start.rest[..firstRead], start.destination, httpHost), start.destination)
    ensures ReadHeader(stream).Ok? ==>
              var start := ReadHeader(stream).value;
              forall target | AskedAbout(start.rest[..firstRead], start.destination, httpHost, target) ::
                outcome.Dropped? <==> enforce && !allowed(target, start.destination)
  {
    hide ReadHeader, HeaderBytes, WellFormedHeader, SniOf, AskedAbout;
    var header := ReadHeader(stream);
    if header.Err? {
      return Refused(header.error);
    }
    var destination, inbound := header.value.destination, header.value.rest;
    var peek := inbound[..firstRead];
    inbound := inbound[firstRead..];
    var hostname := Hostname(peek, httpHost);
    forall asked: Target
      ensures AskedAbout(peek, destination, httpHost, asked) <==> asked == TargetOf(peek, destination, httpHost)
    {
      TargetExact(peek, destination, httpHost, asked);
    }
    var target := if hostname.Some? then Host(hostname.value) else Ip(destination.ip);
    if !allowed(target, destination) && enforce {
      return Dropped;
    }
    if !connects {
      return Unreachable(destination);
    }
    var outbound := [];
    if peek != [] {
      outbound := outbound + peek;
    }
    outbound := outbound + inbound;
    assert outbound == header.value.rest;
    HeaderExact(stream, destination, outbound);
    return Spliced(destination, outbound);
  }
}
