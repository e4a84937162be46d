/** The daemon's fixture ClientHello builders, and what the parser makes of every fixture. */
module Fixtures {
  import opened Wire
  import opened Records
  import opened ServerNames
  import opened Utf8
  import opened Handshakes
  import opened HandshakeGrammar
  import opened ClientHellos

  // ── Fixture builders ─────────────────────────────────────────────────────

  /** A length cast to sixteen bits. */
  function Low16(n: nat): u16 { n % 0x1_0000 }

  /** The low three bytes of a length, masked one by one. */
  function Low24(n: nat): bytes { [n / 0x1_0000 % 0x100, n / 0x100 % 0x100, n % 0x100] }

  function FixtureRandom(): (s: bytes)
    ensures |s| == 32
  {
    seq(32, _ => 0xaa)
  }

  /** The length fields wrap as the casts in the builders do. */
  function FixtureBody(extensions: bytes): (body: bytes)
    ensures |body| == 43 + |extensions|
  {
    [3, 3] + FixtureRandom() + [0] + [0, 2, 0x13, 1] + [1, 0] + PutU16(Low16(|extensions|)) + extensions
  }

  function FixtureHandshake(extensions: bytes): bytes {
    var body := FixtureBody(extensions);
    [1] + Low24(|body|) + body
  }

  function FixtureRecord(extensions: bytes): bytes {
    var handshake := FixtureHandshake(extensions);
    [0x16, 3, 1] + PutU16(Low16(|handshake|)) + handshake
  }

  function SniExtension(host: bytes): bytes {
    var entry := [0] + PutU16(Low16(|host|)) + host;
    var list := PutU16(Low16(|entry|)) + entry;
    [0, 0] + PutU16(Low16(|list|)) + list
  }

  function EchThenDecoySni(decoyHost: bytes): bytes {
    [0xfe, 0x0d] + [0, 0] + SniExtension(decoyHost)
  }

  method BuildClientHello(extensions: bytes) returns (record: bytes)
    ensures record == FixtureRecord(extensions)
  {
    hide PutU16, Low24, Low16, FixtureRandom;
    var body: bytes := [];
    body := body + [3, 3];
    body := body + FixtureRandom();
    body := body + [0];
    body := body + [0, 2, 0x13, 1];
    body := body + [1, 0];
    body := body + PutU16(Low16(|extensions|));
    body := body + extensions;

    var bodyLen: nat := |body|;
    var handshake: bytes := [1];
    handshake := handshake + Low24(bodyLen);
    handshake := handshake + body;

    record := [0x16, 3, 1];
    record := record + PutU16(Low16(|handshake|));
    record := record + handshake;
  }

  method BuildSniExtension(host: bytes) returns (ext: bytes)
    ensures ext == SniExtension(host)
  {
    hide PutU16, Low16;
    var entry: bytes := [0];
    entry := entry + PutU16(Low16(|host|));
    entry := entry + host;
    var list: bytes := PutU16(Low16(|entry|));
    list := list + entry;
    ext := [0, 0];
    ext := ext + PutU16(Low16(|list|));
    ext := ext + list;
  }

  method BuildEchThenDecoySni(decoyHost: bytes) returns (exts: bytes)
    ensures exts == EchThenDecoySni(decoyHost)
  {
    exts := [0xfe, 0x0d];
    exts := exts + [0, 0];
    var sni := BuildSniExtension(decoyHost);
    exts := exts + sni;
  }

  // ── Fixtures through the parser ──────────────────────────────────────────

  /** The ClientHello a fixture with these extensions is. */
  function FixtureHello(exts: seq<Extension>, size: nat): Hello
    requires 43 + size < 0x100_0000
  {
    Hello(Header(43 + size, FixtureRandom()), Parameters([], [0x1301], [0]), exts, [], [])
  }

  lemma FixtureIsPrinted(exts: seq<Extension>)
    requires ValidBodies(exts) && |PutExtensions(exts)| + 47 < 0x1_0000
    ensures var block := PutExtensions(exts);
            && Printable(FixtureHello(exts, |block|))
            && FixtureHandshake(block) == PutHello(FixtureHello(exts, |block|))
  {
    hide PutExtensions, FixtureBody, FixtureRandom, P16;
    var block := PutExtensions(exts);
    var h := FixtureHello(exts, |block|);
    FixtureFields(|block|);
    FixtureBodyIsPrinted(block);
    var body := PutU16(TLS_LEGACY_VERSION) + FixtureRandom();
    Assoc(body, PutParameters(h.parameters), P16(block));
    Assoc([1], PutU24(43 + |block|), FixtureBody(block));
    HeaderThen(h.header, PutParameters(h.parameters) + P16(block));
    assert block + [] == block && P16(block) + [] == P16(block);
  }

  lemma FixtureFields(size: nat)
    requires size + 47 < 0x1_0000
    ensures ValidParameters(Parameters([], [0x1301], [0]))
    ensures PutParameters(Parameters([], [0x1301], [0])) == [0] + [0, 2, 0x13, 1] + [1, 0]
    ensures Low24(43 + size) == PutU24(43 + size)
  {
    assert PutU16s([0x1301]) == [0x13, 0x01];
  }

  lemma HeaderThen(h: Header, rest: bytes)
    ensures PutHeader(h) + rest == [1] + (PutU24(h.length) + ((PutU16(TLS_LEGACY_VERSION) + h.random) + rest))
  {
    hide PutU24, PutU16;
    var version := PutU16(TLS_LEGACY_VERSION) + h.random;
    Assoc([1], PutU24(h.length) + version, rest);
    Assoc(PutU24(h.length), version, rest);
  }

  lemma FixtureBodyIsPrinted(block: bytes)
    requires |block| < 0x1_0000
    ensures FixtureBody(block) ==
            (PutU16(TLS_LEGACY_VERSION) + FixtureRandom()) + (([0] + [0, 2, 0x13, 1] + [1, 0]) + P16(block))
  {
    hide FixtureRandom, PutU16, Low16, P16;
    var front, suites := [3, 3] + FixtureRandom(), [0, 2, 0x13, 1];
    LegacyVersionBytes();
    P16IsLow16(block);
    Assoc(front, [0], suites);
    Assoc(front, [0] + suites, [1, 0]);
    var middle := [0] + suites + [1, 0];
    Assoc(front + middle, PutU16(Low16(|block|)), block);
    Assoc(front, middle, P16(block));
  }

  lemma LegacyVersionBytes()
    ensures PutU16(TLS_LEGACY_VERSION) == [3, 3]
  {
  }

  lemma FixtureHandshakeLength(block: bytes)
    requires |block| + 47 < 0x1_0000
    ensures var h := FixtureHandshake(block); Complete(h) && |h| == Need(h) == |block| + 47
  {
    hide FixtureBody;
    var n := 43 + |block|;
    assert Low24(n) == PutU24(n);
  }

  /** A record header announcing more than the limit is refused outright. */
  lemma OversizedRecord(handshake: bytes)
    requires MAX_RECORD_FRAGMENT < |handshake| < 0x1_0000
    ensures Reassemble([0x16, 3, 1] + PutU16(|handshake|) + handshake).None?
  {
    var s := [0x16, 3, 1] + PutU16(|handshake|) + handshake;
    var afterVersion := P16(handshake);
    assert s[1..] == PutU16(0x0301) + afterVersion;
    TakeU16Iff(s[1..], 0x0301, afterVersion);
    assert afterVersion + [] == afterVersion;
    TakeP16Iff(afterVersion, handshake, []);
  }

  /** A fixture record carries its handshake to the walker when it fits one record, and is
      refused when its fragment is over the limit without wrapping. */
  lemma FixtureOutcome(exts: seq<Extension>)
    requires ValidBodies(exts) && |PutExtensions(exts)| + 47 < 0x1_0000
    ensures var block := PutExtensions(exts);
            ClientHello(FixtureRecord(block)) ==
            if |block| + 47 <= MAX_RECORD_FRAGMENT then ParseHandshake(PutHello(FixtureHello(exts, |block|))) else None
  {
    hide PutExtensions, FixtureHandshake, FixtureHello, PutHello, ParseHandshake;
    var block := PutExtensions(exts);
    FixtureIsPrinted(exts);
    FixtureIsCarried(block);
  }

  lemma FixtureIsCarried(block: bytes)
    requires |block| + 47 < 0x1_0000
    ensures ClientHello(FixtureRecord(block)) ==
            if |block| + 47 <= MAX_RECORD_FRAGMENT then ParseHandshake(FixtureHandshake(block)) else None
  {
    hide FixtureHandshake, ParseHandshake, Complete, Need, Stream, Payload, Reassemble, PutU16;
    var h := FixtureHandshake(block);
    FixtureHandshakeLength(block);
    if |h| <= MAX_RECORD_FRAGMENT {
      FixtureIsRecord(h);
      MetadataIgnoresFragmentation(h, [Record(0x0301, h)], []);
    } else {
      OversizedRecord(h);
    }
  }

  lemma FixtureIsRecord(h: bytes)
    requires |h| <= MAX_RECORD_FRAGMENT
    ensures var rs := [Record(0x0301, h)];
            && Payload(rs) == h
            && Stream(rs) + [] == [0x16, 3, 1] + PutU16(|h|) + h
  {
    var rs := [Record(0x0301, h)];
    assert PutU16(0x0301) == [3, 1];
    assert rs[1..] == [];
    assert Payload(rs) == h + [];
    assert Stream(rs) == EncodeRecord(rs[0]) + [];
  }

  // ── Hosts through the fixtures ───────────────────────────────────────────

  /** What the parser should say about a fixture for `host`. */
  function HostOutcome(host: bytes): SniOutcome {
    match CheckHost(host)
    case Host(name) => Cleartext(name)
    case Skip => NotFound
    case Malformed => MalformedHello
  }

  lemma SniExtensionIsPrinted(host: bytes)
    requires |host| + 5 < 0x1_0000
    ensures |HostBody(host, [], [])| == |host| + 5
    ensures SniExtension(host) == PutExtension(Extension(EXT_SERVER_NAME, HostBody(host, [], [])))
    ensures NamesHost(HostBody(host, [], []), host, [], [])
  {
    hide PutU16, Low16, P16;
    var entry := [0] + P16(host);
    P16IsLow16(host);
    Assoc([0], PutU16(Low16(|host|)), host);
    P16IsLow16(entry);
    var list := P16(entry);
    P16IsLow16(list);
    TypeBytes(EXT_SERVER_NAME, 0, 0);
    Assoc(PutU16(EXT_SERVER_NAME), PutU16(Low16(|list|)), list);
    assert P16(host) + [] == P16(host);
    assert list + [] == list;
  }

  lemma TypeBytes(kind: u16, hi: byte, lo: byte)
    requires kind == hi * 0x100 + lo
    ensures PutU16(kind) == [hi, lo]
  {
    assert kind / 0x100 == hi && kind % 0x100 == lo;
  }

  /** Below sixteen bits the cast changes nothing. */
  lemma P16IsLow16(x: bytes)
    requires |x| < 0x1_0000
    ensures P16(x) == PutU16(Low16(|x|)) + x && |P16(x)| == |x| + 2
  {
    hide PutU16;
    assert Low16(|x|) == |x|;
  }

  lemma SniFixtureOutcome(host: bytes)
    requires |host| + 56 < 0x1_0000
    ensures Outcome(ClientHello(FixtureRecord(SniExtension(host)))) ==
            if |host| + 56 <= MAX_RECORD_FRAGMENT then HostOutcome(host) else MalformedHello
  {
    hide SniExtension, FixtureRecord, PutExtension, HostBody, CheckHost, ParseHandshake, PutHello, PutExtensions;
    var e := Extension(EXT_SERVER_NAME, HostBody(host, [], []));
    SniExtensionIsPrinted(host);
    ServerNameOfBody(e.body, host, [], []);
    OneExtension(e);
    FixtureOutcome([e]);
    FixtureIsPrinted([e]);
    WalkName(FixtureHello([e], |PutExtensions([e])|), e);
  }

  /** Every host through the daemon's own builders, as long as the ClientHello fits one
      record: the parser reports the host less one trailing dot if that is a host name, no
      server name if it is not UTF-8, and refuses the rest; beyond that it refuses
      everything. */
  lemma SniFixtureRoundTrip(host: bytes)
    requires |host| + 56 < 0x1_0000
    ensures var outcome := Outcome(ClientHello(FixtureRecord(SniExtension(host))));
            && (forall s :: outcome == Cleartext(s) <==> |host| + 56 <= 16640 && LessOneDot(host, s) && IsHostName(s))
            && (outcome == NotFound <==> |host| + 56 <= 16640 && !IsUtf8(host))
            && outcome != Encrypted
  {
    hide SniExtension, FixtureRecord, CheckHost, ClientHello, Outcome, IsHostName, LessOneDot, IsUtf8;
    SniFixtureOutcome(host);
    forall s
      ensures CheckHost(host) == Host(s) <==> LessOneDot(host, s) && IsHostName(s)
      ensures CheckHost(host).Skip? <==> !IsUtf8(host)
    {
      CheckHostIff(host, s);
    }
    CheckHostIff(host, []);
  }

  /** A host name and the same with a dot behind it are one host. */
  lemma TrailingDotIsIgnored(host: bytes)
    requires IsHostName(host) && host[|host| - 1] != 46
    ensures Outcome(ClientHello(FixtureRecord(SniExtension(host)))) == Cleartext(host)
    ensures Outcome(ClientHello(FixtureRecord(SniExtension(host + [46])))) == Cleartext(host)
  {
    assert |host| <= 253;
    SniFixtureRoundTrip(host);
    SniFixtureRoundTrip(host + [46]);
    hide SniExtension, FixtureRecord, ClientHello, Outcome, IsHostName;
  }

  /** A decoy that does not refuse the ClientHello: skipped, or a host name. */
  ghost predicate IsHarmless(host: bytes) {
    !IsUtf8(host) || exists s :: LessOneDot(host, s) && IsHostName(s)
  }

  /** With an ECH extension in front the outcome is Encrypted, however valid the decoy,
      unless the decoy itself refuses the ClientHello. */
  lemma EchFixtureRoundTrip(decoyHost: bytes)
    requires |decoyHost| + 60 < 0x1_0000
    ensures Outcome(ClientHello(FixtureRecord(EchThenDecoySni(decoyHost)))) ==
            if |decoyHost| + 60 <= 16640 && IsHarmless(decoyHost) then Encrypted else MalformedHello
  {
    hide EchThenDecoySni, FixtureRecord, CheckHost, ClientHello, Outcome, IsHostName, LessOneDot, IsUtf8;
    EchFixtureOutcome(decoyHost);
    CheckHostIff(decoyHost, []);
    if CheckHost(decoyHost).Host? {
      CheckHostIff(decoyHost, CheckHost(decoyHost).name);
    }
    if s :| LessOneDot(decoyHost, s) && IsHostName(s) {
      CheckHostIff(decoyHost, s);
    }
  }

  lemma EchFixtureOutcome(decoyHost: bytes)
    requires |decoyHost| + 60 < 0x1_0000
    ensures Outcome(ClientHello(FixtureRecord(EchThenDecoySni(decoyHost)))) ==
            if |decoyHost| + 60 <= MAX_RECORD_FRAGMENT && !CheckHost(decoyHost).Malformed? then Encrypted
            else MalformedHello
  {
    hide SniExtension, FixtureRecord, PutExtension, HostBody, CheckHost, ParseHandshake, PutHello, PutExtensions;
    var ech := Extension(EXT_ENCRYPTED_CLIENT_HELLO, []);
    var e := Extension(EXT_SERVER_NAME, HostBody(decoyHost, [], []));
    SniExtensionIsPrinted(decoyHost);
    ServerNameOfBody(e.body, decoyHost, [], []);
    EmptyExtension(EXT_ENCRYPTED_CLIENT_HELLO);
    TypeBytes(EXT_ENCRYPTED_CLIENT_HELLO, 0xfe, 0x0d);
    TwoExtensions(ech, e);
    FixtureOutcome([ech, e]);
    FixtureIsPrinted([ech, e]);
    WalkName(FixtureHello([ech, e], |PutExtensions([ech, e])|), e);
  }

  lemma EmptyExtension(kind: u16)
    ensures PutExtension(Extension(kind, [])) == PutU16(kind) + [0, 0]
  {
  }

  lemma OneExtension(e: Extension)
    requires |e.body| < 0x1_0000
    ensures ValidBodies([e]) && PutExtensions([e]) == PutExtension(e)
  {
    assert [e][1..] == [];
    assert PutExtension(e) + [] == PutExtension(e);
  }

  lemma TwoExtensions(d: Extension, e: Extension)
    requires |d.body| < 0x1_0000 && |e.body| < 0x1_0000
    ensures ValidBodies([d, e]) && PutExtensions([d, e]) == PutExtension(d) + PutExtension(e)
  {
    OneExtension(e);
    assert [d, e][1..] == [e];
  }

  /** A server_name extension alone, or behind an ECH extension. */
  lemma WalkName(h: Hello, e: Extension)
    requires Printable(h) && e.kind == EXT_SERVER_NAME
    requires h.extensions == [e] || h.extensions == [Extension(EXT_ENCRYPTED_CLIENT_HELLO, []), e]
    ensures Outcome(ParseHandshake(PutHello(h))) ==
            match ServerName(e.body)
            case Host(name) => if |h.extensions| == 1 then Cleartext(name) else Encrypted
            case Skip => if |h.extensions| == 1 then NotFound else Encrypted
            case Malformed => MalformedHello
  {
    hide *;
    AcceptableName(h.extensions, e);
    ParseOfPut(h);
    RefusedIsMalformed();
    OutcomeOfDescribed(h.parameters.ciphers, h.extensions);
    VisibleIs(h.extensions, e.body);
  }

  lemma RefusedIsMalformed()
    ensures Outcome(None) == MalformedHello
  {
  }

  lemma VisibleIs(exts: seq<Extension>, body: bytes)
    requires Find(exts, EXT_SERVER_NAME) == Some(body)
    ensures VisibleHost(exts) ==
            match ServerName(body)
            case Host(name) => Some(name)
            case _ => None
  {
    hide Find, ServerName;
  }

  lemma ParseOfPut(h: Hello)
    requires Printable(h)
    ensures ParseHandshake(PutHello(h)) ==
            if Acceptable(h.extensions) then Some(Describe(h.parameters.ciphers, h.extensions)) else None
  {
    hide PutHello, ReadHello, Describe, Acceptable;
    ReadOfPut(h);
  }

  lemma OutcomeOfDescribed(ciphers: seq<u16>, exts: seq<Extension>)
    ensures Outcome(Some(Describe(ciphers, exts))) ==
            if Find(exts, EXT_ENCRYPTED_CLIENT_HELLO).Some? then Encrypted
            else match VisibleHost(exts) case Some(host) => Cleartext(host) case None => NotFound
  {
    hide Find, VisibleHost;
  }

  lemma AcceptableName(exts: seq<Extension>, e: Extension)
    requires e.kind == EXT_SERVER_NAME
    requires exts == [e] || exts == [Extension(EXT_ENCRYPTED_CLIENT_HELLO, []), e]
    ensures Acceptable(exts) <==> !ServerName(e.body).Malformed?
    ensures Find(exts, EXT_SERVER_NAME) == Some(e.body)
    ensures Find(exts, EXT_ENCRYPTED_CLIENT_HELLO).Some? <==> |exts| == 2
  {
    hide ServerName, Acceptable, Find;
    var front := exts[..|exts| - 1];
    assert exts == front + [e];
    NoExtensions();
    if front != [] {
      assert front == [] + [front[0]];
      AcceptableAppend([], front[0]);
      FindAppend([], front[0], EXT_SERVER_NAME);
      FindAppend([], front[0], EXT_ENCRYPTED_CLIENT_HELLO);
    }
    AcceptableAppend(front, e);
    FindAppend(front, e, EXT_SERVER_NAME);
    FindAppend(front, e, EXT_ENCRYPTED_CLIENT_HELLO);
  }

  lemma NoExtensions()
    ensures Acceptable([])
    ensures forall kind :: Find([], kind).None?
  {
  }
}
