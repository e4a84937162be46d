/** The public entry points over raw bytes: reassembly, then the walker, then the
    projection to one of four outcomes. */
module ClientHellos {
  import opened Wire
  import opened Records
  import opened Reassembly
  import opened Handshakes
  import opened HandshakeGrammar
  import opened ExtensionOrder
  import opened ServerNames
  import opened ExtensionBodies
  import opened HelloMeaning
  import opened Utf8

  datatype SniOutcome = Cleartext(host: bytes) | Encrypted | NotFound | MalformedHello

  function Outcome(meta: Option<ClientHelloMetadata>): SniOutcome {
    match meta
    case None => MalformedHello
    case Some(m) =>
      if m.echPresent then Encrypted
      else if m.host.Some? then Cleartext(m.host.value)
      else NotFound
  }

  /** The metadata of a record stream. */
  ghost function ClientHello(stream: bytes): Option<ClientHelloMetadata> {
    var handshake :- Reassemble(stream);
    ParseHandshake(handshake)
  }

  method ParseClientHelloFull(stream: bytes) returns (r: Option<ClientHelloMetadata>)
    ensures r == ClientHello(stream)
  {
    var handshake := ParseRecordInner(stream);
    if handshake.None? {
      return None;
    }
    r := ParseHandshakeMessageFull(handshake.value);
  }

  method ExtractSni(stream: bytes) returns (r: SniOutcome)
    ensures r == Outcome(ClientHello(stream))
  {
    var meta := ParseClientHelloFull(stream);
    r := Outcome(meta);
  }

  /** The handshake-only entry point: nothing for no bytes, an outcome otherwise. */
  method ParseHandshakeMessage(handshake: bytes) returns (r: Option<SniOutcome>)
    ensures r == if handshake == [] then None else Some(Outcome(ParseHandshake(handshake)))
  {
    if handshake == [] {
      return None;
    }
    if handshake[0] != HANDSHAKE_TYPE_CLIENT_HELLO {
      return Some(MalformedHello);
    }
    var meta := ParseHandshakeMessageFull(handshake);
    return Some(Outcome(meta));
  }

  predicate VerifyHandshakeType(s: bytes) {
    |s| >= 4 && s[0] == HANDSHAKE_TYPE_CLIENT_HELLO && Need(s) <= MAX_HANDSHAKE_BYTES
  }

  /** The pre-check looks at four bytes: type 1 and a length that keeps the message within
      65536 bytes. */
  lemma VerifyIff(s: bytes)
    ensures VerifyHandshakeType(s) <==>
            exists length: u24, rest :: s == [1] + (PutU24(length) + rest) && length <= 65532
  {
    if |s| >= 4 {
      var length: u24 := Be24(s[1], s[2], s[3]);
      TakeU24Iff(s[1..], length, s[4..]);
      assert s == [s[0]] + s[1..];
    }
    if length: u24, rest :| s == [1] + (PutU24(length) + rest) && length <= 65532 {
      assert s[1..] == PutU24(length) + rest;
      TakeU24Iff(s[1..], length, rest);
    }
  }

  // ── Fragmentation is invisible ───────────────────────────────────────────

  /** However a handshake is cut into records, and whatever follows, the metadata and the
      outcome are those of the handshake itself. */
  lemma MetadataIgnoresFragmentation(h: bytes, rs: seq<Record>, rest: bytes)
    requires Complete(h) && |h| == Need(h)
    requires ValidRecords(rs) && h <= Payload(rs) && |Payload(rs)| <= MAX_HANDSHAKE_BYTES
    ensures ClientHello(Stream(rs) + rest) == ParseHandshake(h)
  {
    Refragmentation(h, rs, rest);
  }

  // ── Encrypted Client Hello wins ──────────────────────────────────────────

  /** The outcome is Encrypted exactly when the stream is accepted and type 0xfe0d is
      anywhere in its extensions; then no host is published. */
  lemma EncryptedIff(stream: bytes)
    ensures Outcome(ClientHello(stream)) == Encrypted <==>
            ClientHello(stream).Some? && 0xfe0d in ClientHello(stream).value.extensionOrder
    ensures Outcome(ClientHello(stream)) == Encrypted ==> ClientHello(stream).value.host.None?
  {
    hide ParseHandshake;
    if ClientHello(stream).Some? {
      AcceptedFacts(Reassemble(stream).value);
    }
  }

  /** On printed ClientHellos: a host comes out exactly when the extensions follow the rules,
      none is 0xfe0d, and the server_name extension publishes that host. */
  lemma CleartextIff(h: Hello, host: bytes)
    requires Printable(h)
    ensures Outcome(ParseHandshake(PutHello(h))) == Cleartext(host) <==>
            && FollowsRules(h.extensions)
            && !HasKind(h.extensions, 0xfe0d)
            && HasHost(h.extensions, host)
  {
    hide PutHello, Acceptable, FollowsRules, VisibleHost, HasKind, HasHost;
    ReadOfPut(h);
    AcceptableIff(h.extensions);
    KindIff(h.extensions, EXT_ENCRYPTED_CLIENT_HELLO);
    if FollowsRules(h.extensions) {
      HostIff(h.extensions, host);
    }
  }

  /** No server name is found exactly when the extensions follow the rules, nothing hides
      the name, and there is no server_name extension, or it has an entry of another type in
      front, or it names a host that is not UTF-8. */
  lemma NotFoundIff(h: Hello)
    requires Printable(h)
    ensures Outcome(ParseHandshake(PutHello(h))) == NotFound <==>
            && FollowsRules(h.extensions)
            && !HasKind(h.extensions, 0xfe0d)
            && (forall e <- h.extensions | e.kind == 0 :: NamesNoHost(e.body))
  {
    hide PutHello, Acceptable, FollowsRules, HasKind, Find, ServerName, NamesNoHost;
    ReadOfPut(h);
    AcceptableIff(h.extensions);
    KindIff(h.extensions, EXT_ENCRYPTED_CLIENT_HELLO);
    if FollowsRules(h.extensions) {
      NoHostIff(h.extensions);
    }
  }

  lemma NoHostIff(exts: seq<Extension>)
    requires Acceptable(exts)
    ensures VisibleHost(exts).None? <==> forall e <- exts | e.kind == 0 :: NamesNoHost(e.body)
  {
    hide ServerName, NamesNoHost, Find, BodyOk;
    NoRepeatsOf(exts);
    FindSays(exts, EXT_SERVER_NAME, ServerHost);
    forall e | e in exts && e.kind == 0 ensures ServerHost(e.body).None? <==> NamesNoHost(e.body) {
      NameIsOk(e);
      ServerNameSkipIff(e.body);
    }
    FindSome(exts, EXT_SERVER_NAME);
    KindIff(exts, EXT_SERVER_NAME);
  }

  lemma NameIsOk(e: Extension)
    requires BodyOk(e) && e.kind == EXT_SERVER_NAME
    ensures !ServerName(e.body).Malformed?
  {
    hide ServerName;
  }

  /** A small ClientHello with one extension. */
  function OneExtension(e: Extension): Hello {
    Hello(Header(0, Zeros(32)), Parameters([], [0x1301], [0]), [e], [], [])
  }

  lemma OneIsPrintable(e: Extension)
    requires |e.body| < 0x100
    ensures Printable(OneExtension(e))
    ensures OneExtension(e).extensions == [e] && OneExtension(e).parameters.ciphers == [0x1301]
  {
    hide PutExtension;
    assert PutExtensions([e]) == PutExtension(e) + PutExtensions([]);
  }

  lemma OneIsAcceptable(e: Extension)
    requires BodyOk(e)
    ensures Acceptable([e])
  {
    hide BodyOk;
  }

  lemma OneIsDescribed(e: Extension)
    requires BodyOk(e) && |e.body| < 0x100
    ensures Printable(OneExtension(e))
    ensures ParseHandshake(PutHello(OneExtension(e))) == Some(Describe([0x1301], [e]))
  {
    hide *;
    OneIsPrintable(e);
    OneIsAcceptable(e);
    ReadOfPut(OneExtension(e));
    ParseIsDescribed(PutHello(OneExtension(e)));
  }

  lemma ParseIsDescribed(s: bytes)
    requires ReadHello(s).Some?
    ensures var h := ReadHello(s).value;
            ParseHandshake(s) == Some(Describe(h.parameters.ciphers, h.extensions))
  {
    hide ReadHello, Describe;
  }

  /** NotFound although server_name is present: its host is not UTF-8. */
  lemma NotFoundExample() returns (h: bytes)
    ensures Outcome(ParseHandshake(h)) == NotFound
    ensures EXT_SERVER_NAME in ParseHandshake(h).value.extensionOrder
  {
    hide ParseHandshake, ServerName, HostBody, PutHello;
    var e := Extension(EXT_SERVER_NAME, HostBody([0xff], [], []));
    assert !IsUtf8([0xff]);
    ServerNameOfBody(e.body, [0xff], [], []);
    HostBodySize([0xff]);
    OneIsDescribed(e);
    h := PutHello(OneExtension(e));
    assert Find([e], EXT_SERVER_NAME) == Some(e.body);
    assert VisibleHost([e]) == ServerHost(e.body) == None;
    assert Find([e], EXT_ENCRYPTED_CLIENT_HELLO) == Find([], EXT_ENCRYPTED_CLIENT_HELLO) == None;
    assert Kinds([e])[0] == EXT_SERVER_NAME;
  }

  lemma HostBodySize(raw: bytes)
    requires |raw| < 0x80
    ensures |HostBody(raw, [], [])| == |raw| + 5
  {
  }

  lemma EmptyAlpn()
    ensures Alpn([0, 0]) == Some([])
  {
    AlpnIff([0, 0], []);
  }

  /** An empty ALPN list is accepted. */
  lemma EmptyAlpnExample() returns (h: bytes)
    ensures ParseHandshake(h).Some? && ParseHandshake(h).value.alpnProtocols == Some([])
  {
    hide ParseHandshake, Alpn, PutHello, OneExtension, Printable;
    var e := Extension(EXT_ALPN, [0, 0]);
    EmptyAlpn();
    OneIsDescribed(e);
    h := PutHello(OneExtension(e));
    assert Find([e], EXT_ALPN) == Some(e.body);
  }

  // ── The cheap pre-check ──────────────────────────────────────────────────

  /** On bytes that came out of reassembly the pre-check refuses nothing the walker takes. */
  lemma PreCheckAdmitsReassembled(stream: bytes)
    requires ClientHello(stream).Some?
    ensures VerifyHandshakeType(Reassemble(stream).value)
  {
    var h := Reassemble(stream).value;
    var rs, rest := AssembleFindsRecords(stream, []);
    HeaderBytes(h);
  }

  lemma HeaderBytes(h: bytes)
    requires ParseHandshake(h).Some?
    ensures |h| >= 4 && h[0] == HANDSHAKE_TYPE_CLIENT_HELLO
    ensures Need(h) == 4 + ReadHello(h).value.header.length
  {
    hide TakeParameters, AcceptedBlock, Describe;
  }

  /** Without reassembly it can: the walker never looks at the announced length, and the
      pre-check agrees with it exactly when that length is within the cap. */
  lemma PreCheckIff(h: bytes)
    requires ParseHandshake(h).Some?
    ensures VerifyHandshakeType(h) <==> 4 + ReadHello(h).value.header.length <= MAX_HANDSHAKE_BYTES
  {
    HeaderBytes(h);
  }

  lemma PreCheckExample() returns (h: bytes)
    ensures ParseHandshake(h).Some? && !VerifyHandshakeType(h)
  {
    var hello := Hello(Header(0xff_ffff, Zeros(32)), Parameters([], [0x1301], [0]), [], [], []);
    h := PutHello(hello);
    ReadOfPut(hello);
    HeaderBytes(h);
  }
}
