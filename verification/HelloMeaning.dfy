/** What the walker accepts and what it reports, in terms of the bytes of each extension: the
    rules on a block, the printed form each typed body must have, and nothing asked of any
    other extension. */
module HelloMeaning {
  import opened Wire
  import opened ServerNames
  import opened ExtensionBodies
  import opened Handshakes
  import opened HandshakeGrammar
  import opened ExtensionOrder

  // ── Printed bodies ───────────────────────────────────────────────────────

  ghost predicate PrintsNames(data: bytes, names: seq<bytes>) {
    ValidNames(names) && |PutNames(names)| < 0x1_0000 && P16(PutNames(names)) <= data
  }

  ghost predicate PrintsGroups(data: bytes, groups: seq<u16>) {
    exists shares :: ListsShares(data, shares) && groups == Groups(shares)
  }

  ghost predicate PrintsVersions(data: bytes, xs: seq<u16>) {
    1 <= |xs| < 0x80 && P8(PutU16s(xs)) <= data
  }

  ghost predicate PrintsCodepoints(data: bytes, xs: seq<u16>) {
    1 <= |xs| < 0x8000 && P16(PutU16s(xs)) <= data
  }

  ghost predicate PrintsFormats(data: bytes, formats: bytes) {
    1 <= |formats| < 0x100 && P8(formats) <= data
  }

  ghost predicate PrintsLimit(data: bytes, limit: u16) {
    64 <= limit <= 16385 && data == PutU16(limit)
  }

  // ── The rules ────────────────────────────────────────────────────────────

  /** The body of a typed extension has its printed form; any other body will do. */
  ghost predicate Readable(e: Extension) {
    && (e.kind == 0x0000 ==> NamesNoHost(e.body) || exists s :: Publishes(e.body, s))
    && (e.kind == 0x000a ==> exists xs :: PrintsCodepoints(e.body, xs))
    && (e.kind == 0x000b ==> exists formats :: PrintsFormats(e.body, formats))
    && (e.kind == 0x000d ==> exists xs :: PrintsCodepoints(e.body, xs))
    && (e.kind == 0x0010 ==> exists names :: PrintsNames(e.body, names))
    && (e.kind == 0x001c ==> exists limit :: PrintsLimit(e.body, limit))
    && (e.kind == 0x002b ==> exists xs :: PrintsVersions(e.body, xs))
    && (e.kind == 0x0033 ==> exists groups :: PrintsGroups(e.body, groups))
  }

  /** No type twice, pre_shared_key nowhere but at the end, every body readable. */
  ghost predicate FollowsRules(exts: seq<Extension>) {
    && (forall i, j | 0 <= i < j < |exts| :: exts[i].kind != exts[j].kind)
    && (forall i | 0 <= i < |exts| - 1 :: exts[i].kind != 0x0029)
    && (forall e <- exts :: Readable(e))
  }

  lemma NameReadableIff(body: bytes)
    ensures !ServerName(body).Malformed? <==> NamesNoHost(body) || exists s :: Publishes(body, s)
  {
    hide ServerName, NamesNoHost, Publishes;
    ServerNameSkipIff(body);
    if ServerName(body).Host? {
      ServerNameHostIff(body, ServerName(body).name);
    }
    if s :| Publishes(body, s) {
      ServerNameHostIff(body, s);
    }
  }

  lemma CodepointsReadableIff(body: bytes)
    ensures U16List(body).Some? <==> exists xs :: PrintsCodepoints(body, xs)
    ensures SupportedVersions(body).Some? <==> exists xs :: PrintsVersions(body, xs)
  {
    hide U16List, SupportedVersions;
    forall xs ensures U16List(body) == Some(xs) <==> PrintsCodepoints(body, xs) {
      U16ListIff(body, xs);
    }
    forall xs ensures SupportedVersions(body) == Some(xs) <==> PrintsVersions(body, xs) {
      SupportedVersionsIff(body, xs);
    }
    hide PrintsCodepoints, PrintsVersions;
    if U16List(body).Some? {
      assert PrintsCodepoints(body, U16List(body).value);
    }
    if SupportedVersions(body).Some? {
      assert PrintsVersions(body, SupportedVersions(body).value);
    }
  }

  lemma FormatsReadableIff(body: bytes)
    ensures EcPointFormats(body).Some? <==> exists formats :: PrintsFormats(body, formats)
    ensures RecordSizeLimit(body).Some? <==> exists limit :: PrintsLimit(body, limit)
  {
    hide EcPointFormats, RecordSizeLimit;
    forall formats ensures EcPointFormats(body) == Some(formats) <==> PrintsFormats(body, formats) {
      EcPointFormatsIff(body, formats);
    }
    forall limit: u16 ensures RecordSizeLimit(body) == Some(limit) <==> PrintsLimit(body, limit) {
      RecordSizeLimitIff(body, limit);
    }
    hide PrintsFormats, PrintsLimit;
    if EcPointFormats(body).Some? {
      assert PrintsFormats(body, EcPointFormats(body).value);
    }
    if RecordSizeLimit(body).Some? {
      assert PrintsLimit(body, RecordSizeLimit(body).value);
    }
  }

  lemma NamesReadableIff(body: bytes)
    ensures Alpn(body).Some? <==> exists names :: PrintsNames(body, names)
    ensures KeyShare(body).Some? <==> exists groups :: PrintsGroups(body, groups)
  {
    hide Alpn, KeyShare;
    forall names ensures Alpn(body) == Some(names) <==> PrintsNames(body, names) {
      AlpnIff(body, names);
    }
    forall groups ensures KeyShare(body) == Some(groups) <==> PrintsGroups(body, groups) {
      KeyShareIff(body, groups);
    }
    hide PrintsNames, PrintsGroups;
    if Alpn(body).Some? {
      assert PrintsNames(body, Alpn(body).value);
    }
    if KeyShare(body).Some? {
      assert PrintsGroups(body, KeyShare(body).value);
    }
  }

  lemma BodyOkIff(e: Extension)
    ensures BodyOk(e) <==> Readable(e)
  {
    NameReadableIff(e.body);
    CodepointsReadableIff(e.body);
    FormatsReadableIff(e.body);
    NamesReadableIff(e.body);
    hide ServerName, Alpn, KeyShare, U16List, SupportedVersions, EcPointFormats, RecordSizeLimit;
    hide PrintsNames, PrintsGroups, PrintsCodepoints, PrintsVersions, PrintsFormats, PrintsLimit;
    hide NamesNoHost, Publishes;
  }

  lemma AcceptableIff(exts: seq<Extension>)
    ensures Acceptable(exts) <==> FollowsRules(exts)
  {
    hide BodyOk, Readable;
    forall e ensures BodyOk(e) <==> Readable(e) {
      BodyOkIff(e);
    }
    assert forall i | 0 <= i < |exts| :: Kinds(exts)[i] == exts[i].kind;
  }

  /** A printed ClientHello is accepted exactly when its extensions follow the rules. */
  lemma AcceptedIff(h: Hello)
    requires Printable(h)
    ensures ParseHandshake(PutHello(h)).Some? <==> FollowsRules(h.extensions)
  {
    hide PutHello, FollowsRules, Acceptable, ReadHello, Describe, Printable;
    ReadOfPut(h);
    AcceptableIff(h.extensions);
  }

  // ── What is reported ─────────────────────────────────────────────────────

  ghost predicate HasKind(exts: seq<Extension>, kind: u16) {
    exists e <- exts :: e.kind == kind
  }

  ghost predicate HasHost(exts: seq<Extension>, x: bytes) {
    exists e <- exts :: e.kind == 0x0000 && Publishes(e.body, x)
  }

  ghost predicate HasNames(exts: seq<Extension>, x: seq<bytes>) {
    exists e <- exts :: e.kind == 0x0010 && PrintsNames(e.body, x)
  }

  ghost predicate HasVersions(exts: seq<Extension>, x: seq<u16>) {
    exists e <- exts :: e.kind == 0x002b && PrintsVersions(e.body, x)
  }

  ghost predicate HasShares(exts: seq<Extension>, x: seq<u16>) {
    exists e <- exts :: e.kind == 0x0033 && PrintsGroups(e.body, x)
  }

  ghost predicate HasLimit(exts: seq<Extension>, x: u16) {
    exists e <- exts :: e.kind == 0x001c && PrintsLimit(e.body, x)
  }

  ghost predicate HasAlgorithms(exts: seq<Extension>, x: seq<u16>) {
    exists e <- exts :: e.kind == 0x000d && PrintsCodepoints(e.body, x)
  }

  ghost predicate HasGroups(exts: seq<Extension>, x: seq<u16>) {
    exists e <- exts :: e.kind == 0x000a && PrintsCodepoints(e.body, x)
  }

  ghost predicate HasFormats(exts: seq<Extension>, x: bytes) {
    exists e <- exts :: e.kind == 0x000b && PrintsFormats(e.body, x)
  }

  /** The metadata says what is on the wire: each list and each flag of the extension of its
      own type, in full, and a host only where no 0xfe0d hides it. */
  ghost predicate Tells(m: ClientHelloMetadata, ciphers: seq<u16>, exts: seq<Extension>) {
    && m.cipherSuites == ciphers
    && |m.extensionOrder| == |exts| && (forall i | 0 <= i < |exts| :: m.extensionOrder[i] == exts[i].kind)
    && (m.echPresent <==> HasKind(exts, 0xfe0d))
    && (m.pskPresent <==> HasKind(exts, 0x0029))
    && (m.earlyDataPresent <==> HasKind(exts, 0x002a))
    && (m.compressCertificatePresent <==> HasKind(exts, 0x001b))
    && (forall x :: m.host == Some(x) <==> HasHost(exts, x) && !HasKind(exts, 0xfe0d))
    && (forall x :: m.alpnProtocols == Some(x) <==> HasNames(exts, x))
    && (forall x :: m.supportedVersions == Some(x) <==> HasVersions(exts, x))
    && (forall x :: m.keyShareGroups == Some(x) <==> HasShares(exts, x))
    && (forall x: u16 :: m.recordSizeLimit == Some(x) <==> HasLimit(exts, x))
    && (forall x :: m.signatureAlgorithms == Some(x) <==> HasAlgorithms(exts, x))
    && (forall x :: m.supportedGroups == Some(x) <==> HasGroups(exts, x))
    && (forall x :: m.ecPointFormats == Some(x) <==> HasFormats(exts, x))
  }

  lemma ReadsNamesIff(data: bytes, x: seq<bytes>)
    ensures Alpn(data) == Some(x) <==> PrintsNames(data, x)
  {
    hide Alpn;
    AlpnIff(data, x);
  }

  lemma ReadsVersionsIff(data: bytes, x: seq<u16>)
    ensures SupportedVersions(data) == Some(x) <==> PrintsVersions(data, x)
  {
    hide SupportedVersions;
    SupportedVersionsIff(data, x);
  }

  lemma ReadsGroupsIff(data: bytes, x: seq<u16>)
    ensures KeyShare(data) == Some(x) <==> PrintsGroups(data, x)
  {
    hide KeyShare;
    KeyShareIff(data, x);
  }

  lemma ReadsLimitIff(data: bytes, x: u16)
    ensures RecordSizeLimit(data) == Some(x) <==> PrintsLimit(data, x)
  {
    hide RecordSizeLimit;
    RecordSizeLimitIff(data, x);
  }

  lemma ReadsCodepointsIff(data: bytes, x: seq<u16>)
    ensures U16List(data) == Some(x) <==> PrintsCodepoints(data, x)
  {
    hide U16List;
    U16ListIff(data, x);
  }

  lemma ReadsFormatsIff(data: bytes, x: bytes)
    ensures EcPointFormats(data) == Some(x) <==> PrintsFormats(data, x)
  {
    hide EcPointFormats;
    EcPointFormatsIff(data, x);
  }

  lemma SaysIff<T>(field: Option<T>, exts: seq<Extension>, kind: u16, parse: bytes -> Option<T>, x: T)
    requires Says(field, exts, kind, parse)
    ensures field == Some(x) <==> exists e <- exts :: e.kind == kind && parse(e.body) == Some(x)
  {
    if field == Some(x) {
      assert kind in Kinds(exts);
      var i :| 0 <= i < |exts| && Kinds(exts)[i] == kind;
      assert exts[i] in exts && exts[i].kind == kind;
    }
  }

  lemma HasNamesIff(field: Option<seq<bytes>>, exts: seq<Extension>, x: seq<bytes>)
    requires Says(field, exts, 0x0010, Alpn)
    ensures field == Some(x) <==> HasNames(exts, x)
  {
    hide Says, Alpn, PrintsNames;
    SaysIff(field, exts, 0x0010, Alpn, x);
    forall e | e in exts ensures Alpn(e.body) == Some(x) <==> PrintsNames(e.body, x) {
      ReadsNamesIff(e.body, x);
    }
  }

  lemma HasVersionsIff(field: Option<seq<u16>>, exts: seq<Extension>, x: seq<u16>)
    requires Says(field, exts, 0x002b, SupportedVersions)
    ensures field == Some(x) <==> HasVersions(exts, x)
  {
    hide Says, SupportedVersions, PrintsVersions;
    SaysIff(field, exts, 0x002b, SupportedVersions, x);
    forall e | e in exts ensures SupportedVersions(e.body) == Some(x) <==> PrintsVersions(e.body, x) {
      ReadsVersionsIff(e.body, x);
    }
  }

  lemma HasSharesIff(field: Option<seq<u16>>, exts: seq<Extension>, x: seq<u16>)
    requires Says(field, exts, 0x0033, KeyShare)
    ensures field == Some(x) <==> HasShares(exts, x)
  {
    hide Says, KeyShare, PrintsGroups;
    SaysIff(field, exts, 0x0033, KeyShare, x);
    forall e | e in exts ensures KeyShare(e.body) == Some(x) <==> PrintsGroups(e.body, x) {
      ReadsGroupsIff(e.body, x);
    }
  }

  lemma HasLimitIff(field: Option<u16>, exts: seq<Extension>, x: u16)
    requires Says(field, exts, 0x001c, RecordSizeLimit)
    ensures field == Some(x) <==> HasLimit(exts, x)
  {
    hide Says, RecordSizeLimit, PrintsLimit;
    SaysIff(field, exts, 0x001c, RecordSizeLimit, x);
    forall e | e in exts ensures RecordSizeLimit(e.body) == Some(x) <==> PrintsLimit(e.body, x) {
      ReadsLimitIff(e.body, x);
    }
  }

  lemma HasAlgorithmsIff(field: Option<seq<u16>>, exts: seq<Extension>, x: seq<u16>)
    requires Says(field, exts, 0x000d, U16List)
    ensures field == Some(x) <==> HasAlgorithms(exts, x)
  {
    hide Says, U16List, PrintsCodepoints;
    SaysIff(field, exts, 0x000d, U16List, x);
    forall e | e in exts ensures U16List(e.body) == Some(x) <==> PrintsCodepoints(e.body, x) {
      ReadsCodepointsIff(e.body, x);
    }
  }

  lemma HasGroupsIff(field: Option<seq<u16>>, exts: seq<Extension>, x: seq<u16>)
    requires Says(field, exts, 0x000a, U16List)
    ensures field == Some(x) <==> HasGroups(exts, x)
  {
    hide Says, U16List, PrintsCodepoints;
    SaysIff(field, exts, 0x000a, U16List, x);
    forall e | e in exts ensures U16List(e.body) == Some(x) <==> PrintsCodepoints(e.body, x) {
      ReadsCodepointsIff(e.body, x);
    }
  }

  lemma HasFormatsIff(field: Option<bytes>, exts: seq<Extension>, x: bytes)
    requires Says(field, exts, 0x000b, EcPointFormats)
    ensures field == Some(x) <==> HasFormats(exts, x)
  {
    hide Says, EcPointFormats, PrintsFormats;
    SaysIff(field, exts, 0x000b, EcPointFormats, x);
    forall e | e in exts ensures EcPointFormats(e.body) == Some(x) <==> PrintsFormats(e.body, x) {
      ReadsFormatsIff(e.body, x);
    }
  }

  lemma HostIff(exts: seq<Extension>, host: bytes)
    requires FollowsRules(exts)
    ensures VisibleHost(exts) == Some(host) <==> HasHost(exts, host)
  {
    hide FollowsRules, Says, Publishes, ServerHost, Find, Acceptable, ServerName;
    AcceptableIff(exts);
    NoRepeatsOf(exts);
    FindSays(exts, EXT_SERVER_NAME, ServerHost);
    SaysIff(VisibleHost(exts), exts, EXT_SERVER_NAME, ServerHost, host);
    forall e | e in exts ensures ServerHost(e.body) == Some(host) <==> Publishes(e.body, host) {
      ServerHostIff(e.body, host);
    }
  }

  lemma NoRepeatsOf(exts: seq<Extension>)
    requires Acceptable(exts)
    ensures NoRepeats(Kinds(exts))
  {
  }

  lemma ServerHostIff(body: bytes, host: bytes)
    ensures ServerHost(body) == Some(host) <==> Publishes(body, host)
  {
    hide ServerName, Publishes;
    ServerNameHostIff(body, host);
  }

  lemma KindIff(exts: seq<Extension>, kind: u16)
    ensures HasKind(exts, kind) <==> Find(exts, kind).Some?
    ensures HasKind(exts, kind) <==> kind in Kinds(exts)
  {
    hide Find;
    FindSome(exts, kind);
    if kind in Kinds(exts) {
      var i :| 0 <= i < |exts| && Kinds(exts)[i] == kind;
      assert exts[i] in exts;
    }
    if e :| e in exts && e.kind == kind {
      var i :| 0 <= i < |exts| && exts[i] == e;
      assert Kinds(exts)[i] == kind;
    }
  }

  /** What the walker reports of an accepted block tells what is in it... */
  lemma DescribeTells(ciphers: seq<u16>, exts: seq<Extension>)
    requires FollowsRules(exts)
    ensures Tells(Describe(ciphers, exts), ciphers, exts)
  {
    hide FollowsRules, Acceptable, Says;
    AcceptableIff(exts);
    DescribedContents(ciphers, exts);
    FlagsTell(ciphers, exts);
    var m := Describe(ciphers, exts);
    hide Describe, HasKind, Kinds;
    hide HasHost, HasNames, HasVersions, HasShares, HasLimit, HasAlgorithms, HasGroups, HasFormats;
    forall x ensures m.alpnProtocols == Some(x) <==> HasNames(exts, x) {
      HasNamesIff(m.alpnProtocols, exts, x);
    }
    forall x ensures m.supportedVersions == Some(x) <==> HasVersions(exts, x) {
      HasVersionsIff(m.supportedVersions, exts, x);
    }
    forall x ensures m.keyShareGroups == Some(x) <==> HasShares(exts, x) {
      HasSharesIff(m.keyShareGroups, exts, x);
    }
    forall x: u16 ensures m.recordSizeLimit == Some(x) <==> HasLimit(exts, x) {
      HasLimitIff(m.recordSizeLimit, exts, x);
    }
    forall x ensures m.signatureAlgorithms == Some(x) <==> HasAlgorithms(exts, x) {
      HasAlgorithmsIff(m.signatureAlgorithms, exts, x);
    }
    forall x ensures m.supportedGroups == Some(x) <==> HasGroups(exts, x) {
      HasGroupsIff(m.supportedGroups, exts, x);
    }
    forall x ensures m.ecPointFormats == Some(x) <==> HasFormats(exts, x) {
      HasFormatsIff(m.ecPointFormats, exts, x);
    }
  }

  lemma FlagsTell(ciphers: seq<u16>, exts: seq<Extension>)
    requires FollowsRules(exts)
    ensures var m := Describe(ciphers, exts);
            && m.cipherSuites == ciphers && |m.extensionOrder| == |exts|
            && (forall i | 0 <= i < |exts| :: m.extensionOrder[i] == exts[i].kind)
            && (m.echPresent <==> HasKind(exts, 0xfe0d)) && (m.pskPresent <==> HasKind(exts, 0x0029))
            && (m.earlyDataPresent <==> HasKind(exts, 0x002a))
            && (m.compressCertificatePresent <==> HasKind(exts, 0x001b))
            && (forall x :: m.host == Some(x) <==> HasHost(exts, x) && !HasKind(exts, 0xfe0d))
  {
    hide FollowsRules, Find, VisibleHost, HasHost, HasKind;
    KindIff(exts, EXT_ENCRYPTED_CLIENT_HELLO);
    KindIff(exts, EXT_PRE_SHARED_KEY);
    KindIff(exts, EXT_EARLY_DATA);
    KindIff(exts, EXT_COMPRESS_CERTIFICATE);
    forall x ensures VisibleHost(exts) == Some(x) <==> HasHost(exts, x) {
      HostIff(exts, x);
    }
  }

  /** ...and nothing else does. */
  lemma TellsOnce(m: ClientHelloMetadata, m': ClientHelloMetadata, ciphers: seq<u16>, exts: seq<Extension>)
    requires Tells(m, ciphers, exts) && Tells(m', ciphers, exts)
    ensures m == m'
  {
    hide HasKind, HasHost, HasNames, HasVersions, HasShares, HasLimit, HasAlgorithms, HasGroups, HasFormats;
    assert m.extensionOrder == m'.extensionOrder;
    SameOption(m.host, m'.host);
    SameOption(m.alpnProtocols, m'.alpnProtocols);
    SameOption(m.supportedVersions, m'.supportedVersions);
    SameOption(m.keyShareGroups, m'.keyShareGroups);
    SameOption(m.recordSizeLimit, m'.recordSizeLimit);
    SameOption(m.signatureAlgorithms, m'.signatureAlgorithms);
    SameOption(m.supportedGroups, m'.supportedGroups);
    SameOption(m.ecPointFormats, m'.ecPointFormats);
  }

  lemma SameOption<T>(a: Option<T>, b: Option<T>)
    requires a.Some? ==> b == Some(a.value)
    requires b.Some? ==> a == Some(b.value)
    ensures a == b
  {
  }

  /** The walker, in full: metadata comes out precisely for the bytes of a ClientHello whose
      extensions follow the rules, and it is the one that tells what is in them. */
  lemma WalkerExactly(s: bytes, m: ClientHelloMetadata)
    ensures ParseHandshake(s) == Some(m) <==>
            exists h ::
              && Printable(h) && s == PutHello(h)
              && FollowsRules(h.extensions) && Tells(m, h.parameters.ciphers, h.extensions)
  {
    hide PutHello, ParseHandshake, Describe, Acceptable, FollowsRules, Printable, Tells;
    WalkerIff(s, m);
    forall h: Hello ensures Acceptable(h.extensions) <==> FollowsRules(h.extensions) {
      AcceptableIff(h.extensions);
    }
    if ParseHandshake(s) == Some(m) {
      var h :| ValidHello(h) && s == PutHello(h) && m == Describe(h.parameters.ciphers, h.extensions);
      DescribeTells(h.parameters.ciphers, h.extensions);
    }
    if h :|
      && Printable(h) && s == PutHello(h)
      && FollowsRules(h.extensions) && Tells(m, h.parameters.ciphers, h.extensions)
    {
      DescribeTells(h.parameters.ciphers, h.extensions);
      TellsOnce(m, Describe(h.parameters.ciphers, h.extensions), h.parameters.ciphers, h.extensions);
      assert ValidHello(h);
    }
  }

  // ── Bodies nobody reads ──────────────────────────────────────────────────

  /** The types whose body is read. */
  predicate IsRead(kind: u16) {
    kind in {0x0000, 0x000a, 0x000b, 0x000d, 0x0010, 0x001c, 0x002b, 0x0033}
  }

  /** Another body in an extension of any other type, known or unknown, changes neither
      acceptance nor any field. */
  lemma OtherBodiesAreIgnored(h: Hello, i: nat, body: bytes)
    requires Printable(h) && i < |h.extensions| && !IsRead(h.extensions[i].kind)
    requires Printable(h.(extensions := WithBody(h.extensions, i, body)))
    ensures ParseHandshake(PutHello(h.(extensions := WithBody(h.extensions, i, body)))) == ParseHandshake(PutHello(h))
  {
    hide PutHello, ReadHello, Describe, Acceptable, WithBody, Printable, BodyOk, Readable, IsRead;
    ReadOfPut(h);
    ReadOfPut(h.(extensions := WithBody(h.extensions, i, body)));
    NotReadIsOk(h.extensions[i]);
    NotReadIsOk(Extension(h.extensions[i].kind, body));
    WithBodyAcceptable(h.extensions, i, body);
    NotReadIsIgnored(h.parameters.ciphers, h.extensions, i, body);
  }

  lemma NotReadIsOk(e: Extension)
    requires !IsRead(e.kind)
    ensures BodyOk(e)
  {
    hide PrintsNames, PrintsGroups, PrintsCodepoints, PrintsVersions, PrintsFormats, PrintsLimit;
    hide NamesNoHost, Publishes;
    hide BodyOk;
    BodyOkIff(e);
  }

  lemma NotReadIsIgnored(ciphers: seq<u16>, exts: seq<Extension>, i: nat, body: bytes)
    requires i < |exts| && !IsRead(exts[i].kind)
    ensures Describe(ciphers, exts) == Describe(ciphers, WithBody(exts, i, body))
  {
    hide Find, WithBody, Kinds;
    forall kind | IsRead(kind) ensures Find(WithBody(exts, i, body), kind) == Find(exts, kind) {
      FindElsewhere(exts, i, body, kind);
    }
    forall kind ensures Find(WithBody(exts, i, body), kind).Some? <==> Find(exts, kind).Some? {
      FindSome(exts, kind);
      FindSome(WithBody(exts, i, body), kind);
    }
  }
}
