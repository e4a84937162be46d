/** The ClientHello walker (sections 4.1.2, 4.2 and 4.2.11 of RFC 8446): fixed fields, an
    extension loop, and the metadata collected from them. */
module Handshakes {
  import opened Wire
  import opened Cursors
  import opened ServerNames
  import opened ExtensionBodies

  const HANDSHAKE_TYPE_CLIENT_HELLO: byte := 1
  const TLS_LEGACY_VERSION: u16 := 0x0303

  const EXT_SERVER_NAME: u16 := 0x0000
  const EXT_SUPPORTED_GROUPS: u16 := 0x000a
  const EXT_EC_POINT_FORMATS: u16 := 0x000b
  const EXT_SIGNATURE_ALGORITHMS: u16 := 0x000d
  const EXT_ALPN: u16 := 0x0010
  const EXT_COMPRESS_CERTIFICATE: u16 := 0x001b
  const EXT_RECORD_SIZE_LIMIT: u16 := 0x001c
  const EXT_PRE_SHARED_KEY: u16 := 0x0029
  const EXT_EARLY_DATA: u16 := 0x002a
  const EXT_SUPPORTED_VERSIONS: u16 := 0x002b
  const EXT_KEY_SHARE: u16 := 0x0033
  const EXT_ENCRYPTED_CLIENT_HELLO: u16 := 0xfe0d

  datatype ClientHelloMetadata = ClientHelloMetadata(
    host: Option<bytes>,
    echPresent: bool,
    alpnProtocols: Option<seq<bytes>>,
    supportedVersions: Option<seq<u16>>,
    keyShareGroups: Option<seq<u16>>,
    pskPresent: bool,
    earlyDataPresent: bool,
    compressCertificatePresent: bool,
    recordSizeLimit: Option<u16>,
    signatureAlgorithms: Option<seq<u16>>,
    supportedGroups: Option<seq<u16>>,
    ecPointFormats: Option<bytes>,
    extensionOrder: seq<u16>,
    cipherSuites: seq<u16>)

  // ── Extension blocks ─────────────────────────────────────────────────────

  datatype Extension = Extension(kind: u16, body: bytes)

  function TakeExtension(s: bytes): (r: Option<Taken<Extension>>)
    ensures r.Some? ==> |s| == 4 + |r.value.value.body| + |r.value.rest|
  {
    var kind :- TakeU16(s);
    var body :- TakeP16(kind.rest);
    Some(Taken(Extension(kind.value, body.value), body.rest))
  }

  /** The extensions of a block, and the one to three bytes that can be left over. */
  function SplitBlock(s: bytes): Option<Taken<seq<Extension>>>
    decreases |s|
  {
    if |s| < 4 then Some(Taken([], s))
    else
      var e :- TakeExtension(s);
      PrependExtensions([e.value], SplitBlock(e.rest))
  }

  function PrependExtensions(
      front: seq<Extension>, back: Option<Taken<seq<Extension>>>): Option<Taken<seq<Extension>>> {
    match back
    case None => None
    case Some(block) => Some(Taken(front + block.value, block.rest))
  }

  function Kinds(exts: seq<Extension>): (kinds: seq<u16>)
    ensures |kinds| == |exts|
    ensures forall i | 0 <= i < |exts| :: kinds[i] == exts[i].kind
  {
    seq(|exts|, i requires 0 <= i < |exts| => exts[i].kind)
  }

  predicate BodyOk(e: Extension) {
    if e.kind == EXT_SERVER_NAME then !ServerName(e.body).Malformed?
    else if e.kind == EXT_ALPN then Alpn(e.body).Some?
    else if e.kind == EXT_SUPPORTED_VERSIONS then SupportedVersions(e.body).Some?
    else if e.kind == EXT_KEY_SHARE then KeyShare(e.body).Some?
    else if e.kind == EXT_RECORD_SIZE_LIMIT then RecordSizeLimit(e.body).Some?
    else if e.kind == EXT_SIGNATURE_ALGORITHMS then U16List(e.body).Some?
    else if e.kind == EXT_SUPPORTED_GROUPS then U16List(e.body).Some?
    else if e.kind == EXT_EC_POINT_FORMATS then EcPointFormats(e.body).Some?
    else true
  }

  ghost predicate NoRepeats<T>(xs: seq<T>) {
    forall i, j | 0 <= i < j < |xs| :: xs[i] != xs[j]
  }

  /** The rules on a block: no type twice, pre_shared_key last, every body readable. */
  ghost predicate Acceptable(exts: seq<Extension>) {
    && NoRepeats(Kinds(exts))
    && (forall i | 0 <= i < |exts| - 1 :: exts[i].kind != EXT_PRE_SHARED_KEY)
    && (forall e <- exts :: BodyOk(e))
  }

  // ── Metadata as a function of the block ──────────────────────────────────

  function Find(exts: seq<Extension>, kind: u16): Option<bytes> {
    if exts == [] then None
    else if exts[0].kind == kind then Some(exts[0].body)
    else Find(exts[1..], kind)
  }

  function Read<T>(found: Option<bytes>, parse: bytes -> Option<T>): Option<T> {
    match found
    case None => None
    case Some(body) => parse(body)
  }

  function ServerHost(body: bytes): Option<bytes> {
    match ServerName(body)
    case Host(name) => Some(name)
    case _ => None
  }

  /** The host on the wire, before Encrypted Client Hello masks it. */
  function VisibleHost(exts: seq<Extension>): Option<bytes> {
    Read(Find(exts, EXT_SERVER_NAME), ServerHost)
  }

  /** Everything but the host. */
  function Collect(ciphers: seq<u16>, exts: seq<Extension>): ClientHelloMetadata {
    ClientHelloMetadata(
      host := None,
      echPresent := Find(exts, EXT_ENCRYPTED_CLIENT_HELLO).Some?,
      alpnProtocols := Read(Find(exts, EXT_ALPN), Alpn),
      supportedVersions := Read(Find(exts, EXT_SUPPORTED_VERSIONS), SupportedVersions),
      keyShareGroups := Read(Find(exts, EXT_KEY_SHARE), KeyShare),
      pskPresent := Find(exts, EXT_PRE_SHARED_KEY).Some?,
      earlyDataPresent := Find(exts, EXT_EARLY_DATA).Some?,
      compressCertificatePresent := Find(exts, EXT_COMPRESS_CERTIFICATE).Some?,
      recordSizeLimit := Read(Find(exts, EXT_RECORD_SIZE_LIMIT), RecordSizeLimit),
      signatureAlgorithms := Read(Find(exts, EXT_SIGNATURE_ALGORITHMS), U16List),
      supportedGroups := Read(Find(exts, EXT_SUPPORTED_GROUPS), U16List),
      ecPointFormats := Read(Find(exts, EXT_EC_POINT_FORMATS), EcPointFormats),
      extensionOrder := Kinds(exts),
      cipherSuites := ciphers)
  }

  function Mask(meta: ClientHelloMetadata, visible: Option<bytes>): ClientHelloMetadata {
    meta.(host := if meta.echPresent then None else visible)
  }

  function Describe(ciphers: seq<u16>, exts: seq<Extension>): ClientHelloMetadata {
    Mask(Collect(ciphers, exts), VisibleHost(exts))
  }

  // ── Fixed fields ─────────────────────────────────────────────────────────

  /** What precedes the session id; the length is read and never used. */
  datatype Header = Header(length: u24, random: bytes)

  datatype Parameters = Parameters(sessionId: bytes, ciphers: seq<u16>, compression: bytes)

  function TakeHeader(s: bytes): Option<Taken<Header>> {
    var kind :- TakeU8(s);
    if kind.value != HANDSHAKE_TYPE_CLIENT_HELLO then None else
    var length :- TakeU24(kind.rest);
    var version :- TakeU16(length.rest);
    if version.value != TLS_LEGACY_VERSION then None else
    var random :- Take(version.rest, 32);
    Some(Taken(Header(length.value, random.value), random.rest))
  }

  function TakeParameters(s: bytes): Option<Taken<Parameters>> {
    var sessionId :- TakeP8(s);
    if |sessionId.value| > 32 then None else
    var suites :- TakeP16(sessionId.rest);
    if suites.value == [] || |suites.value| % 2 != 0 then None else
    var compression :- TakeP8(suites.rest);
    if 0 !in compression.value then None else
    Some(Taken(Parameters(sessionId.value, U16s(suites.value), compression.value), compression.rest))
  }

  // ── The whole message ────────────────────────────────────────────────────

  datatype Hello = Hello(
    header: Header, parameters: Parameters, extensions: seq<Extension>, leftover: bytes, trailing: bytes)

  /** The extensions of a block that breaks no rule. */
  ghost function AcceptedBlock(s: bytes): Option<Taken<seq<Extension>>> {
    var block :- SplitBlock(s);
    if Acceptable(block.value) then Some(block) else None
  }

  ghost function ReadHello(s: bytes): Option<Hello> {
    var header :- TakeHeader(s);
    var parameters :- TakeParameters(header.rest);
    var extensions :- TakeP16(parameters.rest);
    var block :- AcceptedBlock(extensions.value);
    Some(Hello(header.value, parameters.value, block.value, block.rest, extensions.rest))
  }

  ghost function ParseHandshake(s: bytes): Option<ClientHelloMetadata> {
    var hello :- ReadHello(s);
    Some(Describe(hello.parameters.ciphers, hello.extensions))
  }

  // ── The imperative walker ────────────────────────────────────────────────

  method ReadHeader(c: Cursor) returns (ok: bool)
    requires c.Valid()
    modifies c`pos
    ensures c.Valid()
    ensures ok <==> TakeHeader(old(c.Rest())).Some?
    ensures ok ==> TakeHeader(old(c.Rest())).value.rest == c.Rest()
  {
    var kind := c.ReadU8();
    if kind.None? || kind.value != HANDSHAKE_TYPE_CLIENT_HELLO {
      return false;
    }
    var length := c.ReadU24();
    if length.None? {
      return false;
    }
    var version := c.ReadU16();
    if version.None? || version.value != TLS_LEGACY_VERSION {
      return false;
    }
    var random := c.ReadSlice(32);
    return random.Some?;
  }

  method ReadParameters(c: Cursor) returns (ciphers: Option<seq<u16>>)
    requires c.Valid()
    modifies c`pos
    ensures c.Valid()
    ensures ciphers.None? <==> TakeParameters(old(c.Rest())).None?
    ensures ciphers.Some? ==>
              var taken := TakeParameters(old(c.Rest())).value;
              taken.value.ciphers == ciphers.value && taken.rest == c.Rest()
  {
    var sessionId := c.ReadU8Prefixed();
    if sessionId.None? || |sessionId.value| > 32 {
      return None;
    }
    var suites := c.ReadU16Prefixed();
    if suites.None? || suites.value == [] || |suites.value| % 2 != 0 {
      return None;
    }
    var compression := c.ReadU8Prefixed();
    if compression.None? || 0 !in compression.value {
      return None;
    }
    return Some(U16s(suites.value));
  }

  method ReadExtension(c: Cursor) returns (e: Option<Extension>)
    requires c.Valid()
    modifies c`pos
    ensures c.Valid()
    ensures e.None? <==> TakeExtension(old(c.Rest())).None?
    ensures e.Some? ==> TakeExtension(old(c.Rest())) == Some(Taken(e.value, c.Rest()))
    ensures e.Some? ==> c.pos == old(c.pos) + 4 + |e.value.body|
  {
    var kind := c.ReadU16();
    if kind.None? {
      return None;
    }
    var body := c.ReadU16Prefixed();
    if body.None? {
      return None;
    }
    return Some(Extension(kind.value, body.value));
  }

  lemma {:induction false} FindAppend(exts: seq<Extension>, e: Extension, kind: u16)
    ensures Find(exts + [e], kind) ==
            if Find(exts, kind).Some? then Find(exts, kind) else if e.kind == kind then Some(e.body) else None
    ensures Find(exts, kind).Some? <==> kind in Kinds(exts)
  {
    if exts != [] {
      assert (exts + [e])[1..] == exts[1..] + [e];
      FindAppend(exts[1..], e, kind);
      assert Kinds(exts) == [exts[0].kind] + Kinds(exts[1..]);
    }
  }

  /** `meta` and `visible` are what the extensions read so far say. */
  ghost predicate Collected(meta: ClientHelloMetadata, visible: Option<bytes>, exts: seq<Extension>) {
    meta == Collect(meta.cipherSuites, exts) && visible == VisibleHost(exts)
  }

  /** The metadata before the loop. */
  function CollectNothing(ciphers: seq<u16>): (meta: ClientHelloMetadata)
    ensures Collected(meta, None, []) && meta.cipherSuites == ciphers
  {
    ClientHelloMetadata(None, false, None, None, None, false, false, false, None, None, None, None, [], ciphers)
  }

  /** What one new extension changes: its own field and the order, nothing else. */
  lemma CollectAppend(ciphers: seq<u16>, exts: seq<Extension>, e: Extension)
    requires e.kind !in Kinds(exts)
    ensures Find(exts, e.kind) == None && Find(exts + [e], e.kind) == Some(e.body)
    ensures forall kind | kind != e.kind :: Find(exts + [e], kind) == Find(exts, kind)
    ensures Kinds(exts + [e]) == Kinds(exts) + [e.kind]
  {
    FindAppend(exts, e, e.kind);
    forall kind | kind != e.kind ensures Find(exts + [e], kind) == Find(exts, kind) {
      FindAppend(exts, e, kind);
    }
  }

  /** The types with a typed body other than server_name. */
  predicate IsTyped(kind: u16) {
    || kind == EXT_ALPN || kind == EXT_SUPPORTED_VERSIONS || kind == EXT_KEY_SHARE || kind == EXT_RECORD_SIZE_LIMIT
    || kind == EXT_SIGNATURE_ALGORITHMS || kind == EXT_SUPPORTED_GROUPS || kind == EXT_EC_POINT_FORMATS
  }

  /** The fields that typed bodies fill in. */
  function UpdateTyped(meta: ClientHelloMetadata, e: Extension): ClientHelloMetadata {
    meta.(
      alpnProtocols := if e.kind == EXT_ALPN then Alpn(e.body) else meta.alpnProtocols,
      supportedVersions :=
        if e.kind == EXT_SUPPORTED_VERSIONS then SupportedVersions(e.body) else meta.supportedVersions,
      keyShareGroups := if e.kind == EXT_KEY_SHARE then KeyShare(e.body) else meta.keyShareGroups,
      recordSizeLimit := if e.kind == EXT_RECORD_SIZE_LIMIT then RecordSizeLimit(e.body) else meta.recordSizeLimit,
      signatureAlgorithms := if e.kind == EXT_SIGNATURE_ALGORITHMS then U16List(e.body) else meta.signatureAlgorithms,
      supportedGroups := if e.kind == EXT_SUPPORTED_GROUPS then U16List(e.body) else meta.supportedGroups,
      ecPointFormats := if e.kind == EXT_EC_POINT_FORMATS then EcPointFormats(e.body) else meta.ecPointFormats)
  }

  /** The metadata after one more extension. */
  function Update(meta: ClientHelloMetadata, e: Extension): ClientHelloMetadata {
    UpdateTyped(meta, e).(
      echPresent := meta.echPresent || e.kind == EXT_ENCRYPTED_CLIENT_HELLO,
      pskPresent := meta.pskPresent || e.kind == EXT_PRE_SHARED_KEY,
      earlyDataPresent := meta.earlyDataPresent || e.kind == EXT_EARLY_DATA,
      compressCertificatePresent := meta.compressCertificatePresent || e.kind == EXT_COMPRESS_CERTIFICATE,
      extensionOrder := meta.extensionOrder + [e.kind])
  }

  function UpdateHost(visible: Option<bytes>, e: Extension): Option<bytes> {
    if e.kind == EXT_SERVER_NAME then ServerHost(e.body) else visible
  }

  /** Updating as extensions arrive gives what looking every field up at the end gives. */
  lemma CollectUpdate(meta: ClientHelloMetadata, visible: Option<bytes>, exts: seq<Extension>, e: Extension)
    requires Collected(meta, visible, exts) && e.kind !in Kinds(exts)
    ensures e.kind == EXT_SERVER_NAME ==> visible.None?
    ensures Collected(Update(meta, e), UpdateHost(visible, e), exts + [e])
    ensures Update(meta, e).cipherSuites == meta.cipherSuites
  {
    CollectUpdateMeta(meta.cipherSuites, exts, e);
    CollectAppend(meta.cipherSuites, exts, e);
  }

  lemma CollectUpdateMeta(ciphers: seq<u16>, exts: seq<Extension>, e: Extension)
    requires e.kind !in Kinds(exts)
    ensures Collect(ciphers, exts + [e]) == Update(Collect(ciphers, exts), e)
  {
    hide Find, Kinds;
    CollectAppend(ciphers, exts, e);
  }

  lemma CollectedOrder(meta: ClientHelloMetadata, visible: Option<bytes>, exts: seq<Extension>)
    requires Collected(meta, visible, exts)
    ensures meta.extensionOrder == Kinds(exts)
    ensures Mask(meta, visible) == Describe(meta.cipherSuites, exts)
  {
  }

  /** The dispatch over the typed bodies. */
  method RecordTyped(meta: ClientHelloMetadata, e: Extension) returns (ok: bool, meta': ClientHelloMetadata)
    requires IsTyped(e.kind)
    ensures ok <==> BodyOk(e)
    ensures ok ==> meta' == UpdateTyped(meta, e)
  {
    hide Alpn, SupportedVersions, KeyShare, RecordSizeLimit, U16List, EcPointFormats, ServerName;
    if e.kind == EXT_ALPN {
      var r := ParseAlpnExtension(e.body);
      ok, meta' := r.Some?, meta.(alpnProtocols := r);
    } else if e.kind == EXT_SUPPORTED_VERSIONS {
      var r := ParseSupportedVersionsExtension(e.body);
      ok, meta' := r.Some?, meta.(supportedVersions := r);
    } else if e.kind == EXT_KEY_SHARE {
      var r := ParseKeyShareExtension(e.body);
      ok, meta' := r.Some?, meta.(keyShareGroups := r);
    } else if e.kind == EXT_RECORD_SIZE_LIMIT {
      var r := ParseRecordSizeLimitExtension(e.body);
      ok, meta' := r.Some?, meta.(recordSizeLimit := r);
    } else if e.kind == EXT_SIGNATURE_ALGORITHMS {
      var r := ParseU16PrefixedU16List(e.body);
      ok, meta' := r.Some?, meta.(signatureAlgorithms := r);
    } else if e.kind == EXT_SUPPORTED_GROUPS {
      var r := ParseU16PrefixedU16List(e.body);
      ok, meta' := r.Some?, meta.(supportedGroups := r);
    } else {
      var r := ParseEcPointFormatsExtension(e.body);
      ok, meta' := r.Some?, meta.(ecPointFormats := r);
    }
  }

  /** The dispatch on the extension type. */
  method RecordExtension(meta: ClientHelloMetadata, visible: Option<bytes>, e: Extension)
    returns (ok: bool, meta': ClientHelloMetadata, visible': Option<bytes>)
    requires e.kind == EXT_SERVER_NAME ==> visible.None?
    ensures ok <==> BodyOk(e)
    ensures ok ==> meta' == Update(meta, e) && visible' == UpdateHost(visible, e)
  {
    hide Alpn, SupportedVersions, KeyShare, RecordSizeLimit, U16List, EcPointFormats, ServerName;
    ok, meta', visible' := true, meta.(extensionOrder := meta.extensionOrder + [e.kind]), visible;
    if e.kind == EXT_PRE_SHARED_KEY {
      meta' := meta'.(pskPresent := true);
    } else if e.kind == EXT_ENCRYPTED_CLIENT_HELLO {
      meta' := meta'.(echPresent := true);
    } else if e.kind == EXT_SERVER_NAME {
      var outcome := ParseServerNameExtension(e.body);
      ok := !outcome.Malformed?;
      if outcome.Host? {
        visible' := Some(outcome.name);
      }
    } else if e.kind == EXT_EARLY_DATA {
      meta' := meta'.(earlyDataPresent := true);
    } else if e.kind == EXT_COMPRESS_CERTIFICATE {
      meta' := meta'.(compressCertificatePresent := true);
    } else if IsTyped(e.kind) {
      ok, meta' := RecordTyped(meta', e);
    }
  }

  // ── The extension loop ───────────────────────────────────────────────────

  /** The loop has read `exts`, all acceptable so far, and `rest` is still to come. */
  ghost predicate Walking(block: bytes, exts: seq<Extension>, rest: bytes) {
    && SplitBlock(block) == PrependExtensions(exts, SplitBlock(rest))
    && Acceptable(exts)
  }

  lemma WalkStart(block: bytes)
    ensures Walking(block, [], block)
  {
    if SplitBlock(block).Some? {
      assert [] + SplitBlock(block).value.value == SplitBlock(block).value.value;
    }
  }

  /** A new extension is acceptable behind the others exactly when none of them was
      pre_shared_key, its type is new and its body is readable. */
  lemma AcceptableAppend(exts: seq<Extension>, e: Extension)
    ensures Acceptable(exts + [e]) <==>
            && Acceptable(exts)
            && EXT_PRE_SHARED_KEY !in Kinds(exts)
            && e.kind !in Kinds(exts)
            && BodyOk(e)
  {
    var all := exts + [e];
    assert Kinds(all) == Kinds(exts) + [e.kind];
    assert all[..|exts|] == exts && all[|exts|] == e;
    if Acceptable(all) {
      assert forall x <- exts :: x in all;
      assert forall i | 0 <= i < |exts| :: Kinds(all)[i] == Kinds(exts)[i];
      assert forall i | 0 <= i < |exts| :: all[i] == exts[i];
    }
  }

  lemma AcceptableFront(front: seq<Extension>, back: seq<Extension>)
    requires Acceptable(front + back)
    ensures Acceptable(front)
  {
    var all := front + back;
    assert forall i | 0 <= i < |front| :: all[i] == front[i] && Kinds(all)[i] == Kinds(front)[i];
  }

  lemma WalkStep(block: bytes, exts: seq<Extension>, rest: bytes, e: Extension, rest': bytes)
    requires Walking(block, exts, rest) && |rest| >= 4 && TakeExtension(rest) == Some(Taken(e, rest'))
    ensures Acceptable(exts)
    ensures Acceptable(exts + [e]) ==> Walking(block, exts + [e], rest')
    ensures !Acceptable(exts + [e]) ==> AcceptedBlock(block).None?
  {
    if SplitBlock(rest').Some? {
      var later := SplitBlock(rest').value.value;
      Assoc(exts, [e], later);
      if Acceptable((exts + [e]) + later) {
        AcceptableFront(exts + [e], later);
      }
    }
  }

  lemma WalkEnd(block: bytes, exts: seq<Extension>, rest: bytes)
    requires Walking(block, exts, rest) && |rest| < 4
    ensures AcceptedBlock(block) == Some(Taken(exts, rest))
  {
    assert exts + [] == exts;
  }

  lemma WalkStuck(block: bytes, exts: seq<Extension>, rest: bytes)
    requires Walking(block, exts, rest) && |rest| >= 4 && TakeExtension(rest).None?
    ensures AcceptedBlock(block).None?
  {
  }

  /** One turn of the loop behind its read: refuse a repeated type, then dispatch. */
  method AbsorbExtension(meta: ClientHelloMetadata, visible: Option<bytes>, e: Extension, ghost exts: seq<Extension>)
    returns (ok: bool, meta': ClientHelloMetadata, visible': Option<bytes>)
    requires Collected(meta, visible, exts)
    ensures ok <==> e.kind !in Kinds(exts) && BodyOk(e)
    ensures ok ==> Collected(meta', visible', exts + [e]) && meta'.cipherSuites == meta.cipherSuites
  {
    hide Update, UpdateHost, BodyOk, Collected;
    CollectedOrder(meta, visible, exts);
    ok, meta', visible' := false, meta, visible;
    if e.kind !in meta.extensionOrder {
      CollectUpdate(meta, visible, exts, e);
      ok, meta', visible' := RecordExtension(meta, visible, e);
    }
  }

  lemma KindsAppend(exts: seq<Extension>, e: Extension)
    ensures Kinds(exts + [e]) == Kinds(exts) + [e.kind]
  {
  }

  method WalkExtensions(ciphers: seq<u16>, extensions: bytes) returns (r: Option<ClientHelloMetadata>)
    ensures r.None? <==> AcceptedBlock(extensions).None?
    ensures r.Some? ==> r.value == Describe(ciphers, AcceptedBlock(extensions).value.value)
  {
    hide BodyOk, Acceptable, Walking, Collected, Mask, Describe, AcceptedBlock, TakeExtension, Kinds;
    var meta := CollectNothing(ciphers);
    var sniHost: Option<bytes> := None;
    var pskSeen := false;
    var ext := new Cursor(extensions);
    ghost var exts: seq<Extension>, rest := [], extensions;
    WalkStart(extensions);
    while ext.Remaining() >= 4
      invariant ext.Valid() && ext.Rest() == rest
      invariant Walking(extensions, exts, rest)
      invariant Collected(meta, sniHost, exts) && meta.cipherSuites == ciphers
      invariant pskSeen <==> EXT_PRE_SHARED_KEY in Kinds(exts)
      decreases ext.Remaining()
    {
      var e := ReadExtension(ext);
      if e.None? {
        WalkStuck(extensions, exts, rest);
        return None;
      }
      WalkStep(extensions, exts, rest, e.value, ext.Rest());
      AcceptableAppend(exts, e.value);
      if pskSeen {
        return None;
      }
      var ok;
      ok, meta, sniHost := AbsorbExtension(meta, sniHost, e.value, exts);
      if !ok {
        return None;
      }
      KindsAppend(exts, e.value);
      pskSeen := e.value.kind == EXT_PRE_SHARED_KEY;
      exts, rest := exts + [e.value], ext.Rest();
    }
    WalkEnd(extensions, exts, rest);
    CollectedOrder(meta, sniHost, exts);
    return Some(Mask(meta, sniHost));
  }

  method ParseHandshakeMessageFull(handshake: bytes) returns (r: Option<ClientHelloMetadata>)
    ensures r == ParseHandshake(handshake)
  {
    var c := new Cursor(handshake);
    var ok := ReadHeader(c);
    if !ok {
      return None;
    }
    var ciphers := ReadParameters(c);
    if ciphers.None? {
      return None;
    }
    var extensions := c.ReadU16Prefixed();
    if extensions.None? {
      return None;
    }
    r := WalkExtensions(ciphers.value, extensions.value);
  }
}
