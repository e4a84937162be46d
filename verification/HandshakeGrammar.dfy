/** The walker against the grammar it reads: a printer for ClientHellos, and the proof
    that the walker accepts exactly what the printer makes and reports what is in it. */
module HandshakeGrammar {
  import opened Wire
  import opened Handshakes

  // ── Printers ─────────────────────────────────────────────────────────────

  predicate ValidHeader(h: Header) { |h.random| == 32 }

  predicate ValidParameters(p: Parameters) {
    && |p.sessionId| <= 32
    && 1 <= |p.ciphers| < 0x8000
    && |p.compression| < 0x100 && 0 in p.compression
  }

  predicate ValidBodies(exts: seq<Extension>) {
    forall e <- exts :: |e.body| < 0x1_0000
  }

  function PutHeader(h: Header): bytes {
    [HANDSHAKE_TYPE_CLIENT_HELLO] + (PutU24(h.length) + (PutU16(TLS_LEGACY_VERSION) + h.random))
  }

  function PutParameters(p: Parameters): bytes
    requires ValidParameters(p)
  {
    P8(p.sessionId) + (P16(PutU16s(p.ciphers)) + P8(p.compression))
  }

  function PutExtension(e: Extension): (s: bytes)
    requires |e.body| < 0x1_0000
    ensures |s| == 4 + |e.body|
  {
    PutU16(e.kind) + P16(e.body)
  }

  function PutExtensions(exts: seq<Extension>): bytes
    requires ValidBodies(exts)
  {
    if exts == [] then [] else PutExtension(exts[0]) + PutExtensions(exts[1..])
  }

  /** A ClientHello whose fields have the right sizes, with at most three bytes left over
      in the extension block and anything behind it. */
  predicate Printable(h: Hello) {
    && ValidHeader(h.header)
    && ValidParameters(h.parameters)
    && ValidBodies(h.extensions)
    && |h.leftover| < 4
    && |PutExtensions(h.extensions)| + |h.leftover| < 0x1_0000
  }

  ghost predicate ValidHello(h: Hello) { Printable(h) && Acceptable(h.extensions) }

  function PutHello(h: Hello): bytes
    requires Printable(h)
  {
    PutHeader(h.header) + (PutParameters(h.parameters) + (P16(PutExtensions(h.extensions) + h.leftover) + h.trailing))
  }

  // ── Each part is read exactly where it is printed ────────────────────────

  lemma TakeHeaderOf(s: bytes, h: Header, rest: bytes)
    requires ValidHeader(h) && s == PutHeader(h) + rest
    ensures TakeHeader(s) == Some(Taken(h, rest))
  {
    var s3 := h.random + rest;
    var s2 := PutU16(TLS_LEGACY_VERSION) + s3;
    var s1 := PutU24(h.length) + s2;
    assert s == [HANDSHAKE_TYPE_CLIENT_HELLO] + s1;
    assert s[1..] == s1;
    TakeU24Iff(s1, h.length, s2);
    TakeU16Iff(s2, TLS_LEGACY_VERSION, s3);
    TakeIff(s3, h.random, rest);
  }

  lemma HeaderOfTaken(s: bytes, h: Header, rest: bytes)
    requires TakeHeader(s) == Some(Taken(h, rest))
    ensures ValidHeader(h) && s == PutHeader(h) + rest
  {
    var s1 := s[1..];
    var length := TakeU24(s1).value;
    var version := TakeU16(length.rest).value;
    TakeU24Iff(s1, length.value, length.rest);
    TakeU16Iff(length.rest, version.value, version.rest);
    TakeIff(version.rest, h.random, rest);
    assert s == [s[0]] + s1;
  }

  lemma TakeParametersOf(s: bytes, p: Parameters, rest: bytes)
    requires ValidParameters(p) && s == PutParameters(p) + rest
    ensures TakeParameters(s) == Some(Taken(p, rest))
  {
    hide TakeP8, TakeP16, P8, P16, PutU16s;
    var s2 := P8(p.compression) + rest;
    var s1 := P16(PutU16s(p.ciphers)) + s2;
    assert s == P8(p.sessionId) + s1;
    TakeP8Iff(s, p.sessionId, s1);
    TakeP16Iff(s1, PutU16s(p.ciphers), s2);
    U16sOfPutU16s(p.ciphers);
    TakeP8Iff(s2, p.compression, rest);
  }

  lemma ParametersOfTaken(s: bytes, p: Parameters, rest: bytes)
    requires TakeParameters(s) == Some(Taken(p, rest))
    ensures ValidParameters(p) && s == PutParameters(p) + rest
  {
    hide TakeP8, TakeP16, P8, P16, PutU16s;
    var sessionId := TakeP8(s).value;
    var suites := TakeP16(sessionId.rest).value;
    TakeP8Iff(s, sessionId.value, sessionId.rest);
    TakeP16Iff(sessionId.rest, suites.value, suites.rest);
    PutU16sOfU16s(suites.value);
    TakeP8Iff(suites.rest, p.compression, rest);
    assert s == PutParameters(p) + rest;
  }

  lemma TakeExtensionIff(s: bytes, e: Extension, rest: bytes)
    ensures TakeExtension(s) == Some(Taken(e, rest)) <==> |e.body| < 0x1_0000 && s == PutExtension(e) + rest
  {
    if TakeExtension(s) == Some(Taken(e, rest)) {
      var kind := TakeU16(s).value;
      TakeU16Iff(s, e.kind, kind.rest);
      TakeP16Iff(kind.rest, e.body, rest);
      Assoc(PutU16(e.kind), P16(e.body), rest);
    }
    if |e.body| < 0x1_0000 && s == PutExtension(e) + rest {
      Assoc(PutU16(e.kind), P16(e.body), rest);
      TakeU16Iff(s, e.kind, P16(e.body) + rest);
      TakeP16Iff(P16(e.body) + rest, e.body, rest);
    }
  }

  lemma {:induction false} SplitBlockOf(exts: seq<Extension>, leftover: bytes)
    requires ValidBodies(exts) && |leftover| < 4
    ensures SplitBlock(PutExtensions(exts) + leftover) == Some(Taken(exts, leftover))
  {
    hide TakeExtension, PutExtension;
    var s := PutExtensions(exts) + leftover;
    if exts == [] {
      assert s == leftover;
    } else {
      var later := PutExtensions(exts[1..]) + leftover;
      Assoc(PutExtension(exts[0]), PutExtensions(exts[1..]), leftover);
      TakeExtensionIff(s, exts[0], later);
      SplitBlockOf(exts[1..], leftover);
      assert exts == [exts[0]] + exts[1..];
    }
  }

  lemma {:induction false} BlockOfSplit(s: bytes)
    requires SplitBlock(s).Some?
    ensures var block := SplitBlock(s).value;
            && ValidBodies(block.value) && |block.rest| < 4
            && s == PutExtensions(block.value) + block.rest
    decreases |s|
  {
    hide TakeExtension, PutExtension;
    if |s| < 4 {
      assert [] + s == s;
    } else {
      var e := TakeExtension(s).value;
      BlockOfSplit(e.rest);
      TakeExtensionIff(s, e.value, e.rest);
      var later := SplitBlock(e.rest).value;
      assert SplitBlock(s).value.value[1..] == later.value;
      Assoc(PutExtension(e.value), PutExtensions(later.value), later.rest);
    }
  }

  // ── The whole message ────────────────────────────────────────────────────

  /** Reading undoes printing: a printed ClientHello comes back field by field, unless its
      extensions break a rule. */
  lemma ReadOfPut(h: Hello)
    requires Printable(h)
    ensures ReadHello(PutHello(h)) == if Acceptable(h.extensions) then Some(h) else None
  {
    hide TakeHeader, TakeParameters, TakeP16, SplitBlock, PutHeader, PutParameters, P16, PutExtensions, Acceptable;
    var block := PutExtensions(h.extensions) + h.leftover;
    var s3 := P16(block) + h.trailing;
    var s2 := PutParameters(h.parameters) + s3;
    TakeHeaderOf(PutHello(h), h.header, s2);
    TakeParametersOf(s2, h.parameters, s3);
    TakeP16Iff(s3, block, h.trailing);
    SplitBlockOf(h.extensions, h.leftover);
  }

  /** Printing undoes reading: what is accepted is the printed form of what was read. */
  lemma PutOfRead(s: bytes)
    requires ReadHello(s).Some?
    ensures ValidHello(ReadHello(s).value) && PutHello(ReadHello(s).value) == s
  {
    hide TakeHeader, TakeParameters, TakeP16, SplitBlock, PutHeader, PutParameters, P16, PutExtensions, Acceptable;
    var header := TakeHeader(s).value;
    var parameters := TakeParameters(header.rest).value;
    var extensions := TakeP16(parameters.rest).value;
    HeaderOfTaken(s, header.value, header.rest);
    ParametersOfTaken(header.rest, parameters.value, parameters.rest);
    TakeP16Iff(parameters.rest, extensions.value, extensions.rest);
    BlockOfSplit(extensions.value);
  }

  /** The walker is exact: it returns `m` precisely on the printed forms of valid
      ClientHellos whose contents `m` describes. */
  lemma WalkerIff(s: bytes, m: ClientHelloMetadata)
    ensures ParseHandshake(s) == Some(m) <==>
            exists h :: ValidHello(h) && s == PutHello(h) && m == Describe(h.parameters.ciphers, h.extensions)
  {
    hide PutHello, ReadHello, Describe, Acceptable, Printable;
    if ParseHandshake(s) == Some(m) {
      PutOfRead(s);
    }
    if h :| ValidHello(h) && s == PutHello(h) && m == Describe(h.parameters.ciphers, h.extensions) {
      ReadOfPut(h);
    }
  }

  /** The announced length, the random, the session id, the compression methods, leftover
      bytes in the block and bytes behind it have no influence on the metadata. */
  lemma IgnoredFields(h: Hello, h': Hello)
    requires Printable(h) && Printable(h')
    requires h.parameters.ciphers == h'.parameters.ciphers && h.extensions == h'.extensions
    ensures ParseHandshake(PutHello(h)) == ParseHandshake(PutHello(h'))
  {
    hide PutHello, ReadHello, Describe, Acceptable;
    ReadOfPut(h);
    ReadOfPut(h');
  }
}
