/** What does and does not depend on the order of extensions, and what every accepted
    block guarantees about the metadata. */
module ExtensionOrder {
  import opened Wire
  import opened Handshakes
  import opened HandshakeGrammar
  import opened ExtensionBodies
  import opened ServerNames

  // ── Counting kinds ───────────────────────────────────────────────────────

  lemma {:induction false} NoRepeatsIff<T>(xs: seq<T>)
    ensures NoRepeats(xs) <==> forall x | x in xs :: multiset(xs)[x] == 1
  {
    if xs != [] {
      var front, last := xs[..|xs| - 1], xs[|xs| - 1];
      assert xs == front + [last];
      NoRepeatsIff(front);
      if NoRepeats(xs) {
        assert NoRepeats(front);
        assert last !in front;
      }
      if forall x | x in xs :: multiset(xs)[x] == 1 {
        assert multiset(xs)[last] == multiset(front)[last] + 1;
        assert last !in front;
        forall x | x in front ensures multiset(front)[x] == 1 {
          assert x in xs && x != last;
        }
      }
    }
  }

  function Without<T>(xs: seq<T>, i: nat): (rest: seq<T>)
    requires i < |xs|
    ensures |rest| == |xs| - 1
  {
    xs[..i] + xs[i + 1..]
  }

  lemma RemoveAt<T>(xs: seq<T>, i: nat)
    requires i < |xs|
    ensures multiset(xs) == multiset(Without(xs, i)) + multiset{xs[i]}
  {
    assert xs == xs[..i] + ([xs[i]] + xs[i + 1..]);
  }

  lemma RemoveEqual<T>(a: seq<T>, i: nat, b: seq<T>, j: nat)
    requires i < |a| && j < |b| && a[i] == b[j] && multiset(a) == multiset(b)
    ensures multiset(Without(a, i)) == multiset(Without(b, j))
  {
    RemoveAt(a, i);
    RemoveAt(b, j);
    assert multiset(Without(a, i)) == multiset(a) - multiset{a[i]};
    assert multiset(Without(b, j)) == multiset(b) - multiset{b[j]};
  }

  lemma KindsWithout(exts: seq<Extension>, i: nat)
    requires i < |exts|
    ensures multiset(Kinds(exts)) == multiset(Kinds(Without(exts, i))) + multiset{exts[i].kind}
  {
    RemoveAt(Kinds(exts), i);
    assert Without(Kinds(exts), i) == Kinds(Without(exts, i));
  }

  lemma {:induction false} KindsPermuted(a: seq<Extension>, b: seq<Extension>)
    requires multiset(a) == multiset(b)
    ensures multiset(Kinds(a)) == multiset(Kinds(b))
    decreases |a|
  {
    hide Kinds, Without;
    if a == [] {
      assert |multiset(b)| == |b|;
    } else {
      assert a[0] in multiset(b);
      var i :| 0 <= i < |b| && b[i] == a[0];
      RemoveEqual(a, 0, b, i);
      KindsPermuted(Without(a, 0), Without(b, i));
      KindsWithout(a, 0);
      KindsWithout(b, i);
    }
  }

  // ── Looking a type up does not depend on the order ───────────────────────

  lemma {:induction false} FindIff(exts: seq<Extension>, kind: u16, body: bytes)
    requires NoRepeats(Kinds(exts))
    ensures Find(exts, kind) == Some(body) <==> Extension(kind, body) in exts
  {
    if exts != [] {
      assert Kinds(exts) == [exts[0].kind] + Kinds(exts[1..]);
      assert forall i | 0 <= i < |exts| - 1 :: Kinds(exts)[i + 1] == Kinds(exts[1..])[i];
      FindIff(exts[1..], kind, body);
      assert exts == [exts[0]] + exts[1..];
    }
  }

  lemma FindPermuted(a: seq<Extension>, b: seq<Extension>, kind: u16)
    requires NoRepeats(Kinds(a)) && NoRepeats(Kinds(b)) && multiset(a) == multiset(b)
    ensures Find(a, kind) == Find(b, kind)
  {
    assert forall e :: e in a <==> e in multiset(a);
    assert forall e :: e in b <==> e in multiset(b);
    if Find(a, kind).Some? {
      FindIff(a, kind, Find(a, kind).value);
      FindIff(b, kind, Find(a, kind).value);
    } else if Find(b, kind).Some? {
      FindIff(b, kind, Find(b, kind).value);
      FindIff(a, kind, Find(b, kind).value);
    }
  }

  predicate PskLastOrAbsent(exts: seq<Extension>) {
    forall i | 0 <= i < |exts| - 1 :: exts[i].kind != EXT_PRE_SHARED_KEY
  }

  lemma AcceptablePermuted(a: seq<Extension>, b: seq<Extension>)
    requires multiset(a) == multiset(b) && PskLastOrAbsent(b)
    requires Acceptable(a)
    ensures Acceptable(b)
  {
    KindsPermuted(a, b);
    NoRepeatsIff(Kinds(a));
    NoRepeatsIff(Kinds(b));
    assert forall k :: k in Kinds(a) <==> k in multiset(Kinds(a));
    assert forall k :: k in Kinds(b) <==> k in multiset(Kinds(b));
    assert forall e :: e in a <==> e in multiset(a);
    assert forall e :: e in b <==> e in multiset(b);
  }

  lemma DescribePermuted(ciphers: seq<u16>, a: seq<Extension>, b: seq<Extension>)
    requires multiset(a) == multiset(b) && Acceptable(a) && Acceptable(b)
    ensures Describe(ciphers, a) == Describe(ciphers, b).(extensionOrder := Kinds(a))
    ensures multiset(Kinds(a)) == multiset(Kinds(b))
  {
    KindsPermuted(a, b);
    forall kind ensures Find(a, kind) == Find(b, kind) {
      FindPermuted(a, b, kind);
    }
  }

  /** Order independence: two ClientHellos with the same cipher suites and the same
      extensions in any two orders, pre_shared_key last or absent in both, are both
      accepted or both refused, and if accepted agree on every field except the order,
      which is permuted with the extensions. */
  lemma OrderIndependence(h: Hello, h': Hello)
    requires Printable(h) && Printable(h')
    requires h.parameters.ciphers == h'.parameters.ciphers
    requires multiset(h.extensions) == multiset(h'.extensions)
    requires PskLastOrAbsent(h.extensions) && PskLastOrAbsent(h'.extensions)
    ensures var m, m' := ParseHandshake(PutHello(h)), ParseHandshake(PutHello(h'));
            && (m.Some? <==> m'.Some?)
            && (m.Some? ==>
                  && m.value == m'.value.(extensionOrder := m.value.extensionOrder)
                  && multiset(m.value.extensionOrder) == multiset(m'.value.extensionOrder))
  {
    hide PutHello, Acceptable, Describe;
    ReadOfPut(h);
    ReadOfPut(h');
    if Acceptable(h.extensions) {
      AcceptablePermuted(h.extensions, h'.extensions);
      DescribePermuted(h.parameters.ciphers, h.extensions, h'.extensions);
      DescribedOrder(h.parameters.ciphers, h.extensions);
      DescribedOrder(h.parameters.ciphers, h'.extensions);
    } else if Acceptable(h'.extensions) {
      AcceptablePermuted(h'.extensions, h.extensions);
    }
  }

  lemma DescribedOrder(ciphers: seq<u16>, exts: seq<Extension>)
    ensures Describe(ciphers, exts).extensionOrder == Kinds(exts)
    ensures Describe(ciphers, exts).cipherSuites == ciphers
  {
  }

  // ── The decoy is invisible ───────────────────────────────────────────────

  function WithBody(exts: seq<Extension>, i: nat, body: bytes): (changed: seq<Extension>)
    requires i < |exts|
    ensures Kinds(changed) == Kinds(exts)
  {
    exts[i := Extension(exts[i].kind, body)]
  }

  lemma {:induction false} FindElsewhere(exts: seq<Extension>, i: nat, body: bytes, kind: u16)
    requires i < |exts| && exts[i].kind != kind
    ensures Find(WithBody(exts, i, body), kind) == Find(exts, kind)
  {
    if i > 0 {
      FindElsewhere(exts[1..], i - 1, body, kind);
      assert WithBody(exts, i, body)[1..] == WithBody(exts[1..], i - 1, body);
    } else {
      assert WithBody(exts, i, body)[1..] == exts[1..];
    }
  }

  lemma WithBodyAcceptable(exts: seq<Extension>, i: nat, body: bytes)
    requires i < |exts| && BodyOk(exts[i]) && BodyOk(Extension(exts[i].kind, body))
    ensures Acceptable(exts) <==> Acceptable(WithBody(exts, i, body))
  {
    hide BodyOk;
    var changed := WithBody(exts, i, body);
    assert forall j | 0 <= j < |exts| :: exts[j].kind == changed[j].kind;
    assert forall j | 0 <= j < |exts| && j != i :: exts[j] == changed[j];
    if forall e <- exts :: BodyOk(e) {
      assert forall e <- changed :: e == changed[i] || e in exts;
    }
    if forall e <- changed :: BodyOk(e) {
      assert forall e <- exts :: e == exts[i] || e in changed;
    }
  }

  /** In a ClientHello with a 0xfe0d extension, putting any other well-formed body into the
      visible server_name changes nothing at all in the result. */
  lemma DecoyIsInvisible(h: Hello, i: nat, body: bytes)
    requires i < |h.extensions| && h.extensions[i].kind == EXT_SERVER_NAME
    requires EXT_ENCRYPTED_CLIENT_HELLO in Kinds(h.extensions)
    requires !ServerName(h.extensions[i].body).Malformed? && !ServerName(body).Malformed?
    requires Printable(h) && Printable(h.(extensions := WithBody(h.extensions, i, body)))
    ensures ParseHandshake(PutHello(h))
         == ParseHandshake(PutHello(h.(extensions := WithBody(h.extensions, i, body))))
  {
    hide PutHello, ReadHello, Describe, Acceptable, WithBody, ServerName, Find, Printable, Kinds;
    var h' := h.(extensions := WithBody(h.extensions, i, body));
    ReadOfPut(h);
    ReadOfPut(h');
    WithBodyAcceptable(h.extensions, i, body);
    DecoyIsMasked(h.parameters.ciphers, h.extensions, i, body);
  }

  lemma DecoyIsMasked(ciphers: seq<u16>, exts: seq<Extension>, i: nat, body: bytes)
    requires i < |exts| && exts[i].kind == EXT_SERVER_NAME
    requires EXT_ENCRYPTED_CLIENT_HELLO in Kinds(exts)
    ensures Describe(ciphers, exts) == Describe(ciphers, WithBody(exts, i, body))
  {
    hide Find, WithBody, Kinds;
    FindSome(exts, EXT_ENCRYPTED_CLIENT_HELLO);
    forall kind | kind != EXT_SERVER_NAME ensures Find(WithBody(exts, i, body), kind) == Find(exts, kind) {
      FindElsewhere(exts, i, body, kind);
    }
  }

  // ── What every accepted handshake guarantees ─────────────────────────────

  lemma {:induction false} FindSome(exts: seq<Extension>, kind: u16)
    ensures Find(exts, kind).Some? <==> kind in Kinds(exts)
    ensures Find(exts, kind).Some? ==> Extension(kind, Find(exts, kind).value) in exts
  {
    if exts != [] {
      FindSome(exts[1..], kind);
      assert Kinds(exts) == [exts[0].kind] + Kinds(exts[1..]);
    }
  }

  lemma {:induction false} FourBytesEach(exts: seq<Extension>)
    requires ValidBodies(exts)
    ensures |PutExtensions(exts)| >= 4 * |exts|
  {
    if exts != [] {
      FourBytesEach(exts[1..]);
    }
  }

  /** Every optional field and flag is set exactly when its type is on the wire. */
  ghost predicate FieldsMatchOrder(m: ClientHelloMetadata) {
    && (m.echPresent <==> EXT_ENCRYPTED_CLIENT_HELLO in m.extensionOrder)
    && (m.pskPresent <==> EXT_PRE_SHARED_KEY in m.extensionOrder)
    && (m.earlyDataPresent <==> EXT_EARLY_DATA in m.extensionOrder)
    && (m.compressCertificatePresent <==> EXT_COMPRESS_CERTIFICATE in m.extensionOrder)
    && (m.alpnProtocols.Some? <==> EXT_ALPN in m.extensionOrder)
    && (m.supportedVersions.Some? <==> EXT_SUPPORTED_VERSIONS in m.extensionOrder)
    && (m.keyShareGroups.Some? <==> EXT_KEY_SHARE in m.extensionOrder)
    && (m.recordSizeLimit.Some? <==> EXT_RECORD_SIZE_LIMIT in m.extensionOrder)
    && (m.signatureAlgorithms.Some? <==> EXT_SIGNATURE_ALGORITHMS in m.extensionOrder)
    && (m.supportedGroups.Some? <==> EXT_SUPPORTED_GROUPS in m.extensionOrder)
    && (m.ecPointFormats.Some? <==> EXT_EC_POINT_FORMATS in m.extensionOrder)
    && (m.host.Some? ==> EXT_SERVER_NAME in m.extensionOrder && EXT_ENCRYPTED_CLIENT_HELLO !in m.extensionOrder)
  }

  lemma DescribedFields(ciphers: seq<u16>, exts: seq<Extension>)
    requires Acceptable(exts)
    ensures FieldsMatchOrder(Describe(ciphers, exts))
  {
    hide Find, Kinds, Alpn, SupportedVersions, KeyShare, RecordSizeLimit, U16List, EcPointFormats, ServerName;
    forall kind
      ensures Find(exts, kind).Some? <==> kind in Kinds(exts)
      ensures Find(exts, kind).Some? ==> BodyOk(Extension(kind, Find(exts, kind).value))
    {
      FindSome(exts, kind);
    }
  }

  /** The field is absent exactly when the type is, and otherwise is the parsed body of the
      extension of that type. */
  ghost predicate Says<T>(field: Option<T>, exts: seq<Extension>, kind: u16, parse: bytes -> Option<T>) {
    && (kind !in Kinds(exts) ==> field.None?)
    && (forall e <- exts :: e.kind == kind ==> field == parse(e.body))
  }

  lemma FindSays<T>(exts: seq<Extension>, kind: u16, parse: bytes -> Option<T>)
    requires NoRepeats(Kinds(exts))
    ensures Says(Read(Find(exts, kind), parse), exts, kind, parse)
  {
    FindSome(exts, kind);
    forall e | e in exts && e.kind == kind ensures Find(exts, kind) == Some(e.body) {
      FindIff(exts, kind, e.body);
    }
  }

  /** Each field of the metadata says what the one extension of its type says. */
  lemma DescribedContents(ciphers: seq<u16>, exts: seq<Extension>)
    requires Acceptable(exts)
    ensures var m := Describe(ciphers, exts);
            && m.cipherSuites == ciphers && m.extensionOrder == Kinds(exts)
            && Says(m.alpnProtocols, exts, EXT_ALPN, Alpn)
            && Says(m.supportedVersions, exts, EXT_SUPPORTED_VERSIONS, SupportedVersions)
            && Says(m.keyShareGroups, exts, EXT_KEY_SHARE, KeyShare)
            && Says(m.recordSizeLimit, exts, EXT_RECORD_SIZE_LIMIT, RecordSizeLimit)
            && Says(m.signatureAlgorithms, exts, EXT_SIGNATURE_ALGORITHMS, U16List)
            && Says(m.supportedGroups, exts, EXT_SUPPORTED_GROUPS, U16List)
            && Says(m.ecPointFormats, exts, EXT_EC_POINT_FORMATS, EcPointFormats)
            && (EXT_ENCRYPTED_CLIENT_HELLO !in Kinds(exts) ==> Says(m.host, exts, EXT_SERVER_NAME, ServerHost))
            && (EXT_ENCRYPTED_CLIENT_HELLO in Kinds(exts) ==> m.host.None?)
  {
    hide Says, Find, Kinds, BodyOk;
    FindSays(exts, EXT_ALPN, Alpn);
    FindSays(exts, EXT_SUPPORTED_VERSIONS, SupportedVersions);
    FindSays(exts, EXT_KEY_SHARE, KeyShare);
    FindSays(exts, EXT_RECORD_SIZE_LIMIT, RecordSizeLimit);
    FindSays(exts, EXT_SIGNATURE_ALGORITHMS, U16List);
    FindSays(exts, EXT_SUPPORTED_GROUPS, U16List);
    FindSays(exts, EXT_EC_POINT_FORMATS, EcPointFormats);
    FindSays(exts, EXT_SERVER_NAME, ServerHost);
    FindSome(exts, EXT_ENCRYPTED_CLIENT_HELLO);
  }

  /** Every accepted handshake: at most 16383 extension types, none twice, pre_shared_key
      only at the end, every field present exactly when its type is. */
  lemma AcceptedFacts(s: bytes)
    requires ParseHandshake(s).Some?
    ensures var m := ParseHandshake(s).value;
            && NoRepeats(m.extensionOrder)
            && |m.extensionOrder| <= 16383
            && (forall i | 0 <= i < |m.extensionOrder| - 1 :: m.extensionOrder[i] != EXT_PRE_SHARED_KEY)
            && 1 <= |m.cipherSuites| < 0x8000
            && FieldsMatchOrder(m)
  {
    hide FieldsMatchOrder, Describe, PutHello, TakeHeader, TakeParameters, SplitBlock;
    PutOfRead(s);
    var h := ReadHello(s).value;
    DescribedOrder(h.parameters.ciphers, h.extensions);
    DescribedFields(h.parameters.ciphers, h.extensions);
    FourBytesEach(h.extensions);
  }
}
