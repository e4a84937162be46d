/** The daemon's fork decision over raw bytes. */
module Daemon {
  import opened Wire
  import opened Records
  import opened Reassembly
  import opened ServerNames
  import opened Handshakes
  import opened HandshakeGrammar
  import opened HelloMeaning
  import opened ClientHellos
  import opened Risk
  import opened Typosquats

  const ALLOW_CACHE: seq<string> := ["github.com", "www.example.com"]

  const SAMPLE_BRANDS: seq<string> :=
    ["microsoft.com", "paypal.com", "google.com", "apple.com", "amazon.com", "github.com"]

  const DEFAULT_MAX_DISTANCE := 2

  // ── Launch context ───────────────────────────────────────────────────────

  const EMAIL_CLIENTS: seq<string> := ["outlook", "thunderbird", "apple mail", "mailmate", "spark"]
  const DOCUMENT_READERS: seq<string> := ["acrobat", "acrord32", "preview", "winword", "powerpnt"]

  function LowerAll(s: string): (t: string)
    ensures |t| == |s|
  {
    seq(|s|, i requires 0 <= i < |s| => Lower(s[i]))
  }

  predicate StartsAt(s: string, part: string, i: nat) {
    i + |part| <= |s| && s[i..i + |part|] == part
  }

  predicate Contains(s: string, part: string) {
    exists i | 0 <= i <= |s| :: StartsAt(s, part, i)
  }

  /** A parent process whose links are high-risk: an email client or a document reader. */
  predicate IsElevated(parentProcess: string) {
    exists name <- EMAIL_CLIENTS + DOCUMENT_READERS :: Contains(LowerAll(parentProcess), name)
  }

  ghost predicate NamedAt(parentProcess: string, name: string, i: nat) {
    i + |name| <= |parentProcess| && SameInAnyCase(parentProcess[i..i + |name|], name)
  }

  /** Somewhere in the parent's name stands the name of an email client or a document
      reader, in any case. */
  ghost predicate IsRisky(parentProcess: string) {
    exists name <- EMAIL_CLIENTS + DOCUMENT_READERS, i: nat :: NamedAt(parentProcess, name, i)
  }

  predicate NoCapitals(s: string) { forall c <- s :: !('A' <= c <= 'Z') }

  lemma TablesHaveNoCapitals()
    ensures forall name <- EMAIL_CLIENTS + DOCUMENT_READERS :: NoCapitals(name)
  {
    TableHasNoCapitals(EMAIL_CLIENTS);
    TableHasNoCapitals(DOCUMENT_READERS);
  }

  lemma TableHasNoCapitals(names: seq<string>)
    requires names == EMAIL_CLIENTS || names == DOCUMENT_READERS
    ensures forall name <- names :: NoCapitals(name)
  {
  }

  lemma StartsAtIff(parentProcess: string, name: string, i: nat)
    requires NoCapitals(name)
    ensures StartsAt(LowerAll(parentProcess), name, i) <==> NamedAt(parentProcess, name, i)
  {
    var lower := LowerAll(parentProcess);
    if i + |name| <= |parentProcess| {
      var part := parentProcess[i..i + |name|];
      forall k | 0 <= k < |name|
        ensures lower[i + k] == name[k] <==>
                  part[k] == name[k] || IsCapitalOf(part[k], name[k]) || IsCapitalOf(name[k], part[k])
      {
        assert part[k] == parentProcess[i + k] && name[k] in name;
      }
      assert lower[i..i + |name|] == name <==> forall k | 0 <= k < |name| :: lower[i + k] == name[k];
    }
  }

  lemma ElevatedIff(parentProcess: string)
    ensures IsElevated(parentProcess) <==> IsRisky(parentProcess)
  {
    hide StartsAt, NamedAt, LowerAll, NoCapitals;
    TablesHaveNoCapitals();
    forall name, i: nat | name in EMAIL_CLIENTS + DOCUMENT_READERS
      ensures StartsAt(LowerAll(parentProcess), name, i) <==> NamedAt(parentProcess, name, i)
    {
      StartsAtIff(parentProcess, name, i);
    }
    if name, i: nat :| name in EMAIL_CLIENTS + DOCUMENT_READERS && NamedAt(parentProcess, name, i) {
      NamedInside(parentProcess, name, i);
      assert Contains(LowerAll(parentProcess), name);
    }
  }

  lemma NamedInside(parentProcess: string, name: string, i: nat)
    requires NamedAt(parentProcess, name, i)
    ensures i <= |LowerAll(parentProcess)|
  {
  }

  /** The launch context does not see the case of the parent's name. */
  lemma ElevatedIgnoresCase(parentProcess: string, parentProcess': string)
    requires SameInAnyCase(parentProcess, parentProcess')
    ensures IsElevated(parentProcess) <==> IsElevated(parentProcess')
  {
    hide IsElevated;
    SameInAnyCaseIff(parentProcess, parentProcess');
    assert LowerAll(parentProcess) == LowerAll(parentProcess');
    ElevatedByLower(parentProcess, parentProcess');
  }

  lemma ElevatedByLower(parentProcess: string, parentProcess': string)
    requires LowerAll(parentProcess) == LowerAll(parentProcess')
    ensures IsElevated(parentProcess) <==> IsElevated(parentProcess')
  {
    hide LowerAll, Contains;
  }

  function AssessContext(parentProcess: string, inSafeCache: bool): Option<RiskSignal> {
    if !inSafeCache && IsElevated(parentProcess) then Some(RiskyLaunchContext(parentProcess)) else None
  }

  // ── The fork decision ────────────────────────────────────────────────────

  predicate HostInCache(host: bytes) {
    exists cached <- ALLOW_CACHE :: EqIgnoreAsciiCase(cached, AsText(host))
  }

  /** The host is an entry of the cache, in any case. */
  ghost predicate IsCached(host: bytes) {
    exists cached <- ALLOW_CACHE :: SameInAnyCase(cached, AsText(host))
  }

  lemma CachedIff(host: bytes)
    ensures HostInCache(host) <==> IsCached(host)
  {
    hide EqIgnoreAsciiCase, SameInAnyCase;
    forall cached ensures EqIgnoreAsciiCase(cached, AsText(host)) <==> SameInAnyCase(cached, AsText(host)) {
      SameInAnyCaseIff(cached, AsText(host));
    }
  }

  function IntoSignals(outcome: SniOutcome): seq<RiskSignal> {
    match outcome
    case Cleartext(_) => []
    case Encrypted => [EncryptedClientHello]
    case NotFound => [NoServerName]
    case MalformedHello => [MalformedClientHello]
  }

  /** The level in words: a cached host is Safe; otherwise the launch context dominates,
      then a brand lookalike, and everything else is Unknown. */
  function Level(outcome: SniOutcome, parentProcess: string): RiskLevel {
    if outcome.Cleartext? && HostInCache(outcome.host) then Safe
    else if IsElevated(parentProcess) then HighRisk
    else if outcome.Cleartext? && Squat(AsText(outcome.host), SAMPLE_BRANDS, DEFAULT_MAX_DISTANCE).Some? then Suspicious
    else Unknown
  }

  function Evidence(signal: Option<RiskSignal>): seq<RiskSignal> {
    if signal.Some? then [signal.value] else []
  }

  /** The evidence behind a verdict, in the order it is gathered. */
  function Signals(outcome: SniOutcome, parentProcess: string): seq<RiskSignal> {
    if outcome.Cleartext? && HostInCache(outcome.host) then []
    else
      (if outcome.Cleartext?
       then [NotInSafeCache] + Evidence(Squat(AsText(outcome.host), SAMPLE_BRANDS, DEFAULT_MAX_DISTANCE))
       else IntoSignals(outcome))
      + Evidence(AssessContext(parentProcess, false))
  }

  method Assess(clientHello: bytes, parentProcess: string) returns (outcome: SniOutcome, verdict: Verdict)
    ensures outcome == Outcome(ClientHello(clientHello))
    ensures verdict.level == Level(outcome, parentProcess)
    ensures verdict.signals == Signals(outcome, parentProcess)
    ensures verdict.AllowsNativePath() <==> outcome.Cleartext? && IsCached(outcome.host)
  {
    hide IsCached;
    hide HostInCache, IsElevated, Squat, Outcome, ClientHello;
    outcome := ExtractSni(clientHello);
    if outcome.Cleartext? {
      CachedIff(outcome.host);
    }
    var signals: seq<RiskSignal>;
    if outcome.Cleartext? {
      if HostInCache(outcome.host) {
        return outcome, SAFE_VERDICT;
      }
      signals := [NotInSafeCache];
      var squat := CheckTyposquat(AsText(outcome.host), SAMPLE_BRANDS, DEFAULT_MAX_DISTANCE);
      SquatIsTyposquat(AsText(outcome.host));
      if squat.Some? {
        signals := signals + [squat.value];
        assert squat.value in signals;
      }
    } else {
      signals := IntoSignals(outcome);
    }
    var context := AssessContext(parentProcess, false);
    if context.Some? {
      signals := signals + [context.value];
      assert context.value in signals;
    }
    EvaluateIff(signals, Level(outcome, parentProcess));
    verdict := Evaluate(signals);
  }

  lemma SquatIsTyposquat(domain: string)
    ensures Squat(domain, SAMPLE_BRANDS, DEFAULT_MAX_DISTANCE).Some? ==>
              Squat(domain, SAMPLE_BRANDS, DEFAULT_MAX_DISTANCE).value.Typosquat?
  {
  }

  // ── From raw bytes ───────────────────────────────────────────────────────

  /** The stream starts with records delivering the ClientHello `h`, whose extensions follow
      the rules, hide nothing and publish `host`. */
  ghost predicate Presents(stream: bytes, rs: seq<Record>, h: Hello, host: bytes) {
    && Printable(h) && FollowsRules(h.extensions)
    && Delivers(stream, PutHello(h), rs)
    && !HasKind(h.extensions, 0xfe0d)
    && HasHost(h.extensions, host)
  }

  ghost predicate Shows(stream: bytes, host: bytes) {
    exists rs, h :: Presents(stream, rs, h, host)
  }

  lemma ShowsIff(stream: bytes, host: bytes)
    ensures Outcome(ClientHello(stream)) == Cleartext(host) <==> Shows(stream, host)
  {
    hide HasHost, HasKind, PutHello, Delivers, ParseHandshake, Reassemble, FollowsRules, Printable;
    if Outcome(ClientHello(stream)) == Cleartext(host) {
      var rs, h := StreamIsPresented(stream);
      CleartextIff(h, host);
      assert Presents(stream, rs, h, host);
    }
    if rs, h :| Presents(stream, rs, h, host) {
      ReassembleExactly(stream, PutHello(h));
      CleartextIff(h, host);
    }
  }

  lemma StreamIsPresented(stream: bytes) returns (rs: seq<Record>, h: Hello)
    requires ClientHello(stream).Some?
    ensures Printable(h) && Delivers(stream, PutHello(h), rs)
    ensures ClientHello(stream) == ParseHandshake(PutHello(h))
  {
    hide Delivers, Reassemble, ReadHello, PutHello, ValidHello;
    var handshake := Reassemble(stream).value;
    ReassembleExactly(stream, handshake);
    rs :| Delivers(stream, handshake, rs);
    PutOfReadSome(handshake);
    h := ReadHello(handshake).value;
  }

  lemma PutOfReadSome(handshake: bytes)
    requires ParseHandshake(handshake).Some?
    ensures ReadHello(handshake).Some? && ValidHello(ReadHello(handshake).value)
    ensures Printable(ReadHello(handshake).value) && PutHello(ReadHello(handshake).value) == handshake
  {
    hide PutHello, TakeHeader, TakeParameters, AcceptedBlock;
    PutOfRead(handshake);
  }

  /** The fork, from raw bytes: the native path is taken exactly when the stream shows a host
      that is in the cache in any case, whatever launched it. */
  lemma NativePathIff(stream: bytes, parentProcess: string)
    ensures Level(Outcome(ClientHello(stream)), parentProcess) == Safe <==>
            exists host :: Shows(stream, host) && IsCached(host)
  {
    hide HostInCache, IsCached, IsElevated, Squat, Shows, Outcome, ClientHello;
    var outcome := Outcome(ClientHello(stream));
    forall host ensures outcome == Cleartext(host) <==> Shows(stream, host) {
      ShowsIff(stream, host);
    }
    forall host ensures HostInCache(host) <==> IsCached(host) {
      CachedIff(host);
    }
  }

  /** The stream shows a host that looks like a brand within distance two. */
  ghost predicate ShowsLookalike(stream: bytes) {
    exists host, signal :: Shows(stream, host) && Reports(signal, AsText(host), SAMPLE_BRANDS, 2)
  }

  lemma LookalikeIff(stream: bytes)
    ensures var outcome := Outcome(ClientHello(stream));
            ShowsLookalike(stream) <==>
              outcome.Cleartext? && Squat(AsText(outcome.host), SAMPLE_BRANDS, DEFAULT_MAX_DISTANCE).Some?
  {
    hide Squat, Shows, Outcome, ClientHello, Reports, AsText;
    var outcome := Outcome(ClientHello(stream));
    if outcome.Cleartext? {
      ShowsIff(stream, outcome.host);
      var squat := Squat(AsText(outcome.host), SAMPLE_BRANDS, DEFAULT_MAX_DISTANCE);
      if squat.Some? {
        SquatIff(AsText(outcome.host), SAMPLE_BRANDS, 2, squat.value);
      }
    }
    if host, signal :| Shows(stream, host) && Reports(signal, AsText(host), SAMPLE_BRANDS, 2) {
      ShowsIff(stream, host);
      SquatIff(AsText(host), SAMPLE_BRANDS, 2, signal);
    }
  }

  /** The stream shows a host that is in the cache. */
  ghost predicate ShowsCached(stream: bytes) {
    exists host :: Shows(stream, host) && IsCached(host)
  }

  /** All four levels, from raw bytes and the parent's name. */
  lemma LevelIff(stream: bytes, parentProcess: string)
    ensures var level := Level(Outcome(ClientHello(stream)), parentProcess);
            && (level == Safe <==> ShowsCached(stream))
            && (level == HighRisk <==> !ShowsCached(stream) && IsRisky(parentProcess))
            && (level == Suspicious <==>
                  !ShowsCached(stream) && !IsRisky(parentProcess) && ShowsLookalike(stream))
            && (level == Unknown <==>
                  !ShowsCached(stream) && !IsRisky(parentProcess) && !ShowsLookalike(stream))
  {
    NativePathIff(stream, parentProcess);
    ElevatedIff(parentProcess);
    LookalikeIff(stream);
    hide HostInCache, IsElevated, Squat, Shows, Outcome, ClientHello, ShowsLookalike, IsRisky, IsCached;
  }

  /** When a piece of evidence belongs to a verdict. */
  ghost predicate Belongs(signal: RiskSignal, outcome: SniOutcome, parentProcess: string) {
    && !(outcome.Cleartext? && IsCached(outcome.host))
    && match signal
       case NotInSafeCache => outcome.Cleartext?
       case Typosquat(_, _, _) => outcome.Cleartext? && Reports(signal, AsText(outcome.host), SAMPLE_BRANDS, 2)
       case RiskyLaunchContext(parent) => parent == parentProcess && IsRisky(parentProcess)
       case EncryptedClientHello => outcome == Encrypted
       case NoServerName => outcome == NotFound
       case MalformedClientHello => outcome == MalformedHello
  }

  /** The evidence behind a verdict is exactly what belongs to it, each piece once, what is
      known of the host in front of the launch context. */
  lemma EvidenceIff(outcome: SniOutcome, parentProcess: string)
    ensures var signals := Signals(outcome, parentProcess);
            && (forall signal :: signal in signals <==> Belongs(signal, outcome, parentProcess))
            && (forall i, j | 0 <= i < j < |signals| :: signals[i] != signals[j])
            && (forall i | 0 <= i < |signals| && signals[i].RiskyLaunchContext? :: i == |signals| - 1)
            && (forall i | 0 <= i < |signals| && signals[i].NotInSafeCache? :: i == 0)
  {
    hide HostInCache, IsCached, IsElevated, Squat, Reports, IsRisky, AsText;
    ElevatedIff(parentProcess);
    if outcome.Cleartext? {
      CachedIff(outcome.host);
      SquatIsTyposquat(AsText(outcome.host));
      forall signal
        ensures Squat(AsText(outcome.host), SAMPLE_BRANDS, DEFAULT_MAX_DISTANCE) == Some(signal) <==>
                  Reports(signal, AsText(outcome.host), SAMPLE_BRANDS, 2)
      {
        SquatIff(AsText(outcome.host), SAMPLE_BRANDS, 2, signal);
      }
    }
  }

  /** Two streams that cut the same handshake into records differently get one verdict:
      outcome, level and evidence. */
  lemma ForkIgnoresFragmentation(
      h: bytes, rs: seq<Record>, rest: bytes, rs': seq<Record>, rest': bytes, parentProcess: string)
    requires Complete(h) && |h| == Need(h)
    requires ValidRecords(rs) && h <= Payload(rs) && |Payload(rs)| <= MAX_HANDSHAKE_BYTES
    requires ValidRecords(rs') && h <= Payload(rs') && |Payload(rs')| <= MAX_HANDSHAKE_BYTES
    ensures var outcome, outcome' := Outcome(ClientHello(Stream(rs) + rest)), Outcome(ClientHello(Stream(rs') + rest'));
            && outcome == outcome'
            && Level(outcome, parentProcess) == Level(outcome', parentProcess)
            && Signals(outcome, parentProcess) == Signals(outcome', parentProcess)
  {
    MetadataIgnoresFragmentation(h, rs, rest);
    MetadataIgnoresFragmentation(h, rs', rest');
  }
}
