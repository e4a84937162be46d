# aegiuw: a verified model

A Dafny model of how aegiuw decides where a connection goes, from the raw bytes of a TLS
ClientHello to the fork verdict, and of the quality runner that guards the repository.

- **Reassembly** (`Records`, `Reassembly`): handshake records concatenated into one
  handshake, with a zero-copy path in front of a loop. The partner of the loop is the
  printer `Stream`, and the two are tied by if-and-only-if theorems.
- **The walker** (`Cursors`, `Utf8`, `ServerNames`, `ExtensionBodies`, `Handshakes`): a cursor, eight
  typed extension bodies, the server_name validator and the extension loop, each an
  imperative method proved equal to a function on bytes. `HandshakeGrammar` prints
  ClientHellos and proves reading and printing inverse; `ExtensionOrder` proves what does
  not depend on the order of extensions; `HelloMeaning` says what is accepted and reported in
  terms of printed bytes only; `ClientHellos` lifts all of it to record streams.
- **Edit distance** (`Levenshtein`, `Typosquats`): the two-row program, shortest edit scripts
  and the metric laws, and the brand check on top.
- **The verdict** (`Risk`, `Daemon`, `Fixtures`): the fold over evidence, when the native path
  is taken, and every host through the daemon's own builders.
- **Fingerprints** (`Text`, `Ja3`, `Ja4`): unique decodability and canonical preimages.
- **The quality runner** (`Scheduler`, `GateCache`, `GateRuns`, `Waves`): bounded concurrency
  under any completion order, the pass-only cache over any history, the gates of a wave
  behind both, the fail-fast wave loop, and what reports are worth over any sequence of runs.

Bytes are integers below 256 and the length casts of the builders wrap explicitly. Host
names are byte strings in the parser and strings of the same characters in the heuristics.
The parent process, the registry, the outcome of each gate and the digests are parameters.

Places where the code differs from its own documentation; the model follows the code:

- The buffer cap is tested after the append (`crates/aegiuw-core/src/sni.rs:1438-1443`), so
  the allocation bound stated at lines 235-237 is exceeded: `Reassembly.PeakOverCapIff` says
  exactly when.
- For the same reason bytes behind the first complete handshake are not always ignored, as
  lines 190-192 promise: `Reassembly.FirstCompleteWinsIff` says exactly when they are.
- The outcome NotFound does not imply that server_name was absent, as lines 460-461 say, and
  a host that is not UTF-8 gives NotFound, not Malformed as lines 463-464 say:
  `ClientHellos.NotFoundIff` gives the condition and `ClientHellos.NotFoundExample` an input.
- An empty ALPN list is accepted, although the comment at lines 715-717 says it is rejected:
  `ExtensionBodies.AlpnIff` at the empty list, `ClientHellos.EmptyAlpnExample`.
- The host is not always reported verbatim, as line 446 says: `ServerNames.ServerNameHostIff`
  takes one trailing dot off.
- An empty server_name list refuses the ClientHello, although line 2003 lists it among the
  bodies that are skipped: `ServerNames.ServerNameSkipIff`.
- Not every read of the cursor advances on success only, as line 2152 says: a
  length-prefixed read that fails keeps the prefix, `Cursors.Cursor.ReadU16Prefixed`.

## Model

| member | source | states |
|---|---|---|
| Cursors.Cursor.ReadSlice | crates/aegiuw-core/src/sni.rs:2198-2203 | a slice is returned exactly when it fits; on failure the position does not move |
| Cursors.Cursor.ReadU16Prefixed | crates/aegiuw-core/src/sni.rs:2216-2219 | a length-prefixed field is returned exactly when prefix and body fit; on failure the two prefix bytes stay consumed if they were there |
| Cursors.Cursor.ReadU8Prefixed | crates/aegiuw-core/src/sni.rs:2208-2211 | the same for a one-byte prefix |
| Wire.TakeP16Iff | crates/aegiuw-core/src/sni.rs:2216-2219 | length-prefix framing is a bijection between field-and-remainder and bytes |
| Records.ReadFragment | crates/aegiuw-core/src/sni.rs:1424-1438 | one turn of the loop reads a whole type-22 record within the fragment limit, five bytes and its fragment, or nothing |
| Records.TryReassembleSingleRecord | crates/aegiuw-core/src/sni.rs:1387-1413 | the zero-copy path returns the handshake of the first record when that record holds all of it |
| Records.ReassembleHandshakeOwned | crates/aegiuw-core/src/sni.rs:1418-1467 | the multi-record loop computes the reassembly function; its largest buffer and its number of records are as stated, and the bytes buffered and five per record never exceed the bytes its cursor has consumed |
| Records.FastPathRefines | crates/aegiuw-core/src/sni.rs:1361-1373 | whenever the zero-copy path succeeds the loop returns the same bytes |
| Records.ParseRecordInner | crates/aegiuw-core/src/sni.rs:1361-1373 | fast path in front of slow path equals the slow path on every input |
| Reassembly.FastPathIff | crates/aegiuw-core/src/sni.rs:1387-1413 | the zero-copy path succeeds exactly when the first record, taken as the whole stream, already reassembles, and then with the same bytes |
| Reassembly.ReassembleIff | crates/aegiuw-core/src/sni.rs:1418-1467 | a handshake is returned precisely on streams whose leading type-22 records first complete it within the 64 KiB cap |
| Reassembly.ReassembleExactly | crates/aegiuw-core/src/sni.rs:1418-1467 | the same in bytes: the records at the front of the stream carry the handshake, whose own header gives its length, the last of them completes it, and at most 65536 bytes are buffered |
| Reassembly.AssembleOnCompleting | crates/aegiuw-core/src/sni.rs:1423-1466 | on a stream that completes a handshake the loop stops in the completing record, whatever follows |
| Reassembly.FirstCompleteWinsIff | crates/aegiuw-core/src/sni.rs:190-192 | the documented promise that bytes behind the first complete handshake are ignored holds exactly when the completing record does not push the buffer over the cap |
| Reassembly.Refragmentation | crates/aegiuw-core/src/sni.rs:1304-1321 | every cut of a handshake into type-22 records, empty ones and any versions included, with any bytes behind, reassembles to exactly that handshake |
| Reassembly.AppendKeepsAnswer | crates/aegiuw-core/src/sni.rs:1452-1461 | an answer once given survives any appended bytes |
| Reassembly.StrictPrefixIsRefused | crates/aegiuw-core/src/sni.rs:193-195 | every strict prefix of the shortest accepted stream yields nothing |
| Reassembly.OtherContentTypeRefuses | crates/aegiuw-core/src/sni.rs:1424-1427 | a record of another content type before completion refuses every continuation |
| Reassembly.PeakBound | crates/aegiuw-core/src/sni.rs:1438-1443 | the buffer is under 65536 bytes before every append and under 82176 after it; buffered bytes plus five per record are exactly the bytes of the records read; the result is within the cap |
| Reassembly.PeakOverCapIff | crates/aegiuw-core/src/sni.rs:1438-1443 | the buffer exceeds the cap exactly on streams where a record no longer fits behind a still incomplete handshake, because the cap is tested after the append |
| Reassembly.PeakOverCapExample | crates/aegiuw-core/src/sni.rs:235-237 | a concrete stream on which the buffer reaches 66560 bytes, against the documented bound, and on which a complete 64 KiB handshake is refused |
| ServerNames.ScanLabels | crates/aegiuw-core/src/sni.rs:2085-2097 | the scan over dot positions accepts exactly the hosts all of whose dot-separated pieces are at most 63 bytes |
| ServerNames.ParseServerNameExtension | crates/aegiuw-core/src/sni.rs:2023-2148 | the imperative body parser computes the three-way outcome function |
| ServerNames.ServerNameHostIff | crates/aegiuw-core/src/sni.rs:2023-2148 | a host comes out exactly when the list is led by one host_name that is the host itself, not ending in a dot, or the host and one dot, with no second host_name behind it, the host being a host name |
| ServerNames.ValidHostIff | crates/aegiuw-core/src/sni.rs:2059-2122 | the host rules accept exactly one to 253 letters, digits, hyphens and dots with a dot in every 64 bytes that are no dotted quad |
| ServerNames.CheckHostIff | crates/aegiuw-core/src/sni.rs:2045-2122 | of one text: published less one trailing dot exactly when that is a host name, skipped exactly when it is not UTF-8 |
| Utf8.Utf8Iff | crates/aegiuw-core/src/sni.rs:2045-2050 | the UTF-8 test accepts exactly the encodings of sequences of Unicode scalar values |
| ServerNames.ServerNameSkipIff | crates/aegiuw-core/src/sni.rs:2023-2050 | a body is skipped exactly when its first entry is of another type or its host is not UTF-8 |
| ServerNames.OctetIff | crates/aegiuw-core/src/sni.rs:2099-2109 | the octet rule of the IPv4 literal check accepts exactly the decimal prints of 0 to 255 |
| ServerNames.Ipv4Iff | crates/aegiuw-core/src/sni.rs:2099-2109 | the literals refused are exactly the texts of four numbers below 256 in decimal joined by dots |
| ServerNames.ValidHostIsUtf8 | crates/aegiuw-core/src/sni.rs:2045-2050 | every host that passes the character rules is well-formed UTF-8, so the UTF-8 test only decides between skipping and refusing |
| ExtensionBodies.ParseAlpnExtension | crates/aegiuw-core/src/sni.rs:1883-1897 | the ALPN loop computes the ALPN body function |
| ExtensionBodies.AlpnIff | crates/aegiuw-core/src/sni.rs:1883-1897 | an ALPN body reads as a list of names exactly when it prints them, all non-empty, with anything behind; the empty list is accepted |
| ExtensionBodies.ParseKeyShareExtension | crates/aegiuw-core/src/sni.rs:1959-1974 | the key_share loop computes the key_share body function |
| ExtensionBodies.KeyShareIff | crates/aegiuw-core/src/sni.rs:1959-1974 | a key_share body reads as groups exactly when it lists shares of those groups, whatever the keys |
| ExtensionBodies.ReadCodepoints | crates/aegiuw-core/src/sni.rs:1924-1929 | the shared codepoint loop reads a non-empty even list in order |
| ExtensionBodies.U16ListIff | crates/aegiuw-core/src/sni.rs:1918-1930 | signature_algorithms and supported_groups read as a list exactly when they print it |
| ExtensionBodies.SupportedVersionsIff | crates/aegiuw-core/src/sni.rs:1979-1991 | supported_versions reads as a list exactly when it prints it behind a one-byte length |
| ExtensionBodies.EcPointFormatsIff | crates/aegiuw-core/src/sni.rs:1906-1913 | ec_point_formats reads as a non-empty list exactly when it prints it |
| ExtensionBodies.RecordSizeLimitIff | crates/aegiuw-core/src/sni.rs:1935-1951 | record_size_limit is read exactly from the two bytes of a value in range, with nothing behind |
| Handshakes.ReadExtension | crates/aegiuw-core/src/sni.rs:1595-1596 | one turn of the extension loop consumes four bytes and the body, so the loop ends |
| Handshakes.RecordExtension | crates/aegiuw-core/src/sni.rs:1610-1672 | the dispatch sets the field of the extension's type and no other, and fails exactly on an unreadable body |
| Handshakes.AcceptableAppend | crates/aegiuw-core/src/sni.rs:1589-1608 | one more extension keeps the block acceptable exactly when none before it was pre_shared_key, its type is new and its body is readable |
| Handshakes.CollectUpdate | crates/aegiuw-core/src/sni.rs:1538-1672 | updating the metadata extension by extension gives what looking each field up at the end gives |
| Handshakes.WalkExtensions | crates/aegiuw-core/src/sni.rs:1585-1681 | the loop accepts exactly the blocks that split into extensions breaking no rule, and returns their description with the ECH mask applied last |
| Handshakes.ParseHandshakeMessageFull | crates/aegiuw-core/src/sni.rs:1487-1682 | the whole walker computes the handshake function |
| HandshakeGrammar.ReadOfPut | crates/aegiuw-core/src/sni.rs:1487-1682 | every printed ClientHello comes back field by field unless its extensions break a rule |
| HandshakeGrammar.PutOfRead | crates/aegiuw-core/src/sni.rs:1487-1682 | whatever is accepted is the printed form of what was read |
| HandshakeGrammar.WalkerIff | crates/aegiuw-core/src/sni.rs:1487-1682 | the walker returns metadata precisely on the printed forms of valid ClientHellos, leftovers tolerated, that the metadata describes |
| HandshakeGrammar.IgnoredFields | crates/aegiuw-core/src/sni.rs:1487-1534 | the announced length, random, session id, compression methods, leftover and trailing bytes have no influence on the metadata |
| HandshakeGrammar.SplitBlockOf | crates/aegiuw-core/src/sni.rs:1589-1596 | a printed extension list with up to three leftover bytes splits back into itself |
| HelloMeaning.AcceptedIff | crates/aegiuw-core/src/sni.rs:1585-1681 | a printed ClientHello is accepted exactly when no extension type repeats, pre_shared_key is last or absent, and each of the eight typed bodies has its printed form; nothing is asked of any other body |
| HelloMeaning.WalkerExactly | crates/aegiuw-core/src/sni.rs:1487-1682 | metadata comes out precisely for the bytes of a ClientHello whose extensions follow these rules, and every field of it is what the printed body of its own extension type says |
| HelloMeaning.OtherBodiesAreIgnored | crates/aegiuw-core/src/sni.rs:1660-1672 | another body in an extension of any other type, known or unknown, changes neither acceptance nor any field |
| ExtensionOrder.OrderIndependence | crates/aegiuw-core/src/sni.rs:1589-1681 | permuted extensions, pre_shared_key last or absent, agree on acceptance and on every field but the order, which is permuted alike |
| ExtensionOrder.DecoyIsInvisible | crates/aegiuw-core/src/sni.rs:139-154 | with 0xfe0d present, any other well-formed server_name body gives the same result in every field |
| ExtensionOrder.DescribedContents | crates/aegiuw-core/src/sni.rs:503-631 | each field is absent exactly when its type is and otherwise is the parsed body of the one extension of that type; the host is masked by ECH |
| ExtensionOrder.AcceptedFacts | crates/aegiuw-core/src/sni.rs:1571-1681 | every accepted parse has at most 16383 distinct types, pre_shared_key only last, and each field set exactly when its type is present |
| ClientHellos.ParseClientHelloFull | crates/aegiuw-core/src/sni.rs:1849-1876 | reassembly followed by the walker |
| ClientHellos.ExtractSni | crates/aegiuw-core/src/sni.rs:1134-1160 | one of four outcomes for every input, projected from the metadata |
| ClientHellos.ParseHandshakeMessage | crates/aegiuw-core/src/sni.rs:1714-1734 | nothing for no bytes, otherwise the outcome, Malformed for another handshake type |
| ClientHellos.MetadataIgnoresFragmentation | crates/aegiuw-core/src/sni.rs:1849-1876 | any fragmentation of a handshake gives the metadata of the handshake itself |
| ClientHellos.EncryptedIff | crates/aegiuw-core/src/sni.rs:139-154 | the outcome is Encrypted exactly when the stream is accepted and type 0xfe0d is anywhere in it, and then no host is published |
| ClientHellos.CleartextIff | crates/aegiuw-core/src/sni.rs:1153-1160 | a printed ClientHello yields a host exactly when its extensions follow the rules, none is 0xfe0d and its server_name body publishes that host |
| ClientHellos.NotFoundIff | crates/aegiuw-core/src/sni.rs:1153-1160 | NotFound exactly when the extensions follow the rules, none is 0xfe0d, and every server_name body is led by an entry of another type or names a host that is not UTF-8 |
| ClientHellos.NotFoundExample | crates/aegiuw-core/src/sni.rs:460-464 | a concrete ClientHello that names a host, gives NotFound and has server_name in its extension order |
| ClientHellos.EmptyAlpnExample | crates/aegiuw-core/src/sni.rs:715-717 | a concrete accepted ClientHello with an empty ALPN list |
| ClientHellos.VerifyIff | crates/aegiuw-core/src/sni.rs:1816-1836 | the pre-check accepts exactly type 1 with an announced length of at most 65532, whatever follows |
| ClientHellos.PreCheckAdmitsReassembled | crates/aegiuw-core/src/sni.rs:1816-1836 | the pre-check refuses nothing the walker accepts among reassembled handshakes |
| ClientHellos.PreCheckIff | crates/aegiuw-core/src/sni.rs:1494 | on any accepted handshake the pre-check agrees exactly when the announced length, which the walker ignores, is within the cap |
| ClientHellos.PreCheckExample | crates/aegiuw-core/src/sni.rs:1494 | a concrete accepted handshake the pre-check refuses |
| Levenshtein.Distance | crates/aegiuw-core/src/heuristics/levenshtein.rs:21-48 | the two-row program with swapped arrays computes the recurrence |
| Levenshtein.LevIff | crates/aegiuw-core/src/heuristics/levenshtein.rs:15-20 | the result is exactly the length of a shortest script of single-character insertions, deletions and substitutions |
| Levenshtein.ShortestScript | crates/aegiuw-core/src/heuristics/levenshtein.rs:40-42 | some script is as short as the distance |
| Levenshtein.NoShorterScript | crates/aegiuw-core/src/heuristics/levenshtein.rs:40-42 | no script is shorter than the distance |
| Levenshtein.LevZeroIff | crates/aegiuw-core/src/heuristics/levenshtein.rs:21-48 | zero exactly for equal strings |
| Levenshtein.LevSymmetric | crates/aegiuw-core/src/heuristics/levenshtein.rs:21-48 | symmetric, although rows and columns are treated differently |
| Levenshtein.Triangle | crates/aegiuw-core/src/heuristics/levenshtein.rs:21-48 | the triangle inequality |
| Levenshtein.LevBounds | crates/aegiuw-core/src/heuristics/levenshtein.rs:21-48 | between the length difference and the longer length |
| Typosquats.CheckTyposquat | crates/aegiuw-core/src/heuristics/levenshtein.rs:75-96 | the loop with its early return computes the nearest-brand function |
| Typosquats.NearestIff | crates/aegiuw-core/src/heuristics/levenshtein.rs:83-88 | the brand chosen is the earliest one at the minimum distance |
| Typosquats.SameInAnyCaseIff | crates/aegiuw-core/src/heuristics/levenshtein.rs:76-80 | the comparison accepts exactly strings of one length that agree at each position but for the case of ASCII letters |
| Typosquats.SquatIff | crates/aegiuw-core/src/heuristics/levenshtein.rs:75-96 | what is reported names the domain, the earliest brand at the least distance and that distance, within the threshold, no brand being the domain in another case |
| Typosquats.SquatNoneIff | crates/aegiuw-core/src/heuristics/levenshtein.rs:66-68 | nothing is reported exactly when some brand anywhere equals the domain in another case or none is within the threshold |
| Typosquats.SquatPermuted | crates/aegiuw-core/src/heuristics/levenshtein.rs:83-88 | whether and at what distance a squat is reported does not depend on the order of brands |
| Typosquats.OtherBrandIsAway | crates/aegiuw-core/src/heuristics/levenshtein.rs:83 | the test for a positive distance is never false when it is reached |
| Risk.EvaluateIff | crates/aegiuw-core/src/risk.rs:128-135 | the level is the worst severity, Unknown without evidence, and never Safe |
| Risk.EvaluateConcat | crates/aegiuw-core/src/risk.rs:128-135 | evidence gathered in two parts has the worse of the two levels |
| Risk.EvaluatePermuted | crates/aegiuw-core/src/risk.rs:128-135 | the order of the evidence does not matter |
| Risk.EvaluateNeverSafe | crates/aegiuw-core/src/risk.rs:118-122 | no evidence, however little, allows the native path |
| Daemon.Assess | crates/aegiuw-daemon/src/main.rs:47-82 | the outcome, the level and the evidence for every input and parent process; the native path exactly for a cached host |
| Daemon.EvidenceIff | crates/aegiuw-daemon/src/main.rs:47-82 | each piece of evidence belongs to the verdict exactly for its own outcome, lookalike or parent process, once, the launch context last |
| Daemon.ElevatedIff | crates/aegiuw-core/src/heuristics/context.rs:47-61 | a parent is risky exactly when the name of an email client or document reader stands in its name, in any case |
| Daemon.ElevatedIgnoresCase | crates/aegiuw-core/src/heuristics/context.rs:47-61 | the case of ASCII letters in the parent's name changes nothing |
| Daemon.NativePathIff | crates/aegiuw-daemon/src/main.rs:47-82 | the native path is taken exactly when the records of the stream deliver a ClientHello that follows the rules, has no 0xfe0d and publishes a host equal to a cache entry in any case |
| Daemon.LevelIff | crates/aegiuw-daemon/src/main.rs:47-82 | all four levels from raw bytes: Safe for a cached host, otherwise HighRisk exactly for a risky parent, otherwise Suspicious exactly for a host within distance two of a brand, Unknown for the rest |
| Daemon.ForkIgnoresFragmentation | crates/aegiuw-daemon/src/main.rs:47-82 | two fragmentations of one handshake get one outcome, one level and the same evidence |
| Fixtures.BuildClientHello | crates/aegiuw-daemon/src/main.rs:160-181 | the appends build the fixture record, with length casts that wrap |
| Fixtures.BuildSniExtension | crates/aegiuw-daemon/src/main.rs:184-197 | the appends build the server_name extension, with length casts that wrap |
| Fixtures.FixtureIsPrinted | crates/aegiuw-daemon/src/main.rs:160-181 | a fixture handshake is the printed form of a ClientHello with those extensions |
| Fixtures.SniFixtureRoundTrip | crates/aegiuw-daemon/src/main.rs:184-197 | every host through the builders: reported less one dot exactly if that is a host name, not found exactly if not UTF-8, refused otherwise or when the record would be over the limit |
| Fixtures.TrailingDotIsIgnored | crates/aegiuw-core/src/sni.rs:2062 | a host name and the same with a dot behind it give one outcome |
| Fixtures.EchFixtureRoundTrip | crates/aegiuw-daemon/src/main.rs:202-207 | with ECH in front the outcome is Encrypted exactly unless the decoy, a UTF-8 text that is no host name, or the record size refuses the ClientHello |
| Ja3.GreaseIff | crates/aegiuw-core/src/fingerprint.rs:48-52 | the GREASE test accepts exactly the sixteen reserved codepoints |
| Ja3.WriteU16List | crates/aegiuw-core/src/fingerprint.rs:136-148 | the writer appends the filtered decimals with dashes between neighbours |
| Ja3.WriteU8List | crates/aegiuw-core/src/fingerprint.rs:151-160 | the same without a filter |
| Ja3.ComputeJa3 | crates/aegiuw-core/src/fingerprint.rs:102-132 | the appends build the five-field string |
| Ja3.DecodeOfRaw | crates/aegiuw-core/src/fingerprint.rs:102-132 | a decoder gets the four filtered lists back from every string |
| Ja3.RawPlaces | crates/aegiuw-core/src/fingerprint.rs:102-132 | the string splits into 771, ciphers, extensions, groups and point formats in this order, an absent list being empty |
| Ja3.FilteredCount | crates/aegiuw-core/src/fingerprint.rs:136-148 | the filter drops every GREASE value and keeps every other as often as it occurs |
| Ja3.RawIff | crates/aegiuw-core/src/fingerprint.rs:102-132 | two strings are equal exactly when the filtered lists are equal in order, absent counting as empty |
| Ja3.RawIgnoresGrease | crates/aegiuw-core/src/fingerprint.rs:27-39 | a GREASE value inserted anywhere leaves the string alone |
| Text.SplitOfJoin | crates/aegiuw-core/src/fingerprint.rs:354-365 | splitting undoes joining |
| Text.ReadOfJoinDecimal | crates/aegiuw-core/src/fingerprint.rs:354-365 | a printed list of numbers reads back as the list |
| Ja4.SegmentA | crates/aegiuw-core/src/fingerprint.rs:224-253 | segment a always has ten characters |
| Ja4.SegmentAReads | crates/aegiuw-core/src/fingerprint.rs:224-253 | segment a has the version code, host presence, the two non-GREASE counts clamped to 99 and the protocol characters each at its own place |
| Ja4.VersionReads | crates/aegiuw-core/src/fingerprint.rs:255-276 | each of the five version codes stands for one highest non-GREASE version offered, TLS 1.2 being the default, and 00 for every other |
| Ja4.AlpnReads | crates/aegiuw-core/src/fingerprint.rs:278-306 | the protocol characters are the first and the last alphanumeric byte of the first protocol, 00 exactly when there are none |
| Ja4.ComputeJa4 | crates/aegiuw-core/src/fingerprint.rs:214-220 | the segments are assembled from the three inputs |
| Ja4.Ja4Places | crates/aegiuw-core/src/fingerprint.rs:214-220 | segment a, the cipher digest and the extension digest stand in this order, zeros where there is nothing to digest |
| Ja4.InputBReads | crates/aegiuw-core/src/fingerprint.rs:313-323 | the cipher preimage reads back as the non-GREASE ciphers in ascending order |
| Ja4.InputCReads | crates/aegiuw-core/src/fingerprint.rs:330-352 | the extension preimage reads back as the kept types in ascending order and, behind an underscore if there are any, the non-GREASE algorithms in wire order |
| Ja4.KeptCount | crates/aegiuw-core/src/fingerprint.rs:330-339 | the types kept are all but GREASE, server_name and ALPN, as often as they occur |
| Ja4.InputBIff | crates/aegiuw-core/src/fingerprint.rs:313-323 | the cipher preimages agree exactly when the non-GREASE ciphers agree as multisets |
| Ja4.InputCIff | crates/aegiuw-core/src/fingerprint.rs:330-352 | the extension preimages agree exactly when the kept types agree as multisets and the filtered algorithms as sequences |
| Ja4.SortIff | crates/aegiuw-core/src/fingerprint.rs:320-339 | sorting identifies exactly the lists with the same values |
| Ja4.SignalsNeverLower | crates/aegiuw-core/src/fingerprint.rs:654-710 | a ClientHello with more browser signals never gets a less browser-like launch source, unless it loses its place in the table |
| Ja4.CliIff | crates/aegiuw-core/src/fingerprint.rs:654-710 | the launch source is Cli exactly outside the table with at most five extensions, no strong signal and at most one weak one |
| Ja4.BrowserBounds | crates/aegiuw-core/src/fingerprint.rs:654-710 | outside the table Browser needs a strong signal and other signals with it; ECH with a post-quantum key share and more than five extensions is enough |
| Ja4.BucketIff | crates/aegiuw-core/src/fingerprint.rs:668-710 | every bucket: Browser for the fingerprint in the table, otherwise by the weight of the signals, with few, some and many extensions |
| Ja4.OffersIff | crates/aegiuw-core/src/fingerprint.rs:681-686 | HTTP/2 is the protocol named h2, HTTP/3 the one named h3 or beginning with h3- |
| Ja4.Ja4IgnoresGrease | crates/aegiuw-core/src/fingerprint.rs:27-39 | a GREASE value inserted anywhere into ciphers, extensions, signature algorithms or versions changes no segment input, no JA4 and no launch source |
| Ja4.Ja4IgnoresOrder | crates/aegiuw-core/src/fingerprint.rs:186-191 | metadata differing only in extension order share JA4 and launch source, for every digest |
| Ja4.ReorderedHellosShareJa4 | crates/aegiuw-core/src/fingerprint.rs:186-191 | the same from the bytes of two reordered ClientHellos |
| Scheduler.Dispatcher.LaunchNext | scripts/quality/runner.mjs:174-186 | the launch loop fills the free slots in item order |
| Scheduler.Dispatcher.OnFulfilled | scripts/quality/runner.mjs:178-184 | the completion callback records the result at its own index and leads from a settled state to a settled state |
| Scheduler.FulfilSettled | scripts/quality/runner.mjs:167-189 | every completion of any item in flight keeps min(limit, items left) in flight |
| Scheduler.RunInvariant | scripts/quality/runner.mjs:167-189 | after any run of completions min(limit, items left) are in flight, the runner has been called once for each started item in item order, and each completion is recorded once at its own index |
| Scheduler.NeverStalls | scripts/quality/runner.mjs:167-189 | until every item has finished some item is in flight; then each item has been started exactly once and the promise resolved exactly once |
| Scheduler.ResultsInItemOrder | scripts/quality/runner.mjs:179 | the final array holds each item's own result, whatever the completion order |
| Scheduler.RunConcurrent | scripts/quality/runner.mjs:167-189 | with completions chosen arbitrarily the loop ends and returns the results in item order |
| GateRuns.LookUpOne | scripts/quality/runner.mjs:268-284 | a started gate is at once reported from the cache when its key is stored and really started when not |
| GateRuns.RunGates | scripts/quality/runner.mjs:268-311 | under any interleaving of lookups, ends and callbacks each gate of a wave is either answered from the cache or run, each of its events happens once, at no time are more gates being run than the limit, and its result says which |
| Waves.RunWave | scripts/quality/runner.mjs:255-311 | one reached wave launches exactly the gates that apply and gives each of its gates exactly one result |
| Waves.WaveOrder | scripts/quality/runner.mjs:8 | the waves are run in the order preflight, static, build, postbuild, tests, audit |
| Waves.RunWaves | scripts/quality/runner.mjs:255-314 | the wave loop stops behind the first wave in which a gate that was run failed; every gate launched so far was answered from the cache or run, and nothing happens to a gate before every applicable gate of the earlier waves has passed |
| Waves.OrderStep | scripts/quality/runner.mjs:255-314 | one more wave keeps that order in time |
| Waves.LookUpsExact | scripts/quality/runner.mjs:269-283 | of the launched gates one with its key stored at the beginning is never run, one answered from the cache had its key stored then or by a gate of this run, and exactly the passing gates that ran add their keys |
| Waves.RunQuality | scripts/quality/runner.mjs:206-331 | exit 2 exactly for a registry with a gate without id or wave or an id used twice, 4 exactly when nothing is selected; otherwise a gate is launched exactly when it applies and all applicable gates of earlier waves were real or cached passes, and run unless it is cacheable and its key is stored; the cache history grows by exactly these events, in wave order, never with more gates being run than the limit and none ending before as many of its wave as the limit allows have been launched; exit 1 exactly when a gate that ran failed |
| Waves.ServesOnlyThose | scripts/quality/runner.mjs:269-283 | no gate that is not cacheable is ever served from the cache, nor any while it is disabled: those are run and leave no key; every other is looked up and stored under the digest of its id and inputs |
| Waves.ResultsMean | scripts/quality/runner.mjs:255-321 | each registered and selected gate gets exactly one result: cached, passed, failed, aborted behind a failed gate of an earlier wave, or not applicable |
| Waves.BusyStep | scripts/quality/runner.mjs:174-186 | a gate comes to its end only when as many gates of its wave as the limit allows, or all of them, have been launched |
| Waves.RunIsDetermined | scripts/quality/runner.mjs:255-331 | where the digest confuses no two gates of the run, the results, the gates run and the exit code depend on the gates and the cache at the beginning only, not on the schedule |
| Waves.RunAll | scripts/quality/runner.mjs:191-331 | over any sequence of runs and clearings from an empty cache every reported pass is a real pass of that run, or a real pass reported by a run since the last clearing under the same key |
| Waves.EarnedIsOwn | scripts/quality/cache.mjs:9-13 | such a pass is one of the same gate on the same inputs, unless the digest confuses the two texts |
| GateCache.Cache.StoreCache | scripts/quality/cache.mjs:183-187 | storing extends the history by a real pass and keeps the index true to it |
| GateCache.Cache.Launch | scripts/quality/runner.mjs:268-284 | a gate is reported as a cached pass exactly when its key is stored and really started otherwise |
| GateCache.Cache.Finish | scripts/quality/runner.mjs:285-308 | a pass is stored under the gate's key, a failure never is |
| GateCache.OnlyPassesAreCached | scripts/quality/cache.mjs:7 | over any sequence of runs only passes are in the index |
| GateCache.CachedPassIff | scripts/quality/cache.mjs:178-191 | a cached pass is possible exactly when an earlier real run passed under that key and nothing cleared the cache since |
| GateCache.CachedPassIsEarned | scripts/quality/cache.mjs:178-191 | every cached pass in every history traces back to such a run |
| GateCache.IndexGrows | scripts/quality/cache.mjs:183-187 | without a clearing the index holds exactly what it held and what has been stored since |
| GateCache.PreimageIff | scripts/quality/cache.mjs:132-137 | gate id and inputs can be told from the text a key is the digest of, for ids of one line |
| GateCache.CachedPassIsOwn | scripts/quality/cache.mjs:132-158 | with keys computed from id and inputs, a cached pass is an earlier real pass of the same gate on the same inputs, unless the digest confuses two texts that occur in the history |

## Left out

- ServerNames.IsIpv4Literal: models dotted quads only. An IPv6 literal contains a colon and
  is refused by the character rule in any case, so no outcome changes.
- Fixtures.SniFixtureRoundTrip: stated for hosts up to 65479 bytes; beyond that the sixteen-bit
  length casts of the builders wrap and the fixture is not the printed form of its host.
- Scheduler.Dispatcher.OnFulfilled: a promise that rejects is not modelled; the original has
  no handler for it either, and every task is taken to fulfil.
- Waves.ValidRegistry: checks ids and waves only; the checks of modes, scopes, callbacks, rerun
  commands and inputs refuse a registry earlier and change nothing behind them.
- Waves.RunQuality: the refusal of an unknown mode and of a dirty worktree, the command-line
  filters (one predicate here) and the printed report are not modelled.
- GateCache.Cache: the index is held in memory. The original reads and writes a JSON file
  around every access; a file that is lost or unreadable behaves like a cleared cache. Two
  runners at work on the same file at once are not modelled.
- GateCache.Preimage: everything hashed behind the gate id (runtime, mode, files) is one
  string; that different files always give different strings is not claimed.
- Waves.RunAll: a run that is killed half-way leaves stored passes and no report. Such
  histories are covered by the lemmas of `GateCache`, not by the statement about reports.
- MD5 and SHA-256 are function parameters; nothing is said about collisions.
- Borrowed and owned results are the same value here.
- Tracing, timing, the hex preview, serde and the telemetry labels.
- Lookup tables and classifiers other than those the launch score uses, the HTTP fingerprint
  stub, the experimental extension table, and the retry comparison of two ClientHellos.
- The inspector's command line, the Wireshark dissector and the Cloudflare worker.
