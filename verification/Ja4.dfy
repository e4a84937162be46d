/** The JA4 preimages and the launch-source score: what they depend on, and what not. */
module Ja4 {
  import opened Wire
  import opened Text
  import opened Handshakes
  import opened HandshakeGrammar
  import opened ExtensionOrder
  import opened Ja3
  import opened ServerNames

  // ── Sorting codepoints ───────────────────────────────────────────────────

  predicate IsSorted(xs: seq<u16>) {
    |xs| <= 1 || (xs[0] <= xs[1] && IsSorted(xs[1..]))
  }

  function Place(x: u16, xs: seq<u16>): (ys: seq<u16>)
    ensures |ys| == |xs| + 1
    ensures ys[0] == if xs == [] || x <= xs[0] then x else xs[0]
  {
    if xs == [] || x <= xs[0] then [x] + xs else [xs[0]] + Place(x, xs[1..])
  }

  function Sort(xs: seq<u16>): seq<u16> {
    if xs == [] then [] else Place(xs[0], Sort(xs[1..]))
  }

  lemma {:induction false} PlaceSorts(x: u16, xs: seq<u16>)
    requires IsSorted(xs)
    ensures IsSorted(Place(x, xs))
  {
    if xs == [] || x <= xs[0] {
      assert ([x] + xs)[1..] == xs;
    } else {
      PlaceSorts(x, xs[1..]);
      assert Place(x, xs)[1..] == Place(x, xs[1..]);
    }
  }

  lemma {:induction false} PlaceKeeps(x: u16, xs: seq<u16>)
    ensures multiset(Place(x, xs)) == multiset(xs) + multiset{x}
  {
    if xs != [] && x > xs[0] {
      PlaceKeeps(x, xs[1..]);
      assert xs == [xs[0]] + xs[1..];
    }
  }

  lemma {:induction false} SortSorts(xs: seq<u16>)
    ensures IsSorted(Sort(xs)) && multiset(Sort(xs)) == multiset(xs)
  {
    if xs != [] {
      SortSorts(xs[1..]);
      PlaceSorts(xs[0], Sort(xs[1..]));
      PlaceKeeps(xs[0], Sort(xs[1..]));
      assert xs == [xs[0]] + xs[1..];
    }
  }

  lemma {:induction false} HeadIsLeast(xs: seq<u16>)
    requires xs != [] && IsSorted(xs)
    ensures forall x <- xs :: xs[0] <= x
  {
    if |xs| > 1 {
      HeadIsLeast(xs[1..]);
      assert xs == [xs[0]] + xs[1..];
    }
  }

  lemma TailsAgree(xs: seq<u16>, ys: seq<u16>)
    requires xs != [] && ys != [] && xs[0] == ys[0] && multiset(xs) == multiset(ys)
    ensures multiset(xs[1..]) == multiset(ys[1..])
  {
    assert xs == [xs[0]] + xs[1..] && ys == [ys[0]] + ys[1..];
    assert multiset(xs[1..]) == multiset(xs) - multiset{xs[0]};
    assert multiset(ys[1..]) == multiset(ys) - multiset{ys[0]};
  }

  /** Only one sorted list holds given values. */
  lemma {:induction false} SortedIsUnique(xs: seq<u16>, ys: seq<u16>)
    requires IsSorted(xs) && IsSorted(ys) && multiset(xs) == multiset(ys)
    ensures xs == ys
  {
    assert |multiset(xs)| == |xs| && |multiset(ys)| == |ys|;
    if xs != [] {
      assert xs[0] in multiset(ys) && ys[0] in multiset(xs);
      HeadIsLeast(xs);
      HeadIsLeast(ys);
      assert ys[0] in xs && xs[0] in ys;
      TailsAgree(xs, ys);
      SortedIsUnique(xs[1..], ys[1..]);
    }
  }

  lemma SortIff(xs: seq<u16>, ys: seq<u16>)
    ensures Sort(xs) == Sort(ys) <==> multiset(xs) == multiset(ys)
  {
    SortSorts(xs);
    SortSorts(ys);
    if multiset(xs) == multiset(ys) {
      SortedIsUnique(Sort(xs), Sort(ys));
    }
  }

  // ── Writers ──────────────────────────────────────────────────────────────

  method JoinU16Decimal(values: seq<u16>, sep: char) returns (r: string)
    ensures r == JoinDecimal(values, sep)
  {
    hide JoinDecimal;
    r := [];
    var first := true;
    NothingJoined(sep);
    for i := 0 to |values|
      invariant r == JoinDecimal(values[..i], sep)
      invariant first <==> i == 0
    {
      var v := values[i];
      assert values[..i + 1] == values[..i] + [v];
      JoinDecimalAppend(values[..i], v, sep);
      if !first {
        r := r + [sep];
      } else {
        assert r + [] == r;
      }
      r := r + Decimal(v);
      first := false;
    }
    assert values[..|values|] == values;
  }

  // ── Segment a ────────────────────────────────────────────────────────────

  function TwoDigits(n: nat): (s: string)
    ensures |s| == 2
  {
    var clamped := if n > 99 then 99 else n;
    [Digit(clamped / 10), Digit(clamped % 10)]
  }

  function Highest(xs: seq<u16>): u16
    requires xs != []
  {
    if |xs| == 1 then xs[0]
    else
      var later := Highest(xs[1..]);
      if xs[0] <= later then later else xs[0]
  }

  function VersionText(m: ClientHelloMetadata): (s: string)
    ensures |s| == 2
  {
    var versions := Filtered(OrEmpty(m.supportedVersions));
    var highest := if versions == [] then TLS_LEGACY_VERSION else Highest(versions);
    if highest == 0x0304 then "13"
    else if highest == 0x0303 then "12"
    else if highest == 0x0302 then "11"
    else if highest == 0x0301 then "10"
    else if highest == 0x0300 then "s3"
    else "00"
  }

  predicate IsAlphanumeric(b: byte) {
    48 <= b <= 57 || 65 <= b <= 90 || 97 <= b <= 122
  }

  function Alphanumerics(s: bytes): bytes {
    if s == [] then [] else (if IsAlphanumeric(s[0]) then [s[0]] else []) + Alphanumerics(s[1..])
  }

  /** First and last alphanumeric byte of the first protocol. */
  function AlpnText(m: ClientHelloMetadata): (s: string)
    ensures |s| == 2
  {
    var protos := OrEmpty(m.alpnProtocols);
    if protos == [] || Alphanumerics(protos[0]) == [] then "00"
    else
      var kept := Alphanumerics(protos[0]);
      [kept[0] as char, kept[|kept| - 1] as char]
  }

  /** Segment a always has ten characters. */
  function SegmentA(m: ClientHelloMetadata): (s: string)
    ensures |s| == 10
  {
    "t" + VersionText(m) + (if m.host.Some? then "d" else "n")
    + TwoDigits(|Filtered(m.cipherSuites)|) + TwoDigits(|Filtered(m.extensionOrder)|) + AlpnText(m)
  }

  lemma {:induction false} HighestIff(xs: seq<u16>, highest: u16)
    requires xs != []
    ensures highest == Highest(xs) <==> highest in xs && forall x <- xs :: x <= highest
  {
    if |xs| > 1 {
      var later := Highest(xs[1..]);
      HighestIff(xs[1..], later);
      assert xs == [xs[0]] + xs[1..];
      assert xs[0] in xs && later in xs;
    }
  }

  lemma TwoDigitsValue(n: nat)
    ensures forall c <- TwoDigits(n) :: IsDigit(c)
    ensures Value(TwoDigits(n)) == if n > 99 then 99 else n
  {
    var s := TwoDigits(n);
    assert s[..1] == [s[0]] && s[..1][..0] == [];
    assert Value(s[..1]) == DigitValue(s[0]);
  }

  /** The highest version on offer; without any, that of the fixed legacy field. */
  ghost predicate IsHighest(m: ClientHelloMetadata, v: u16) {
    var versions := Filtered(OrEmpty(m.supportedVersions));
    if versions == [] then v == TLS_LEGACY_VERSION else v in versions && forall x <- versions :: x <= v
  }

  /** The version code read back: each of the five codes names one version, and "00" is
      every other. */
  lemma VersionReads(m: ClientHelloMetadata)
    ensures VersionText(m) == "13" <==> IsHighest(m, 0x0304)
    ensures VersionText(m) == "12" <==> IsHighest(m, 0x0303)
    ensures VersionText(m) == "11" <==> IsHighest(m, 0x0302)
    ensures VersionText(m) == "10" <==> IsHighest(m, 0x0301)
    ensures VersionText(m) == "s3" <==> IsHighest(m, 0x0300)
    ensures VersionText(m) == "00" <==> exists v: u16 :: IsHighest(m, v) && !(0x0300 <= v <= 0x0304)
  {
    hide Filtered, Highest;
    var versions := Filtered(OrEmpty(m.supportedVersions));
    var highest := if versions == [] then TLS_LEGACY_VERSION else Highest(versions);
    forall v: u16 ensures IsHighest(m, v) <==> v == highest {
      if versions != [] {
        HighestIff(versions, v);
      }
    }
    assert IsHighest(m, highest);
  }

  /** `i` and `j` are the first and the last alphanumeric position of a protocol name. */
  ghost predicate AreEnds(s: bytes, i: nat, j: nat) {
    && i <= j < |s| && IsLetterOrDigit(s[i] as char) && IsLetterOrDigit(s[j] as char)
    && (forall k | 0 <= k < i || j < k < |s| :: !IsLetterOrDigit(s[k] as char))
  }

  lemma {:induction false} AlphanumericEnds(s: bytes) returns (i: nat, j: nat)
    ensures Alphanumerics(s) == [] <==> IsBlank(s)
    ensures Alphanumerics(s) != [] ==>
              && AreEnds(s, i, j)
              && Alphanumerics(s)[0] == s[i] && Alphanumerics(s)[|Alphanumerics(s)| - 1] == s[j]
  {
    i, j := 0, 0;
    if s != [] {
      AlphanumericIff(s[0]);
      var later := s[1..];
      assert s == [s[0]] + later;
      i, j := AlphanumericEnds(later);
      BlankIff(s);
      if Alphanumerics(later) == [] {
        i, j := 0, 0;
        assert forall k | 0 < k < |s| :: s[k] in later;
      } else if IsLetterOrDigit(s[0] as char) {
        i, j := 0, j + 1;
      } else {
        i, j := i + 1, j + 1;
      }
    }
  }

  predicate IsLetterOrDigit(c: char) {
    '0' <= c <= '9' || 'A' <= c <= 'Z' || 'a' <= c <= 'z'
  }

  lemma AlphanumericIff(b: byte)
    ensures IsAlphanumeric(b) <==> IsLetterOrDigit(b as char)
  {
  }

  /** A protocol name has no letter and no digit. */
  predicate IsBlank(s: bytes) { forall b <- s :: !IsLetterOrDigit(b as char) }

  lemma BlankIff(s: bytes)
    requires s != []
    ensures IsBlank(s) <==> !IsLetterOrDigit(s[0] as char) && IsBlank(s[1..])
  {
    hide IsLetterOrDigit;
    var later := s[1..];
    assert s == [s[0]] + later && s[0] in s;
    if IsBlank(s) {
      forall b | b in later ensures !IsLetterOrDigit(b as char) {
        assert b in s;
      }
    }
    if !IsLetterOrDigit(s[0] as char) && IsBlank(later) {
      forall b | b in s ensures !IsLetterOrDigit(b as char) {
        assert b == s[0] || b in later;
      }
    }
  }

  /** The last two characters read back: the first and the last alphanumeric byte of the
      first protocol, or "00" when there is none. */
  lemma AlpnReads(m: ClientHelloMetadata)
    ensures var protos := OrEmpty(m.alpnProtocols);
            if protos == [] || IsBlank(protos[0]) then AlpnText(m) == "00"
            else exists i: nat, j: nat :: AreEnds(protos[0], i, j)
                                          && AlpnText(m) == [protos[0][i] as char, protos[0][j] as char]
  {
    hide Alphanumerics, IsBlank, AreEnds;
    var protos := OrEmpty(m.alpnProtocols);
    if protos != [] {
      var i, j := AlphanumericEnds(protos[0]);
      if !IsBlank(protos[0]) {
        assert AreEnds(protos[0], i, j);
      }
    }
  }

  /** Segment a read back: the version code, a host or none, the two counts clamped to 99,
      and the protocol characters, each at its own place. */
  lemma SegmentAReads(m: ClientHelloMetadata)
    ensures var a := SegmentA(m);
            && a[0] == 't' && a[1..3] == VersionText(m) && a[8..] == AlpnText(m)
            && (a[3] == 'd' <==> m.host.Some?) && (a[3] == 'n' <==> m.host.None?)
            && (forall c <- a[4..6] :: IsDigit(c)) && (forall c <- a[6..8] :: IsDigit(c))
            && Value(a[4..6]) == (if |Filtered(m.cipherSuites)| > 99 then 99 else |Filtered(m.cipherSuites)|)
            && Value(a[6..8]) == (if |Filtered(m.extensionOrder)| > 99 then 99 else |Filtered(m.extensionOrder)|)
  {
    hide Filtered, TwoDigits, AlpnText, VersionText, Value;
    var ciphers, exts := TwoDigits(|Filtered(m.cipherSuites)|), TwoDigits(|Filtered(m.extensionOrder)|);
    TwoDigitsValue(|Filtered(m.cipherSuites)|);
    TwoDigitsValue(|Filtered(m.extensionOrder)|);
    var a := SegmentA(m);
    assert a[4..6] == ciphers && a[6..8] == exts;
  }

  // ── Segments b and c ─────────────────────────────────────────────────────

  function InputB(m: ClientHelloMetadata): string {
    JoinDecimal(Sort(Filtered(m.cipherSuites)), ',')
  }

  function WithoutNames(xs: seq<u16>): seq<u16> {
    if xs == [] then []
    else (if xs[0] == EXT_SERVER_NAME || xs[0] == EXT_ALPN then [] else [xs[0]]) + WithoutNames(xs[1..])
  }

  /** The extension types segment c is about. */
  function ExtensionsC(m: ClientHelloMetadata): seq<u16> { WithoutNames(Filtered(m.extensionOrder)) }

  function AlgorithmsC(m: ClientHelloMetadata): seq<u16> { Filtered(OrEmpty(m.signatureAlgorithms)) }

  function InputC(m: ClientHelloMetadata): string {
    JoinDecimal(Sort(ExtensionsC(m)), ',')
    + if AlgorithmsC(m) == [] then [] else ['_'] + JoinDecimal(AlgorithmsC(m), ',')
  }

  /** Twelve hex digits of a digest, which this model takes as given. */
  type Digest = string -> string

  function Hashed(input: string, sha256First12: Digest): string {
    if input == [] then "000000000000" else sha256First12(input)
  }

  function RawJa4(m: ClientHelloMetadata, sha256First12: Digest): string {
    SegmentA(m) + "_" + Hashed(InputB(m), sha256First12) + "_" + Hashed(InputC(m), sha256First12)
  }

  method ComputeJa4(meta: ClientHelloMetadata, sha256First12: Digest) returns (raw: string)
    ensures raw == RawJa4(meta, sha256First12)
  {
    hide JoinDecimal, Filtered, Sort, WithoutNames;
    var b := JoinU16Decimal(Sort(Filtered(meta.cipherSuites)), ',');
    var c := JoinU16Decimal(Sort(ExtensionsC(meta)), ',');
    var filtered := AlgorithmsC(meta);
    if filtered != [] {
      var sigs := JoinU16Decimal(filtered, ',');
      c := c + (['_'] + sigs);
    } else {
      assert c + [] == c;
    }
    raw := SegmentA(meta) + "_" + Hashed(b, sha256First12) + "_" + Hashed(c, sha256First12);
  }

  // ── Canonical preimages ──────────────────────────────────────────────────

  /** The cipher preimages agree exactly when the non-GREASE ciphers are the same, in any
      order. */
  lemma InputBIff(m: ClientHelloMetadata, m': ClientHelloMetadata)
    ensures InputB(m) == InputB(m') <==>
            multiset(Filtered(m.cipherSuites)) == multiset(Filtered(m'.cipherSuites))
  {
    hide JoinDecimal, Sort, Filtered;
    var xs, ys := Filtered(m.cipherSuites), Filtered(m'.cipherSuites);
    SortIff(xs, ys);
    if InputB(m) == InputB(m') {
      JoinDecimalInjective(Sort(xs), Sort(ys), ',');
    }
  }

  lemma SplitInputC(m: ClientHelloMetadata)
    ensures Split(InputC(m), '_') ==
            [JoinDecimal(Sort(ExtensionsC(m)), ',')]
            + if AlgorithmsC(m) == [] then [] else [JoinDecimal(AlgorithmsC(m), ',')]
  {
    hide JoinDecimal, Sort, ExtensionsC, AlgorithmsC;
    var exts, algs := JoinDecimal(Sort(ExtensionsC(m)), ','), JoinDecimal(AlgorithmsC(m), ',');
    ReadOfJoinDecimal(Sort(ExtensionsC(m)), ',');
    ReadOfJoinDecimal(AlgorithmsC(m), ',');
    FirstAtOf(exts, algs, '_');
    FirstAtOf(algs, [], '_');
    if AlgorithmsC(m) == [] {
      assert exts + [] == exts;
    } else {
      SplitAfter(exts, algs, '_');
    }
  }

  /** The extension preimages agree exactly when the extension types that are neither
      GREASE, server_name nor ALPN are the same in any order and the non-GREASE signature
      algorithms are the same in the same order. */
  lemma InputCIff(m: ClientHelloMetadata, m': ClientHelloMetadata)
    ensures InputC(m) == InputC(m') <==>
            && multiset(ExtensionsC(m)) == multiset(ExtensionsC(m'))
            && AlgorithmsC(m) == AlgorithmsC(m')
  {
    hide JoinDecimal, Sort, ExtensionsC, AlgorithmsC;
    SortIff(ExtensionsC(m), ExtensionsC(m'));
    if InputC(m) == InputC(m') {
      SplitInputC(m);
      SplitInputC(m');
      var s, s' := Split(InputC(m), '_'), Split(InputC(m'), '_');
      assert s[0] == s'[0] && (|s| == 2 ==> s[1] == s'[1]);
      JoinDecimalInjective(Sort(ExtensionsC(m)), Sort(ExtensionsC(m')), ',');
      if |s| == 2 {
        JoinDecimalInjective(AlgorithmsC(m), AlgorithmsC(m'), ',');
      }
    }
  }

  // ── Reading the preimages and the string back ────────────────────────────

  /** The cipher preimage is a comma-separated list of the non-GREASE ciphers, ascending. */
  lemma InputBReads(m: ClientHelloMetadata)
    ensures IsNumberList(InputB(m), ',')
    ensures var read := ReadDecimals(InputB(m), ',');
            exists xs: seq<u16> :: read == xs && IsSorted(xs) && multiset(xs) == multiset(Filtered(m.cipherSuites))
  {
    hide JoinDecimal, Sort, Filtered;
    var xs := Sort(Filtered(m.cipherSuites));
    SortSorts(Filtered(m.cipherSuites));
    ReadOfJoinDecimal(xs, ',');
  }

  lemma {:induction false} WithoutNamesCount(xs: seq<u16>, x: u16)
    ensures multiset(WithoutNames(xs))[x] == if x == 0x0000 || x == 0x0010 then 0 else multiset(xs)[x]
  {
    if xs != [] {
      WithoutNamesCount(xs[1..], x);
      assert xs == [xs[0]] + xs[1..];
      var kept := if xs[0] == EXT_SERVER_NAME || xs[0] == EXT_ALPN then [] else [xs[0]];
      assert WithoutNames(xs) == kept + WithoutNames(xs[1..]);
    }
  }

  /** The extension types kept: all but GREASE, server_name and ALPN, as often as they
      occur. */
  lemma KeptCount(m: ClientHelloMetadata, x: u16)
    ensures multiset(ExtensionsC(m))[x] ==
            if IsGreaseCodepoint(x) || x == 0x0000 || x == 0x0010 then 0 else multiset(m.extensionOrder)[x]
  {
    hide Filtered, WithoutNames;
    WithoutNamesCount(Filtered(m.extensionOrder), x);
    FilteredCount(m.extensionOrder, x);
  }

  /** The extension preimage is a comma-separated list of the kept types, ascending, and
      where there are any, behind an underscore, the non-GREASE signature algorithms in the
      order on the wire. */
  lemma InputCReads(m: ClientHelloMetadata)
    ensures var parts := Split(InputC(m), '_');
            && IsNumberList(parts[0], ',')
            && (exists xs: seq<u16> ::
                  ReadDecimals(parts[0], ',') == xs && IsSorted(xs) && multiset(xs) == multiset(ExtensionsC(m)))
            && if m.signatureAlgorithms.None? || Filtered(m.signatureAlgorithms.value) == [] then |parts| == 1
               else |parts| == 2 && IsNumberList(parts[1], ',')
                    && ReadDecimals(parts[1], ',') == Filtered(m.signatureAlgorithms.value)
  {
    assert Filtered([]) == [];
    hide JoinDecimal, Sort, Filtered, ExtensionsC, InputC, ReadDecimals, IsNumberList, Split;
    SplitInputC(m);
    var xs := Sort(ExtensionsC(m));
    SortSorts(ExtensionsC(m));
    ReadOfJoinDecimal(xs, ',');
    ReadOfJoinDecimal(AlgorithmsC(m), ',');
  }

  lemma NothingToHash(m: ClientHelloMetadata)
    ensures InputB(m) == [] <==> Filtered(m.cipherSuites) == []
    ensures InputC(m) == [] <==> ExtensionsC(m) == [] && AlgorithmsC(m) == []
  {
    hide JoinDecimal, Sort, Filtered, ExtensionsC, AlgorithmsC;
    SortSorts(Filtered(m.cipherSuites));
    SortSorts(ExtensionsC(m));
    NothingJoined(',');
    JoinDecimalEmptyIff(Sort(Filtered(m.cipherSuites)));
    JoinDecimalEmptyIff(Sort(ExtensionsC(m)));
    assert |multiset(Sort(Filtered(m.cipherSuites)))| == |Sort(Filtered(m.cipherSuites))|;
    assert |multiset(Filtered(m.cipherSuites))| == |Filtered(m.cipherSuites)|;
    assert |multiset(Sort(ExtensionsC(m)))| == |Sort(ExtensionsC(m))|;
    assert |multiset(ExtensionsC(m))| == |ExtensionsC(m)|;
  }

  lemma JoinDecimalEmptyIff(xs: seq<u16>)
    ensures JoinDecimal(xs, ',') == [] <==> xs == []
  {
    hide JoinDecimal;
    ReadOfJoinDecimal(xs, ',');
    ReadOfJoinDecimal([], ',');
    NothingJoined(',');
  }

  /** The string in its places: ten characters, the digest of the ciphers, the digest of the
      extensions, and zeros where there is nothing to digest. */
  lemma Ja4Places(m: ClientHelloMetadata, sha256First12: Digest)
    requires |sha256First12(InputB(m))| == 12
    ensures var raw := RawJa4(m, sha256First12);
            && |raw| >= 24 && raw[..10] == SegmentA(m) && raw[10] == raw[23] == '_'
            && raw[11..23] == (if Filtered(m.cipherSuites) == [] then "000000000000" else sha256First12(InputB(m)))
            && raw[24..] == (if ExtensionsC(m) == [] && AlgorithmsC(m) == [] then "000000000000"
                             else sha256First12(InputC(m)))
  {
    hide SegmentA, InputB, InputC, Filtered, ExtensionsC, AlgorithmsC;
    NothingToHash(m);
    var a, b, c := SegmentA(m), Hashed(InputB(m), sha256First12), Hashed(InputC(m), sha256First12);
    assert |b| == 12;
    var raw := a + "_" + b + "_" + c;
    assert raw[..10] == a && raw[11..23] == b && raw[24..] == c;
  }

  // ── Permuted lists ───────────────────────────────────────────────────────

  lemma {:induction false} FilteredWithout(xs: seq<u16>, i: nat)
    requires i < |xs|
    ensures multiset(Filtered(xs)) == multiset(Filtered(Without(xs, i))) + multiset(Filtered([xs[i]]))
    ensures multiset(WithoutNames(Filtered(xs)))
         == multiset(WithoutNames(Filtered(Without(xs, i)))) + multiset(WithoutNames(Filtered([xs[i]])))
  {
    hide Filtered, WithoutNames;
    var front, x, back := xs[..i], [xs[i]], xs[i + 1..];
    assert xs == front + (x + back);
    FilteredConcat(front, x + back);
    FilteredConcat(x, back);
    FilteredConcat(front, back);
    WithoutNamesConcat(Filtered(front), Filtered(x) + Filtered(back));
    WithoutNamesConcat(Filtered(x), Filtered(back));
    WithoutNamesConcat(Filtered(front), Filtered(back));
  }

  lemma {:induction false} WithoutNamesConcat(xs: seq<u16>, ys: seq<u16>)
    ensures WithoutNames(xs + ys) == WithoutNames(xs) + WithoutNames(ys)
  {
    if xs == [] {
      assert xs + ys == ys;
    } else {
      WithoutNamesConcat(xs[1..], ys);
      assert (xs + ys)[1..] == xs[1..] + ys;
      var kept := if xs[0] == EXT_SERVER_NAME || xs[0] == EXT_ALPN then [] else [xs[0]];
      assert WithoutNames(xs + ys) == kept + WithoutNames(xs[1..] + ys);
      Assoc(kept, WithoutNames(xs[1..]), WithoutNames(ys));
    }
  }

  lemma {:induction false} FilteredPermuted(xs: seq<u16>, ys: seq<u16>)
    requires multiset(xs) == multiset(ys)
    ensures multiset(Filtered(xs)) == multiset(Filtered(ys))
    ensures multiset(WithoutNames(Filtered(xs))) == multiset(WithoutNames(Filtered(ys)))
    decreases |xs|
  {
    hide Filtered, WithoutNames, Without;
    if xs == [] {
      assert |multiset(ys)| == |ys|;
    } else {
      assert xs[0] in multiset(ys);
      var i :| 0 <= i < |ys| && ys[i] == xs[0];
      RemoveEqual(xs, 0, ys, i);
      FilteredPermuted(Without(xs, 0), Without(ys, i));
      FilteredWithout(xs, 0);
      FilteredWithout(ys, i);
    }
  }

  // ── Launch source ────────────────────────────────────────────────────────

  datatype LaunchSource = Browser | Cli | Library | UnknownSource

  const HTTP2: bytes := [104, 50]
  const HTTP3: bytes := [104, 51]
  const HTTP3_DRAFT: bytes := [104, 51, 45]

  predicate OffersHttp2(m: ClientHelloMetadata) {
    exists p <- OrEmpty(m.alpnProtocols) :: p == HTTP2
  }

  predicate OffersHttp3(m: ClientHelloMetadata) {
    exists p <- OrEmpty(m.alpnProtocols) :: p == HTTP3 || HTTP3_DRAFT <= p
  }

  predicate HasPostQuantumKeyShare(m: ClientHelloMetadata) {
    exists g <- OrEmpty(m.keyShareGroups) :: g == 0x11ec || g == 0x1140 || g == 0x6399
  }

  /** The one fingerprint in the built-in table, a browser's. */
  const KNOWN_JA4 := "t13d1516h2_8daaf6152771_b186095e22b6"

  function Points(b: bool, n: int): int { if b then n else 0 }

  function Score(m: ClientHelloMetadata): int {
    var count := |Filtered(m.extensionOrder)|;
    Points(m.echPresent, 3) + Points(HasPostQuantumKeyShare(m), 3) + Points(m.compressCertificatePresent, 1)
    + Points(OffersHttp3(m), 2) + Points(OffersHttp2(m), 1) + Points(m.signatureAlgorithms.Some?, 1)
    + Points(count >= 12, 1) + Points(count <= 5, -2)
  }

  function Launch(m: ClientHelloMetadata, sha256First12: Digest): LaunchSource {
    if RawJa4(m, sha256First12) == KNOWN_JA4 || Score(m) >= 5 then Browser
    else if Score(m) >= 2 then Library
    else if Score(m) <= -1 then Cli
    else UnknownSource
  }

  method LikelyLaunchSource(meta: ClientHelloMetadata, sha256First12: Digest) returns (r: LaunchSource)
    ensures r == Launch(meta, sha256First12)
  {
    hide RawJa4, OffersHttp2, OffersHttp3, HasPostQuantumKeyShare, Filtered;
    var ja4 := ComputeJa4(meta, sha256First12);
    if ja4 == KNOWN_JA4 {
      return Browser;
    }
    var browserScore := 0;
    if meta.echPresent {
      browserScore := browserScore + 3;
    }
    if HasPostQuantumKeyShare(meta) {
      browserScore := browserScore + 3;
    }
    if meta.compressCertificatePresent {
      browserScore := browserScore + 1;
    }
    if OffersHttp3(meta) {
      browserScore := browserScore + 2;
    }
    if OffersHttp2(meta) {
      browserScore := browserScore + 1;
    }
    if meta.signatureAlgorithms.Some? {
      browserScore := browserScore + 1;
    }
    var extCount := |Filtered(meta.extensionOrder)|;
    if extCount >= 12 {
      browserScore := browserScore + 1;
    }
    if extCount <= 5 {
      browserScore := browserScore - 2;
    }
    if browserScore >= 5 {
      return Browser;
    } else if browserScore >= 2 {
      return Library;
    } else if browserScore <= -1 {
      return Cli;
    }
    return UnknownSource;
  }

  /** The buckets from the least to the most like a browser. */
  function Rank(source: LaunchSource): nat {
    match source
    case Cli => 0
    case UnknownSource => 1
    case Library => 2
    case Browser => 3
  }

  /** Every browser signal of `m` is one of `m'` too. */
  ghost predicate MoreSignals(m: ClientHelloMetadata, m': ClientHelloMetadata) {
    && (m.echPresent ==> m'.echPresent)
    && (HasPostQuantumKeyShare(m) ==> HasPostQuantumKeyShare(m'))
    && (m.compressCertificatePresent ==> m'.compressCertificatePresent)
    && (OffersHttp3(m) ==> OffersHttp3(m'))
    && (OffersHttp2(m) ==> OffersHttp2(m'))
    && (m.signatureAlgorithms.Some? ==> m'.signatureAlgorithms.Some?)
    && |Filtered(m.extensionOrder)| <= |Filtered(m'.extensionOrder)|
  }

  /** More signals never make a ClientHello look less like a browser, unless they lose it a
      place in the table. */
  lemma SignalsNeverLower(m: ClientHelloMetadata, m': ClientHelloMetadata, sha256First12: Digest)
    requires MoreSignals(m, m')
    requires RawJa4(m, sha256First12) == KNOWN_JA4 ==> RawJa4(m', sha256First12) == KNOWN_JA4
    ensures Rank(Launch(m, sha256First12)) <= Rank(Launch(m', sha256First12))
  {
    hide RawJa4, OffersHttp2, OffersHttp3, HasPostQuantumKeyShare, Filtered;
    assert Score(m) <= Score(m');
  }

  /** A command-line client is exactly a ClientHello that is not in the table, has at most
      five extensions, no strong signal and at most one of the weak ones. */
  lemma CliIff(m: ClientHelloMetadata, sha256First12: Digest)
    ensures Launch(m, sha256First12) == Cli <==>
            && RawJa4(m, sha256First12) != KNOWN_JA4
            && |Filtered(m.extensionOrder)| <= 5
            && !m.echPresent && !HasPostQuantumKeyShare(m) && !OffersHttp3(m)
            && !(m.compressCertificatePresent && OffersHttp2(m))
            && !(m.compressCertificatePresent && m.signatureAlgorithms.Some?)
            && !(OffersHttp2(m) && m.signatureAlgorithms.Some?)
  {
    hide RawJa4, OffersHttp2, OffersHttp3, HasPostQuantumKeyShare, Filtered;
  }

  /** Outside the table a browser needs a strong signal and never one alone; ECH together
      with a post-quantum key share is enough with more than five extensions. */
  lemma BrowserBounds(m: ClientHelloMetadata, sha256First12: Digest)
    ensures Launch(m, sha256First12) == Browser && RawJa4(m, sha256First12) != KNOWN_JA4 ==>
              && (m.echPresent || HasPostQuantumKeyShare(m) || OffersHttp3(m))
              && (!m.echPresent && !HasPostQuantumKeyShare(m) ==>
                    |Filtered(m.extensionOrder)| > 5 && (OffersHttp2(m) || m.signatureAlgorithms.Some?))
              && (!m.compressCertificatePresent && !OffersHttp2(m) && m.signatureAlgorithms.None?
                  && |Filtered(m.extensionOrder)| < 12 ==>
                    OffersHttp3(m) || (m.echPresent && HasPostQuantumKeyShare(m)))
    ensures m.echPresent && HasPostQuantumKeyShare(m) && |Filtered(m.extensionOrder)| > 5 ==>
              Launch(m, sha256First12) == Browser
  {
    hide RawJa4, OffersHttp2, OffersHttp3, HasPostQuantumKeyShare, Filtered;
  }

  // ── Every bucket ─────────────────────────────────────────────────────────

  lemma OffersIff(m: ClientHelloMetadata)
    ensures OffersHttp2(m) <==> exists p <- OrEmpty(m.alpnProtocols) :: AsText(p) == "h2"
    ensures OffersHttp3(m) <==> exists p <- OrEmpty(m.alpnProtocols) :: AsText(p) == "h3" || "h3-" <= AsText(p)
  {
    forall p: bytes
      ensures p == HTTP2 <==> AsText(p) == "h2"
      ensures p == HTTP3 <==> AsText(p) == "h3"
      ensures HTTP3_DRAFT <= p <==> "h3-" <= AsText(p)
    {
      ProtocolIff(p);
    }
  }

  lemma ProtocolIff(p: bytes)
    ensures p == HTTP2 <==> AsText(p) == "h2"
    ensures p == HTTP3 <==> AsText(p) == "h3"
    ensures HTTP3_DRAFT <= p <==> "h3-" <= AsText(p)
  {
    var t := AsText(p);
    if |p| == 2 {
      assert p == [p[0], p[1]] && t == [t[0], t[1]];
    }
    if |p| >= 3 {
      assert p[..3] == [p[0], p[1], p[2]] && t[..3] == [t[0], t[1], t[2]];
    }
  }

  /** The weight of the signals a ClientHello gives, without its number of extensions. */
  ghost function Weight(m: ClientHelloMetadata): int {
    (if m.echPresent then 3 else 0)
    + (if exists g <- OrEmpty(m.keyShareGroups) :: g in {0x11ec, 0x1140, 0x6399} then 3 else 0)
    + (if exists p <- OrEmpty(m.alpnProtocols) :: AsText(p) == "h3" || "h3-" <= AsText(p) then 2 else 0)
    + (if exists p <- OrEmpty(m.alpnProtocols) :: AsText(p) == "h2" then 1 else 0)
    + (if m.compressCertificatePresent then 1 else 0)
    + (if m.signatureAlgorithms.Some? then 1 else 0)
  }

  lemma ScoreIs(m: ClientHelloMetadata)
    ensures var n := |Filtered(m.extensionOrder)|;
            Score(m) == Weight(m) + (if n >= 12 then 1 else if n <= 5 then -2 else 0)
  {
    hide Filtered, OffersHttp2, OffersHttp3, AsText, OrEmpty;
    OffersIff(m);
  }

  /** Every bucket: the table names one browser, and outside it the weight of the signals
      decides, with few, with some and with many extensions. */
  lemma BucketIff(m: ClientHelloMetadata, sha256First12: Digest)
    ensures var n, weight, source := |Filtered(m.extensionOrder)|, Weight(m), Launch(m, sha256First12);
            var (lib, browser) := if n <= 5 then (4, 7) else if n < 12 then (2, 5) else (1, 4);
            if RawJa4(m, sha256First12) == "t13d1516h2_8daaf6152771_b186095e22b6" then source == Browser
            else
              && (source == Browser <==> weight >= browser)
              && (source == Library <==> lib <= weight < browser)
              && (source == Cli <==> n <= 5 && weight <= 1)
              && (source == UnknownSource <==> weight < lib && !(n <= 5 && weight <= 1))
  {
    hide Filtered, RawJa4, Score, Weight;
    ScoreIs(m);
    WeightIsNonNegative(m);
  }

  lemma WeightIsNonNegative(m: ClientHelloMetadata)
    ensures Weight(m) >= 0
  {
    hide AsText, OrEmpty;
  }

  // ── GREASE ───────────────────────────────────────────────────────────────

  /** All that JA4 and the launch source look at agrees. */
  ghost predicate SameJa4(m: ClientHelloMetadata, m': ClientHelloMetadata, sha256First12: Digest) {
    && SegmentA(m) == SegmentA(m') && InputB(m) == InputB(m') && InputC(m) == InputC(m')
    && RawJa4(m, sha256First12) == RawJa4(m', sha256First12)
    && Launch(m, sha256First12) == Launch(m', sha256First12)
  }

  /** They depend on the four lists only after the filter. */
  lemma FilteredDecides(m: ClientHelloMetadata, m': ClientHelloMetadata, sha256First12: Digest)
    requires m == m'.(cipherSuites := m.cipherSuites, extensionOrder := m.extensionOrder,
                      signatureAlgorithms := m.signatureAlgorithms, supportedVersions := m.supportedVersions)
    requires m.signatureAlgorithms.Some? <==> m'.signatureAlgorithms.Some?
    requires Filtered(m.cipherSuites) == Filtered(m'.cipherSuites)
    requires Filtered(m.extensionOrder) == Filtered(m'.extensionOrder)
    requires Filtered(OrEmpty(m.signatureAlgorithms)) == Filtered(OrEmpty(m'.signatureAlgorithms))
    requires Filtered(OrEmpty(m.supportedVersions)) == Filtered(OrEmpty(m'.supportedVersions))
    ensures SameJa4(m, m', sha256First12)
  {
    hide Filtered, Highest, Alphanumerics, JoinDecimal, Sort, WithoutNames, TwoDigits, Points, Hashed;
  }

  /** Inserting a GREASE value anywhere in any of them changes nothing. */
  lemma Ja4IgnoresGrease(m: ClientHelloMetadata, i: nat, g: u16, sha256First12: Digest)
    requires IsGreaseCodepoint(g)
    ensures i <= |m.cipherSuites| ==>
              SameJa4(m, m.(cipherSuites := InsertAt(m.cipherSuites, i, g)), sha256First12)
    ensures i <= |m.extensionOrder| ==>
              SameJa4(m, m.(extensionOrder := InsertAt(m.extensionOrder, i, g)), sha256First12)
    ensures m.signatureAlgorithms.Some? && i <= |m.signatureAlgorithms.value| ==>
              SameJa4(m, m.(signatureAlgorithms := Some(InsertAt(m.signatureAlgorithms.value, i, g))), sha256First12)
    ensures m.supportedVersions.Some? && i <= |m.supportedVersions.value| ==>
              SameJa4(m, m.(supportedVersions := Some(InsertAt(m.supportedVersions.value, i, g))), sha256First12)
  {
    hide Filtered, InsertAt, SameJa4, IsGreaseCodepoint;
    if i <= |m.cipherSuites| {
      FilteredIgnoresGrease(m.cipherSuites, i, g);
      FilteredDecides(m, m.(cipherSuites := InsertAt(m.cipherSuites, i, g)), sha256First12);
    }
    if i <= |m.extensionOrder| {
      FilteredIgnoresGrease(m.extensionOrder, i, g);
      FilteredDecides(m, m.(extensionOrder := InsertAt(m.extensionOrder, i, g)), sha256First12);
    }
    if m.signatureAlgorithms.Some? && i <= |m.signatureAlgorithms.value| {
      var xs := m.signatureAlgorithms.value;
      FilteredIgnoresGrease(xs, i, g);
      FilteredDecides(m, m.(signatureAlgorithms := Some(InsertAt(xs, i, g))), sha256First12);
    }
    if m.supportedVersions.Some? && i <= |m.supportedVersions.value| {
      var xs := m.supportedVersions.value;
      FilteredIgnoresGrease(xs, i, g);
      FilteredDecides(m, m.(supportedVersions := Some(InsertAt(xs, i, g))), sha256First12);
    }
  }

  // ── Independence of the extension order ──────────────────────────────────

  /** JA4 and the launch source do not see the order of extensions. */
  lemma Ja4IgnoresOrder(m: ClientHelloMetadata, m': ClientHelloMetadata, sha256First12: Digest)
    requires m == m'.(extensionOrder := m.extensionOrder)
    requires multiset(m.extensionOrder) == multiset(m'.extensionOrder)
    ensures SegmentA(m) == SegmentA(m') && InputB(m) == InputB(m') && InputC(m) == InputC(m')
    ensures RawJa4(m, sha256First12) == RawJa4(m', sha256First12)
    ensures Launch(m, sha256First12) == Launch(m', sha256First12)
  {
    hide Filtered, WithoutNames, InputB, InputC, Score, VersionText, AlpnText, TwoDigits;
    var xs, ys := m.extensionOrder, m'.extensionOrder;
    FilteredPermuted(xs, ys);
    assert |multiset(Filtered(xs))| == |Filtered(xs)| && |multiset(Filtered(ys))| == |Filtered(ys)|;
    SameVersionAndAlpn(m, m');
    SameScore(m, m');
    InputBIff(m, m');
    InputCIff(m, m');
  }

  lemma SameVersionAndAlpn(m: ClientHelloMetadata, m': ClientHelloMetadata)
    requires m == m'.(extensionOrder := m.extensionOrder)
    ensures VersionText(m) == VersionText(m') && AlpnText(m) == AlpnText(m')
  {
    hide Filtered, Highest, Alphanumerics;
  }

  lemma SameScore(m: ClientHelloMetadata, m': ClientHelloMetadata)
    requires m == m'.(extensionOrder := m.extensionOrder)
    requires |Filtered(m.extensionOrder)| == |Filtered(m'.extensionOrder)|
    ensures Score(m) == Score(m')
  {
    hide Filtered, Points;
  }

  /** From bytes: two accepted ClientHellos that differ only in the order of extensions
      share their JA4 and their launch source, whatever the digest. */
  lemma ReorderedHellosShareJa4(h: Hello, h': Hello, sha256First12: Digest)
    requires Printable(h) && Printable(h')
    requires h.parameters.ciphers == h'.parameters.ciphers
    requires multiset(h.extensions) == multiset(h'.extensions)
    requires PskLastOrAbsent(h.extensions) && PskLastOrAbsent(h'.extensions)
    ensures var m, m' := ParseHandshake(PutHello(h)), ParseHandshake(PutHello(h'));
            && (m.Some? <==> m'.Some?)
            && (m.Some? ==>
                  && RawJa4(m.value, sha256First12) == RawJa4(m'.value, sha256First12)
                  && Launch(m.value, sha256First12) == Launch(m'.value, sha256First12))
  {
    hide *;
    OrderIndependence(h, h');
    var m, m' := ParseHandshake(PutHello(h)), ParseHandshake(PutHello(h'));
    if m.Some? {
      Ja4IgnoresOrder(m.value, m'.value, sha256First12);
    }
  }
}
