/** The server_name extension body (section 3 of RFC 6066): one usable host_name, a
    body that names no usable host, or a body that refuses the whole ClientHello. */
module ServerNames {
  import opened Wire
  import opened Cursors
  import opened Text
  import opened Utf8

  const NAME_TYPE_HOST_NAME: byte := 0
  const MAX_HOSTNAME_LEN := 253
  const MAX_LABEL_LEN := 63
  const DOT: byte := 46
  const HYPHEN: byte := 45

  datatype ServerNameOutcome = Host(name: bytes) | Skip | Malformed

  // ── IPv4 literals ────────────────────────────────────────────────────────

  function AsText(s: bytes): (t: string)
    ensures |t| == |s|
    ensures forall i | 0 <= i < |s| :: t[i] as int == s[i]
  {
    seq(|s|, i requires 0 <= i < |s| => s[i] as char)
  }

  /** One to three digits, no superfluous zero in front, at most 255. */
  predicate IsOctet(p: string) {
    && 1 <= |p| <= 3
    && (forall c <- p :: IsDigit(c))
    && (|p| > 1 ==> p[0] != '0')
    && Value(p) < 0x100
  }

  predicate IsIpv4Literal(s: bytes) {
    var pieces := Split(s, DOT);
    |pieces| == 4 && forall p <- pieces :: IsOctet(AsText(p))
  }

  // ── Hosts ────────────────────────────────────────────────────────────────

  predicate IsLdhOrDot(b: byte) {
    || 48 <= b <= 57
    || 65 <= b <= 90
    || 97 <= b <= 122
    || b == HYPHEN
    || b == DOT
  }

  predicate AllFit(labels: seq<bytes>) {
    forall piece <- labels :: |piece| <= MAX_LABEL_LEN
  }

  predicate LabelsFit(s: bytes) { AllFit(Split(s, DOT)) }

  predicate ValidHost(s: bytes) {
    && 1 <= |s| <= MAX_HOSTNAME_LEN
    && (forall b <- s :: IsLdhOrDot(b))
    && LabelsFit(s)
    && !IsIpv4Literal(s)
  }

  /** Without its trailing dot, if it ends in one. */
  function StripDot(s: bytes): bytes {
    if s != [] && s[|s| - 1] == DOT then s[..|s| - 1] else s
  }

  function CheckHost(raw: bytes): ServerNameOutcome {
    if !IsUtf8(raw) then Skip
    else if ValidHost(StripDot(raw)) then Host(StripDot(raw))
    else Malformed
  }

  // ── The body as a function ───────────────────────────────────────────────

  function ServerName(data: bytes): ServerNameOutcome {
    match TakeP16(data)
    case None => Malformed
    case Some(list) =>
      if |list.value| < 3 then Malformed
      else if list.value[0] != NAME_TYPE_HOST_NAME then Skip
      else
        HostEntry(list.value[1..])
  }

  /** The rest of a host_name entry and whatever follows it in the list. */
  function HostEntry(entry: bytes): ServerNameOutcome {
    match TakeP16(entry)
    case None => Malformed
    case Some(name) => NoSecondHost(CheckHost(name.value), name.rest)
  }

  function NoSecondHost(outcome: ServerNameOutcome, tail: bytes): ServerNameOutcome {
    if outcome.Host? && tail != [] && tail[0] == NAME_TYPE_HOST_NAME then Malformed else outcome
  }

  // ── The imperative parser ────────────────────────────────────────────────

  /** Positions of the dots from `from` on, in ascending order. */
  function DotPositions(s: bytes, from: nat): (dots: seq<nat>)
    requires from <= |s|
    decreases |s| - from
  {
    var dot := from + FirstAt(s[from..], DOT);
    if dot == |s| then [] else [dot] + DotPositions(s, dot + 1)
  }

  /** The scan from `prev` on, where a label starts. */
  predicate ScanFits(s: bytes, prev: nat)
    requires prev <= |s|
    decreases |s| - prev
  {
    var dot := prev + FirstAt(s[prev..], DOT);
    dot - prev <= MAX_LABEL_LEN && (dot < |s| ==> ScanFits(s, dot + 1))
  }

  lemma AllFitCons(piece: bytes, labels: seq<bytes>)
    ensures AllFit([piece] + labels) <==> |piece| <= MAX_LABEL_LEN && AllFit(labels)
  {
    var all := [piece] + labels;
    assert all[0] == piece && all[1..] == labels;
    assert forall p <- labels :: p in all;
    assert piece in all;
  }

  /** Scanning for dots accepts exactly the text all of whose pieces fit. */
  lemma {:induction false} ScanFitsIff(s: bytes, prev: nat)
    requires prev <= |s|
    ensures ScanFits(s, prev) <==> LabelsFit(s[prev..])
    decreases |s| - prev
  {
    var rest := s[prev..];
    var i := FirstAt(rest, DOT);
    if i < |rest| {
      assert rest[i + 1..] == s[prev + i + 1..];
      ScanFitsIff(s, prev + i + 1);
      AllFitCons(rest[..i], Split(rest[i + 1..], DOT));
    } else {
      AllFitCons(rest, []);
      assert [rest] + [] == [rest];
    }
  }

  /** The scan has come to `prev` with `dots` still ahead, and `fits` is its answer. */
  ghost predicate Scanning(s: bytes, fits: bool, prev: nat, dots: seq<nat>) {
    prev <= |s| && dots == DotPositions(s, prev) && (fits <==> ScanFits(s, prev))
  }

  lemma DotStep(s: bytes, fits: bool, prev: nat, dots: seq<nat>)
    requires Scanning(s, fits, prev, dots)
    ensures dots == [] ==> (fits <==> |s| - prev <= MAX_LABEL_LEN)
    ensures dots != [] ==> prev <= dots[0] < |s|
    ensures dots != [] && dots[0] - prev > MAX_LABEL_LEN ==> !fits
    ensures dots != [] && dots[0] - prev <= MAX_LABEL_LEN ==> Scanning(s, fits, dots[0] + 1, dots[1..])
  {
  }

  /** The scan over dot positions accepts exactly the hosts all of whose labels fit. */
  method ScanLabels(host: bytes) returns (ok: bool)
    ensures ok <==> LabelsFit(host)
  {
    ScanFitsIff(host, 0);
    assert host[0..] == host;
    var prev: nat := 0;
    var dots: seq<nat> := DotPositions(host, 0);
    ghost var fits := LabelsFit(host);
    while dots != []
      invariant Scanning(host, fits, prev, dots)
    {
      DotStep(host, fits, prev, dots);
      if dots[0] - prev > MAX_LABEL_LEN {
        return false;
      }
      prev, dots := dots[0] + 1, dots[1..];
    }
    DotStep(host, fits, prev, dots);
    return |host| - prev <= MAX_LABEL_LEN;
  }

  method ValidateHost(raw: bytes) returns (r: ServerNameOutcome)
    ensures r == CheckHost(raw)
  {
    if !IsUtf8(raw) {
      return Skip;
    }
    var host := StripDot(raw);
    if host == [] || |host| > MAX_HOSTNAME_LEN {
      return Malformed;
    }
    var fits := ScanLabels(host);
    if !fits || IsIpv4Literal(host) || exists b <- host :: !IsLdhOrDot(b) {
      return Malformed;
    }
    return Host(host);
  }

  method ParseServerNameExtension(data: bytes) returns (r: ServerNameOutcome)
    ensures r == ServerName(data)
  {
    var c := new Cursor(data);
    var list := c.ReadU16Prefixed();
    if list.None? {
      return Malformed;
    }
    var entries := new Cursor(list.value);
    if entries.Remaining() < 3 {
      return Malformed;
    }
    var nameType := entries.ReadU8();
    if nameType.value != NAME_TYPE_HOST_NAME {
      return Skip;
    }
    r := ParseHostEntry(entries);
  }

  method ParseHostEntry(entries: Cursor) returns (r: ServerNameOutcome)
    requires entries.Valid()
    modifies entries`pos
    ensures entries.Valid()
    ensures r == HostEntry(old(entries.Rest()))
  {
    var host := entries.ReadU16Prefixed();
    if host.None? {
      return Malformed;
    }
    r := ValidateHost(host.value);
    if r.Host? {
      var nextType := entries.ReadU8();
      if nextType.Some? && nextType.value == NAME_TYPE_HOST_NAME {
        return Malformed;
      }
    }
  }

  // ── What a host name is ──────────────────────────────────────────────────

  /** `s` is `raw` less one trailing dot, or `raw` itself when it does not end in one. */
  predicate LessOneDot(raw: bytes, s: bytes) {
    raw == s + [46] || (raw == s && (s == [] || s[|s| - 1] != 46))
  }

  lemma LessOneDotIff(raw: bytes, s: bytes)
    ensures s == StripDot(raw) <==> LessOneDot(raw, s)
  {
    if raw != [] && raw[|raw| - 1] == DOT {
      assert raw == StripDot(raw) + [46];
    }
    if raw == s + [46] {
      assert raw[..|raw| - 1] == s;
    }
  }

  predicate IsHostChar(c: char) {
    '0' <= c <= '9' || 'A' <= c <= 'Z' || 'a' <= c <= 'z' || c == '-' || c == '.'
  }

  ghost predicate DotWithin(s: bytes, i: nat, n: nat) {
    exists j | i <= j < i + n :: j < |s| && s[j] == 46
  }

  /** No 64 bytes in a row without a dot among them. */
  ghost predicate NoLongLabel(s: bytes) {
    forall i: nat | i + 64 <= |s| :: DotWithin(s, i, 64)
  }

  /** One to 253 characters, all letters, digits, hyphens or dots, no label over 63, and not
      an IPv4 literal. */
  ghost predicate IsHostName(s: bytes) {
    && 1 <= |s| <= 253
    && (forall c <- AsText(s) :: IsHostChar(c))
    && NoLongLabel(s)
    && !exists a: byte, b: byte, c: byte, d: byte :: AsText(s) == JoinDecimal([a, b, c, d], '.')
  }

  lemma {:induction false} LabelsFitIff(s: bytes)
    ensures LabelsFit(s) <==> NoLongLabel(s)
    decreases |s|
  {
    hide AllFit, Split, FirstAt;
    var i := FirstAt(s, DOT);
    FirstAtIsFirst(s, DOT);
    SplitFirst(s);
    if i == |s| {
      AllFitCons(s, []);
      NoLabels();
      if |s| >= 64 {
        assert !DotWithin(s, 0, 64);
      }
    } else {
      var later := s[i + 1..];
      LabelsFitIff(later);
      AllFitCons(s[..i], Split(later, DOT));
      LongLabelSplit(s, i);
    }
  }

  lemma NoLabels()
    ensures AllFit([])
  {
  }

  lemma SplitFirst(s: bytes)
    ensures var i := FirstAt(s, DOT);
            Split(s, DOT) == if i == |s| then [s] + [] else [s[..i]] + Split(s[i + 1..], DOT)
  {
    hide FirstAt;
    assert [s] + [] == [s];
  }

  /** Windows around the first dot, which is at `i`. */
  lemma LongLabelSplit(s: bytes, i: nat)
    requires i < |s| && s[i] == 46 && forall k | 0 <= k < i :: s[k] != 46
    ensures NoLongLabel(s) <==> i <= 63 && NoLongLabel(s[i + 1..])
  {
    var later := s[i + 1..];
    if NoLongLabel(s) {
      assert |s| >= 64 ==> DotWithin(s, 0, 64);
      forall j: nat | j + 64 <= |later| ensures DotWithin(later, j, 64) {
        assert DotWithin(s, i + 1 + j, 64);
        var k :| i + 1 + j <= k < i + 1 + j + 64 && k < |s| && s[k] == 46;
        assert later[k - i - 1] == 46;
      }
    }
    if i <= 63 && NoLongLabel(later) {
      forall j: nat | j + 64 <= |s| ensures DotWithin(s, j, 64) {
        if j > i {
          assert DotWithin(later, j - i - 1, 64);
          var k :| j - i - 1 <= k < j - i - 1 + 64 && k < |later| && later[k] == 46;
          assert s[k + i + 1] == 46;
        }
      }
    }
  }

  lemma HostCharsIff(s: bytes)
    ensures (forall b <- s :: IsLdhOrDot(b)) <==> (forall c <- AsText(s) :: IsHostChar(c))
  {
    forall i | 0 <= i < |s| ensures IsLdhOrDot(s[i]) <==> IsHostChar(AsText(s)[i]) {
    }
    if forall b <- s :: IsLdhOrDot(b) {
      forall c | c in AsText(s) ensures IsHostChar(c) {
        var i :| 0 <= i < |s| && AsText(s)[i] == c;
      }
    }
    if forall c <- AsText(s) :: IsHostChar(c) {
      forall b | b in s ensures IsLdhOrDot(b) {
        var i :| 0 <= i < |s| && s[i] == b;
        assert AsText(s)[i] in AsText(s);
      }
    }
  }

  lemma ValidHostIff(s: bytes)
    ensures ValidHost(s) <==> IsHostName(s)
  {
    hide IsIpv4Literal, LabelsFit, NoLongLabel, AsText;
    LabelsFitIff(s);
    HostCharsIff(s);
    Ipv4Iff(s);
  }

  /** The check of one host: it is published, skipped when it is not UTF-8, and refused
      otherwise. */
  lemma CheckHostIff(raw: bytes, s: bytes)
    ensures CheckHost(raw) == Host(s) <==> LessOneDot(raw, s) && IsHostName(s)
    ensures CheckHost(raw).Skip? <==> !IsUtf8(raw)
  {
    hide ValidHost, IsHostName, IsUtf8;
    LessOneDotIff(raw, s);
    ValidHostIff(s);
    if ValidHost(StripDot(raw)) {
      ValidHostIsUtf8(raw);
    }
  }

  // ── What the outcomes mean ───────────────────────────────────────────────

  function HostBody(raw: bytes, tail: bytes, trailing: bytes): bytes
    requires |raw| + |tail| + 3 < 0x1_0000
  {
    P16([0] + (P16(raw) + tail)) + trailing
  }

  /** `data` is a ServerNameList whose first entry is the host_name `raw`, followed in the
      list by `tail` and after it by `trailing`. */
  ghost predicate NamesHost(data: bytes, raw: bytes, tail: bytes, trailing: bytes) {
    |raw| + |tail| + 3 < 0x1_0000 && data == HostBody(raw, tail, trailing)
  }

  lemma ServerNameOfBody(data: bytes, raw: bytes, tail: bytes, trailing: bytes)
    requires NamesHost(data, raw, tail, trailing)
    ensures ServerName(data) == NoSecondHost(CheckHost(raw), tail)
  {
    var list := [NAME_TYPE_HOST_NAME] + (P16(raw) + tail);
    TakeP16Iff(data, list, trailing);
    assert list[1..] == P16(raw) + tail;
    TakeP16Iff(list[1..], raw, tail);
  }

  /** The body yields host `s` exactly when it is a list led by one host_name whose text,
      less at most one trailing dot, is the host name `s`, with no second host_name behind
      it. */
  ghost predicate Publishes(data: bytes, s: bytes) {
    exists raw, tail, trailing ::
      && NamesHost(data, raw, tail, trailing)
      && LessOneDot(raw, s) && IsHostName(s)
      && (tail == [] || tail[0] != 0)
  }

  lemma ServerNameHostIff(data: bytes, s: bytes)
    ensures ServerName(data) == Host(s) <==> Publishes(data, s)
  {
    hide ValidHost, IsHostName, NamesHost;
    ValidHostIff(s);
    if ServerName(data) == Host(s) {
      var raw, tail, trailing := HostIsNamed(data);
      LessOneDotIff(raw, s);
    }
    if raw, tail, trailing :|
      && NamesHost(data, raw, tail, trailing)
      && LessOneDot(raw, s) && IsHostName(s)
      && (tail == [] || tail[0] != 0)
    {
      LessOneDotIff(raw, s);
      ServerNameOfBody(data, raw, tail, trailing);
      ValidHostIsUtf8(raw);
    }
  }

  lemma HostIsNamed(data: bytes) returns (raw: bytes, tail: bytes, trailing: bytes)
    requires ServerName(data).Host?
    ensures NamesHost(data, raw, tail, trailing)
    ensures StripDot(raw) == ServerName(data).name && ValidHost(StripDot(raw))
    ensures tail == [] || tail[0] != NAME_TYPE_HOST_NAME
  {
    var list := TakeP16(data).value;
    var name := TakeP16(list.value[1..]).value;
    raw, tail, trailing := name.value, name.rest, list.rest;
    TakeP16Iff(data, list.value, trailing);
    TakeP16Iff(list.value[1..], raw, tail);
    assert list.value == [list.value[0]] + list.value[1..];
  }

  /** `data` is a ServerNameList whose first entry is of another type than host_name. */
  ghost predicate NamesOther(data: bytes, list: bytes, trailing: bytes) {
    3 <= |list| < 0x1_0000 && list[0] != 0 && data == P16(list) + trailing
  }

  /** Nothing to publish and nothing to refuse: the first entry is of another type, or its
      text is not UTF-8. */
  ghost predicate NamesNoHost(data: bytes) {
    || (exists list, trailing :: NamesOther(data, list, trailing))
    || (exists raw, tail, trailing :: NamesHost(data, raw, tail, trailing) && !IsUtf8(raw))
  }

  /** The body is skipped exactly in these two cases. */
  lemma ServerNameSkipIff(data: bytes)
    ensures ServerName(data).Skip? <==> NamesNoHost(data)
  {
    hide IsUtf8, ValidHost;
    if ServerName(data).Skip? {
      SkippedNamesNoHost(data);
    }
    if list, trailing :| NamesOther(data, list, trailing) {
      TakeP16Iff(data, list, trailing);
    }
    if raw, tail, trailing :| NamesHost(data, raw, tail, trailing) && !IsUtf8(raw) {
      ServerNameOfBody(data, raw, tail, trailing);
    }
  }

  lemma SkippedNamesNoHost(data: bytes)
    requires ServerName(data).Skip?
    ensures NamesNoHost(data)
  {
    hide IsUtf8, ValidHost;
    var list := TakeP16(data).value;
    TakeP16Iff(data, list.value, list.rest);
    if list.value[0] != NAME_TYPE_HOST_NAME {
      assert NamesOther(data, list.value, list.rest);
    } else {
      var name := TakeP16(list.value[1..]).value;
      TakeP16Iff(list.value[1..], name.value, name.rest);
      assert list.value == [list.value[0]] + list.value[1..];
      assert NamesHost(data, name.value, name.rest, list.rest) && !IsUtf8(name.value);
    }
  }

  lemma ValidHostIsUtf8(raw: bytes)
    requires ValidHost(StripDot(raw))
    ensures IsUtf8(raw)
  {
    forall b | b in raw ensures b < 0x80 {
      if b in StripDot(raw) {
        assert IsLdhOrDot(b);
      } else {
        assert raw == StripDot(raw) + [DOT];
      }
    }
    AsciiIsUtf8(raw);
  }

  // ── IPv4 literals are what dotted decimal prints ─────────────────────────

  lemma {:induction false} DecimalDigits(n: nat)
    ensures |Decimal(n)| > 1 ==> Decimal(n)[0] != '0'
    ensures n < 10 <==> |Decimal(n)| == 1
    ensures n < 100 ==> |Decimal(n)| <= 2
    ensures n < 1000 ==> |Decimal(n)| <= 3
    ensures n > 0 ==> Decimal(n)[0] != '0'
  {
    if n >= 10 {
      DecimalDigits(n / 10);
    }
  }

  lemma {:induction false} DecimalOfValue(p: string)
    requires p != [] && (forall c <- p :: IsDigit(c)) && (|p| > 1 ==> p[0] != '0')
    ensures Decimal(Value(p)) == p
    ensures p[0] != '0' ==> Value(p) > 0
    decreases |p|
  {
    var init, last := p[..|p| - 1], p[|p| - 1];
    assert last in p;
    if init == [] {
      assert Value(p) == DigitValue(last);
    } else {
      assert init[0] == p[0];
      DecimalOfValue(init);
      assert Value(p) / 10 == Value(init) && Value(p) % 10 == DigitValue(last);
      assert p == init + [last];
    }
  }

  lemma OctetIff(p: string)
    ensures IsOctet(p) <==> exists n | 0 <= n < 0x100 :: p == Decimal(n)
  {
    if IsOctet(p) {
      DecimalOfValue(p);
      assert p == Decimal(Value(p));
    }
    if n :| 0 <= n < 0x100 && p == Decimal(n) {
      DecimalDigits(n);
      ValueOfDecimal(n);
    }
  }

  lemma TextAround(s: bytes, i: nat)
    requires i < |s| && s[i] == DOT
    ensures AsText(s) == AsText(s[..i]) + (['.'] + AsText(s[i + 1..]))
  {
    var text, around := AsText(s), AsText(s[..i]) + (['.'] + AsText(s[i + 1..]));
    assert |text| == |around|;
    forall k | 0 <= k < |s| ensures text[k] == around[k] {
      if k > i {
        assert around[k] == AsText(s[i + 1..])[k - i - 1];
      }
    }
  }

  /** The pieces of a host as text are the pieces of its text. */
  lemma {:induction false} TextPieces(s: bytes)
    ensures |Split(AsText(s), '.')| == |Split(s, DOT)|
    ensures forall i | 0 <= i < |Split(s, DOT)| :: Split(AsText(s), '.')[i] == AsText(Split(s, DOT)[i])
    decreases |s|
  {
    var i := FirstAt(s, DOT);
    FirstAtIsFirst(s, DOT);
    hide FirstAt;
    if i < |s| {
      TextAround(s, i);
      SplitAfter(AsText(s[..i]), AsText(s[i + 1..]), '.');
      TextPieces(s[i + 1..]);
    } else {
      FirstAtOf(AsText(s), [], '.');
    }
  }

  /** A literal is four numbers below 256 in decimal with dots between them. */
  lemma Ipv4Iff(s: bytes)
    ensures IsIpv4Literal(s) <==>
            exists a: byte, b: byte, c: byte, d: byte :: AsText(s) == JoinDecimal([a, b, c, d], '.')
  {
    hide IsOctet, Decimal, Join, Split;
    TextPieces(s);
    var pieces, texts := Split(s, DOT), Split(AsText(s), '.');
    if IsIpv4Literal(s) {
      JoinOfSplit(AsText(s), '.');
      var a := OctetValue(pieces[0]);
      var b := OctetValue(pieces[1]);
      var c := OctetValue(pieces[2]);
      var d := OctetValue(pieces[3]);
      assert texts == Decimals([a, b, c, d]);
      assert AsText(s) == JoinDecimal([a, b, c, d], '.');
    }
    if a: byte, b: byte, c: byte, d: byte :| AsText(s) == JoinDecimal([a, b, c, d], '.') {
      SplitOfJoin(Decimals([a, b, c, d]), '.');
      forall p | p in pieces ensures IsOctet(AsText(p)) {
        var i :| 0 <= i < |pieces| && pieces[i] == p;
        assert texts[i] == Decimal([a, b, c, d][i]);
        OctetIff(AsText(p));
      }
    }
  }

  lemma OctetValue(piece: bytes) returns (n: byte)
    requires IsOctet(AsText(piece))
    ensures AsText(piece) == Decimal(n)
  {
    OctetIff(AsText(piece));
    n :| 0 <= n < 0x100 && AsText(piece) == Decimal(n);
  }
}
